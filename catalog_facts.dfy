/**
  What the two declared catalogs make of the evaluator's rules: which
  values each table accepts, which it reports, and which of its entries can
  never change.
 */
module CatalogFacts {
  import opened Wrappers
  import opened Strings
  import opened Dto
  import opened Saas
  import opened Background
  import DirectiveValue
  import PolicyValue
  import CspCatalog
  import PermissionCatalog

  // ---------------------------------------------------------------------------
  // The CSP table
  // ---------------------------------------------------------------------------

  /** A string lacking one of the characters of `sub` cannot contain `sub`. */
  lemma LacksCharNotContains(s: string, sub: string, c: char)
    requires c in sub && c !in s
    ensures !Contains(s, sub)
  {
    IndexOfFindsFirst(s, sub);
  }

  /** The tokens the CSP table recommends. */
  const RecommendedTokens: seq<string> := [
    DirectiveValue.None, DirectiveValue.Self, DirectiveValue.Any, DirectiveValue.Nonce, DirectiveValue.Hash,
    DirectiveValue.HttpDomain, DirectiveValue.HttpsDomain, DirectiveValue.Script,
    DirectiveValue.AllowSameOrigin, DirectiveValue.AllowSameScript, DirectiveValue.StrictDynamic,
    DirectiveValue.Upgrade]

  /** None of those tokens mentions an unsafe keyword. */
  lemma RecommendedTokensSafe(t: string)
    requires t in RecommendedTokens
    ensures !IsUnsafe(t)
  {
    if |t| < |DirectiveValue.UnsafeEval| {
      ShortNotContains(t, DirectiveValue.UnsafeEval);
      ShortNotContains(t, DirectiveValue.UnsafeInline);
    } else if t == DirectiveValue.Upgrade {
      LacksCharNotContains(t, DirectiveValue.UnsafeEval, 'f');
      LacksCharNotContains(t, DirectiveValue.UnsafeInline, 'f');
    } else {
      LacksCharNotContains(t, DirectiveValue.UnsafeEval, 'u');
      LacksCharNotContains(t, DirectiveValue.UnsafeInline, 'u');
    }
  }

  /** Every recommended CSP token is one of those tokens, so none is unsafe. */
  lemma CspRecommendsNothingUnsafe()
    ensures forall i, k :: 0 <= i < |CspCatalog.CspDirectives| && 0 <= k < |CspCatalog.CspDirectives[i].recommended| ==>
              !IsUnsafe(CspCatalog.CspDirectives[i].recommended[k])
  {
    assert forall i, k :: 0 <= i < |CspCatalog.CspDirectives| && 0 <= k < |CspCatalog.CspDirectives[i].recommended| ==>
             CspCatalog.CspDirectives[i].recommended[k] in RecommendedTokens;
    forall i, k | 0 <= i < |CspCatalog.CspDirectives| && 0 <= k < |CspCatalog.CspDirectives[i].recommended|
      ensures !IsUnsafe(CspCatalog.CspDirectives[i].recommended[k])
    {
      RecommendedTokensSafe(CspCatalog.CspDirectives[i].recommended[k]);
    }
  }

  /** A quoted token without quotes of its own strips to the token itself. */
  lemma QuotedStrips(k: string)
    requires '\'' !in k
    ensures StripQuotes("'" + k + "'") == k
  {
    StripQuotesConcat("'" + k, "'");
    StripQuotesConcat("'", k);
  }

  /** `'none'` on an entry that recommends `none` is accepted, and `none` is observed twice. */
  lemma NoneAccepted(e: Directive, value: string)
    requires value == "'" + DirectiveValue.None + "'" && DirectiveValue.None in e.recommended
    ensures CspVerdict(e, value).value == e.value + [DirectiveValue.None, DirectiveValue.None]
  {
    QuotedStrips(DirectiveValue.None);
    RecommendedTokensSafe(DirectiveValue.None);
  }

  /** `default-src 'none'` is accepted, and `none` is observed twice. */
  lemma DefaultSrcNoneAccepted(value: string)
    requires value == "'" + DirectiveValue.None + "'"
    ensures CspCatalog.CspDirectives[0].name == "default-src"
    ensures CspVerdict(CspCatalog.CspDirectives[0], value).value == [DirectiveValue.None, DirectiveValue.None]
  {
    CspCatalog.DefaultSrcEntry();
    NoneAccepted(CspCatalog.CspDirectives[0], value);
  }

  /** A safe recommended value other than `none` is accepted and observed exactly once, the advice kept. */
  lemma RecommendedAccepted(e: Directive, value: string)
    requires !IsUnsafe(StripQuotes(value)) && StripQuotes(value) != DirectiveValue.None
    requires StripQuotes(value) in e.recommended
    ensures !IsFinding(CspVerdict(e, value))
    ensures CspVerdict(e, value).value == e.value + [StripQuotes(value)]
    ensures CspVerdict(e, value).recommended == e.recommended
  {
  }

  /** `script-src 'self'` on the declared entry (the first evaluation of that name) observes `self` once. */
  lemma ScriptSrcSelfAccepted(value: string)
    requires value == "'" + DirectiveValue.Self + "'"
    ensures CspCatalog.CspDirectives[1].name == "script-src"
    ensures CspVerdict(CspCatalog.CspDirectives[1], value).value == [DirectiveValue.Self]
  {
    CspCatalog.ScriptSrcEntry();
    QuotedStrips(DirectiveValue.Self);
    RecommendedTokensSafe(DirectiveValue.Self);
    RecommendedAccepted(CspCatalog.CspDirectives[1], value);
  }

  /** A value the entry does not recommend, and that is not unsafe, is reported as a wildcard. */
  lemma UnrecommendedReported(e: Directive, value: string)
    requires !IsUnsafe(StripQuotes(value)) && StripQuotes(value) !in e.recommended
    ensures var e' := CspVerdict(e, value);
      IsFinding(e') && e'.technicalExplanation == WildcardMessage(e.name) && e'.recommended == [WildcardAdvice]
  {
  }

  /** `script-src 'none'` is reported as a wildcard, because `none` is not recommended there. */
  lemma ScriptSrcNoneReported(value: string)
    requires value == "'" + DirectiveValue.None + "'"
    ensures CspCatalog.CspDirectives[1].name == "script-src"
    ensures var e := CspVerdict(CspCatalog.CspDirectives[1], value);
      IsFinding(e) && e.technicalExplanation == WildcardMessage("script-src") && e.recommended == [WildcardAdvice]
  {
    CspCatalog.ScriptSrcEntry();
    QuotedStrips(DirectiveValue.None);
    RecommendedTokensSafe(DirectiveValue.None);
    UnrecommendedReported(CspCatalog.CspDirectives[1], value);
  }

  /** `img-src *` is accepted, because `img-src` recommends `*`. */
  lemma ImgSrcAnyAccepted(value: string)
    requires value == "*"
    ensures CspCatalog.CspDirectives[3].name == "img-src"
    ensures CspVerdict(CspCatalog.CspDirectives[3], value).value == [DirectiveValue.Any]
  {
    CspCatalog.ImgSrcEntry();
    assert StripQuotes("*") == DirectiveValue.Any;
    RecommendedTokensSafe(DirectiveValue.Any);
  }

  /**
    The catalog is never reset, so acceptance holds only for the declared entry:
    once a host outside the recommendations has replaced them by the advice, a
    later `img-src *` is reported.
   */
  lemma ImgSrcAnyReportedAfterHost(host: string, value: string)
    requires host == "https://x" && value == "*"
    ensures var e := CspVerdict(CspCatalog.CspDirectives[3], host);
      && e.recommended == [WildcardAdvice]
      && IsFinding(CspVerdict(e, value))
  {
    CspCatalog.ImgSrcEntry();
    PlainSafe(host, 'u');
    PlainSafe(value, 'u');
    ReportedAfterUnrecommended(CspCatalog.CspDirectives[3], host, value);
  }

  /**
    A safe value outside an entry's recommendations replaces them by the advice,
    so from then on every safe value other than the advice itself is reported.
   */
  lemma ReportedAfterUnrecommended(e: Directive, first: string, value: string)
    requires !IsUnsafe(StripQuotes(first)) && StripQuotes(first) !in e.recommended
    requires !IsUnsafe(StripQuotes(value)) && StripQuotes(value) != WildcardAdvice
    ensures CspVerdict(e, first).recommended == [WildcardAdvice]
    ensures IsFinding(CspVerdict(CspVerdict(e, first), value))
  {
    UnrecommendedReported(e, first);
    UnrecommendedReported(CspVerdict(e, first), value);
  }

  /** A quote-free value lacking a character of both unsafe keywords strips to itself and is safe. */
  lemma PlainSafe(v: string, c: char)
    requires '\'' !in v && c !in v && c in DirectiveValue.UnsafeEval && c in DirectiveValue.UnsafeInline
    ensures StripQuotes(v) == v && !IsUnsafe(v)
  {
    LacksCharNotContains(v, DirectiveValue.UnsafeEval, c);
    LacksCharNotContains(v, DirectiveValue.UnsafeInline, c);
  }

  /** `'unsafe-inline'` is reported on any entry, naming `unsafe-inline`. */
  lemma UnsafeInlineReported(e: Directive, value: string)
    requires value == "'" + DirectiveValue.UnsafeInline + "'"
    ensures var e' := CspVerdict(e, value);
      && IsFinding(e')
      && e'.technicalExplanation == UnsafeMessage(DirectiveValue.UnsafeInline, e.name)
      && e'.recommended == [UnsafeAdvice(DirectiveValue.UnsafeInline)]
  {
    QuotedStrips(DirectiveValue.UnsafeInline);
    ContainsSelfAndEmpty(DirectiveValue.UnsafeInline);
    assert IsUnsafe(StripQuotes(value));
    UnsafeAlwaysFinding(e, value);
  }

  // ---------------------------------------------------------------------------
  // The Permissions-Policy table
  // ---------------------------------------------------------------------------

  /** A header value of `*` alone leaves any entry with nothing observed, so it is reported. */
  lemma AllowAllReported(e: Directive, value: string)
    requires value == PolicyValue.Allowed
    ensures IsFinding(PermissionVerdict(e, value))
  {
    assert Split("*", ' ') == ["*"];
    assert Tokens(value) == [PolicyValue.Allowed];
    assert Tokens(value)[..0] == [];
  }

  /** Even an entry that recommends `*`, such as `autoplay`, is reported when the header gives `*`. */
  lemma AutoplayAllowAllReported(value: string)
    requires value == PolicyValue.Allowed
    ensures PermissionCatalog.PermissionPolicies[2].name == "autoplay"
    ensures PermissionCatalog.PermissionPolicies[2].recommended == [PolicyValue.Allowed]
    ensures IsFinding(PermissionVerdict(PermissionCatalog.PermissionPolicies[2], value))
  {
    PermissionCatalog.AutoplayEntry();
    AllowAllReported(PermissionCatalog.PermissionPolicies[2], value);
  }

  /** `()` given twice is observed twice: the rule is not idempotent. */
  lemma DisallowTwiceObservedTwice(value: string)
    requires value == PolicyValue.Disallowed
    ensures var camera := PermissionCatalog.PermissionPolicies[5];
      PermissionVerdict(PermissionVerdict(camera, value), value).value == [PolicyValue.Disallowed, PolicyValue.Disallowed]
  {
    PermissionCatalog.CameraEntry();
    assert Split("()", ' ') == ["()"];
    assert Tokens(value) == [PolicyValue.Disallowed];
    assert Tokens(value)[..0] == [];
  }

  /** A value that is one token, neither marker and not recommended, leaves the entry as it was. */
  lemma UnknownTokenIgnored(e: Directive, value: string)
    requires ' ' !in value && '\'' !in value
    requires value != PolicyValue.Disallowed && value != PolicyValue.Allowed && value !in e.recommended
    ensures PermissionVerdict(e, value) == e
  {
    SplitNoSeparator(value, ' ');
    assert StripQuotes(value) == value;
    assert Tokens(value) == [value];
    assert Tokens(value)[..0] == [];
    assert ObservedAfter(e.value, e.recommended, [value], value) == e.value;
  }

  /** `(self)` on `microphone` changes nothing, so the entry is reported. */
  lemma MicrophoneSelfReported(value: string)
    requires value == "(self)"
    ensures PermissionCatalog.PermissionPolicies[19].name == "microphone"
    ensures IsFinding(PermissionVerdict(PermissionCatalog.PermissionPolicies[19], value))
  {
    PermissionCatalog.MicrophoneEntry();
    assert value != PolicyValue.Disallowed && value != PolicyValue.Allowed;
    assert ' ' !in value && '\'' !in value;
    UnknownTokenIgnored(PermissionCatalog.PermissionPolicies[19], value);
  }

  /**
    Reporting holds only for the declared entry: after `microphone=()` the entry
    keeps its `()`, and a later `microphone=(self)` does not clear it.
   */
  lemma MicrophoneSelfAfterDisallowKept(first: string, value: string)
    requires first == PolicyValue.Disallowed && value == "(self)"
    ensures var e := PermissionVerdict(PermissionCatalog.PermissionPolicies[19], first);
      && e.value == [PolicyValue.Disallowed]
      && !IsFinding(PermissionVerdict(e, value))
  {
    PermissionCatalog.MicrophoneEntry();
    assert Split("()", ' ') == ["()"];
    assert Tokens(first) == [PolicyValue.Disallowed];
    assert Tokens(first)[..0] == [];
    var e := PermissionVerdict(PermissionCatalog.PermissionPolicies[19], first);
    assert value != PolicyValue.Disallowed && value != PolicyValue.Allowed;
    assert ' ' !in value && '\'' !in value;
    UnknownTokenIgnored(e, value);
  }

  /** The segment `microphone=(self)` names `microphone` with the single token `(self)`. */
  lemma MicrophoneSegment(segment: string, value: string)
    requires segment == "microphone=(self)" && value == "(self)"
    ensures ParsePair(segment) == PolicyPair("microphone", value)
  {
    MicrophoneTrims(segment);
    MicrophoneSplits(segment, value);
  }

  lemma MicrophoneTrims(segment: string)
    requires segment == "microphone=(self)"
    ensures Trim(segment) == segment
  {
    assert !IsSpace(segment[0]) && !IsSpace(segment[|segment| - 1]);
    TrimUnpadded(segment);
  }

  lemma MicrophoneSplits(segment: string, value: string)
    requires segment == "microphone=(self)" && value == "(self)"
    ensures Split(segment, '=') == ["microphone", value]
  {
    var parts := ["microphone", value];
    assert Join(parts, '=') == segment;
    assert '=' !in parts[0] && '=' !in parts[1];
    SplitJoin(parts, '=');
  }

  /** The name `camera ` read from `camera = ()` matches no entry, so that pair is ignored. */
  lemma SpacedCameraNotFound(name: string)
    requires name == "camera "
    ensures FindFirst(PermissionCatalog.PermissionPolicies, name).None?
  {
    assert forall i :: 0 <= i < |PermissionCatalog.PermissionPolicies| ==> PermissionCatalog.PermissionPolicies[i].name != "camera ";
  }

  // ---------------------------------------------------------------------------
  // Entries that never change
  // ---------------------------------------------------------------------------

  /**
    The second `require-trusted-types-for` and the second `accelerometer`
    are hidden by their first copies, so they keep their declared state for
    the life of the evaluator.
   */
  lemma DuplicatesNeverChange(svc: SaasService)
    requires svc.Valid()
    requires svc.initialCsp == CspCatalog.CspDirectives && svc.initialPermissions == PermissionCatalog.PermissionPolicies
    ensures svc.csp[26] == CspCatalog.CspDirectives[26]
    ensures svc.permissions[6] == PermissionCatalog.PermissionPolicies[6]
  {
    CspCatalog.TrustedTypesDeclaredTwice();
    PermissionCatalog.AccelerometerDeclaredTwice();
    assert Shadowed(CspCatalog.CspDirectives, 26);
    assert Shadowed(PermissionCatalog.PermissionPolicies, 6);
  }
}
