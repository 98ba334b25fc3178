/**
  The directive evaluator (`SaasService`): the CSP rule and the
  Permissions-Policy rule, each of which looks an entry up by name in its
  catalog and updates that entry in place.

  An entry reference is modelled as its index in the catalog: both methods
  return the index of the entry they changed, and a caller reads the entry
  through the catalog, so later changes to it are visible to the caller just
  as they are through the object reference the source returns.
 */
module Saas {
  import opened Wrappers
  import opened Strings
  import opened Dto
  import DirectiveValue
  import PolicyValue
  import CspCatalog
  import PermissionCatalog

  // ---------------------------------------------------------------------------
  // The CSP rule
  // ---------------------------------------------------------------------------

  /** The quote-stripped value mentions `unsafe-inline` or `unsafe-eval` anywhere in it. */
  predicate IsUnsafe(v: string) {
    Contains(v, DirectiveValue.UnsafeInline) || Contains(v, DirectiveValue.UnsafeEval)
  }

  /** The one unsafe keyword the messages name: `unsafe-inline` whenever it occurs. */
  function UnsafeKeyword(v: string): (k: string)
    requires IsUnsafe(v)
    ensures Contains(v, k)
    ensures k == DirectiveValue.UnsafeInline <==> Contains(v, DirectiveValue.UnsafeInline)
    ensures k == DirectiveValue.UnsafeInline || k == DirectiveValue.UnsafeEval
  {
    if Contains(v, DirectiveValue.UnsafeInline) then DirectiveValue.UnsafeInline else DirectiveValue.UnsafeEval
  }

  function UnsafeMessage(keyword: string, name: string): string {
    "Usage of " + keyword + " on " + name
  }

  function UnsafeAdvice(keyword: string): string {
    "Remove " + keyword + " from your source code."
  }

  function WildcardMessage(name: string): string {
    "Usage of wildcards on " + name
  }

  const WildcardAdvice: string := "For sensitive resources, explicitly define the full paths."

  /**
    The entry `checkDirective` leaves behind for a directive value, stated by
    outcome: an unsafe value, a recommended value, or anything else.
   */
  function CspVerdict(e: Directive, value: string): (e': Directive)
    ensures e'.name == e.name && e'.description == e.description && e'.explanation == e.explanation
    ensures e'.riskLevel == e.riskLevel && e'.riskScore == e.riskScore
    ensures |e'.recommended| > 0
    ensures IsFinding(e') <==> IsUnsafe(StripQuotes(value)) || StripQuotes(value) !in e.recommended
    ensures !IsFinding(e') ==> e'.recommended == e.recommended && e'.technicalExplanation == e.technicalExplanation
    ensures !IsFinding(e') ==> |e'.value| > |e.value| && e'.value[..|e.value|] == e.value && StripQuotes(value) in e'.value[|e.value|..]
  {
    var v := StripQuotes(value);
    if IsUnsafe(v) then
      var k := UnsafeKeyword(v);
      e.(value := [], technicalExplanation := UnsafeMessage(k, e.name), recommended := [UnsafeAdvice(k)])
    else if v in e.recommended then
      e.(value := e.value + if v == DirectiveValue.None then [v, v] else [v])
    else
      e.(value := [], technicalExplanation := WildcardMessage(e.name), recommended := [WildcardAdvice])
  }

  /** An unsafe keyword anywhere in the value makes a finding, whatever else the value holds. */
  lemma UnsafeAlwaysFinding(e: Directive, value: string)
    requires IsUnsafe(StripQuotes(value))
    ensures IsFinding(CspVerdict(e, value))
    ensures CspVerdict(e, value).recommended == [UnsafeAdvice(UnsafeKeyword(StripQuotes(value)))]
    ensures CspVerdict(e, value).technicalExplanation == UnsafeMessage(UnsafeKeyword(StripQuotes(value)), e.name)
  {
  }

  /**
    The body of `checkDirective` on one entry: `'none'` is pushed first; then
    an unsafe value clears the entry and rewrites its advice, a recommended
    value is pushed, and any other value clears the entry with the wildcard
    advice.
   */
  method EvaluateCspValue(e: Directive, value: string) returns (found: Directive)
    ensures found == CspVerdict(e, value)
  {
    found := e;
    var v := StripQuotes(value);
    if v == DirectiveValue.None {
      found := found.(value := found.value + [v]);
    }
    if Contains(v, DirectiveValue.UnsafeInline) || Contains(v, DirectiveValue.UnsafeEval) {
      var valueOf := if Contains(v, DirectiveValue.UnsafeInline) then DirectiveValue.UnsafeInline else DirectiveValue.UnsafeEval;
      found := found.(value := []);
      found := found.(technicalExplanation := "Usage of " + valueOf + " on " + found.name);
      found := found.(recommended := ["Remove " + valueOf + " from your source code."]);
    } else {
      if v in found.recommended {
        found := found.(value := found.value + [v]);
      } else {
        found := found.(value := []);
        found := found.(technicalExplanation := "Usage of wildcards on " + found.name);
        found := found.(recommended := ["For sensitive resources, explicitly define the full paths."]);
      }
    }
  }

  // ---------------------------------------------------------------------------
  // The Permissions-Policy rule
  // ---------------------------------------------------------------------------

  /** The two recommended entries overlap with `value` when either contains the other. */
  predicate Overlaps(r: string, value: string) {
    Contains(r, value) || Contains(value, r)
  }

  /** The unsplit value, once for every recommended entry it overlaps with. */
  function Echoes(recommended: seq<string>, value: string): (r: seq<string>)
    ensures |r| <= |recommended|
  {
    if recommended == [] then []
    else
      var n := |recommended| - 1;
      Echoes(recommended[..n], value) + if Overlaps(recommended[n], value) then [value] else []
  }

  /** The echoes are copies of the value, and there are none when no recommended entry overlaps it. */
  lemma {:induction false} EchoesAreValue(recommended: seq<string>, value: string)
    ensures forall k :: 0 <= k < |Echoes(recommended, value)| ==> Echoes(recommended, value)[k] == value
    ensures (forall k :: 0 <= k < |recommended| ==> !Overlaps(recommended[k], value)) ==> Echoes(recommended, value) == []
  {
    if recommended != [] {
      var n := |recommended| - 1;
      EchoesAreValue(recommended[..n], value);
      assert forall k :: 0 <= k < n ==> recommended[..n][k] == recommended[k];
    }
  }

  /** One more recommended entry adds one more echo when it overlaps the value. */
  lemma EchoesStep(recommended: seq<string>, j: nat, value: string)
    requires j < |recommended|
    ensures Echoes(recommended[..j + 1], value)
         == Echoes(recommended[..j], value) + if Overlaps(recommended[j], value) then [value] else []
  {
    assert recommended[..j + 1][..j] == recommended[..j];
  }

  /** A value that is itself recommended echoes at least once. */
  lemma {:induction false} RecommendedValueEchoes(recommended: seq<string>, value: string)
    requires value in recommended
    ensures |Echoes(recommended, value)| >= 1
  {
    var n := |recommended| - 1;
    if recommended[n] == value {
      ContainsSelfAndEmpty(value);
    } else {
      assert value in recommended[..n] by {
        var k :| 0 <= k < |recommended| && recommended[k] == value;
        assert recommended[..n][k] == value;
      }
      RecommendedValueEchoes(recommended[..n], value);
    }
  }

  /** The tokens of a Permissions-Policy value: split on single spaces, quotes stripped. */
  function Tokens(value: string): (ts: seq<string>)
    ensures |ts| >= 1
    ensures forall k :: 0 <= k < |ts| ==> ' ' !in ts[k] && '\'' !in ts[k]
    ensures Join(ts, ' ') == StripQuotes(value)
  {
    var parts := Split(value, ' ');
    StripQuotesJoin(parts, ' ');
    StripQuotesEach(parts)
  }

  /** What one token does to the observed list (`value` is the unsplit value). */
  function TokenEffect(observed: seq<string>, recommended: seq<string>, token: string, value: string): seq<string> {
    if token == PolicyValue.Disallowed then observed + [token]
    else if token == PolicyValue.Allowed then []
    else if token in recommended then observed + [token] + Echoes(recommended, value)
    else observed
  }

  /** The observed list after the tokens have been applied from left to right. */
  function ObservedAfter(observed: seq<string>, recommended: seq<string>, tokens: seq<string>, value: string): seq<string> {
    if tokens == [] then observed
    else
      var n := |tokens| - 1;
      TokenEffect(ObservedAfter(observed, recommended, tokens[..n], value), recommended, tokens[n], value)
  }

  /** Applying one more token of a list is one more step of the fold. */
  lemma ObservedAfterStep(observed: seq<string>, recommended: seq<string>, tokens: seq<string>, k: nat, value: string)
    requires k < |tokens|
    ensures ObservedAfter(observed, recommended, tokens[..k + 1], value)
         == TokenEffect(ObservedAfter(observed, recommended, tokens[..k], value), recommended, tokens[k], value)
  {
    assert tokens[..k + 1][..k] == tokens[..k];
  }

  /** The entry `checkPermissionPolicy` leaves behind: only its observed list changes. */
  function PermissionVerdict(e: Directive, value: string): Directive {
    e.(value := ObservedAfter(e.value, e.recommended, Tokens(value), value))
  }

  /** The observed list when only the two markers act: `()` appends itself and `*` clears. */
  function MarkerObserved(observed: seq<string>, tokens: seq<string>): seq<string> {
    if tokens == [] then observed
    else
      var n := |tokens| - 1;
      var prev := MarkerObserved(observed, tokens[..n]);
      if tokens[n] == PolicyValue.Disallowed then prev + [tokens[n]]
      else if tokens[n] == PolicyValue.Allowed then []
      else prev
  }

  /** A recommendation made only of the two markers. */
  predicate MarkersOnly(recommended: seq<string>) {
    forall k :: 0 <= k < |recommended| ==> recommended[k] == PolicyValue.Disallowed || recommended[k] == PolicyValue.Allowed
  }

  /**
    When an entry recommends only `()` or `*`, the recommended-token branch
    and its echoes are never reached: only the two markers act.
   */
  lemma {:induction false} MarkersOnlyNeverEcho(observed: seq<string>, recommended: seq<string>, tokens: seq<string>, value: string)
    requires MarkersOnly(recommended)
    ensures ObservedAfter(observed, recommended, tokens, value) == MarkerObserved(observed, tokens)
  {
    if tokens != [] {
      var n := |tokens| - 1;
      MarkersOnlyNeverEcho(observed, recommended, tokens[..n], value);
      if tokens[n] != PolicyValue.Disallowed && tokens[n] != PolicyValue.Allowed {
        assert tokens[n] !in recommended;
      }
    }
  }

  /** The tokens after the last `*` (all of them when there is none). */
  function AfterLastAllowed(tokens: seq<string>): (r: seq<string>)
    ensures PolicyValue.Allowed !in r
  {
    if tokens == [] then []
    else
      var n := |tokens| - 1;
      if tokens[n] == PolicyValue.Allowed then [] else AfterLastAllowed(tokens[..n]) + [tokens[n]]
  }

  /** The `()` tokens of a list. */
  function Disallows(tokens: seq<string>): (r: seq<string>)
    ensures forall k :: 0 <= k < |r| ==> r[k] == PolicyValue.Disallowed
    ensures r == [] <==> PolicyValue.Disallowed !in tokens
  {
    if tokens == [] then []
    else
      var n := |tokens| - 1;
      assert tokens == tokens[..n] + [tokens[n]];
      Disallows(tokens[..n]) + if tokens[n] == PolicyValue.Disallowed then [tokens[n]] else []
  }

  /**
    Under the markers alone, a `*` discards everything before it, and each
    `()` after the last `*` is observed once.
   */
  lemma {:induction false} MarkerObservedShape(observed: seq<string>, tokens: seq<string>)
    ensures MarkerObserved(observed, tokens)
         == (if PolicyValue.Allowed in tokens then [] else observed) + Disallows(AfterLastAllowed(tokens))
  {
    if tokens != [] {
      var n := |tokens| - 1;
      var init := tokens[..n];
      assert tokens == init + [tokens[n]];
      MarkerObservedShape(observed, init);
      if tokens[n] != PolicyValue.Allowed {
        assert (PolicyValue.Allowed in tokens) == (PolicyValue.Allowed in init);
        var after := AfterLastAllowed(init) + [tokens[n]];
        assert after[..|after| - 1] == AfterLastAllowed(init);
      }
    }
  }

  /**
    With the markers alone, an entry is left with nothing observed exactly
    when no `()` follows the last `*`, and either a `*` occurs or nothing
    was observed before.
   */
  lemma MarkerFindingIff(observed: seq<string>, tokens: seq<string>)
    ensures MarkerObserved(observed, tokens) == []
        <==> (PolicyValue.Allowed in tokens || observed == []) && PolicyValue.Disallowed !in AfterLastAllowed(tokens)
  {
    MarkerObservedShape(observed, tokens);
  }

  /** Under the markers alone, an observed list made only of `()` stays so. */
  lemma {:induction false} MarkerObservedDisallowsOnly(observed: seq<string>, tokens: seq<string>)
    requires forall k :: 0 <= k < |observed| ==> observed[k] == PolicyValue.Disallowed
    ensures forall k :: 0 <= k < |MarkerObserved(observed, tokens)| ==> MarkerObserved(observed, tokens)[k] == PolicyValue.Disallowed
  {
    if tokens != [] {
      MarkerObservedDisallowsOnly(observed, tokens[..|tokens| - 1]);
    }
  }

  // ---------------------------------------------------------------------------
  // The evaluator's invariant over the life of the extension
  // ---------------------------------------------------------------------------

  /** The fields the CSP rule never touches. */
  predicate SameIdentity(a: Directive, b: Directive) {
    && a.name == b.name && a.description == b.description && a.explanation == b.explanation
    && a.riskLevel == b.riskLevel && a.riskScore == b.riskScore
  }

  /** An entry that an earlier entry of the same name hides from lookup. */
  predicate Shadowed(catalog: seq<Directive>, i: nat)
    requires i < |catalog|
  {
    FindFirst(catalog, catalog[i].name) != Some(i)
  }

  /** The CSP table is its initial table, changed only as the CSP rule can change it. */
  ghost predicate CspEvolved(initial: seq<Directive>, current: seq<Directive>) {
    && |current| == |initial|
    && (forall i :: 0 <= i < |initial| ==> SameIdentity(initial[i], current[i]))
    && (forall i :: 0 <= i < |initial| ==> |current[i].recommended| > 0)
    && (forall i :: 0 <= i < |initial| && Shadowed(initial, i) ==> current[i] == initial[i])
  }

  /** The Permissions-Policy table is its initial table with only observed lists changed. */
  ghost predicate PermissionsEvolved(initial: seq<Directive>, current: seq<Directive>) {
    && |current| == |initial|
    && (forall i :: 0 <= i < |initial| ==> current[i] == initial[i].(value := current[i].value))
    && (forall i :: 0 <= i < |initial| && Shadowed(initial, i) ==> current[i] == initial[i])
  }

  /** Every entry recommends only the two markers, as the declared table does. */
  ghost predicate MarkersOnlyTable(table: seq<Directive>) {
    forall i :: 0 <= i < |table| ==> MarkersOnly(table[i].recommended)
  }

  /** Nothing but `()` has been observed for any entry. */
  ghost predicate ObservesOnlyDisallows(table: seq<Directive>) {
    forall i, k :: 0 <= i < |table| && 0 <= k < |table[i].value| ==> table[i].value[k] == PolicyValue.Disallowed
  }

  /** Replacing one entry by one that observed only `()` keeps the table observing only `()`. */
  lemma ObservesOnlyDisallowsStep(table: seq<Directive>, i: nat, entry: Directive)
    requires ObservesOnlyDisallows(table) && i < |table|
    requires forall k :: 0 <= k < |entry.value| ==> entry.value[k] == PolicyValue.Disallowed
    ensures ObservesOnlyDisallows(table[i := entry])
  {
  }

  /** Rewriting one unshadowed CSP entry as the CSP rule does keeps the CSP table's invariant. */
  lemma CspStepKeepsEvolved(initial: seq<Directive>, current: seq<Directive>, i: nat, entry: Directive)
    requires CspEvolved(initial, current) && i < |current| && !Shadowed(initial, i)
    requires SameIdentity(current[i], entry) && |entry.recommended| > 0
    ensures CspEvolved(initial, current[i := entry])
  {
  }

  /** Rewriting the observed list of one unshadowed entry keeps the Permissions-Policy table's invariant. */
  lemma PermissionStepKeepsEvolved(initial: seq<Directive>, current: seq<Directive>, i: nat, entry: Directive)
    requires PermissionsEvolved(initial, current) && i < |current| && !Shadowed(initial, i)
    requires entry == current[i].(value := entry.value)
    ensures PermissionsEvolved(initial, current[i := entry])
  {
  }

  /** With a recommendation of markers only, a Permissions-Policy call observes nothing but `()`. */
  lemma PermissionObservesOnlyDisallows(e: Directive, value: string)
    requires MarkersOnly(e.recommended)
    requires forall k :: 0 <= k < |e.value| ==> e.value[k] == PolicyValue.Disallowed
    ensures forall k :: 0 <= k < |PermissionVerdict(e, value).value| ==> PermissionVerdict(e, value).value[k] == PolicyValue.Disallowed
  {
    MarkersOnlyNeverEcho(e.value, e.recommended, Tokens(value), value);
    MarkerObservedDisallowsOnly(e.value, Tokens(value));
  }

  /** Entries that keep their names keep the catalog's names. */
  lemma SameNames(a: seq<Directive>, b: seq<Directive>)
    requires |a| == |b|
    requires forall i :: 0 <= i < |a| ==> a[i].name == b[i].name
    ensures Names(a) == Names(b)
  {
  }

  /** A lookup in a table whose names are the initial ones never lands on a shadowed entry. */
  lemma LookupAvoidsShadowed(initial: seq<Directive>, current: seq<Directive>, name: string)
    requires |current| == |initial|
    requires forall i :: 0 <= i < |initial| ==> initial[i].name == current[i].name
    requires FindFirst(current, name).Some?
    ensures !Shadowed(initial, FindFirst(current, name).value)
  {
    SameNames(initial, current);
    FindFirstByNames(initial, current, name);
  }

  /**
    The token loop of `checkPermissionPolicy` on one entry: each
    space-separated token of the value, quotes stripped, acts in turn on the
    entry's observed list, which is all the loop changes.
   */
  method EvaluatePolicyTokens(e: Directive, value: string) returns (found: Directive)
    ensures found == PermissionVerdict(e, value)
  {
    var observed := e.value;
    ghost var tokens := Tokens(value);
    var parts := Split(value, ' ');
    var k := 0;
    while k < |parts|
      invariant 0 <= k <= |parts| == |tokens|
      invariant observed == ObservedAfter(e.value, e.recommended, tokens[..k], value)
    {
      var v := StripQuotes(parts[k]);
      assert v == tokens[k];
      ObservedAfterStep(e.value, e.recommended, tokens, k, value);
      observed := ApplyToken(observed, e.recommended, v, value);
      k := k + 1;
    }
    assert tokens[..k] == tokens;
    found := e.(value := observed);
  }

  /** One pass of the token loop: `()` is pushed, `*` clears, a recommended token is pushed and echoed. */
  method ApplyToken(observed: seq<string>, recommended: seq<string>, v: string, value: string) returns (r: seq<string>)
    ensures r == TokenEffect(observed, recommended, v, value)
  {
    if v == PolicyValue.Disallowed {
      r := observed + [v];
    } else if v == PolicyValue.Allowed {
      r := [];
    } else if v in recommended {
      r := AppendEchoes(observed + [v], recommended, value);
    } else {
      r := observed;
    }
  }

  /** The inner loop: the whole value is pushed once per recommended entry it overlaps. */
  method AppendEchoes(observed: seq<string>, recommended: seq<string>, value: string) returns (r: seq<string>)
    ensures r == observed + Echoes(recommended, value)
  {
    r := observed;
    var j := 0;
    while j < |recommended|
      invariant 0 <= j <= |recommended|
      invariant r == observed + Echoes(recommended[..j], value)
    {
      EchoesStep(recommended, j, value);
      if Overlaps(recommended[j], value) {
        r := r + [value];
      }
      j := j + 1;
    }
    assert recommended[..j] == recommended;
  }

  /**
    The shared evaluator. Its two catalogs start as the declared tables and
    are never reset: every change persists into later calls.
   */
  class SaasService {
    var csp: seq<Directive>
    var permissions: seq<Directive>
    /** The declared tables the two catalogs started from. */
    ghost const initialCsp: seq<Directive>
    ghost const initialPermissions: seq<Directive>

    ghost predicate Valid()
      reads this
    {
      && CspEvolved(initialCsp, csp)
      && PermissionsEvolved(initialPermissions, permissions)
      && (MarkersOnlyTable(initialPermissions) ==> ObservesOnlyDisallows(permissions))
    }

    constructor ()
      ensures Valid()
      ensures initialCsp == CspCatalog.CspDirectives && initialPermissions == PermissionCatalog.PermissionPolicies
      ensures csp == initialCsp && permissions == initialPermissions
      ensures MarkersOnlyTable(initialPermissions)
    {
      csp := CspCatalog.CspDirectives;
      permissions := PermissionCatalog.PermissionPolicies;
      initialCsp := CspCatalog.CspDirectives;
      initialPermissions := PermissionCatalog.PermissionPolicies;
      CspCatalog.RecommendsSomething();
      PermissionCatalog.StartsUnobserved();
      PermissionCatalog.RecommendsOneMarker();
    }

    /**
      `checkDirective(directive, value)`: `None` (the source's `null`) and no
      change for an unknown name; otherwise the first entry of that name
      becomes its CSP verdict and its index is returned.
     */
    method CheckDirective(directive: string, value: string) returns (r: Option<nat>)
      requires Valid()
      modifies this
      ensures Valid()
      ensures r == FindFirst(old(csp), directive)
      ensures r.None? ==> csp == old(csp)
      ensures r.Some? ==> csp == old(csp)[r.value := CspVerdict(old(csp)[r.value], value)]
      ensures permissions == old(permissions)
    {
      r := FindFirst(csp, directive);
      if r.None? {
        return;
      }
      var i := r.value;
      var found := EvaluateCspValue(csp[i], value);
      LookupAvoidsShadowed(initialCsp, csp, directive);
      CspStepKeepsEvolved(initialCsp, csp, i, found);
      csp := csp[i := found];
    }

    /**
      `checkPermissionPolicy(directive, value)`: `None` and no change for an
      unknown name; otherwise each space-separated token of the value acts in
      turn on the first entry of that name, whose index is returned.
     */
    method CheckPermissionPolicy(directive: string, value: string) returns (r: Option<nat>)
      requires Valid()
      modifies this
      ensures Valid()
      ensures r == FindFirst(old(permissions), directive)
      ensures r.None? ==> permissions == old(permissions)
      ensures r.Some? ==> permissions == old(permissions)[r.value := PermissionVerdict(old(permissions)[r.value], value)]
      ensures csp == old(csp)
    {
      r := FindFirst(permissions, directive);
      if r.None? {
        return;
      }
      var i := r.value;
      LookupAvoidsShadowed(initialPermissions, permissions, directive);
      var e := permissions[i];
      var found := EvaluatePolicyTokens(e, value);
      PermissionStepKeepsEvolved(initialPermissions, permissions, i, found);
      if MarkersOnlyTable(initialPermissions) {
        assert e.recommended == initialPermissions[i].recommended;
        assert forall k :: 0 <= k < |e.value| ==> e.value[k] == PolicyValue.Disallowed;
        PermissionObservesOnlyDisallows(e, value);
        ObservesOnlyDisallowsStep(permissions, i, found);
      }
      permissions := permissions[i := found];
    }
  }
}
