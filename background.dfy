/**
  The background worker's header handling: which requests are inspected,
  how response headers are routed, how a Permissions-Policy header is parsed
  and evaluated, which catalog entries are stored as findings, and the
  meta-tag fallback that runs when a tab is updated.

  The browser listeners, the script injection and the store are outside the
  model: their inputs are parameters and what the source writes to the store
  or hands to the CSP splitter is returned.
 */
module Background {
  import opened Wrappers
  import opened Strings
  import opened Dto
  import opened Saas

  // ---------------------------------------------------------------------------
  // Which requests are inspected
  // ---------------------------------------------------------------------------

  const ChromeScheme: string := "chrome://"
  const ExtensionScheme: string := "chrome-extension://"
  const MainFrame: string := "main_frame"

  /** `isUrlValid`: the URL is neither a browser page nor an extension page. */
  predicate IsUrlValid(url: string) {
    !StartsWith(url, ChromeScheme) && !StartsWith(url, ExtensionScheme)
  }

  /** Both `webRequest` listeners go on only for a top-level document with a valid URL. */
  predicate ShouldInspect(url: string, resourceType: string) {
    resourceType == MainFrame && IsUrlValid(url)
  }

  /** Every browser or extension page is skipped, whatever follows the scheme. */
  lemma SystemPagesSkipped(rest: string, resourceType: string)
    ensures !ShouldInspect(ChromeScheme + rest, resourceType)
    ensures !ShouldInspect(ExtensionScheme + rest, resourceType)
  {
    assert (ChromeScheme + rest)[..|ChromeScheme|] == ChromeScheme;
    assert (ExtensionScheme + rest)[..|ExtensionScheme|] == ExtensionScheme;
  }

  /** Every top-level web page is inspected, whatever follows the scheme. */
  lemma WebPagesInspected(rest: string)
    ensures ShouldInspect("https://" + rest, MainFrame)
    ensures ShouldInspect("http://" + rest, MainFrame)
  {
    var s, t := "https://" + rest, "http://" + rest;
    assert s[0] == 'h' && t[0] == 'h';
    assert |s| >= |ChromeScheme| ==> s[..|ChromeScheme|][0] != ChromeScheme[0];
    assert |t| >= |ChromeScheme| ==> t[..|ChromeScheme|][0] != ChromeScheme[0];
    assert |s| >= |ExtensionScheme| ==> s[..|ExtensionScheme|][0] != ExtensionScheme[0];
    assert |t| >= |ExtensionScheme| ==> t[..|ExtensionScheme|][0] != ExtensionScheme[0];
  }

  // ---------------------------------------------------------------------------
  // Header routing
  // ---------------------------------------------------------------------------

  /** A response header; `value` is absent when the browser gives only binary data. */
  datatype Header = Header(name: string, value: Option<string>)

  const CspHeader: string := "content-security-policy"
  const PermissionsHeader: string := "permissions-policy"

  /** The header goes to the CSP splitter: its lower-cased name mentions the CSP header's. */
  predicate IsCspHeader(name: string) {
    Contains(ToLower(name), CspHeader)
  }

  /** The header goes to the Permissions-Policy path. */
  predicate IsPermissionsHeader(name: string) {
    Contains(ToLower(name), PermissionsHeader)
  }

  /** `sub` occurring at `i` in `s` makes `s` contain `sub`. */
  lemma OccurrenceContains(s: string, sub: string, i: int)
    requires OccursAt(s, sub, i)
    ensures Contains(s, sub)
  {
    IndexOfFindsFirst(s, sub);
  }

  /**
    A name is routed to a path as soon as any part of it lower-cases to that
    path's header name, so other headers such as
    `Content-Security-Policy-Report-Only` take the same path.
   */
  lemma RoutedBySubstring(before: string, mid: string, after: string)
    ensures ToLower(mid) == CspHeader ==> IsCspHeader(before + mid + after)
    ensures ToLower(mid) == PermissionsHeader ==> IsPermissionsHeader(before + mid + after)
  {
    ToLowerConcat(before + mid, after);
    ToLowerConcat(before, mid);
    var low := ToLower(before + mid + after);
    assert low == ToLower(before) + ToLower(mid) + ToLower(after);
    assert low[|before|..|before| + |mid|] == ToLower(mid);
    if ToLower(mid) == CspHeader {
      OccurrenceContains(low, CspHeader, |before|);
    }
    if ToLower(mid) == PermissionsHeader {
      OccurrenceContains(low, PermissionsHeader, |before|);
    }
  }

  /** The header name as servers usually spell it lower-cases to the CSP header name. */
  lemma CspSpellingLowers(mid: string)
    requires mid == "Content-Security-Policy"
    ensures ToLower(mid) == CspHeader
  {
  }

  /** The report-only CSP header is evaluated as if it were the enforced one. */
  lemma ReportOnlyIsCsp(name: string, mid: string)
    requires mid == "Content-Security-Policy" && name == mid + "-Report-Only"
    ensures IsCspHeader(name)
  {
    CspSpellingLowers(mid);
    RoutedBySubstring("", mid, "-Report-Only");
    assert "" + mid == mid;
  }

  /** A name shorter than a header name cannot be routed to it. */
  lemma ShortNamesNotRouted(name: string)
    ensures |name| < |PermissionsHeader| ==> !IsPermissionsHeader(name) && !IsCspHeader(name)
  {
    if |name| < |PermissionsHeader| {
      ShortNotContains(ToLower(name), PermissionsHeader);
      ShortNotContains(ToLower(name), CspHeader);
    }
  }

  // ---------------------------------------------------------------------------
  // Parsing a Permissions-Policy header
  // ---------------------------------------------------------------------------

  /** One `{ name, value }` pair of a Permissions-Policy header. */
  datatype PolicyPair = PolicyPair(name: string, value: string)

  /** A segment `name=v1=v2…`: the name up to the first `=`, the remaining parts joined by spaces. */
  function ParsePair(segment: string): (p: PolicyPair)
    ensures '=' !in p.name
  {
    var parts := Split(Trim(segment), '=');
    PolicyPair(parts[0], Join(parts[1..], ' '))
  }

  /**
    The pair read from a segment: without `=` the whole trimmed segment is
    the name and the value is empty; otherwise the name is the trimmed
    segment up to its first `=` (not trimmed again) and the value is the rest
    of it, with every further `=` read as a space.
   */
  lemma ParsePairReadsSegment(segment: string)
    ensures '=' !in Trim(segment) ==> ParsePair(segment) == PolicyPair(Trim(segment), "")
    ensures '=' in Trim(segment) ==>
      var p := ParsePair(segment);
      var t := Trim(segment);
      |p.name| < |t| && t[..|p.name| + 1] == p.name + "="
      && p.value == ReplaceChar(t[|p.name| + 1..], '=', ' ')
  {
    var t := Trim(segment);
    var parts := Split(t, '=');
    if |parts| == 1 {
      assert t == parts[0];
    } else {
      var rest := Join(parts[1..], '=');
      assert t == parts[0] + ['='] + rest;
      assert t[..|parts[0]| + 1] == parts[0] + "=";
      assert t[|parts[0]| + 1..] == rest;
      SplitJoin(parts[1..], '=');
      SplitThenJoinReplaces(rest, '=', ' ');
    }
  }

  /** A segment with spaces around its `=` keeps the space in the name, which then matches no catalog entry. */
  lemma SpacedPairKeepsSpace(segment: string, t: string)
    requires segment == " camera = ()" && t == "camera = ()"
    ensures ParsePair(segment) == PolicyPair("camera ", " ()")
  {
    SpacedSegmentTrims(segment, t);
    SpacedSegmentSplits(t);
  }

  lemma SpacedSegmentTrims(segment: string, t: string)
    requires segment == " camera = ()" && t == "camera = ()"
    ensures Trim(segment) == t
  {
    assert segment == [' '] + t;
    assert TrimStart(t) == t by { assert !IsSpace(t[0]); }
    assert TrimStart(segment) == t;
    assert TrimEnd(t) == t by { assert !IsSpace(t[|t| - 1]); }
  }

  lemma SpacedSegmentSplits(t: string)
    requires t == "camera = ()"
    ensures Split(t, '=') == ["camera ", " ()"]
  {
    var parts := ["camera ", " ()"];
    assert Join(parts, '=') == t;
    assert '=' !in parts[0] && '=' !in parts[1];
    SplitJoin(parts, '=');
  }

  /** The string is all whitespace. */
  predicate AllSpaces(s: string) {
    s == [] || (IsSpace(s[0]) && AllSpaces(s[1..]))
  }

  /** A segment is blank, `trim().length === 0`, exactly when it is all whitespace. */
  lemma {:induction false} AllSpacesIffTrimEmpty(s: string)
    ensures AllSpaces(s) <==> |Trim(s)| == 0
  {
    TrimEmptyIff(s);
    AllSpacesEverywhere(s);
  }

  lemma {:induction false} AllSpacesEverywhere(s: string)
    ensures AllSpaces(s) <==> forall k :: 0 <= k < |s| ==> IsSpace(s[k])
  {
    if s != [] {
      AllSpacesEverywhere(s[1..]);
      assert forall k :: 1 <= k < |s| ==> s[k] == s[1..][k - 1];
    }
  }

  /** The segments that are not blank, in their order. */
  function NonBlank(segments: seq<string>): (r: seq<string>)
    ensures |r| <= |segments|
    ensures forall k :: 0 <= k < |r| ==> !AllSpaces(r[k])
  {
    if segments == [] then []
    else
      var n := |segments| - 1;
      NonBlank(segments[..n]) + if !AllSpaces(segments[n]) then [segments[n]] else []
  }

  /** A segment survives the filter exactly when it occurs in the list and is not blank. */
  lemma {:induction false} NonBlankMembers(segments: seq<string>, s: string)
    ensures s in NonBlank(segments) <==> s in segments && !AllSpaces(s)
  {
    if segments != [] {
      var n := |segments| - 1;
      NonBlankMembers(segments[..n], s);
      assert segments == segments[..n] + [segments[n]];
    }
  }

  /** Filtering keeps order: it works on each part of a list separately. */
  lemma {:induction false} NonBlankConcat(a: seq<string>, b: seq<string>)
    ensures NonBlank(a + b) == NonBlank(a) + NonBlank(b)
    decreases |b|
  {
    if b == [] {
      assert a + b == a;
    } else {
      var n := |b| - 1;
      assert (a + b)[..|a| + n] == a + b[..n];
      assert (a + b)[|a| + n] == b[n];
      NonBlankConcat(a, b[..n]);
    }
  }

  /** The pairs of a header value: comma split, blank segments dropped, each segment read as a pair. */
  function ParsePermissions(header: Option<string>): (pairs: seq<PolicyPair>)
    ensures header.None? ==> pairs == []
    ensures header.Some? ==> |pairs| == |NonBlank(Split(header.value, ','))|
  {
    match header
    case None => []
    case Some(h) =>
      var segments := NonBlank(Split(h, ','));
      seq(|segments|, k requires 0 <= k < |segments| => ParsePair(segments[k]))
  }

  /** A header made of comma-free, non-blank segments gives one pair per segment, in order. */
  lemma ParsesEachSegment(segments: seq<string>)
    requires |segments| >= 1
    requires forall k :: 0 <= k < |segments| ==> ',' !in segments[k] && !AllSpaces(segments[k])
    ensures |ParsePermissions(Some(Join(segments, ',')))| == |segments|
    ensures forall k :: 0 <= k < |segments| ==> ParsePermissions(Some(Join(segments, ',')))[k] == ParsePair(segments[k])
  {
    SplitJoin(segments, ',');
    NonBlankKeepsAll(segments);
  }

  /** Nothing is dropped from a list of non-blank segments. */
  lemma {:induction false} NonBlankKeepsAll(segments: seq<string>)
    requires forall k :: 0 <= k < |segments| ==> !AllSpaces(segments[k])
    ensures NonBlank(segments) == segments
  {
    if segments != [] {
      var n := |segments| - 1;
      NonBlankKeepsAll(segments[..n]);
      assert segments == segments[..n] + [segments[n]];
    }
  }

  /** A header of blanks and commas, the empty header included, gives no pairs. */
  lemma BlankHeaderHasNoPairs(h: string)
    requires forall k :: 0 <= k < |h| ==> h[k] == ',' || IsSpace(h[k])
    ensures ParsePermissions(Some(h)) == []
  {
    var segments := Split(h, ',');
    forall k | 0 <= k < |segments|
      ensures AllSpaces(segments[k])
    {
      SegmentOfBlanks(h, k);
      AllSpacesEverywhere(segments[k]);
    }
    NothingKept(segments);
  }

  /** A list of blank segments filters to nothing. */
  lemma {:induction false} NothingKept(segments: seq<string>)
    requires forall k :: 0 <= k < |segments| ==> AllSpaces(segments[k])
    ensures NonBlank(segments) == []
  {
    if segments != [] {
      NothingKept(segments[..|segments| - 1]);
    }
  }

  /** Every character of a piece of a split string is a character of the string. */
  lemma {:induction false} SplitPieceChars(s: string, sep: char, k: int)
    requires 0 <= k < |Split(s, sep)|
    ensures forall c :: c in Split(s, sep)[k] ==> c in s
  {
    if s != [] {
      var rest := Split(s[1..], sep);
      if s[0] == sep {
        if k > 0 {
          SplitPieceChars(s[1..], sep, k - 1);
        }
      } else if k == 0 {
        SplitPieceChars(s[1..], sep, 0);
      } else {
        SplitPieceChars(s[1..], sep, k);
      }
    }
  }

  /** A piece of a header of blanks and commas is all blanks. */
  lemma SegmentOfBlanks(h: string, k: int)
    requires forall i :: 0 <= i < |h| ==> h[i] == ',' || IsSpace(h[i])
    requires 0 <= k < |Split(h, ',')|
    ensures forall i :: 0 <= i < |Split(h, ',')[k]| ==> IsSpace(Split(h, ',')[k][i])
  {
    SplitPieceChars(h, ',', k);
    var p := Split(h, ',')[k];
    forall i | 0 <= i < |p|
      ensures IsSpace(p[i])
    {
      assert p[i] in p;
      assert p[i] in h;
      assert p[i] != ',';
    }
  }

  // ---------------------------------------------------------------------------
  // Evaluating a Permissions-Policy header and selecting its findings
  // ---------------------------------------------------------------------------

  /** The Permissions-Policy catalog after one `checkPermissionPolicy` call. */
  function PermissionStep(table: seq<Directive>, pair: PolicyPair): (t: seq<Directive>)
    ensures |t| == |table|
    ensures forall i :: 0 <= i < |table| ==> t[i].name == table[i].name
  {
    match FindFirst(table, pair.name)
    case None => table
    case Some(i) => table[i := PermissionVerdict(table[i], pair.value)]
  }

  /** The Permissions-Policy catalog after the pairs were evaluated in order. */
  function PermissionsAfter(table: seq<Directive>, pairs: seq<PolicyPair>): (t: seq<Directive>)
    ensures |t| == |table|
    ensures forall i :: 0 <= i < |table| ==> t[i].name == table[i].name
  {
    if pairs == [] then table
    else
      var n := |pairs| - 1;
      PermissionStep(PermissionsAfter(table, pairs[..n]), pairs[n])
  }

  /** The entry each pair names, as references into the catalog. */
  function Lookups(table: seq<Directive>, pairs: seq<PolicyPair>): (refs: seq<Option<nat>>)
    ensures |refs| == |pairs|
    ensures forall k :: 0 <= k < |pairs| ==> refs[k] == FindFirst(table, pairs[k].name)
  {
    seq(|pairs|, k requires 0 <= k < |pairs| => FindFirst(table, pairs[k].name))
  }

  /** Looking up one more pair adds its reference at the end. */
  lemma LookupsSnoc(table: seq<Directive>, pairs: seq<PolicyPair>, k: nat)
    requires k < |pairs|
    ensures Lookups(table, pairs[..k + 1]) == Lookups(table, pairs[..k]) + [FindFirst(table, pairs[k].name)]
  {
    var a, b := Lookups(table, pairs[..k + 1]), Lookups(table, pairs[..k]) + [FindFirst(table, pairs[k].name)];
    assert forall j :: 0 <= j < k ==> a[j] == b[j];
  }

  /** One more evaluated pair is one more step, and its lookup lands where it would have in the starting table. */
  lemma PairStep(start: seq<Directive>, pairs: seq<PolicyPair>, k: nat)
    requires k < |pairs|
    ensures PermissionsAfter(start, pairs[..k + 1]) == PermissionStep(PermissionsAfter(start, pairs[..k]), pairs[k])
    ensures FindFirst(PermissionsAfter(start, pairs[..k]), pairs[k].name) == FindFirst(start, pairs[k].name)
    ensures Lookups(start, pairs[..k + 1]) == Lookups(start, pairs[..k]) + [FindFirst(start, pairs[k].name)]
  {
    assert pairs[..k + 1][..k] == pairs[..k];
    var current := PermissionsAfter(start, pairs[..k]);
    SameNames(start, current);
    FindFirstByNames(start, current, pairs[k].name);
    LookupsSnoc(start, pairs, k);
  }

  /** The referenced entries, read in `table`, that have nothing observed: `filter(d => d && d.value.length === 0)`. */
  function Findings(refs: seq<Option<nat>>, table: seq<Directive>): (r: seq<Directive>)
    ensures |r| <= |refs|
    ensures forall k :: 0 <= k < |r| ==> IsFinding(r[k])
  {
    if refs == [] then []
    else
      var n := |refs| - 1;
      Findings(refs[..n], table)
      + match refs[n]
        case Some(i) => if i < |table| && IsFinding(table[i]) then [table[i]] else []
        case None => []
  }

  /** The reference points at `d` in `table`. */
  predicate Reaches(ref: Option<nat>, table: seq<Directive>, d: Directive) {
    ref.Some? && ref.value < |table| && table[ref.value] == d
  }

  /** The filter's contribution of the last reference. */
  lemma FindingsLast(refs: seq<Option<nat>>, table: seq<Directive>, d: Directive)
    requires refs != []
    ensures var n := |refs| - 1;
      d in Findings(refs, table) <==> d in Findings(refs[..n], table) || (IsFinding(d) && Reaches(refs[n], table, d))
  {
  }

  /** A reported entry is reached by some reference and has nothing observed. */
  lemma {:induction false} FindingIsReached(refs: seq<Option<nat>>, table: seq<Directive>, d: Directive)
    requires d in Findings(refs, table)
    ensures IsFinding(d) && exists k :: 0 <= k < |refs| && Reaches(refs[k], table, d)
  {
    var n := |refs| - 1;
    FindingsLast(refs, table, d);
    if d in Findings(refs[..n], table) {
      FindingIsReached(refs[..n], table, d);
      var k :| 0 <= k < n && Reaches(refs[..n][k], table, d);
      assert refs[..n][k] == refs[k];
    } else {
      assert Reaches(refs[n], table, d);
    }
  }

  /** An entry with nothing observed that reference `k` reaches is reported. */
  lemma {:induction false} ReachedIsFinding(refs: seq<Option<nat>>, table: seq<Directive>, d: Directive, k: nat)
    requires k < |refs| && Reaches(refs[k], table, d) && IsFinding(d)
    ensures d in Findings(refs, table)
  {
    var n := |refs| - 1;
    FindingsLast(refs, table, d);
    if k < n {
      assert refs[..n][k] == refs[k];
      ReachedIsFinding(refs[..n], table, d, k);
    }
  }

  /** An entry is reported exactly when some reference reaches it and it ends with nothing observed. */
  lemma FindingsIff(refs: seq<Option<nat>>, table: seq<Directive>, d: Directive)
    ensures d in Findings(refs, table) <==> IsFinding(d) && exists k :: 0 <= k < |refs| && Reaches(refs[k], table, d)
  {
    if d in Findings(refs, table) {
      FindingIsReached(refs, table, d);
    }
    if IsFinding(d) && exists k :: 0 <= k < |refs| && Reaches(refs[k], table, d) {
      var k :| 0 <= k < |refs| && Reaches(refs[k], table, d);
      ReachedIsFinding(refs, table, d, k);
    }
  }

  /** The filter works on each part of the reference list separately, so header order is kept. */
  lemma {:induction false} FindingsConcat(a: seq<Option<nat>>, b: seq<Option<nat>>, table: seq<Directive>)
    ensures Findings(a + b, table) == Findings(a, table) + Findings(b, table)
    decreases |b|
  {
    if b == [] {
      assert a + b == a;
    } else {
      var n := |b| - 1;
      assert (a + b)[..|a| + n] == a + b[..n];
      assert (a + b)[|a| + n] == b[n];
      FindingsConcat(a, b[..n], table);
    }
  }

  /** A directive named twice in a header is reported twice when it ends as a finding. */
  lemma RepeatedNameReportedTwice(table: seq<Directive>, pair: PolicyPair)
    requires FindFirst(table, pair.name).Some?
    requires IsFinding(table[FindFirst(table, pair.name).value])
    ensures Findings(Lookups(table, [pair, pair]), table) == [table[FindFirst(table, pair.name).value]] + [table[FindFirst(table, pair.name).value]]
  {
    var r := FindFirst(table, pair.name);
    assert Lookups(table, [pair, pair]) == [r] + [r];
    assert Findings([r], table) == [table[r.value]] by {
      assert [r][..0] == [];
    }
    FindingsConcat([r], [r], table);
  }

  /** Shared lookups over tables with the same names land on the same entries. */
  lemma LookupsByNames(a: seq<Directive>, b: seq<Directive>, pairs: seq<PolicyPair>)
    requires |a| == |b|
    requires forall i :: 0 <= i < |a| ==> a[i].name == b[i].name
    ensures Lookups(a, pairs) == Lookups(b, pairs)
  {
    SameNames(a, b);
    forall k | 0 <= k < |pairs|
      ensures FindFirst(a, pairs[k].name) == FindFirst(b, pairs[k].name)
    {
      FindFirstByNames(a, b, pairs[k].name);
    }
  }

  /**
    The Permissions-Policy path for one header value (lines 50-73): every
    pair is evaluated in order, and only afterwards are the results filtered,
    so each reported entry is read in its final state.
   */
  method EvaluatePermissionsHeader(svc: SaasService, header: Option<string>) returns (findings: seq<Directive>)
    requires svc.Valid()
    modifies svc
    ensures svc.Valid()
    ensures svc.csp == old(svc.csp)
    ensures svc.permissions == PermissionsAfter(old(svc.permissions), ParsePermissions(header))
    ensures findings == Findings(Lookups(old(svc.permissions), ParsePermissions(header)), svc.permissions)
  {
    var pairs := ParsePermissions(header);
    var results := EvaluatePairs(svc, pairs);
    findings := Findings(results, svc.permissions);
  }

  /** The evaluation loop: `checkPermissionPolicy` on each pair in order, keeping each returned reference. */
  method EvaluatePairs(svc: SaasService, pairs: seq<PolicyPair>) returns (results: seq<Option<nat>>)
    requires svc.Valid()
    modifies svc
    ensures svc.Valid()
    ensures svc.csp == old(svc.csp)
    ensures svc.permissions == PermissionsAfter(old(svc.permissions), pairs)
    ensures results == Lookups(old(svc.permissions), pairs)
  {
    ghost var start := svc.permissions;
    results := [];
    var k := 0;
    while k < |pairs|
      invariant 0 <= k <= |pairs|
      invariant svc.Valid() && svc.csp == old(svc.csp)
      invariant svc.permissions == PermissionsAfter(start, pairs[..k])
      invariant results == Lookups(start, pairs[..k])
    {
      PairStep(start, pairs, k);
      var r := svc.CheckPermissionPolicy(pairs[k].name, pairs[k].value);
      results := results + [r];
      k := k + 1;
    }
    assert pairs[..k] == pairs;
  }

  // ---------------------------------------------------------------------------
  // The response-headers listener
  // ---------------------------------------------------------------------------

  /** The Permissions-Policy catalog after the response's headers were handled in order. */
  function HeadersAfter(table: seq<Directive>, headers: seq<Header>): (t: seq<Directive>)
    ensures |t| == |table|
  {
    if headers == [] then table
    else
      var n := |headers| - 1;
      var before := HeadersAfter(table, headers[..n]);
      if IsPermissionsHeader(headers[n].name) then PermissionsAfter(before, ParsePermissions(headers[n].value))
      else before
  }

  /** The Permissions-Policy headers among the headers. */
  function PermissionsHeaders(headers: seq<Header>): (r: seq<Header>)
    ensures |r| <= |headers|
    ensures forall h :: h in r <==> h in headers && IsPermissionsHeader(h.name)
  {
    if headers == [] then []
    else
      var n := |headers| - 1;
      assert headers == headers[..n] + [headers[n]];
      PermissionsHeaders(headers[..n]) + if IsPermissionsHeader(headers[n].name) then [headers[n]] else []
  }

  /** What each Permissions-Policy header writes to the store, one list per such header, in order. */
  function StoredFindings(table: seq<Directive>, headers: seq<Header>): (r: seq<seq<Directive>>)
    ensures |r| == |PermissionsHeaders(headers)|
    ensures forall k, j :: 0 <= k < |r| && 0 <= j < |r[k]| ==> IsFinding(r[k][j])
  {
    if headers == [] then []
    else
      var n := |headers| - 1;
      var before := HeadersAfter(table, headers[..n]);
      StoredFindings(table, headers[..n])
      + if IsPermissionsHeader(headers[n].name)
        then [Findings(Lookups(before, ParsePermissions(headers[n].value)), HeadersAfter(table, headers))]
        else []
  }

  /** What the CSP headers hand to the CSP splitter: each value, or `""` when absent. */
  function CspValues(headers: seq<Header>): (r: seq<string>)
    ensures |r| <= |headers|
  {
    if headers == [] then []
    else
      var n := |headers| - 1;
      CspValues(headers[..n]) + if IsCspHeader(headers[n].name) then [headers[n].value.GetOr("")] else []
  }

  /** Exactly the values of the CSP headers reach the splitter, and none when there are no CSP headers. */
  lemma {:induction false} CspValuesMembers(headers: seq<Header>)
    ensures forall k :: 0 <= k < |headers| && IsCspHeader(headers[k].name) ==> headers[k].value.GetOr("") in CspValues(headers)
    ensures forall v :: v in CspValues(headers) ==>
      exists k :: 0 <= k < |headers| && IsCspHeader(headers[k].name) && v == headers[k].value.GetOr("")
    ensures (forall k :: 0 <= k < |headers| ==> !IsCspHeader(headers[k].name)) ==> CspValues(headers) == []
  {
    if headers != [] {
      var n := |headers| - 1;
      var front := headers[..n];
      CspValuesMembers(front);
      assert forall k :: 0 <= k < n ==> front[k] == headers[k];
      var tail := if IsCspHeader(headers[n].name) then [headers[n].value.GetOr("")] else [];
      assert CspValues(headers) == CspValues(front) + tail;
      forall v | v in CspValues(headers)
        ensures exists k :: 0 <= k < |headers| && IsCspHeader(headers[k].name) && v == headers[k].value.GetOr("")
      {
        if v in CspValues(front) {
          var k :| 0 <= k < |front| && IsCspHeader(front[k].name) && v == front[k].value.GetOr("");
          assert headers[k] == front[k];
        } else {
          assert v in tail;
          assert IsCspHeader(headers[n].name) && v == headers[n].value.GetOr("");
        }
      }
    }
  }

  /** A response without a Permissions-Policy header leaves that catalog as it was and stores nothing. */
  lemma {:induction false} NoPermissionsHeaderNoChange(table: seq<Directive>, headers: seq<Header>)
    requires forall k :: 0 <= k < |headers| ==> !IsPermissionsHeader(headers[k].name)
    ensures HeadersAfter(table, headers) == table
    ensures StoredFindings(table, headers) == []
  {
    if headers != [] {
      var n := |headers| - 1;
      NoPermissionsHeaderNoChange(table, headers[..n]);
    }
  }

  /** Handling one more header is one more step of each of the three folds. */
  lemma HeadersStep(table: seq<Directive>, headers: seq<Header>, i: nat)
    requires i < |headers|
    ensures var h := headers[i];
      && HeadersAfter(table, headers[..i + 1])
         == (if IsPermissionsHeader(h.name) then PermissionsAfter(HeadersAfter(table, headers[..i]), ParsePermissions(h.value))
             else HeadersAfter(table, headers[..i]))
      && CspValues(headers[..i + 1]) == CspValues(headers[..i]) + (if IsCspHeader(h.name) then [h.value.GetOr("")] else [])
      && StoredFindings(table, headers[..i + 1])
         == StoredFindings(table, headers[..i])
            + (if IsPermissionsHeader(h.name)
               then [Findings(Lookups(HeadersAfter(table, headers[..i]), ParsePermissions(h.value)), HeadersAfter(table, headers[..i + 1]))]
               else [])
  {
    assert headers[..i + 1][..i] == headers[..i];
  }

  /**
    `onHeadersReceived`: nothing for a request that is not inspected or has
    no header list; otherwise, header by header, CSP values go to the
    splitter and Permissions-Policy values are evaluated and their findings
    stored. Returns the splitter's inputs and the store writes, in order.
   */
  method OnHeadersReceived(svc: SaasService, url: string, resourceType: string, responseHeaders: Option<seq<Header>>)
    returns (cspValues: seq<string>, stored: seq<seq<Directive>>)
    requires svc.Valid()
    modifies svc
    ensures svc.Valid()
    ensures svc.csp == old(svc.csp)
    ensures !ShouldInspect(url, resourceType) || responseHeaders.None? ==>
      cspValues == [] && stored == [] && svc.permissions == old(svc.permissions)
    ensures ShouldInspect(url, resourceType) && responseHeaders.Some? ==>
      && cspValues == CspValues(responseHeaders.value)
      && stored == StoredFindings(old(svc.permissions), responseHeaders.value)
      && svc.permissions == HeadersAfter(old(svc.permissions), responseHeaders.value)
  {
    cspValues, stored := [], [];
    if !ShouldInspect(url, resourceType) || responseHeaders.None? {
      return;
    }
    var headers := responseHeaders.value;
    if |headers| == 0 {
      return;
    }
    ghost var start := svc.permissions;
    var i := 0;
    while i < |headers|
      invariant 0 <= i <= |headers|
      invariant svc.Valid() && svc.csp == old(svc.csp)
      invariant svc.permissions == HeadersAfter(start, headers[..i])
      invariant cspValues == CspValues(headers[..i])
      invariant stored == StoredFindings(start, headers[..i])
    {
      HeadersStep(start, headers, i);
      var h := headers[i];
      if IsCspHeader(h.name) {
        cspValues := cspValues + [h.value.GetOr("")];
      }
      if IsPermissionsHeader(h.name) {
        var findings := EvaluatePermissionsHeader(svc, h.value);
        stored := stored + [findings];
      }
      i := i + 1;
    }
    assert headers[..i] == headers;
  }

  // ---------------------------------------------------------------------------
  // The tab listener and the meta-tag fallback
  // ---------------------------------------------------------------------------

  /** A `<meta>` tag as the injected script reports it. */
  datatype MetaTag = MetaTag(name: string, content: string)

  /** What the store's `APP_DATA` record holds. */
  datatype AppData = AppData(name: string, icon: string)

  const DefaultSrc: string := "default-src"
  const Loading: string := "loading"

  /** A meta tag that carries a CSP policy: no `name`, and content mentioning `default-src`. */
  predicate IsMetaCsp(tag: MetaTag) {
    tag.name == "" && Contains(tag.content, DefaultSrc)
  }

  /** `metaTags.find(...)`: the first meta tag carrying a CSP policy. */
  function FirstMetaCsp(tags: seq<MetaTag>): (r: Option<MetaTag>)
    ensures r.Some? ==> IsMetaCsp(r.value) && r.value in tags
    ensures r.None? <==> forall j :: 0 <= j < |tags| ==> !IsMetaCsp(tags[j])
  {
    if tags == [] then None
    else if IsMetaCsp(tags[0]) then Some(tags[0])
    else FirstMetaCsp(tags[1..])
  }

  /** The tag chosen is the first one carrying a policy; later ones are ignored. */
  lemma {:induction false} FirstMetaCspIsFirst(tags: seq<MetaTag>, i: int)
    requires 0 <= i < |tags| && IsMetaCsp(tags[i])
    requires forall j :: 0 <= j < i ==> !IsMetaCsp(tags[j])
    ensures FirstMetaCsp(tags) == Some(tags[i])
  {
    if i > 0 {
      FirstMetaCspIsFirst(tags[1..], i - 1);
    }
  }

  /** `validUrl` of the tab listener: present, not empty, and not a browser or extension page. */
  predicate IsTabUrlValid(url: Option<string>) {
    url.Some? && url.value != "" && IsUrlValid(url.value)
  }

  /**
    What the frames' results hand to the CSP splitter: for each frame with a
    `head`, the content of its first policy-carrying meta tag, if any.
    A frame is `None` when its result has no `head`.
   */
  function MetaCspValues(frames: seq<Option<seq<MetaTag>>>): (r: seq<string>)
    ensures |r| <= |frames|
    ensures forall k :: 0 <= k < |r| ==> Contains(r[k], DefaultSrc)
  {
    if frames == [] then []
    else
      var n := |frames| - 1;
      MetaCspValues(frames[..n])
      + match frames[n]
        case Some(tags) =>
          (match FirstMetaCsp(tags)
           case Some(tag) => [tag.content]
           case None => [])
        case None => []
  }

  /** The `APP_DATA` record, written only while the tab is loading; a missing title or icon reads as `""`. */
  function TabAppData(status: Option<string>, title: Option<string>, favIconUrl: Option<string>): (r: Option<AppData>)
    ensures r.Some? <==> status == Some(Loading)
    ensures r.Some? ==> (title.Some? ==> r.value.name == title.value) && (title.None? ==> r.value.name == "")
    ensures r.Some? ==> (favIconUrl.Some? ==> r.value.icon == favIconUrl.value) && (favIconUrl.None? ==> r.value.icon == "")
  {
    if status == Some(Loading) then Some(AppData(title.GetOr(""), favIconUrl.GetOr(""))) else None
  }

  /** Reading one more frame is one more step of the fold. */
  lemma MetaCspStep(frames: seq<Option<seq<MetaTag>>>, i: nat)
    requires i < |frames|
    ensures MetaCspValues(frames[..i + 1])
         == MetaCspValues(frames[..i])
            + (if frames[i].Some? && FirstMetaCsp(frames[i].value).Some? then [FirstMetaCsp(frames[i].value).value.content] else [])
  {
    assert frames[..i + 1][..i] == frames[..i];
  }

  /**
    `tabs.onUpdated`: nothing for an invalid tab URL or a failed injection
    (`injection` is `None`); otherwise each frame's meta-tag policy goes to
    the splitter and, while loading, `APP_DATA` is written.
   */
  method OnTabUpdated(tabUrl: Option<string>, status: Option<string>, title: Option<string>, favIconUrl: Option<string>,
                      injection: Option<seq<Option<seq<MetaTag>>>>)
    returns (cspValues: seq<string>, appData: Option<AppData>)
    ensures !IsTabUrlValid(tabUrl) || injection.None? ==> cspValues == [] && appData == None
    ensures IsTabUrlValid(tabUrl) && injection.Some? ==>
      cspValues == MetaCspValues(injection.value) && appData == TabAppData(status, title, favIconUrl)
  {
    cspValues, appData := [], None;
    if !IsTabUrlValid(tabUrl) || injection.None? {
      return;
    }
    var frames := injection.value;
    var i := 0;
    while i < |frames|
      invariant 0 <= i <= |frames|
      invariant cspValues == MetaCspValues(frames[..i])
    {
      MetaCspStep(frames, i);
      if frames[i].Some? {
        var csp := FirstMetaCsp(frames[i].value);
        if csp.Some? {
          cspValues := cspValues + [csp.value.content];
        }
      }
      i := i + 1;
    }
    assert frames[..i] == frames;
    if status.Some? && status.value == Loading {
      appData := Some(AppData(title.GetOr(""), favIconUrl.GetOr("")));
    }
  }

  // ---------------------------------------------------------------------------
  // The two listeners as written: `splitDirectives` is not a member of
  // `SaasService`, so each call to it throws a TypeError
  // ---------------------------------------------------------------------------

  /** The headers the loop handles before it reaches the first CSP header, where the call throws. */
  function BeforeFirstCsp(headers: seq<Header>): (r: seq<Header>)
    ensures |r| <= |headers| && r == headers[..|r|]
    ensures forall k :: 0 <= k < |r| ==> !IsCspHeader(r[k].name)
    ensures |r| < |headers| ==> IsCspHeader(headers[|r|].name)
  {
    if headers == [] || IsCspHeader(headers[0].name) then []
    else [headers[0]] + BeforeFirstCsp(headers[1..])
  }

  /**
    `onHeadersReceived` as written: the header loop runs as in
    `OnHeadersReceived` over the headers before the first CSP header; there
    the call to the missing splitter throws and ends the listener. The
    Permissions-Policy headers after it are neither evaluated nor stored.
   */
  method OnHeadersReceivedAsWritten(svc: SaasService, url: string, resourceType: string, responseHeaders: Option<seq<Header>>)
    returns (stored: seq<seq<Directive>>, threw: bool)
    requires svc.Valid()
    modifies svc
    ensures svc.Valid()
    ensures svc.csp == old(svc.csp)
    ensures !ShouldInspect(url, resourceType) || responseHeaders.None? ==>
      stored == [] && !threw && svc.permissions == old(svc.permissions)
    ensures ShouldInspect(url, resourceType) && responseHeaders.Some? ==>
      var handled := BeforeFirstCsp(responseHeaders.value);
      && (threw <==> |handled| < |responseHeaders.value|)
      && stored == StoredFindings(old(svc.permissions), handled)
      && svc.permissions == HeadersAfter(old(svc.permissions), handled)
  {
    stored, threw := [], false;
    if !ShouldInspect(url, resourceType) || responseHeaders.None? {
      return;
    }
    var handled := BeforeFirstCsp(responseHeaders.value);
    var _, st := OnHeadersReceived(svc, url, resourceType, Some(handled));
    stored, threw := st, |handled| < |responseHeaders.value|;
  }

  /**
    A CSP header ahead of a Permissions-Policy header hides it: as written
    nothing is handled and nothing is stored, where the intended listener
    stores that header's findings.
   */
  lemma CspHeaderHidesPermissionsHeader(table: seq<Directive>, csp: Header, pp: Header)
    requires IsCspHeader(csp.name) && !IsPermissionsHeader(csp.name) && IsPermissionsHeader(pp.name)
    ensures BeforeFirstCsp([csp, pp]) == []
    ensures StoredFindings(table, BeforeFirstCsp([csp, pp])) == []
    ensures |StoredFindings(table, [csp, pp])| == 1
  {
    assert [csp, pp][..1] == [csp];
    assert [csp][..0] == [];
    assert PermissionsHeaders([csp]) == [];
    assert PermissionsHeaders([csp, pp]) == [pp];
  }

  /** A frame whose result holds a policy meta tag, which the listener hands to the splitter. */
  predicate CarriesMetaCsp(frame: Option<seq<MetaTag>>) {
    frame.Some? && FirstMetaCsp(frame.value).Some?
  }

  /**
    `tabs.onUpdated` as written. On a valid tab the first frame whose
    result holds a policy meta tag makes the listener call the missing
    splitter. The throw is caught, and the `APP_DATA` write that follows the
    frame loop is skipped.
   */
  method OnTabUpdatedAsWritten(tabUrl: Option<string>, status: Option<string>, title: Option<string>, favIconUrl: Option<string>,
                               injection: Option<seq<Option<seq<MetaTag>>>>)
    returns (appData: Option<AppData>, threw: bool)
    ensures !IsTabUrlValid(tabUrl) || injection.None? ==> appData == None && !threw
    ensures IsTabUrlValid(tabUrl) && injection.Some? ==>
      && (threw <==> exists k :: 0 <= k < |injection.value| && CarriesMetaCsp(injection.value[k]))
      && appData == (if threw then None else TabAppData(status, title, favIconUrl))
  {
    appData, threw := None, false;
    if !IsTabUrlValid(tabUrl) || injection.None? {
      return;
    }
    var frames := injection.value;
    var i := 0;
    while i < |frames|
      invariant 0 <= i <= |frames|
      invariant forall k :: 0 <= k < i ==> !CarriesMetaCsp(frames[k])
    {
      if frames[i].Some? && FirstMetaCsp(frames[i].value).Some? {
        threw := true;
        return;
      }
      i := i + 1;
    }
    if status.Some? && status.value == Loading {
      appData := Some(AppData(title.GetOr(""), favIconUrl.GetOr("")));
    }
  }

  /**
    A loading tab whose frame carries a policy meta tag gets no `APP_DATA`
    as written, though the intended listener writes it.
   */
  lemma MetaPolicySkipsAppData(tag: MetaTag, title: Option<string>, favIconUrl: Option<string>)
    requires IsMetaCsp(tag)
    ensures CarriesMetaCsp(Some([tag]))
    ensures MetaCspValues([Some([tag])]) == [tag.content]
    ensures TabAppData(Some(Loading), title, favIconUrl).Some?
  {
    assert [Some([tag])][..0] == [];
  }
}
