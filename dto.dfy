/**
  The catalog record shared by the Content-Security-Policy and the
  Permissions-Policy tables, and the lookup both evaluators use.
 */
module Dto {
  import opened Wrappers

  /** The record type's `riskScore: 1 | 2 | ... | 10`. */
  type RiskScore = s: int | 1 <= s <= 10 witness 1

  /** The three `RiskLevel` values the popup orders and colours by. */
  const High: string := "High"
  const Medium: string := "Medium"
  const Low: string := "Low"

  /**
    One catalog entry. `value` is the list of values observed on the current
    page; the CSP rule may also overwrite `technicalExplanation` and
    `recommended`.
   */
  datatype Directive = Directive(
    name: string,
    description: string,
    value: seq<string>,
    recommended: seq<string>,
    riskLevel: string,
    riskScore: RiskScore,
    explanation: string,
    technicalExplanation: string)

  /** An entry is reported exactly when no value was confirmed for it. */
  predicate IsFinding(d: Directive) {
    |d.value| == 0
  }

  /** A catalog entry as the tables declare it: nothing observed yet; its prose is not transcribed. */
  function CatalogEntry(name: string, recommended: seq<string>, riskLevel: string, riskScore: RiskScore): Directive {
    Directive(name, "", [], recommended, riskLevel, riskScore, "", "")
  }

  /** `catalog.find((d) => d.name === name)`, as an index: the first entry with exactly that name. */
  function FindFirst(catalog: seq<Directive>, name: string): (r: Option<nat>)
    ensures r.Some? ==> r.value < |catalog| && catalog[r.value].name == name
    ensures r.Some? ==> forall j :: 0 <= j < r.value ==> catalog[j].name != name
    ensures r.None? <==> forall j :: 0 <= j < |catalog| ==> catalog[j].name != name
  {
    if catalog == [] then None
    else if catalog[0].name == name then Some(0)
    else
      match FindFirst(catalog[1..], name)
      case None => None
      case Some(k) => Some(k + 1)
  }

  /** The names of a catalog, in order. */
  function Names(catalog: seq<Directive>): (ns: seq<string>)
    ensures |ns| == |catalog|
    ensures forall i :: 0 <= i < |catalog| ==> ns[i] == catalog[i].name
  {
    seq(|catalog|, i requires 0 <= i < |catalog| => catalog[i].name)
  }

  /** Lookup depends on the names alone, so updates that keep every name keep every lookup. */
  lemma {:induction false} FindFirstByNames(a: seq<Directive>, b: seq<Directive>, name: string)
    requires Names(a) == Names(b)
    ensures FindFirst(a, name) == FindFirst(b, name)
  {
    if a != [] {
      assert a[0].name == Names(a)[0] == Names(b)[0] == b[0].name;
      assert Names(a[1..]) == Names(a)[1..];
      assert Names(b[1..]) == Names(b)[1..];
      FindFirstByNames(a[1..], b[1..], name);
    }
  }
}

/** The CSP source-expression tokens (`DirectiveValue`). */
module DirectiveValue {
  const None: string := "none"
  const Self: string := "self"
  const UnsafeInline: string := "unsafe-inline"
  const UnsafeEval: string := "unsafe-eval"
  const StrictDynamic: string := "strict-dynamic"
  const Data: string := "data:"
  const Blob: string := "blob:"
  const Worker: string := "worker-src"
  const NoneSrc: string := "none src"
  const SelfSrc: string := "self src"
  const UnsafeInlineSrc: string := "unsafe-inline src"
  const UnsafeEvalSrc: string := "unsafe-eval src"
  const HttpsDomain: string := "https://"
  const HttpDomain: string := "http://"
  const Any: string := "*"
  const Nonce: string := "nonce-"
  const Hash: string := "hash-"
  const AllowSameOrigin: string := "allow-same-origin"
  const AllowSameScript: string := "allow-scripts"
  const Script: string := "script"
  const Upgrade: string := "upgrade-insecure-requests"
}

/** The Permissions-Policy allow-list tokens (`PermissionPolicyValue`). */
module PolicyValue {
  const Allowed: string := "*"
  const Disallowed: string := "()"
  const Self: string := "self"
  const HttpsDomain: string := "https://"
  const HttpDomain: string := "http://"
}
