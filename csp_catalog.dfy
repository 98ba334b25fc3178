/**
  The Content-Security-Policy catalog (`CspDirectives`): the initial state of
  the table the CSP evaluator mutates. Each entry keeps its name, recommended
  tokens, risk level and risk score; its prose is not transcribed.
 */
module CspCatalog {
  import opened Dto
  import DirectiveValue

  const CspDirectives: seq<Directive> := [
      /*  0, lines 6-22 */ CatalogEntry("default-src", [DirectiveValue.None, DirectiveValue.Self, DirectiveValue.HttpsDomain, DirectiveValue.HttpDomain], Medium, 6),
      /*  1, lines 23-38 */ CatalogEntry("script-src", [DirectiveValue.Self, DirectiveValue.Nonce, DirectiveValue.Hash], High, 8),
      /*  2, lines 39-54 */ CatalogEntry("style-src", [DirectiveValue.Self, DirectiveValue.Nonce, DirectiveValue.Hash], Medium, 6),
      /*  3, lines 55-70 */ CatalogEntry("img-src", [DirectiveValue.Self, DirectiveValue.Any, DirectiveValue.HttpsDomain], Low, 3),
      /*  4, lines 71-82 */ CatalogEntry("base-uri", [DirectiveValue.Self], Medium, 5),
      /*  5, lines 83-94 */ CatalogEntry("plugin-types", [DirectiveValue.None], High, 7),
      /*  6, lines 95-106 */ CatalogEntry("report-to", [DirectiveValue.Self, DirectiveValue.HttpsDomain], Low, 3),
      /*  7, lines 107-117 */ CatalogEntry("require-trusted-types-for", [DirectiveValue.AllowSameScript], High, 9),
      /*  8, lines 118-130 */ CatalogEntry("trusted-types", [DirectiveValue.StrictDynamic], High, 9),
      /*  9, lines 131-146 */ CatalogEntry("script-src-elem", [DirectiveValue.Self, DirectiveValue.Nonce, DirectiveValue.Hash], High, 8),
      /* 10, lines 147-162 */ CatalogEntry("script-src-attr", [DirectiveValue.Self, DirectiveValue.Nonce, DirectiveValue.Hash], High, 8),
      /* 11, lines 163-177 */ CatalogEntry("style-src-elem", [DirectiveValue.Self, DirectiveValue.Nonce, DirectiveValue.Hash], Medium, 6),
      /* 12, lines 178-194 */ CatalogEntry("style-src-attr", [DirectiveValue.Self, DirectiveValue.Nonce, DirectiveValue.Hash], Medium, 6),
      /* 13, lines 195-206 */ CatalogEntry("upgrade-insecure-requests", [DirectiveValue.Upgrade], Medium, 5),
      /* 14, lines 207-222 */ CatalogEntry("connect-src", [DirectiveValue.None, DirectiveValue.Self, DirectiveValue.HttpsDomain, DirectiveValue.HttpDomain], High, 7),
      /* 15, lines 223-238 */ CatalogEntry("font-src", [DirectiveValue.None, DirectiveValue.Self, DirectiveValue.HttpsDomain, DirectiveValue.HttpDomain], Low, 3),
      /* 16, lines 239-251 */ CatalogEntry("object-src", [DirectiveValue.None], High, 9),
      /* 17, lines 252-267 */ CatalogEntry("media-src", [DirectiveValue.None, DirectiveValue.Self, DirectiveValue.HttpsDomain, DirectiveValue.HttpDomain], Low, 3),
      /* 18, lines 268-283 */ CatalogEntry("frame-ancestors", [DirectiveValue.None, DirectiveValue.Self, DirectiveValue.HttpsDomain, DirectiveValue.HttpDomain], High, 8),
      /* 19, lines 284-299 */ CatalogEntry("child-src", [DirectiveValue.None, DirectiveValue.Self, DirectiveValue.HttpsDomain, DirectiveValue.HttpDomain], High, 8),
      /* 20, lines 300-315 */ CatalogEntry("frame-src", [DirectiveValue.None, DirectiveValue.Self, DirectiveValue.HttpsDomain, DirectiveValue.HttpDomain], Medium, 5),
      /* 21, lines 316-331 */ CatalogEntry("fenced-frame-src", [DirectiveValue.None, DirectiveValue.Self, DirectiveValue.HttpsDomain, DirectiveValue.HttpDomain], Medium, 5),
      /* 22, lines 332-347 */ CatalogEntry("form-action", [DirectiveValue.None, DirectiveValue.Self, DirectiveValue.HttpsDomain, DirectiveValue.HttpDomain], High, 8),
      /* 23, lines 348-363 */ CatalogEntry("manifest-src", [DirectiveValue.None, DirectiveValue.Self, DirectiveValue.HttpsDomain, DirectiveValue.HttpDomain], Low, 3),
      /* 24, lines 364-379 */ CatalogEntry("worker-src", [DirectiveValue.None, DirectiveValue.Self, DirectiveValue.HttpsDomain, DirectiveValue.HttpDomain], High, 7),
      /* 25, lines 380-393 */ CatalogEntry("sandbox", [DirectiveValue.AllowSameOrigin, DirectiveValue.AllowSameScript], High, 7),
      /* 26, lines 394-406 */ CatalogEntry("require-trusted-types-for", [DirectiveValue.Script], High, 9),
      /* 27, lines 407-422 */ CatalogEntry("report-sample", [DirectiveValue.None, DirectiveValue.Self, DirectiveValue.HttpsDomain, DirectiveValue.HttpDomain], Low, 3)
    ]

  /** Every entry is at one of the three levels the popup orders and counts. */
  lemma LevelsDeclared()
    ensures forall i :: 0 <= i < |CspDirectives| ==> CspDirectives[i].riskLevel in [High, Medium, Low]
  {
  }

  /** Every entry starts with nothing observed. */
  lemma StartsUnobserved()
    ensures forall i :: 0 <= i < |CspDirectives| ==> CspDirectives[i].value == []
  {
  }

  /** Every entry recommends at least one token. */
  lemma RecommendsSomething()
    ensures forall i :: 0 <= i < |CspDirectives| ==> |CspDirectives[i].recommended| > 0
  {
  }

  /** `require-trusted-types-for` is declared twice, at positions 7 and 26. */
  lemma TrustedTypesDeclaredTwice()
    ensures CspDirectives[7].name == CspDirectives[26].name == "require-trusted-types-for"
    ensures CspDirectives[7].recommended == [DirectiveValue.AllowSameScript]
    ensures CspDirectives[26].recommended == [DirectiveValue.Script]
  {
  }

  /** The entries the scenario lemmas read, as declared. */
  lemma DefaultSrcEntry()
    ensures CspDirectives[0] == CatalogEntry("default-src", [DirectiveValue.None, DirectiveValue.Self, DirectiveValue.HttpsDomain, DirectiveValue.HttpDomain], Medium, 6)
  {
  }

  lemma ScriptSrcEntry()
    ensures CspDirectives[1] == CatalogEntry("script-src", [DirectiveValue.Self, DirectiveValue.Nonce, DirectiveValue.Hash], High, 8)
  {
  }

  lemma ImgSrcEntry()
    ensures CspDirectives[3] == CatalogEntry("img-src", [DirectiveValue.Self, DirectiveValue.Any, DirectiveValue.HttpsDomain], Low, 3)
  {
  }
}
