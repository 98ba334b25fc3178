/**
  The popup's aggregation of the stored findings: grouping by risk level,
  ordering the groups High, Medium, Low, sorting each group by risk score
  and counting the findings per level.
 */
module Popup {
  import opened Wrappers
  import opened Strings
  import opened Dto

  // ---------------------------------------------------------------------------
  // Grouping by risk level
  // ---------------------------------------------------------------------------

  /** The distinct risk levels of the findings, in order of first appearance. */
  function Levels(ds: seq<Directive>): (r: seq<string>)
    ensures forall k :: 0 <= k < |ds| ==> ds[k].riskLevel in r
  {
    if ds == [] then []
    else
      var n := |ds| - 1;
      var prev := Levels(ds[..n]);
      assert forall k :: 0 <= k < n ==> ds[..n][k] == ds[k];
      if ds[n].riskLevel in prev then prev else prev + [ds[n].riskLevel]
  }

  /** No level is listed twice, and every listed level is some finding's. */
  lemma {:induction false} LevelsDistinctAndUsed(ds: seq<Directive>)
    ensures Distinct(Levels(ds))
    ensures forall l :: l in Levels(ds) ==> exists k :: 0 <= k < |ds| && ds[k].riskLevel == l
  {
    if ds != [] {
      var n := |ds| - 1;
      LevelsDistinctAndUsed(ds[..n]);
      assert forall k :: 0 <= k < n ==> ds[..n][k] == ds[k];
    }
  }

  /** The findings of one risk level, in their order. */
  function WithLevel(ds: seq<Directive>, level: string): (r: seq<Directive>)
    ensures |r| <= |ds|
    ensures forall k :: 0 <= k < |r| ==> r[k].riskLevel == level
  {
    if ds == [] then []
    else
      var n := |ds| - 1;
      WithLevel(ds[..n], level) + if ds[n].riskLevel == level then [ds[n]] else []
  }

  /** A level's group holds every finding of that level, once for each time it occurs, and nothing else. */
  lemma {:induction false} WithLevelCounts(ds: seq<Directive>, level: string, x: Directive)
    ensures multiset(WithLevel(ds, level))[x] == if x.riskLevel == level then multiset(ds)[x] else 0
  {
    if ds != [] {
      var n := |ds| - 1;
      WithLevelCounts(ds[..n], level, x);
      assert ds == ds[..n] + [ds[n]];
    }
  }

  /** The groups of the given levels, concatenated in the levels' order. */
  function Flatten(ds: seq<Directive>, levels: seq<string>): seq<Directive> {
    if levels == [] then [] else WithLevel(ds, levels[0]) + Flatten(ds, levels[1..])
  }

  /** A list in which nothing occurs twice. */
  ghost predicate Distinct<T(!new)>(s: seq<T>) {
    forall x :: multiset(s)[x] <= 1
  }

  /** With distinct levels, a finding occurs in the concatenated groups as often as in the input when its level is listed, else never. */
  lemma {:induction false} FlattenCounts(ds: seq<Directive>, levels: seq<string>, x: Directive)
    requires Distinct(levels)
    ensures multiset(Flatten(ds, levels))[x] == if x.riskLevel in levels then multiset(ds)[x] else 0
  {
    if levels != [] {
      assert levels == [levels[0]] + levels[1..];
      assert multiset(levels) == multiset{levels[0]} + multiset(levels[1..]);
      assert forall y :: multiset(levels[1..])[y] <= multiset(levels)[y];
      FlattenCounts(ds, levels[1..], x);
      WithLevelCounts(ds, levels[0], x);
      if x.riskLevel == levels[0] {
        assert multiset(levels[1..])[x.riskLevel] == 0;
      }
    }
  }

  /**
    Grouping partitions the findings: when the levels are distinct and
    include every finding's level, the concatenated groups are a permutation
    of the findings.
   */
  lemma GroupsPartition(ds: seq<Directive>, levels: seq<string>)
    requires Distinct(levels)
    requires forall k :: 0 <= k < |ds| ==> ds[k].riskLevel in levels
    ensures multiset(Flatten(ds, levels)) == multiset(ds)
  {
    forall x
      ensures multiset(Flatten(ds, levels))[x] == multiset(ds)[x]
    {
      FlattenCounts(ds, levels, x);
      if x in ds {
        var k :| 0 <= k < |ds| && ds[k] == x;
      }
    }
  }

  /** A level no finding has has an empty group. */
  lemma {:induction false} WithLevelAbsent(ds: seq<Directive>, level: string)
    requires level !in Levels(ds)
    ensures WithLevel(ds, level) == []
  {
    if ds != [] {
      var n := |ds| - 1;
      assert forall k :: 0 <= k < n ==> ds[..n][k] == ds[k];
      WithLevelAbsent(ds[..n], level);
    }
  }

  /** What the grouped object looks like after the first `i` findings. */
  ghost predicate GroupedUpTo(ds: seq<Directive>, i: nat, keys: seq<string>, groups: map<string, seq<Directive>>)
    requires i <= |ds|
  {
    && keys == Levels(ds[..i])
    && (forall l :: l in groups <==> l in keys)
    && (forall l :: l in groups ==> groups[l] == WithLevel(ds[..i], l))
  }

  /** Creating the missing group and pushing the next finding onto it groups one more finding. */
  lemma GroupOneMore(ds: seq<Directive>, i: nat, keys: seq<string>, groups: map<string, seq<Directive>>)
    requires i < |ds| && GroupedUpTo(ds, i, keys, groups)
    ensures
      var l := ds[i].riskLevel;
      var keys1 := if l in groups then keys else keys + [l];
      var groups1 := if l in groups then groups else groups[l := []];
      GroupedUpTo(ds, i + 1, keys1, groups1[l := groups1[l] + [ds[i]]])
  {
    assert ds[..i + 1][..i] == ds[..i];
    var l := ds[i].riskLevel;
    var groups1 := if l in groups then groups else groups[l := []];
    var groups2 := groups1[l := groups1[l] + [ds[i]]];
    forall m | m in groups2
      ensures groups2[m] == WithLevel(ds[..i + 1], m)
    {
      assert WithLevel(ds[..i + 1], m) == WithLevel(ds[..i], m) + if l == m then [ds[i]] else [];
      if m == l && l !in groups {
        WithLevelAbsent(ds[..i], l);
      }
      if m != l {
        assert groups2[m] == groups[m];
      }
    }
  }

  /**
    The first `reduce`: the object built key by key, as the list of its keys
    in insertion order and the map from each key to its group.
   */
  method GroupByRiskLevel(ds: seq<Directive>) returns (keys: seq<string>, groups: map<string, seq<Directive>>)
    ensures keys == Levels(ds)
    ensures forall l :: l in groups <==> l in keys
    ensures forall l :: l in groups ==> groups[l] == WithLevel(ds, l)
  {
    keys, groups := [], map[];
    for i := 0 to |ds|
      invariant GroupedUpTo(ds, i, keys, groups)
    {
      GroupOneMore(ds, i, keys, groups);
      var d := ds[i];
      if d.riskLevel !in groups {
        keys := keys + [d.riskLevel];
        groups := groups[d.riskLevel := []];
      }
      groups := groups[d.riskLevel := groups[d.riskLevel] + [d]];
    }
    assert ds[..|ds|] == ds;
  }

  // ---------------------------------------------------------------------------
  // Ordering the groups
  // ---------------------------------------------------------------------------

  /** `riskOrder.indexOf(level)`: 0, 1, 2 for High, Medium, Low and -1 for any other level. */
  function Rank(level: string): int {
    if level == High then 0 else if level == Medium then 1 else if level == Low then 2 else -1
  }

  /** Each known level has its own rank, and every other level ranks before all three. */
  lemma RankIdentifiesLevel(level: string)
    ensures -1 <= Rank(level) <= 2
    ensures Rank(level) == 0 <==> level == High
    ensures Rank(level) == 1 <==> level == Medium
    ensures Rank(level) == 2 <==> level == Low
  {
  }

  predicate RankSorted(s: seq<string>) {
    forall i, j :: 0 <= i < j < |s| ==> Rank(s[i]) <= Rank(s[j])
  }

  /** Inserts a key after the trailing keys of higher rank. */
  function InsertByRank(s: seq<string>, x: string): (r: seq<string>)
    ensures multiset(r) == multiset(s) + multiset{x}
  {
    if s == [] then [x]
    else
      var n := |s| - 1;
      if Rank(s[n]) <= Rank(x) then s + [x]
      else
        assert s == s[..n] + [s[n]];
        InsertByRank(s[..n], x) + [s[n]]
  }

  /** Inserting into a list sorted by rank keeps it sorted. */
  lemma {:induction false} InsertByRankSorted(s: seq<string>, x: string)
    requires RankSorted(s)
    ensures RankSorted(InsertByRank(s, x))
  {
    if s != [] {
      var n := |s| - 1;
      if Rank(x) < Rank(s[n]) {
        var shorter := InsertByRank(s[..n], x);
        InsertByRankSorted(s[..n], x);
        assert s == s[..n] + [s[n]];
        forall k | 0 <= k < |shorter|
          ensures Rank(shorter[k]) <= Rank(s[n])
        {
          assert shorter[k] in multiset(s[..n]) + multiset{x};
        }
      }
    }
  }

  /**
    `Object.keys(groups).sort((a, b) => riskOrder.indexOf(a) - riskOrder.indexOf(b))`:
    a stable sort of the keys by rank.
   */
  function OrderByRisk(keys: seq<string>): (r: seq<string>)
    ensures RankSorted(r)
    ensures multiset(r) == multiset(keys)
  {
    if keys == [] then []
    else
      var n := |keys| - 1;
      assert keys == keys[..n] + [keys[n]];
      InsertByRankSorted(OrderByRisk(keys[..n]), keys[n]);
      InsertByRank(OrderByRisk(keys[..n]), keys[n])
  }

  /** The keys of one rank, in their order. */
  function OfRank(s: seq<string>, rank: int): seq<string> {
    if s == [] then []
    else
      var n := |s| - 1;
      OfRank(s[..n], rank) + if Rank(s[n]) == rank then [s[n]] else []
  }

  /** One more key at the end adds it to its own rank's keys. */
  lemma OfRankSnoc(s: seq<string>, y: string, rank: int)
    ensures OfRank(s + [y], rank) == OfRank(s, rank) + if Rank(y) == rank then [y] else []
  {
    assert (s + [y])[..|s|] == s;
  }

  /** Inserting adds the key at the end of its own rank's keys, leaving the other ranks' keys alone. */
  lemma {:induction false} InsertKeepsRankOrder(s: seq<string>, x: string, rank: int)
    ensures OfRank(InsertByRank(s, x), rank) == OfRank(s, rank) + if Rank(x) == rank then [x] else []
  {
    if s == [] {
      OfRankSnoc([], x, rank);
      assert [] + [x] == [x];
    } else {
      var n := |s| - 1;
      if Rank(s[n]) <= Rank(x) {
        OfRankSnoc(s, x, rank);
      } else {
        var shorter := InsertByRank(s[..n], x);
        var fx := if Rank(x) == rank then [x] else [];
        var fy := if Rank(s[n]) == rank then [s[n]] else [];
        calc {
          OfRank(InsertByRank(s, x), rank);
          OfRank(shorter + [s[n]], rank);
          { OfRankSnoc(shorter, s[n], rank); }
          OfRank(shorter, rank) + fy;
          { InsertKeepsRankOrder(s[..n], x, rank); }
          OfRank(s[..n], rank) + fx + fy;
          { assert fx == [] || fy == []; }
          OfRank(s[..n], rank) + fy + fx;
          { OfRankSnoc(s[..n], s[n], rank); assert s[..n] + [s[n]] == s; }
          OfRank(s, rank) + fx;
        }
      }
    }
  }

  /** The sort is stable: the keys of each rank keep their relative order. */
  lemma {:induction false} OrderByRiskStable(keys: seq<string>, rank: int)
    ensures OfRank(OrderByRisk(keys), rank) == OfRank(keys, rank)
  {
    if keys != [] {
      var n := |keys| - 1;
      OrderByRiskStable(keys[..n], rank);
      InsertKeepsRankOrder(OrderByRisk(keys[..n]), keys[n], rank);
    }
  }

  /** One rendered group: a risk level and its findings. */
  datatype Group = Group(level: string, members: seq<Directive>)

  /** The second `reduce`: the groups re-keyed in the rank order of their levels. */
  function OrderedGroups(ds: seq<Directive>): (gs: seq<Group>)
    ensures |gs| == |Levels(ds)|
    ensures forall i, j :: 0 <= i < j < |gs| ==> Rank(gs[i].level) <= Rank(gs[j].level)
    ensures forall i :: 0 <= i < |gs| ==> gs[i].members == WithLevel(ds, gs[i].level)
  {
    var order := OrderByRisk(Levels(ds));
    assert |multiset(order)| == |multiset(Levels(ds))|;
    seq(|order|, i requires 0 <= i < |order| => Group(order[i], WithLevel(ds, order[i])))
  }

  /** The members of the groups, concatenated. */
  function Members(gs: seq<Group>): seq<Directive> {
    if gs == [] then [] else gs[0].members + Members(gs[1..])
  }

  lemma {:induction false} MembersAreFlatten(ds: seq<Directive>, order: seq<string>)
    ensures Members(seq(|order|, i requires 0 <= i < |order| => Group(order[i], WithLevel(ds, order[i])))) == Flatten(ds, order)
  {
    if order != [] {
      var gs := seq(|order|, i requires 0 <= i < |order| => Group(order[i], WithLevel(ds, order[i])));
      var tail := seq(|order| - 1, i requires 0 <= i < |order| - 1 => Group(order[1..][i], WithLevel(ds, order[1..][i])));
      assert gs[1..] == tail;
      MembersAreFlatten(ds, order[1..]);
    }
  }

  /**
    The ordered groups partition the findings: nothing is lost, duplicated
    or invented, every group is non-empty and holds only its level.
   */
  lemma OrderedGroupsPartition(ds: seq<Directive>)
    ensures multiset(Members(OrderedGroups(ds))) == multiset(ds)
    ensures forall g :: g in OrderedGroups(ds) ==> |g.members| > 0
  {
    var levels := Levels(ds);
    var order := OrderByRisk(levels);
    LevelsDistinctAndUsed(ds);
    MembersAreFlatten(ds, order);
    assert Distinct(order);
    forall k | 0 <= k < |ds|
      ensures ds[k].riskLevel in order
    {
      assert ds[k].riskLevel in multiset(levels);
    }
    GroupsPartition(ds, order);
    forall g | g in OrderedGroups(ds)
      ensures |g.members| > 0
    {
      var i :| 0 <= i < |OrderedGroups(ds)| && OrderedGroups(ds)[i] == g;
      assert g.level in multiset(order);
      assert g.level in levels;
      var k :| 0 <= k < |ds| && ds[k].riskLevel == g.level;
      WithLevelCounts(ds, g.level, ds[k]);
      assert ds[k] in multiset(g.members);
    }
  }

  /** With the three known levels present, the groups come High, then Medium, then Low. */
  lemma KnownLevelsInOrder(ds: seq<Directive>, i: int, j: int)
    requires 0 <= i < |OrderedGroups(ds)| && 0 <= j < |OrderedGroups(ds)|
    requires OrderedGroups(ds)[i].level == High && OrderedGroups(ds)[j].level == Medium
    ensures i < j
  {
  }

  // ---------------------------------------------------------------------------
  // Sorting a group by risk score
  // ---------------------------------------------------------------------------

  /** The first `n` elements are in non-increasing score order. */
  ghost predicate SortedPrefix(a: array<Directive>, n: int)
    reads a
  {
    forall i, j :: 0 <= i < j < n && j < a.Length ==> a[i].riskScore >= a[j].riskScore
  }

  /** `directives.sort((a, b) => b.riskScore - a.riskScore)` on one group, in place. */
  method SortByRiskScore(a: array<Directive>)
    modifies a
    ensures forall i, j :: 0 <= i < j < a.Length ==> a[i].riskScore >= a[j].riskScore
    ensures multiset(a[..]) == multiset(old(a[..]))
  {
    var n := 1;
    while n < a.Length
      invariant a.Length == 0 || 1 <= n <= a.Length
      invariant SortedPrefix(a, n)
      invariant multiset(a[..]) == multiset(old(a[..]))
    {
      InsertNext(a, n);
      n := n + 1;
    }
  }

  /** Moves `a[n]` left past every element of lower score, extending the sorted prefix by one. */
  method InsertNext(a: array<Directive>, n: int)
    requires 0 < n < a.Length && SortedPrefix(a, n)
    modifies a
    ensures SortedPrefix(a, n + 1)
    ensures multiset(a[..]) == multiset(old(a[..]))
  {
    var m := n;
    while m > 0 && a[m - 1].riskScore < a[m].riskScore
      invariant 0 <= m <= n
      invariant forall i, j :: 0 <= i < j <= n && j != m ==> a[i].riskScore >= a[j].riskScore
      invariant m < n ==> forall i :: 0 <= i < m ==> a[i].riskScore >= a[m + 1].riskScore
      invariant multiset(a[..]) == multiset(old(a[..]))
    {
      Swap(a, m - 1, m);
      m := m - 1;
    }
  }

  /** Exchanges two elements. */
  method Swap(a: array<Directive>, i: int, j: int)
    requires 0 <= i < a.Length && 0 <= j < a.Length
    modifies a
    ensures a[..] == old(a[..])[i := old(a[j])][j := old(a[i])]
    ensures multiset(a[..]) == multiset(old(a[..]))
  {
    a[i], a[j] := a[j], a[i];
  }

  // ---------------------------------------------------------------------------
  // Counting
  // ---------------------------------------------------------------------------

  /** The popup's counters. */
  datatype Tally = Tally(high: int, medium: int, low: int, total: int)

  /** The number of findings whose level lower-cases to `key`. */
  function CountLevel(ds: seq<Directive>, key: string): (c: nat)
    ensures c <= |ds|
  {
    if ds == [] then 0
    else
      var n := |ds| - 1;
      CountLevel(ds[..n], key) + if ToLower(ds[n].riskLevel) == key then 1 else 0
  }

  /**
    The third `reduce`: `total` starts at the number of findings and each
    finding adds one to the counter its lower-cased level names; a level
    naming no counter adds to none of the four.
   */
  method CountRiskLevels(ds: seq<Directive>) returns (t: Tally)
    ensures t == Tally(CountLevel(ds, "high"), CountLevel(ds, "medium"), CountLevel(ds, "low"), |ds| + CountLevel(ds, "total"))
  {
    t := Tally(0, 0, 0, |ds|);
    for i := 0 to |ds|
      invariant t == Tally(CountLevel(ds[..i], "high"), CountLevel(ds[..i], "medium"), CountLevel(ds[..i], "low"), |ds| + CountLevel(ds[..i], "total"))
    {
      assert ds[..i + 1][..i] == ds[..i];
      var level := ToLower(ds[i].riskLevel);
      if level == "high" {
        t := t.(high := t.high + 1);
      } else if level == "medium" {
        t := t.(medium := t.medium + 1);
      } else if level == "low" {
        t := t.(low := t.low + 1);
      } else if level == "total" {
        t := t.(total := t.total + 1);
      }
    }
    assert ds[..|ds|] == ds;
  }

  /** The three level counters never add up to more than the findings. */
  lemma {:induction false} CountsBounded(ds: seq<Directive>)
    ensures CountLevel(ds, "high") + CountLevel(ds, "medium") + CountLevel(ds, "low") <= |ds|
  {
    if ds != [] {
      CountsBounded(ds[..|ds| - 1]);
    }
  }

  /**
    When every level lower-cases to high, medium or low, no finding adds to
    `total`, and the three counters add up to it: the number of findings.
   */
  lemma {:induction false} KnownLevelsAddUp(ds: seq<Directive>)
    requires forall k :: 0 <= k < |ds| ==> ToLower(ds[k].riskLevel) in ["high", "medium", "low"]
    ensures CountLevel(ds, "total") == 0
    ensures CountLevel(ds, "high") + CountLevel(ds, "medium") + CountLevel(ds, "low") == |ds|
  {
    if ds != [] {
      var n := |ds| - 1;
      assert forall k :: 0 <= k < n ==> ds[..n][k] == ds[k];
      KnownLevelsAddUp(ds[..n]);
    }
  }

  /** The declared levels `High`, `Medium` and `Low` lower-case to the three counters. */
  lemma DeclaredLevelsCounted()
    ensures ToLower(High) == "high" && ToLower(Medium) == "medium" && ToLower(Low) == "low"
  {
  }

  // ---------------------------------------------------------------------------
  // getPageInfo
  // ---------------------------------------------------------------------------

  /**
    `getPageInfo`: the two stored lists (a missing one reads as empty) are
    grouped and ordered, and the findings of both are counted together.
   */
  method GetPageInfo(storedCsp: Option<seq<Directive>>, storedPermissions: Option<seq<Directive>>)
    returns (cspGroups: seq<Group>, permissionGroups: seq<Group>, tally: Tally)
    ensures cspGroups == OrderedGroups(storedCsp.GetOr([]))
    ensures permissionGroups == OrderedGroups(storedPermissions.GetOr([]))
    ensures tally.total == |storedCsp.GetOr([])| + |storedPermissions.GetOr([])| + CountLevel(storedCsp.GetOr([]) + storedPermissions.GetOr([]), "total")
    ensures tally.high == CountLevel(storedCsp.GetOr([]) + storedPermissions.GetOr([]), "high")
    ensures tally.medium == CountLevel(storedCsp.GetOr([]) + storedPermissions.GetOr([]), "medium")
    ensures tally.low == CountLevel(storedCsp.GetOr([]) + storedPermissions.GetOr([]), "low")
  {
    var csp := storedCsp.GetOr([]);
    cspGroups := Regroup(csp);
    var permissions := storedPermissions.GetOr([]);
    permissionGroups := Regroup(permissions);
    tally := CountRiskLevels(csp + permissions);
  }

  /** Groups one list and re-keys the groups in rank order. */
  method Regroup(ds: seq<Directive>) returns (gs: seq<Group>)
    ensures gs == OrderedGroups(ds)
  {
    var keys, groups := GroupByRiskLevel(ds);
    var order := OrderByRisk(keys);
    forall l | l in order
      ensures l in keys
    {
      assert l in multiset(order);
    }
    gs := GroupsInOrder(ds, order, groups);
  }

  /** The second `reduce` proper: one group per key of `order`, read from the grouping. */
  method GroupsInOrder(ds: seq<Directive>, order: seq<string>, groups: map<string, seq<Directive>>) returns (gs: seq<Group>)
    requires forall l :: l in order ==> l in groups && groups[l] == WithLevel(ds, l)
    ensures |gs| == |order|
    ensures forall i :: 0 <= i < |order| ==> gs[i] == Group(order[i], WithLevel(ds, order[i]))
  {
    gs := [];
    for i := 0 to |order|
      invariant |gs| == i
      invariant forall k :: 0 <= k < i ==> gs[k] == Group(order[k], WithLevel(ds, order[k]))
    {
      gs := gs + [Group(order[i], groups[order[i]])];
    }
  }
}
