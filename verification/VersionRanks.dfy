/** The stored version rank of packages (`PackageV2.calculate_version_rank` and
  `get_non_vulnerable_versions` in vulnerabilities/models.py).

  A rank is an integer that stands in for comparing versions; zero means not ranked yet.
  Packages come and go, and any of them can trigger a re-ranking of its whole group. */
module VersionRanks {
  import opened Options
  import opened Ordering
  import opened Listings

  type PackageId = nat
  type Version = string

  /** A package row.  `group` is its type, namespace and name; `variant` its qualifiers and
    subpath; `evaluated` and `vulnerable` say whether an unfurled latest advisory names it as fixed or
    as affected. */
  datatype Package = Package(group: string, version: Version, variant: string,
                             evaluated: bool, vulnerable: bool, isGhost: bool, rank: nat)

  type Rows = map<PackageId, Package>

  function GroupIds(rows: Rows, group: string): set<PackageId> {
    set p | p in rows && rows[p].group == group
  }

  predicate NeedsRanking(rows: Rows, group: string) {
    exists p :: p in GroupIds(rows, group) && rows[p].rank == 0
  }

  /** `enumerate(sorted_packages, start=1)` written back. */
  function Ranked(rows: Rows, order: seq<PackageId>): Rows
    requires forall p :: p in order ==> p in rows
  {
    map p | p in rows :: if p in order then rows[p].(rank := 1 + IndexOf(order, p)) else rows[p]
  }

  function IndexOf(s: seq<PackageId>, p: PackageId): (i: nat)
    requires p in s
    ensures i < |s| && s[i] == p && forall j :: 0 <= j < i ==> s[j] != p
  {
    if s[0] == p then 0 else 1 + IndexOf(s[1..], p)
  }

  /** `order` lists the group once each, no version before a smaller one. */
  ghost predicate IsRanking(lt: (Version, Version) -> bool, rows: Rows, group: string, order: seq<PackageId>) {
    && (forall p :: p in order <==> p in GroupIds(rows, group))
    && (forall i, j :: 0 <= i < j < |order| ==> order[i] != order[j])
    && (forall i, j :: 0 <= i < j < |order| ==>
          order[i] in rows && order[j] in rows && !lt(rows[order[j]].version, rows[order[i]].version))
  }

  /** What a call of `calculate_version_rank` may do: nothing while everybody has a rank, else
    rank the group by version, ties in whatever order the rows came. */
  ghost predicate Reranks(lt: (Version, Version) -> bool, rows: Rows, group: string, rows': Rows) {
    if NeedsRanking(rows, group) then
      exists order :: IsRanking(lt, rows, group, order) && rows' == Ranked(rows, order)
    else rows' == rows
  }

  // ----- the code

  /** A package object in memory: which row it is, and the rank it was loaded with. */
  datatype PackageObject = PackageObject(id: PackageId, rank: nat)

  class PackageTable {
    const lt: (Version, Version) -> bool
    var rows: Rows

    constructor (lt: (Version, Version) -> bool)
      ensures this.lt == lt && rows == map[]
    {
      this.lt := lt;
      rows := map[];
    }

    /** The query set of a group, in database order. */
    method GroupPackages(group: string) returns (ids: seq<PackageId>)
      ensures forall p :: p in ids <==> p in GroupIds(rows, group)
      ensures forall i, j :: 0 <= i < j < |ids| ==> ids[i] != ids[j]
    {
      ids := [];
      var rest := GroupIds(rows, group);
      while rest != {}
        invariant forall p :: p in GroupIds(rows, group) <==> p in ids || p in rest
        invariant forall p :: p in ids ==> p !in rest
        invariant forall i, j :: 0 <= i < j < |ids| ==> ids[i] != ids[j]
        decreases rest
      {
        var p :| p in rest;
        ids, rest := ids + [p], rest - {p};
      }
    }

    /** Rank the group if somebody in it has no rank.  The rank returned is the one in memory:
      the rows are updated through other objects. */
    method CalculateVersionRank(package: PackageObject) returns (rank: nat)
      requires StrictWeak(lt) && package.id in rows
      modifies this
      ensures rank == package.rank
      ensures Reranks(lt, old(rows), old(rows)[package.id].group, rows)
    {
      var group := rows[package.id].group;
      var ids := GroupPackages(group);
      var table := rows;
      if exists p :: p in ids && table[p].rank == 0 {
        var order := SortedIds(table, ids);
        rows := WriteRanks(table, order);
        assert IsRanking(lt, table, group, order);
      } else {
        assert forall p :: p in GroupIds(rows, group) ==> p in ids;
      }
      return package.rank;
    }

    /** The `enumerate` loop. */
    static method WriteRanks(table: Rows, order: seq<PackageId>) returns (updated: Rows)
      requires forall p :: p in order ==> p in table
      requires forall i, j :: 0 <= i < j < |order| ==> order[i] != order[j]
      ensures updated == Ranked(table, order)
    {
      updated := table;
      assert forall i :: 0 <= i < |order| ==> order[i] in order;
      for n := 0 to |order|
        invariant updated.Keys == table.Keys
        invariant forall i :: 0 <= i < n ==> updated[order[i]] == table[order[i]].(rank := i + 1)
        invariant forall p :: p in table && p !in order[..n] ==> updated[p] == table[p]
      {
        assert order[..n + 1] == order[..n] + [order[n]];
        updated := updated[order[n] := updated[order[n]].(rank := n + 1)];
      }
      assert order[..|order|] == order;
      forall p | p in table
        ensures updated[p] == Ranked(table, order)[p]
      {
        if p in order {
          assert order[IndexOf(order, p)] == p;
        }
      }
    }

    /** `sorted(group_packages, key=version)`. */
    method SortedIds(table: Rows, ids: seq<PackageId>) returns (order: seq<PackageId>)
      requires StrictWeak(lt)
      requires forall p :: p in ids ==> p in table
      requires forall i, j :: 0 <= i < j < |ids| ==> ids[i] != ids[j]
      ensures forall p :: p in order <==> p in ids
      ensures forall i, j :: 0 <= i < j < |order| ==> order[i] != order[j]
      ensures forall i, j :: 0 <= i < j < |order| ==> !lt(table[order[j]].version, table[order[i]].version)
    {
      var key := (p: PackageId) => if p in table then table[p].version else "";
      var byVersion := (a: PackageId, b: PackageId) => lt(key(a), key(b));
      KeyedOrder(lt, key, byVersion);
      order := Sort(byVersion, ids);
      SortSorts(byVersion, ids);
      SamePermutation(order, ids);
      assert forall i, j :: 0 <= i < j < |order| ==> !byVersion(order[j], order[i]);
    }

    /** The next and the latest non-vulnerable version after a package. */
    method GetNonVulnerableVersions(package: PackageObject)
      returns (next: Option<PackageId>, latest: Option<PackageId>)
      requires StrictWeak(lt) && package.id in rows
      modifies this
      ensures if package.rank == 0 then Reranks(lt, old(rows), old(rows)[package.id].group, rows)
              else rows == old(rows)
      ensures package.id in rows
      ensures IsFirst(rows, After(rows, package), next) && IsLast(rows, After(rows, package), latest)
      ensures BoundsOfRanked(rows, package, next, latest)
      ensures package.rank == 0 && Agree(lt, old(rows)) ==> StaleAnswer(lt, old(rows), package.id, next, latest)
    {
      ghost var before := rows;
      if package.rank == 0 {
        var _ := CalculateVersionRank(package);
      }
      var after := After(rows, package);
      if after == {} {
        next, latest := None, None;
        FirstAndLastBound(rows, package, next, latest);
        Stale(before, package, next, latest);
        return;
      }
      ghost var lo := LowestExists(rows, after);
      var first :| first in after && forall q :: q in after ==> rows[first].rank <= rows[q].rank;
      ghost var hi := HighestExists(rows, after);
      var last :| last in after && forall q :: q in after ==> rows[q].rank <= rows[last].rank;
      next, latest := Some(first), Some(last);
      FirstAndLastBound(rows, package, next, latest);
      Stale(before, package, next, latest);
    }

    /** The case of an object of rank zero. */
    lemma Stale(before: Rows, package: PackageObject, next: Option<PackageId>, latest: Option<PackageId>)
      requires StrictWeak(lt) && package.id in before && package.id in rows
      requires package.rank == 0 ==> Reranks(lt, before, before[package.id].group, rows)
      requires IsFirst(rows, After(rows, package), next) && IsLast(rows, After(rows, package), latest)
      ensures package.rank == 0 && Agree(lt, before) ==> StaleAnswer(lt, before, package.id, next, latest)
    {
      if package.rank == 0 && Agree(lt, before) {
        StaleObjectExactly(lt, before, package.id, rows, next, latest);
      }
    }
  }

  lemma KeyedOrder(lt: (Version, Version) -> bool, key: PackageId -> Version, byVersion: (PackageId, PackageId) -> bool)
    requires StrictWeak(lt)
    requires forall a, b :: byVersion(a, b) == lt(key(a), key(b))
    ensures StrictWeak(byVersion)
  {
    forall x, y, z | byVersion(x, z)
      ensures byVersion(x, y) || byVersion(y, z)
    {
      assert lt(key(x), key(y)) || lt(key(y), key(z));
    }
    forall x, y, z | byVersion(x, y) && byVersion(y, z)
      ensures byVersion(x, z)
    {
      assert lt(key(x), key(z));
    }
  }

  lemma SamePermutation(s: seq<PackageId>, t: seq<PackageId>)
    requires multiset(s) == multiset(t)
    requires forall i, j :: 0 <= i < j < |t| ==> t[i] != t[j]
    ensures forall p :: p in s <==> p in t
    ensures forall i, j :: 0 <= i < j < |s| ==> s[i] != s[j]
  {
    forall p | true
      ensures p in s <==> p in t
    {
      assert p in multiset(s) <==> p in multiset(t);
    }
    forall i, j | 0 <= i < j < |s|
      ensures s[i] != s[j]
    {
      if s[i] == s[j] {
        TwiceCounts(s, i, j);
        OnceCounts(t, s[i]);
      }
    }
  }

  lemma TwiceCounts(s: seq<PackageId>, i: nat, j: nat)
    requires i < j < |s| && s[i] == s[j]
    ensures multiset(s)[s[i]] >= 2
  {
    assert s == s[..i] + [s[i]] + s[i + 1..j] + [s[j]] + s[j + 1..];
  }

  lemma {:induction false} OnceCounts(t: seq<PackageId>, p: PackageId)
    requires forall i, j :: 0 <= i < j < |t| ==> t[i] != t[j]
    ensures multiset(t)[p] <= 1
  {
    if t != [] {
      assert t == [t[0]] + t[1..];
      OnceCounts(t[1..], p);
      assert t[0] !in t[1..] by {
        assert forall k :: 0 <= k < |t[1..]| ==> t[1..][k] == t[k + 1];
      }
    }
  }

  /** The rows of the final query: same package and variant, non-vulnerable, of higher rank. */
  function After(rows: Rows, package: PackageObject): set<PackageId>
    requires package.id in rows
  {
    set q | q in Qualifying(rows, package.id) && rows[q].rank > package.rank
  }

  function Qualifying(rows: Rows, p: PackageId): set<PackageId>
    requires p in rows
  {
    set q | q in rows && rows[q].group == rows[p].group && rows[q].variant == rows[p].variant
            && rows[q].evaluated && !rows[q].vulnerable && !rows[q].isGhost
  }

  ghost predicate IsFirst(rows: Rows, ids: set<PackageId>, p: Option<PackageId>)
    requires forall q :: q in ids ==> q in rows
  {
    if ids == {} then p == None
    else p.Some? && p.value in ids && forall q :: q in ids ==> rows[p.value].rank <= rows[q].rank
  }

  ghost predicate IsLast(rows: Rows, ids: set<PackageId>, p: Option<PackageId>)
    requires forall q :: q in ids ==> q in rows
  {
    if ids == {} then p == None
    else p.Some? && p.value in ids && forall q :: q in ids ==> rows[q].rank <= rows[p.value].rank
  }

  /** Both answers are packages of higher rank, of the same group and variant, evaluated and neither
    vulnerable nor ghosts; and they bound the ranks of all such packages. */
  ghost predicate BoundsOfRanked(rows: Rows, package: PackageObject, next: Option<PackageId>, latest: Option<PackageId>)
    requires package.id in rows
  {
    var p := rows[package.id];
    && (next.Some? <==> latest.Some?)
    && (next.Some? ==>
          && next.value in rows && latest.value in rows
          && var n, l := rows[next.value], rows[latest.value];
             && n.rank > package.rank && n.group == p.group && n.variant == p.variant
             && n.evaluated && !n.vulnerable && !n.isGhost
             && l.rank > package.rank && l.group == p.group && l.variant == p.variant
             && l.evaluated && !l.vulnerable && !l.isGhost)
    && forall q | q in rows && rows[q].rank > package.rank && rows[q].group == p.group
                  && rows[q].variant == p.variant && rows[q].evaluated && !rows[q].vulnerable && !rows[q].isGhost ::
         next.Some? && rows[next.value].rank <= rows[q].rank <= rows[latest.value].rank
  }

  lemma FirstAndLastBound(rows: Rows, package: PackageObject, next: Option<PackageId>, latest: Option<PackageId>)
    requires package.id in rows
    requires IsFirst(rows, After(rows, package), next) && IsLast(rows, After(rows, package), latest)
    ensures BoundsOfRanked(rows, package, next, latest)
  {
    var p := rows[package.id];
    forall q | q in rows && rows[q].rank > package.rank && rows[q].group == p.group
               && rows[q].variant == p.variant && rows[q].evaluated && !rows[q].vulnerable && !rows[q].isGhost
      ensures next.Some? && rows[next.value].rank <= rows[q].rank <= rows[latest.value].rank
    {
      assert q in After(rows, package);
    }
  }

  lemma {:induction false} LowestExists(rows: Rows, ids: set<PackageId>) returns (p: PackageId)
    requires ids != {} && forall q :: q in ids ==> q in rows
    ensures p in ids && forall q :: q in ids ==> rows[p].rank <= rows[q].rank
    decreases ids
  {
    p :| p in ids;
    if ids != {p} {
      var q := LowestExists(rows, ids - {p});
      p := if rows[q].rank < rows[p].rank then q else p;
    }
  }

  lemma {:induction false} HighestExists(rows: Rows, ids: set<PackageId>) returns (p: PackageId)
    requires ids != {} && forall q :: q in ids ==> q in rows
    ensures p in ids && forall q :: q in ids ==> rows[q].rank <= rows[p].rank
    decreases ids
  {
    p :| p in ids;
    if ids != {p} {
      var q := HighestExists(rows, ids - {p});
      p := if rows[q].rank > rows[p].rank then q else p;
    }
  }

  // ----- ranks agree with versions, over every history

  /** Ranks that exist are distinct within a group and never contradict the version order. */
  ghost predicate Agree(lt: (Version, Version) -> bool, rows: Rows) {
    forall p, q :: p in rows && q in rows && p != q && rows[p].group == rows[q].group
                   && 0 < rows[p].rank <= rows[q].rank ==>
                     rows[p].rank < rows[q].rank && !lt(rows[q].version, rows[p].version)
  }

  /** Packages are added without rank, removed, and groups re-ranked. */
  ghost predicate Step(lt: (Version, Version) -> bool, rows: Rows, rows': Rows) {
    || (exists p: PackageId, package :: p !in rows && rows' == rows[p := package] && package.rank == 0)
    || (exists ids :: rows' == rows - ids)
    || (exists group :: Reranks(lt, rows, group, rows'))
  }

  /** Other writers: jobs that save whole package objects they loaded earlier, and re-rankings that
    write ranks they computed from an earlier table. */
  datatype Writers = Writers(staleSaves: bool, lateRanks: bool)

  /** A package object loaded at some earlier time is saved with a new ghost flag, rank and all. */
  ghost predicate StaleSave(h: seq<Rows>, i: nat)
    requires i + 1 < |h|
  {
    exists j, p, isGhost :: 0 <= j <= i && p in h[j] && h[i + 1] == h[i][p := h[j][p].(isGhost := isGhost)]
  }

  /** A ranking of some earlier table is written to the packages that are still there. */
  ghost predicate LateRank(lt: (Version, Version) -> bool, h: seq<Rows>, i: nat)
    requires i + 1 < |h|
  {
    exists j, group, order :: 0 <= j <= i && IsRanking(lt, h[j], group, order) && h[i + 1] == WrittenLate(h[i], order)
  }

  function WrittenLate(rows: Rows, order: seq<PackageId>): Rows {
    map p | p in rows :: if p in order then rows[p].(rank := 1 + IndexOf(order, p)) else rows[p]
  }

  ghost predicate History(lt: (Version, Version) -> bool, w: Writers, h: seq<Rows>) {
    && |h| > 0 && h[0] == map[]
    && forall i :: 0 <= i < |h| - 1 ==> HistoryStep(lt, w, h, i)
  }

  ghost predicate HistoryStep(lt: (Version, Version) -> bool, w: Writers, h: seq<Rows>, i: nat)
    requires i + 1 < |h|
  {
    || Step(lt, h[i], h[i + 1])
    || (w.staleSaves && StaleSave(h, i))
    || (w.lateRanks && LateRank(lt, h, i))
  }

  lemma RankingAgrees(lt: (Version, Version) -> bool, rows: Rows, group: string, order: seq<PackageId>)
    requires Agree(lt, rows) && IsRanking(lt, rows, group, order)
    ensures Agree(lt, Ranked(rows, order))
  {
    var rows' := Ranked(rows, order);
    forall p, q | p in rows' && q in rows' && p != q && rows'[p].group == rows'[q].group
                  && 0 < rows'[p].rank <= rows'[q].rank
      ensures rows'[p].rank < rows'[q].rank && !lt(rows'[q].version, rows'[p].version)
    {
      assert p in order <==> p in GroupIds(rows, group);
      assert q in order <==> q in GroupIds(rows, group);
      if p in order {
        var i, j := IndexOf(order, p), IndexOf(order, q);
        assert order[i] == p && order[j] == q;
      }
    }
  }

  lemma StepKeepsAgree(lt: (Version, Version) -> bool, rows: Rows, rows': Rows)
    requires Agree(lt, rows) && Step(lt, rows, rows')
    ensures Agree(lt, rows')
  {
    if group :| Reranks(lt, rows, group, rows') {
      if NeedsRanking(rows, group) {
        var order :| IsRanking(lt, rows, group, order) && rows' == Ranked(rows, order);
        RankingAgrees(lt, rows, group, order);
      }
    }
  }

  /** Over any history of adding, removing and re-ranking, ranks agree with versions. */
  lemma {:induction false} HistoryKeepsAgree(lt: (Version, Version) -> bool, w: Writers, h: seq<Rows>)
    requires !w.staleSaves && !w.lateRanks && History(lt, w, h)
    ensures Agree(lt, h[|h| - 1])
  {
    if |h| > 1 {
      var init := h[..|h| - 1];
      forall i | 0 <= i < |init| - 1
        ensures HistoryStep(lt, w, init, i)
      {
        assert HistoryStep(lt, w, h, i);
        assert init[i] == h[i] && init[i + 1] == h[i + 1];
      }
      HistoryKeepsAgree(lt, w, init);
      assert HistoryStep(lt, w, h, |h| - 2);
      StepKeepsAgree(lt, h[|h| - 2], h[|h| - 1]);
    }
  }

  /** With other writers about, they do not: of two packages of one version, 0 is ranked first, then 1
    joins and is ranked before it, and then the old rank of 0 comes back. */
  lemma OldRankReturns(lt: (Version, Version) -> bool, w: Writers) returns (h: seq<Rows>)
    requires StrictWeak(lt) && (w.staleSaves || w.lateRanks)
    ensures History(lt, w, h) && !Agree(lt, h[|h| - 1])
  {
    h := [map[], Zero(0), Zero(1), Both(1, 0), Both(2, 1), Both(1, 1)];
    OrdinarySteps(lt);
    OldRankStep(lt, w, h);
    forall i | 0 <= i < |h| - 1
      ensures HistoryStep(lt, w, h, i)
    {
      assert i == 0 || i == 1 || i == 2 || i == 3 || i == 4;
    }
    var rows := Both(1, 1);
    assert 0 in rows && 1 in rows && rows[0].rank == rows[1].rank == 1;
  }

  lemma OrdinarySteps(lt: (Version, Version) -> bool)
    requires StrictWeak(lt)
    ensures Step(lt, map[], Zero(0)) && Step(lt, Zero(0), Zero(1))
    ensures Step(lt, Zero(1), Both(1, 0)) && Step(lt, Both(1, 0), Both(2, 1))
  {
    AddStep(lt, map[], 0, ZeroRow(0));
    AddStep(lt, Zero(1), 1, OneRow(0));
    assert Both(1, 0) == Zero(1)[1 := OneRow(0)];
    RanksZero(lt);
    RerankStep(lt, Zero(0), "a", Zero(1));
    RanksBoth(lt);
    RerankStep(lt, Both(1, 0), "a", Both(2, 1));
  }

  lemma AddStep(lt: (Version, Version) -> bool, rows: Rows, p: PackageId, package: Package)
    requires p !in rows && package.rank == 0
    ensures Step(lt, rows, rows[p := package])
  {
  }

  lemma RerankStep(lt: (Version, Version) -> bool, rows: Rows, group: string, rows': Rows)
    requires Reranks(lt, rows, group, rows')
    ensures Step(lt, rows, rows')
  {
  }

  lemma OldRankStep(lt: (Version, Version) -> bool, w: Writers, h: seq<Rows>)
    requires StrictWeak(lt) && (w.staleSaves || w.lateRanks)
    requires |h| == 6 && h[1] == Zero(0) && h[2] == Zero(1) && h[4] == Both(2, 1) && h[5] == Both(1, 1)
    ensures HistoryStep(lt, w, h, 4)
  {
    if w.staleSaves {
      assert h[5] == h[4][0 := h[2][0].(isGhost := false)];
      assert StaleSave(h, 4);
    } else {
      RanksZero(lt);
      LateWrite();
      assert LateRank(lt, h, 4);
    }
  }

  function ZeroRow(rank: nat): Package {
    Package("a", "1", "", true, false, false, rank)
  }

  function OneRow(rank: nat): Package {
    Package("a", "1", "x", true, false, false, rank)
  }

  function Zero(rank: nat): Rows {
    map[0 := ZeroRow(rank)]
  }

  function Both(zero: nat, one: nat): Rows {
    map[0 := ZeroRow(zero), 1 := OneRow(one)]
  }

  lemma RanksZero(lt: (Version, Version) -> bool)
    requires StrictWeak(lt)
    ensures IsRanking(lt, Zero(0), "a", [0]) && Reranks(lt, Zero(0), "a", Zero(1))
  {
    assert 0 in GroupIds(Zero(0), "a");
    assert Ranked(Zero(0), [0]) == Zero(1);
  }

  lemma RanksBoth(lt: (Version, Version) -> bool)
    requires StrictWeak(lt)
    ensures Reranks(lt, Both(1, 0), "a", Both(2, 1))
  {
    var rows, order := Both(1, 0), [1, 0];
    assert 1 in GroupIds(rows, "a");
    assert !lt("1", "1");
    assert IsRanking(lt, rows, "a", order);
    assert IndexOf(order, 1) == 0 && IndexOf(order, 0) == 1;
    assert Ranked(rows, order) == Both(2, 1);
  }

  lemma LateWrite()
    ensures WrittenLate(Both(2, 1), [0]) == Both(1, 1)
  {
  }

  /** Ranks agree with versions over all histories exactly when there are no other writers. */
  lemma HistoriesAgreeExactly(lt: (Version, Version) -> bool, w: Writers)
    requires StrictWeak(lt)
    ensures (forall h :: History(lt, w, h) ==> Agree(lt, h[|h| - 1])) <==> !w.staleSaves && !w.lateRanks
  {
    if w.staleSaves || w.lateRanks {
      var h := OldRankReturns(lt, w);
    } else {
      forall h | History(lt, w, h)
        ensures Agree(lt, h[|h| - 1])
      {
        HistoryKeepsAgree(lt, w, h);
      }
    }
  }

  ghost predicate SomebodyHas(rows: Rows, group: string, r: nat) {
    exists p :: p in GroupIds(rows, group) && rows[p].rank == r
  }

  lemma RankAt(rows: Rows, order: seq<PackageId>, i: nat)
    requires i < |order| && forall p :: p in order ==> p in rows
    requires forall i, j :: 0 <= i < j < |order| ==> order[i] != order[j]
    ensures order[i] in rows && Ranked(rows, order)[order[i]].rank == i + 1
  {
    assert order[i] in order;
    assert IndexOf(order, order[i]) == i;
  }

  /** A re-ranking that was needed numbers the group 1 to n without gap or repetition, and
    leaves every other group alone. */
  lemma RerankingIsBijection(lt: (Version, Version) -> bool, rows: Rows, group: string, rows': Rows)
    requires NeedsRanking(rows, group) && Reranks(lt, rows, group, rows')
    ensures GroupIds(rows', group) == GroupIds(rows, group)
    ensures forall p :: p in GroupIds(rows', group) ==> 1 <= rows'[p].rank <= |GroupIds(rows', group)|
    ensures forall p, q :: p in GroupIds(rows', group) && q in GroupIds(rows', group) && p != q ==>
                             rows'[p].rank != rows'[q].rank
    ensures forall r: nat :: SomebodyHas(rows', group, r) <==> 1 <= r <= |GroupIds(rows', group)|
    ensures forall p :: p in rows && rows[p].group != group ==> p in rows' && rows'[p] == rows[p]
  {
    var order :| IsRanking(lt, rows, group, order) && rows' == Ranked(rows, order);
    var ids := GroupIds(rows, group);
    ListedOnce(order, ids);
    RankedGroup(rows, group, order);
    forall r: nat | 1 <= r <= |ids|
      ensures SomebodyHas(rows', group, r)
    {
      RankAt(rows, order, r - 1);
      assert order[r - 1] in order;
      assert order[r - 1] in GroupIds(rows', group);
    }
  }

  /** And nothing is written while every package of the group has a rank. */
  lemma RerankingOnlyWhenNeeded(lt: (Version, Version) -> bool, rows: Rows, group: string, rows': Rows)
    requires Reranks(lt, rows, group, rows')
    requires forall p :: p in rows && rows[p].group == group ==> rows[p].rank > 0
    ensures rows' == rows
  {
  }

  lemma RankedGroup(rows: Rows, group: string, order: seq<PackageId>)
    requires forall p :: p in order <==> p in GroupIds(rows, group)
    ensures GroupIds(Ranked(rows, order), group) == GroupIds(rows, group)
    ensures forall p :: p in GroupIds(rows, group) ==> Ranked(rows, order)[p].rank == 1 + IndexOf(order, p)
    ensures forall p, q :: p in order && q in order && p != q ==> IndexOf(order, p) != IndexOf(order, q)
  {
  }

  // ----- the versions the index answers with

  ghost predicate FullyRanked(rows: Rows, group: string) {
    forall p :: p in GroupIds(rows, group) ==> rows[p].rank > 0
  }

  /** With the group ranked and the object loaded afterwards: both answers are evaluated packages
    of the same group and variant that are neither vulnerable nor ghosts; of all such packages, `next`
    is not below the one asked about and not above any that is greater, and `latest` is not below any;
    and both exist as soon as some such version is greater. */
  lemma AnswersMatchVersions(lt: (Version, Version) -> bool, rows: Rows, package: PackageObject,
                             next: Option<PackageId>, latest: Option<PackageId>)
    requires StrictWeak(lt) && Agree(lt, rows) && package.id in rows && FullyRanked(rows, rows[package.id].group)
    requires package.rank == rows[package.id].rank
    requires IsFirst(rows, After(rows, package), next) && IsLast(rows, After(rows, package), latest)
    ensures next.Some? <==> latest.Some?
    ensures next.Some? ==>
              var n, l, p := rows[next.value], rows[latest.value], rows[package.id];
              && n.group == l.group == p.group && n.variant == l.variant == p.variant
              && n.evaluated && !n.vulnerable && !n.isGhost && l.evaluated && !l.vulnerable && !l.isGhost
    ensures next != Some(package.id) && latest != Some(package.id)
    ensures next.Some? ==> !lt(rows[next.value].version, rows[package.id].version)
    ensures forall q :: q in rows && rows[q].group == rows[package.id].group
                        && rows[q].variant == rows[package.id].variant
                        && rows[q].evaluated && !rows[q].vulnerable && !rows[q].isGhost ==>
                          && (lt(rows[package.id].version, rows[q].version) ==>
                                next.Some? && !lt(rows[q].version, rows[next.value].version))
                          && (latest.Some? ==> !lt(rows[latest.value].version, rows[q].version))
  {
    var p := package.id;
    assert p in GroupIds(rows, rows[p].group) && !lt(rows[p].version, rows[p].version);
    forall q | q in Qualifying(rows, p)
      ensures lt(rows[p].version, rows[q].version) ==>
                next.Some? && !lt(rows[q].version, rows[next.value].version)
      ensures latest.Some? ==> !lt(rows[latest.value].version, rows[q].version)
    {
      RankedAgainst(lt, rows, package, next, latest, q);
    }
  }

  lemma RankedAgainst(lt: (Version, Version) -> bool, rows: Rows, package: PackageObject,
                      next: Option<PackageId>, latest: Option<PackageId>, q: PackageId)
    requires StrictWeak(lt) && Agree(lt, rows) && package.id in rows && FullyRanked(rows, rows[package.id].group)
    requires package.rank == rows[package.id].rank && q in Qualifying(rows, package.id)
    requires IsFirst(rows, After(rows, package), next) && IsLast(rows, After(rows, package), latest)
    ensures lt(rows[package.id].version, rows[q].version) ==>
              next.Some? && !lt(rows[q].version, rows[next.value].version)
    ensures latest.Some? ==> !lt(rows[latest.value].version, rows[q].version)
  {
    var p := package.id;
    assert q in GroupIds(rows, rows[p].group) && p in GroupIds(rows, rows[p].group);
    assert !lt(rows[p].version, rows[p].version) && !lt(rows[q].version, rows[q].version);
    assert lt(rows[p].version, rows[q].version) ==> q in After(rows, package);
  }

  /** No qualifying version lies below the package's own. */
  ghost predicate NoneBelow(lt: (Version, Version) -> bool, rows: Rows, id: PackageId)
    requires id in rows
  {
    forall q :: q in Qualifying(rows, id) ==> !lt(rows[q].version, rows[id].version)
  }

  /** Re-ranking keeps everything but ranks, and leaves nobody in the group without one. */
  lemma RerankingKeepsVersions(lt: (Version, Version) -> bool, rows: Rows, group: string, rows': Rows)
    requires Agree(lt, rows) && Reranks(lt, rows, group, rows')
    ensures Agree(lt, rows') && FullyRanked(rows', group)
    ensures rows'.Keys == rows.Keys && forall p :: p in rows ==> rows'[p] == rows[p].(rank := rows'[p].rank)
    ensures forall p :: p in rows ==> Qualifying(rows', p) == Qualifying(rows, p)
  {
    if NeedsRanking(rows, group) {
      var order :| IsRanking(lt, rows, group, order) && rows' == Ranked(rows, order);
      RankingAgrees(lt, rows, group, order);
      RankedGroup(rows, group, order);
      RankedKeepsVersions(rows, order);
    }
  }

  lemma RankedKeepsVersions(rows: Rows, order: seq<PackageId>)
    requires forall p :: p in order ==> p in rows
    ensures var rows' := Ranked(rows, order);
            && rows'.Keys == rows.Keys
            && (forall p :: p in rows ==> rows'[p] == rows[p].(rank := rows'[p].rank))
            && (forall p :: p in rows ==> Qualifying(rows', p) == Qualifying(rows, p))
  {
  }

  /** An object loaded before its group was ranked still carries rank zero, and the query then
    starts from the bottom of the qualifying versions: `next` is a least and `latest` a greatest
    of them.  So `next` is not below the package exactly when no qualifying version is. */
  lemma StaleObjectExactly(lt: (Version, Version) -> bool, rows: Rows, id: PackageId, rows': Rows,
                           next: Option<PackageId>, latest: Option<PackageId>)
    requires StrictWeak(lt) && Agree(lt, rows) && id in rows && id in rows'
    requires Reranks(lt, rows, rows[id].group, rows')
    requires IsFirst(rows', After(rows', PackageObject(id, 0)), next)
    requires IsLast(rows', After(rows', PackageObject(id, 0)), latest)
    ensures StaleAnswer(lt, rows, id, next, latest)
  {
    RerankingKeepsVersions(lt, rows, rows[id].group, rows');
    RankZeroAnswer(lt, rows', id, next, latest);
    assert NoneBelow(lt, rows', id) <==> NoneBelow(lt, rows, id);
  }

  /** The same on the ranked table. */
  lemma RankZeroAnswer(lt: (Version, Version) -> bool, rows: Rows, id: PackageId,
                       next: Option<PackageId>, latest: Option<PackageId>)
    requires StrictWeak(lt) && Agree(lt, rows) && id in rows && FullyRanked(rows, rows[id].group)
    requires IsFirst(rows, After(rows, PackageObject(id, 0)), next)
    requires IsLast(rows, After(rows, PackageObject(id, 0)), latest)
    ensures StaleAnswer(lt, rows, id, next, latest)
  {
    var ids := Qualifying(rows, id);
    forall q | q in ids
      ensures rows[q].rank > 0
    {
      assert q in GroupIds(rows, rows[id].group);
    }
    assert After(rows, PackageObject(id, 0)) == ids;
    if ids != {} {
      forall q, r | q in ids && r in ids && rows[q].rank <= rows[r].rank
        ensures !lt(rows[r].version, rows[q].version)
      {
        assert !lt(rows[q].version, rows[q].version);
      }
      LeastIsNotBelow(lt, rows, id, next.value);
    }
  }

  lemma LeastIsNotBelow(lt: (Version, Version) -> bool, rows: Rows, id: PackageId, least: PackageId)
    requires StrictWeak(lt) && id in rows && least in Qualifying(rows, id)
    requires forall q :: q in Qualifying(rows, id) ==> !lt(rows[q].version, rows[least].version)
    ensures !lt(rows[least].version, rows[id].version) <==> NoneBelow(lt, rows, id)
  {
    if !NoneBelow(lt, rows, id) {
      var q :| q in Qualifying(rows, id) && lt(rows[q].version, rows[id].version);
      assert lt(rows[q].version, rows[least].version) || lt(rows[least].version, rows[id].version);
    }
  }

  /** What an object of rank zero is answered, in versions the rows had before the call. */
  ghost predicate StaleAnswer(lt: (Version, Version) -> bool, rows: Rows, id: PackageId,
                              next: Option<PackageId>, latest: Option<PackageId>)
    requires id in rows
  {
    var ids := Qualifying(rows, id);
    if ids == {} then next == None && latest == None
    else
      && next.Some? && latest.Some? && next.value in ids && latest.value in ids
      && (forall q :: q in ids ==> !lt(rows[q].version, rows[next.value].version))
      && (forall q :: q in ids ==> !lt(rows[latest.value].version, rows[q].version))
      && (!lt(rows[next.value].version, rows[id].version) <==> NoneBelow(lt, rows, id))
  }

  /** The next version after version 2 comes out as version 1. */
  lemma StaleObjectExample()
    ensures var rows: Rows := map[0 := Package("pypi/a", "1", "", true, false, false, 1),
                                  1 := Package("pypi/a", "2", "", true, true, false, 2)];
            IsFirst(rows, After(rows, PackageObject(1, 0)), Some(0))
  {
    var rows: Rows := map[0 := Package("pypi/a", "1", "", true, false, false, 1),
                          1 := Package("pypi/a", "2", "", true, true, false, 2)];
    assert After(rows, PackageObject(1, 0)) == {0};
  }
}
