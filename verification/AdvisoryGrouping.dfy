/** The list-scan merge of `get_merged_identifier_groups` in vulnerabilities/utils.py.

  The advisories are indexed by identifier, overlapping groups are merged by a scan that
  pops from the very list it walks, ungrouped advisories are added as singletons, and each
  group gets a primary advisory. */
module AdvisoryGrouping {
  import opened Connectivity
  import opened Advisories

  // ----- indexing

  /** `identifier_groups[key].add(adv)` on a defaultdict of sets. */
  function AddTo(index: map<string, set<Advisory>>, key: string, a: Advisory): map<string, set<Advisory>> {
    index[key := (if key in index then index[key] else {}) + {a}]
  }

  ghost predicate IsIndex(advisories: set<Advisory>, keys: seq<string>, index: map<string, set<Advisory>>) {
    && Elements(keys) == index.Keys == AllIdentifiers(advisories)
    && forall k :: k in index ==> index[k] == Holders(advisories, k)
  }

  lemma IndexGrows(advisories: set<Advisory>, a: Advisory, k: string)
    ensures AllIdentifiers(advisories + {a}) == AllIdentifiers(advisories) + a.Identifiers()
    ensures Holders(advisories + {a}, k)
         == Holders(advisories, k) + (if k in a.Identifiers() then {a} else {})
    ensures k !in AllIdentifiers(advisories) ==> Holders(advisories, k) == {}
  {
  }

  /** The dict after filing `a` under `ids`, one after the other. */
  function AddUnder(index: map<string, set<Advisory>>, ids: seq<string>, a: Advisory)
    : (r: map<string, set<Advisory>>)
    ensures r.Keys == index.Keys + Elements(ids)
    ensures forall k :: k in r ==>
                          r[k] == (if k in index then index[k] else {}) + (if k in ids then {a} else {})
  {
    if ids == [] then index
    else
      var last := |ids| - 1;
      assert ids == ids[..last] + [ids[last]];
      AddTo(AddUnder(index, ids[..last], a), ids[last], a)
  }

  lemma AddUnderStep(index: map<string, set<Advisory>>, ids: seq<string>, j: nat, a: Advisory)
    requires j < |ids|
    ensures AddUnder(index, ids[..j + 1], a) == AddTo(AddUnder(index, ids[..j], a), ids[j], a)
  {
    assert ids[..j + 1][..j] == ids[..j];
  }

  /** The inner loop: file one advisory under its id and under each alias. */
  method IndexOne(a: Advisory, keys: seq<string>, index: map<string, set<Advisory>>)
    returns (keys': seq<string>, index': map<string, set<Advisory>>)
    requires forall k :: k in keys <==> k in index
    ensures forall k :: k in keys' <==> k in index'
    ensures index' == AddUnder(index, a.IdentifierList(), a)
  {
    keys', index' := keys, index;
    var ids := a.IdentifierList();
    for j := 0 to |ids|
      invariant forall k :: k in keys' <==> k in index'
      invariant index' == AddUnder(index, ids[..j], a)
    {
      AddUnderStep(index, ids, j, a);
      if ids[j] !in index' {
        keys' := keys' + [ids[j]];
      }
      index' := AddTo(index', ids[j], a);
    }
    assert ids[..|ids|] == ids;
  }

  lemma IndexedOneMore(seen: set<Advisory>, a: Advisory, keys: seq<string>,
                       index: map<string, set<Advisory>>, keys': seq<string>)
    requires IsIndex(seen, keys, index)
    requires Elements(keys') == AddUnder(index, a.IdentifierList(), a).Keys
    ensures IsIndex(seen + {a}, keys', AddUnder(index, a.IdentifierList(), a))
  {
    var index' := AddUnder(index, a.IdentifierList(), a);
    IndexGrows(seen, a, "");
    forall k | k in index'
      ensures index'[k] == Holders(seen + {a}, k)
    {
      IndexGrows(seen, a, k);
    }
  }

  /** The dict of identifiers; `keys` is its insertion order. */
  method IndexByIdentifier(advisories: seq<Advisory>)
    returns (keys: seq<string>, index: map<string, set<Advisory>>)
    ensures IsIndex(Elements(advisories), keys, index)
  {
    keys, index := [], map[];
    for n := 0 to |advisories|
      invariant IsIndex(Elements(advisories[..n]), keys, index)
    {
      ghost var keys0, index0 := keys, index;
      assert forall k :: k in keys <==> k in Elements(keys);
      keys, index := IndexOne(advisories[n], keys, index);
      IndexedOneMore(Elements(advisories[..n]), advisories[n], keys0, index0, keys);
      assert Elements(advisories[..n + 1]) == Elements(advisories[..n]) + {advisories[n]};
    }
    assert advisories[..|advisories|] == advisories;
  }

  // ----- merging

  ghost function Union<T>(sets: seq<set<T>>): set<T> {
    set s, x | s in sets && x in s :: x
  }

  ghost predicate PairwiseDisjoint<T>(sets: seq<set<T>>) {
    forall i, j :: 0 <= i < j < |sets| ==> sets[i] !! sets[j]
  }

  /** `sets` are the components of the hypergraph whose edges are `edges`. */
  ghost predicate AreComponents<T(!new)>(sets: seq<set<T>>, edges: seq<set<T>>) {
    && PairwiseDisjoint(sets)
    && Union(sets) == Union(edges)
    && {} !in sets
    && forall s :: s in sets ==> IsComponent(Union(edges), Elements(edges), s)
  }

  /** Inside each set, chains along `edges` join everybody. */
  ghost predicate InnerConnected<T(!new)>(sets: seq<set<T>>, edges: set<set<T>>) {
    forall s, a, b {:trigger s in sets, Connected(edges, a, b)} ::
      s in sets && a in s && b in s ==> Connected(edges, a, b)
  }

  /** What the scan knows halfway: `rest` has been through, `group` has absorbed what it met. */
  ghost predicate Scanning<T(!new)>(before: seq<set<T>>, edges: seq<set<T>>, first: set<T>,
                                    merged: seq<set<T>>, group: set<T>)
  {
    && PairwiseDisjoint(merged)
    && first <= group
    && (forall s :: s in merged ==> s in before)
    && Union(merged) + group == Union(before) + first
    && (forall s :: s in before ==> s in merged || s <= group)
    && forall a, b {:trigger Connected(Elements(edges + [first]), a, b)} ::
         a in group && b in group ==> Connected(Elements(edges + [first]), a, b)
  }

  lemma ScanStarts<T(!new)>(before: seq<set<T>>, edges: seq<set<T>>, first: set<T>)
    requires PairwiseDisjoint(before)
    ensures Scanning(before, edges, first, before, first)
  {
    forall a, b | a in first && b in first
      ensures Connected(Elements(edges + [first]), a, b)
    {
      assert first in Elements(edges + [first]);
      ConnectedByEdge(Elements(edges + [first]), first, a, b);
    }
  }

  /** Absorbing a kept group that overlaps. */
  lemma ScanAbsorbs<T(!new)>(before: seq<set<T>>, edges: seq<set<T>>, first: set<T>,
                             merged: seq<set<T>>, group: set<T>, i: nat)
    requires InnerConnected(before, Elements(edges))
    requires Scanning(before, edges, first, merged, group)
    requires i < |merged| && group * merged[i] != {}
    ensures Scanning(before, edges, first, merged[..i] + merged[i + 1..], group + merged[i])
  {
    var s := merged[i];
    var rest := merged[..i] + merged[i + 1..];
    var more := Elements(edges + [first]);
    var x :| x in group * s;
    assert s in before;
    assert Elements(edges) <= more;
    forall a, b | a in group + s && b in group + s
      ensures Connected(more, a, b)
    {
      ToMeetingPoint(before, edges, first, merged, group, s, x, a);
      ToMeetingPoint(before, edges, first, merged, group, s, x, b);
      ConnectedSym(more, b, x);
      ConnectedTrans(more, a, x, b);
    }
    DroppedAt(merged, i);
    forall t | t in before
      ensures t in rest || t <= group + s
    {
      assert t in merged || t <= group;
    }
  }

  /** Popping position `i` drops that set and nothing else. */
  lemma DroppedAt<T>(sets: seq<set<T>>, i: nat)
    requires i < |sets|
    ensures forall t :: t in sets <==> t in sets[..i] + sets[i + 1..] || t == sets[i]
    ensures Union(sets) == Union(sets[..i] + sets[i + 1..]) + sets[i]
    ensures PairwiseDisjoint(sets) ==> PairwiseDisjoint(sets[..i] + sets[i + 1..])
    ensures PairwiseDisjoint(sets) ==> forall j :: 0 <= j < i ==> sets[j] !! sets[i]
  {
    assert sets == sets[..i] + [sets[i]] + sets[i + 1..];
  }

  lemma ToMeetingPoint<T(!new)>(before: seq<set<T>>, edges: seq<set<T>>, first: set<T>,
                                merged: seq<set<T>>, group: set<T>, s: set<T>, x: T, a: T)
    requires InnerConnected(before, Elements(edges))
    requires Scanning(before, edges, first, merged, group)
    requires s in before && x in group && x in s && a in group + s
    ensures Connected(Elements(edges + [first]), a, x)
  {
    if a !in group {
      assert Connected(Elements(edges), a, x);
      ConnectedMono(Elements(edges), Elements(edges + [first]), a, x);
    }
  }

  /** When everything kept is disjoint from the group, appending it completes the pass. */
  lemma ScanEnds<T(!new)>(before: seq<set<T>>, edges: seq<set<T>>, first: set<T>,
                          merged: seq<set<T>>, group: set<T>)
    requires AreComponents(before, edges) && first != {}
    requires Scanning(before, edges, first, merged, group)
    requires forall s :: s in merged ==> s !! group
    ensures AreComponents(merged + [group], edges + [first])
  {
    var more := edges + [first];
    UnionAppend(edges, first);
    UnionAppend(merged, group);
    assert Elements(edges) <= Elements(more);
    forall s | s in merged + [group]
      ensures s != {} && IsComponent(Union(more), Elements(more), s)
    {
      if s in merged {
        KeptComponent(before, edges, first, s);
      } else {
        GroupComponent(before, edges, first, merged, group);
      }
    }
  }

  lemma UnionAppend<T>(sets: seq<set<T>>, s: set<T>)
    ensures Union(sets + [s]) == Union(sets) + s
  {
  }

  /** A kept group the new edge does not touch stays a component. */
  lemma KeptComponent<T(!new)>(before: seq<set<T>>, edges: seq<set<T>>, first: set<T>, s: set<T>)
    requires IsComponent(Union(edges), Elements(edges), s) && s !! first
    ensures IsComponent(Union(edges + [first]), Elements(edges + [first]), s)
  {
    UnionAppend(edges, first);
    assert Elements(edges + [first]) == Elements(edges) + {first};
    forall a, b | a in s && b in s
      ensures Connected(Elements(edges + [first]), a, b)
    {
      assert Connected(Elements(edges), a, b);
      ConnectedMono(Elements(edges), Elements(edges + [first]), a, b);
    }
  }

  /** An edge that meets the finished group lies inside it. */
  lemma EdgeInsideGroup<T(!new)>(before: seq<set<T>>, edges: seq<set<T>>, first: set<T>,
                                 merged: seq<set<T>>, group: set<T>, e: set<T>, a: T, b: T)
    requires AreComponents(before, edges)
    requires forall s :: s in before ==> s in merged || s <= group
    requires forall s :: s in merged ==> s !! group
    requires e in edges && a in e && b in e && a in group
    ensures b in group
  {
    assert a in Union(before);
    var s :| s in before && a in s;
    assert IsComponent(Union(edges), Elements(edges), s);
    assert s !in merged;
  }

  lemma GroupComponent<T(!new)>(before: seq<set<T>>, edges: seq<set<T>>, first: set<T>,
                                merged: seq<set<T>>, group: set<T>)
    requires AreComponents(before, edges)
    requires Scanning(before, edges, first, merged, group)
    requires forall s :: s in merged ==> s !! group
    ensures IsComponent(Union(edges + [first]), Elements(edges + [first]), group)
  {
    UnionAppend(edges, first);
    forall e, a, b | e in Elements(edges + [first]) && a in e && b in e && a in group
      ensures b in group
    {
      if e in edges {
        EdgeInsideGroup(before, edges, first, merged, group, e, a, b);
      }
    }
  }

  /** Where the scan from position `i` ends: what is kept, and the group that absorbed the rest. */
  function Scan<T>(merged: seq<set<T>>, group: set<T>, i: nat): (r: (seq<set<T>>, set<T>))
    requires i <= |merged|
    decreases |merged| - i
  {
    if i == |merged| then (merged, group)
    else if group * merged[i] != {} then Scan(merged[..i] + merged[i + 1..], group + merged[i], i)
    else Scan(merged, group, i + 1)
  }

  /** One pass is enough: the kept groups are pairwise disjoint, so absorbing one of them can
    never make the group overlap one already passed. */
  lemma {:induction false} OnePassIsEnough<T(!new)>(
    before: seq<set<T>>, edges: seq<set<T>>, first: set<T>,
    merged: seq<set<T>>, group: set<T>, i: nat)
    requires InnerConnected(before, Elements(edges)) && first != {} && i <= |merged|
    requires Scanning(before, edges, first, merged, group)
    requires forall j :: 0 <= j < i ==> merged[j] !! group
    ensures var (kept, all) := Scan(merged, group, i);
            Scanning(before, edges, first, kept, all) && forall s :: s in kept ==> s !! all
    decreases |merged| - i
  {
    if i == |merged| {
    } else if group * merged[i] != {} {
      ScanAbsorbs(before, edges, first, merged, group, i);
      DroppedAt(merged, i);
      OnePassIsEnough(before, edges, first, merged[..i] + merged[i + 1..], group + merged[i], i);
    } else {
      assert merged[i] !! group by {
        assert forall x :: x in merged[i] && x in group ==> x in group * merged[i];
      }
      OnePassIsEnough(before, edges, first, merged, group, i + 1);
    }
  }

  /** The inner loop, for one more group: `merged` is scanned left to right and popped from
    on the way. */
  method MergeOne<T(==)>(before: seq<set<T>>, first: set<T>) returns (merged: seq<set<T>>)
    ensures var (kept, all) := Scan(before, first, 0); merged == kept + [all]
  {
    merged := before;
    var group := first;
    var i := 0;
    while i < |merged|
      invariant i <= |merged|
      invariant Scan(merged, group, i) == Scan(before, first, 0)
      decreases |merged| - i
    {
      if group * merged[i] != {} {
        group, merged := group + merged[i], merged[..i] + merged[i + 1..];
      } else {
        i := i + 1;
      }
    }
    merged := merged + [group];
  }

  /** The merge of any list of groups is the list of connected components. */
  method MergeOverlapping<T(!new, ==)>(groups: seq<set<T>>) returns (merged: seq<set<T>>)
    requires {} !in groups
    ensures AreComponents(merged, groups)
    ensures Elements(merged) == Components(Union(groups), Elements(groups))
  {
    merged := [];
    for n := 0 to |groups|
      invariant AreComponents(merged, groups[..n])
    {
      ScanStarts(merged, groups[..n], groups[n]);
      OnePassIsEnough(merged, groups[..n], groups[n], merged, groups[n], 0);
      ghost var (kept, all) := Scan(merged, groups[n], 0);
      ScanEnds(merged, groups[..n], groups[n], kept, all);
      merged := MergeOne(merged, groups[n]);
      assert groups[..n + 1] == groups[..n] + [groups[n]];
    }
    assert groups[..|groups|] == groups;
    CoverIsComponents(Union(groups), Elements(groups), Elements(merged));
  }

  // ----- from merged sets to groups

  /** The index entries with more than one advisory, in key order. */
  function SharedEntries(keys: seq<string>, index: map<string, set<Advisory>>): (r: seq<set<Advisory>>)
    requires forall k :: k in keys ==> k in index
    ensures forall e :: e in r <==> exists k :: k in keys && index[k] == e && |e| > 1
  {
    if keys == [] then []
    else
      assert keys == [keys[0]] + keys[1..];
      (if |index[keys[0]]| > 1 then [index[keys[0]]] else []) + SharedEntries(keys[1..], index)
  }

  /** `{adv}` for every list entry outside `grouped`, in list order. */
  function Singletons(advisories: seq<Advisory>, grouped: set<Advisory>): (r: seq<set<Advisory>>)
    ensures forall e :: e in r <==> exists a :: a in advisories && a !in grouped && e == {a}
  {
    if advisories == [] then []
    else
      var last := |advisories| - 1;
      assert advisories == advisories[..last] + [advisories[last]];
      Singletons(advisories[..last], grouped)
      + (if advisories[last] in grouped then [] else [{advisories[last]}])
  }

  /** Some other advisory of the list carries one of `a`'s identifiers. */
  ghost predicate SharesIdentifier(advisories: set<Advisory>, a: Advisory) {
    exists b :: b in advisories && b != a && a.Identifiers() * b.Identifiers() != {}
  }

  lemma AtMostOne<T>(s: set<T>, a: T, b: T)
    requires |s| <= 1 && a in s && b in s
    ensures a == b
  {
    assert |s - {a}| == |s| - 1;
    assert s - {a} == {};
  }

  lemma MoreThanOne<T>(s: set<T>, a: T)
    requires |s| > 1 && a in s
    ensures exists b :: b in s && b != a
  {
    assert |s - {a}| == |s| - 1;
    var b :| b in s - {a};
  }

  /** The shared entries as edges: those identifiers that more than one advisory carries. */
  ghost predicate AreSharedEdges(advisories: set<Advisory>, entries: seq<set<Advisory>>) {
    && (forall e :: e in entries ==> e in Edges(advisories) && e <= advisories && e != {})
    && (forall e :: e in Edges(advisories) && |e| > 1 ==> e in entries)
    && (forall e :: e in entries ==> |e| > 1)
  }

  lemma SharedEntriesAreEdges(advisories: set<Advisory>, keys: seq<string>, index: map<string, set<Advisory>>)
    requires IsIndex(advisories, keys, index)
    ensures AreSharedEdges(advisories, SharedEntries(keys, index))
  {
    var entries := SharedEntries(keys, index);
    forall e | e in entries
      ensures e in Edges(advisories) && e <= advisories && e != {}
    {
      var k :| k in keys && index[k] == e && |e| > 1;
      assert k in Elements(keys);
      HoldersIsEdge(advisories, k);
    }
    forall e | e in Edges(advisories) && |e| > 1
      ensures e in entries
    {
      var k :| k in AllIdentifiers(advisories) && e == Holders(advisories, k);
      assert k in Elements(keys);
    }
  }

  lemma GroupedExactlyWhenSharing(advisories: set<Advisory>, entries: seq<set<Advisory>>, a: Advisory)
    requires AreSharedEdges(advisories, entries) && a in advisories
    ensures a in Union(entries) <==> SharesIdentifier(advisories, a)
  {
    if a in Union(entries) {
      var e :| e in entries && a in e;
      MoreThanOne(e, a);
      var b :| b in e && b != a;
      assert Link(Edges(advisories), a, b);
      LinkIsSharing(advisories, a, b);
    }
    if SharesIdentifier(advisories, a) {
      var b :| b in advisories && b != a && a.Identifiers() * b.Identifiers() != {};
      LinkIsSharing(advisories, a, b);
      var e :| e in Edges(advisories) && a in e && b in e;
      if |e| <= 1 {
        AtMostOne(e, a, b);
      }
    }
  }

  /** Identifiers nobody shares add no link between different advisories. */
  lemma MergedIsComponent(advisories: set<Advisory>, entries: seq<set<Advisory>>, s: set<Advisory>)
    requires AreSharedEdges(advisories, entries)
    requires IsComponent(Union(entries), Elements(entries), s)
    ensures IsComponent(advisories, Edges(advisories), s)
  {
    forall e, a, b | e in Edges(advisories) && a in e && b in e && a in s
      ensures b in s
    {
      if |e| <= 1 {
        AtMostOne(e, a, b);
      } else {
        assert e in Elements(entries);
      }
    }
    forall a, b | a in s && b in s
      ensures Connected(Edges(advisories), a, b)
    {
      ConnectedMono(Elements(entries), Edges(advisories), a, b);
    }
  }

  lemma SingletonIsComponent(advisories: set<Advisory>, entries: seq<set<Advisory>>, a: Advisory)
    requires AreSharedEdges(advisories, entries)
    requires a in advisories && a !in Union(entries)
    ensures IsComponent(advisories, Edges(advisories), {a})
  {
    forall e, x, b | e in Edges(advisories) && x in e && b in e && x in {a}
      ensures b in {a}
    {
      assert |e| > 1 ==> e in entries && x in Union(entries);
      AtMostOne(e, x, b);
    }
    ConnectedRefl(Edges(advisories), a);
  }

  /** The merged sets followed by the singletons are all the components. */
  lemma FinalSetsAreComponents(advisories: seq<Advisory>, entries: seq<set<Advisory>>, merged: seq<set<Advisory>>)
    requires AreSharedEdges(Elements(advisories), entries) && AreComponents(merged, entries)
    ensures Elements(merged + Singletons(advisories, Union(merged)))
         == IdentifierComponents(Elements(advisories))
  {
    var all := Elements(advisories);
    var sets := merged + Singletons(advisories, Union(merged));
    forall s | s in sets
      ensures s != {} && IsComponent(all, Edges(all), s)
    {
      if s in merged {
        MergedIsComponent(all, entries, s);
      } else {
        var a :| a in advisories && a !in Union(merged) && s == {a};
        SingletonIsComponent(all, entries, a);
      }
    }
    forall a | a in all
      ensures exists s :: s in Elements(sets) && a in s
    {
      if a in Union(merged) {
        var s :| s in merged && a in s;
        assert s in Elements(sets);
      } else {
        assert {a} in Elements(sets);
      }
    }
    CoverIsComponents(all, Edges(all), Elements(sets));
  }

  /** No advisory outside `grouped` is listed twice. */
  ghost predicate NoneRepeatedOutside(advisories: seq<Advisory>, grouped: set<Advisory>) {
    forall i, j :: 0 <= i < j < |advisories| && advisories[i] == advisories[j] ==> advisories[i] in grouped
  }

  lemma {:induction false} SingletonsDisjoint(advisories: seq<Advisory>, grouped: set<Advisory>)
    ensures PairwiseDisjoint(Singletons(advisories, grouped)) <==> NoneRepeatedOutside(advisories, grouped)
  {
    if advisories != [] {
      var last := |advisories| - 1;
      var init, a := advisories[..last], advisories[last];
      var fewer := Singletons(init, grouped);
      assert forall i :: 0 <= i < last ==> init[i] == advisories[i];
      SingletonsDisjoint(init, grouped);
      if a in grouped {
        assert Singletons(advisories, grouped) == fewer;
      } else {
        var sets := fewer + [{a}];
        assert Singletons(advisories, grouped) == sets;
        assert sets[|fewer|] == {a};
        if a in init {
          assert {a} in fewer;
          var i :| 0 <= i < |fewer| && fewer[i] == {a};
          assert sets[i] == {a};
          var j :| 0 <= j < |init| && init[j] == a;
          assert advisories[j] == advisories[last];
        } else {
          forall i | 0 <= i < |fewer|
            ensures fewer[i] !! {a}
          {
            assert fewer[i] in fewer;
          }
          DisjointAppend(fewer, {a});
        }
      }
    }
  }

  lemma DisjointAppend<T>(sets: seq<set<T>>, s: set<T>)
    requires forall i :: 0 <= i < |sets| ==> sets[i] !! s
    ensures PairwiseDisjoint(sets + [s]) <==> PairwiseDisjoint(sets)
  {
    var all := sets + [s];
    assert forall i :: 0 <= i < |sets| ==> all[i] == sets[i];
  }

  lemma DisjointConcat<T>(xs: seq<set<T>>, ys: seq<set<T>>)
    requires PairwiseDisjoint(xs) && Union(xs) !! Union(ys)
    ensures PairwiseDisjoint(xs + ys) <==> PairwiseDisjoint(ys)
  {
    var all := xs + ys;
    assert forall i :: 0 <= i < |xs| ==> all[i] == xs[i];
    assert forall i :: 0 <= i < |ys| ==> all[|xs| + i] == ys[i];
    forall i, j | 0 <= i < |xs| && |xs| <= j < |all|
      ensures all[i] !! all[j]
    {
      assert all[i] <= Union(xs);
      assert all[j] <= Union(ys) by {
        assert all[j] in ys;
      }
    }
  }

  /** The final sets overlap only through a repeated advisory nobody shares an identifier with. */
  lemma FinalSetsDisjoint(advisories: seq<Advisory>, merged: seq<set<Advisory>>)
    requires PairwiseDisjoint(merged)
    ensures PairwiseDisjoint(merged + Singletons(advisories, Union(merged)))
       <==> NoneRepeatedOutside(advisories, Union(merged))
  {
    var singles := Singletons(advisories, Union(merged));
    assert Union(merged) !! Union(singles);
    DisjointConcat(merged, singles);
    SingletonsDisjoint(advisories, Union(merged));
  }

  /** The list `[a, a]`: nobody else shares an identifier with `a`, which becomes two groups. */
  lemma RepeatedAdvisoryOverlaps(a: Advisory)
    ensures !SharesIdentifier(Elements([a, a]), a)
    ensures Singletons([a, a], {}) == [{a}, {a}]
    ensures !PairwiseDisjoint(Singletons([a, a], {}))
  {
    assert [a, a][..1] == [a] && [a][..0] == [];
    assert Singletons([a], {}) == [{a}];
    var sets := Singletons([a, a], {});
    assert sets == [{a}, {a}];
    assert a in sets[0] && a in sets[1];
  }

  /** `max` with the precedence key, over a set visited in some order. */
  method PickPrimary(group: set<Advisory>) returns (primary: Advisory)
    requires group != {}
    ensures primary in group
    ensures forall a :: a in group ==> a.PrecedenceKey() <= primary.PrecedenceKey()
  {
    primary :| primary in group;
    var rest := group - {primary};
    while rest != {}
      invariant primary in group && rest <= group
      invariant forall a :: a in group - rest ==> a.PrecedenceKey() <= primary.PrecedenceKey()
      decreases rest
    {
      var a :| a in rest;
      rest := rest - {a};
      if a.PrecedenceKey() > primary.PrecedenceKey() {
        primary := a;
      }
    }
  }

  method CollectAliases(members: set<Advisory>) returns (identifiers: set<string>)
    ensures identifiers == AllAliases(members)
  {
    identifiers := {};
    var rest := members;
    while rest != {}
      invariant rest <= members
      invariant identifiers == AllAliases(members - rest)
      decreases rest
    {
      var a :| a in rest;
      assert members - (rest - {a}) == (members - rest) + {a};
      rest := rest - {a};
      identifiers := identifiers + set s | s in a.aliases;
    }
    assert members - {} == members;
  }

  /** Everybody else, in the order in which the set is visited. */
  method ListSecondaries(members: set<Advisory>, primary: Advisory) returns (secondaries: seq<Advisory>)
    ensures Elements(secondaries) == members - {primary}
    ensures |secondaries| == |members - {primary}|
  {
    secondaries := [];
    var rest := members;
    ghost var taken: set<Advisory> := {};
    while rest != {}
      invariant taken == members - {primary} - rest && rest <= members
      invariant Elements(secondaries) == taken && |secondaries| == |taken|
      decreases rest
    {
      var a :| a in rest;
      if a != primary {
        assert Elements(secondaries + [a]) == taken + {a};
        secondaries, taken := secondaries + [a], taken + {a};
      }
      rest := rest - {a};
    }
    assert taken == members - {primary};
  }

  method BuildGroup(members: set<Advisory>) returns (group: Group)
    requires members != {}
    ensures group.Members() == members && group.Valid()
    ensures |group.secondaries| == |members| - 1
  {
    var identifiers := CollectAliases(members);
    var primary := PickPrimary(members);
    var secondaries := ListSecondaries(members, primary);
    group := Group(identifiers, primary, secondaries);
    assert group.Members() == {primary} + Elements(secondaries);
    assert primary !in secondaries by {
      assert primary !in Elements(secondaries);
    }
  }

  /** The whole merge.  Its member sets are the components of the identifier graph, for any
    list; groups overlap exactly when an advisory nobody shares an identifier with is listed
    more than once. */
  method GetMergedIdentifierGroups(advisories: seq<Advisory>) returns (groups: seq<Group>)
    ensures MemberSets(groups) == IdentifierComponents(Elements(advisories))
    ensures forall g :: g in groups ==> g.Valid()
    ensures DisjointGroups(groups)
       <==> forall i, j :: 0 <= i < j < |advisories| && advisories[i] == advisories[j] ==>
                             SharesIdentifier(Elements(advisories), advisories[i])
  {
    ghost var all := Elements(advisories);
    var keys, index := IndexByIdentifier(advisories);
    assert forall k :: k in keys ==> k in Elements(keys);
    var entries := SharedEntries(keys, index);
    SharedEntriesAreEdges(all, keys, index);
    var merged := MergeOverlapping(entries);
    var grouped := AllGrouped(merged);
    var sets := AppendSingletons(merged, advisories, grouped);
    FinalSetsAreComponents(advisories, entries, merged);
    FinalSetsDisjoint(advisories, merged);
    forall i | 0 <= i < |advisories|
      ensures advisories[i] in grouped <==> SharesIdentifier(all, advisories[i])
    {
      GroupedExactlyWhenSharing(all, entries, advisories[i]);
    }
    NonEmptyComponents(all, sets);
    groups := BuildGroups(sets);
    MemberSetsOf(groups, sets);
  }

  lemma NonEmptyComponents(advisories: set<Advisory>, sets: seq<set<Advisory>>)
    requires Elements(sets) == IdentifierComponents(advisories)
    ensures {} !in sets
  {
    if {} in sets {
      assert {} in Elements(sets);
      var a := ComponentWitness(advisories, Edges(advisories), {});
      ComponentOf(advisories, Edges(advisories), a);
    }
  }

  lemma MemberSetsOf(groups: seq<Group>, sets: seq<set<Advisory>>)
    requires |groups| == |sets| && forall n :: 0 <= n < |sets| ==> groups[n].Members() == sets[n]
    ensures MemberSets(groups) == Elements(sets)
    ensures DisjointGroups(groups) <==> PairwiseDisjoint(sets)
  {
    forall s | s in sets
      ensures s in MemberSets(groups)
    {
      var n :| 0 <= n < |sets| && sets[n] == s;
      assert groups[n] in groups;
    }
  }

  method AllGrouped(merged: seq<set<Advisory>>) returns (grouped: set<Advisory>)
    ensures grouped == Union(merged)
  {
    grouped := {};
    for n := 0 to |merged|
      invariant grouped == Union(merged[..n])
    {
      UnionAppend(merged[..n], merged[n]);
      assert merged[..n + 1] == merged[..n] + [merged[n]];
      grouped := grouped + merged[n];
    }
    assert merged[..|merged|] == merged;
  }

  method AppendSingletons(merged: seq<set<Advisory>>, advisories: seq<Advisory>, grouped: set<Advisory>)
    returns (sets: seq<set<Advisory>>)
    ensures sets == merged + Singletons(advisories, grouped)
  {
    sets := merged;
    for n := 0 to |advisories|
      invariant sets == merged + Singletons(advisories[..n], grouped)
    {
      assert advisories[..n + 1][..n] == advisories[..n];
      if advisories[n] !in grouped {
        sets := sets + [{advisories[n]}];
      }
    }
    assert advisories[..|advisories|] == advisories;
  }

  method BuildGroups(sets: seq<set<Advisory>>) returns (groups: seq<Group>)
    requires {} !in sets
    ensures |groups| == |sets|
    ensures forall n :: 0 <= n < |sets| ==> groups[n].Members() == sets[n] && groups[n].Valid()
  {
    groups := [];
    for n := 0 to |sets|
      invariant |groups| == n
      invariant forall m :: 0 <= m < n ==> groups[m].Members() == sets[m] && groups[m].Valid()
    {
      var group := BuildGroup(sets[n]);
      groups := groups + [group];
    }
  }
}
