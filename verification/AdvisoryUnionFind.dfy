/** The union-find merge of `get_merged_identifier_groups` in
  vulnerabilities/pipes/group_advisories.py, which replaced the list scan: the same
  partition in almost linear time. */
module AdvisoryUnionFind {
  import opened Connectivity
  import opened Advisories
  import opened DisjointSets

  /** An entry of the list: the row, and which object in memory holds it.  A row that was loaded
    twice is two objects. */
  datatype Entry = Entry(identity: nat, row: Advisory)

  /** One object holds one row. */
  ghost predicate Loaded(entries: seq<Entry>) {
    forall e, f :: e in entries && f in entries && e.identity == f.identity ==> e.row == f.row
  }

  function Rows(entries: seq<Entry>): (rows: seq<Advisory>)
    ensures |rows| == |entries| && forall i :: 0 <= i < |rows| ==> rows[i] == entries[i].row
  {
    seq(|entries|, i requires 0 <= i < |entries| => entries[i].row)
  }

  /** Two objects of the list hold row `a`. */
  ghost predicate LoadedTwice(entries: seq<Entry>, a: Advisory) {
    exists e, f :: e in entries && f in entries && e.row == a && f.row == a && e.identity != f.identity
  }

  /** `alias_map.get(adv.id, [])`. */
  function AliasesFor(aliasMap: map<nat, seq<string>>, a: Advisory): seq<string> {
    if a.pk in aliasMap then aliasMap[a.pk] else []
  }

  /** The map the caller builds from the prefetched aliases. */
  ghost predicate AliasMapFor(aliasMap: map<nat, seq<string>>, advisories: seq<Advisory>) {
    forall a :: a in advisories ==> if a.pk in aliasMap then aliasMap[a.pk] == a.aliases else a.aliases == []
  }

  /** Index `i` carries identifier `id`. */
  ghost predicate Carries(advisories: seq<Advisory>, i: nat, id: string)
    requires i < |advisories|
  {
    id in advisories[i].IdentifierList()
  }

  /** Indices in one tree are joined by a chain of shared identifiers. */
  ghost predicate Sound(advisories: seq<Advisory>, parent: seq<nat>, rank: seq<nat>) {
    && Forest(parent, rank) && |parent| == |advisories|
    && forall a, b :: 0 <= a < |parent| && 0 <= b < |parent|
                      && Root(parent, rank, a) == Root(parent, rank, b) ==>
                        Connected(Edges(Elements(advisories)), advisories[a], advisories[b])
  }

  /** `firstOf` leads every filed identifier to an index that carries it. */
  ghost predicate Indexed(advisories: seq<Advisory>, firstOf: map<string, nat>) {
    forall id :: id in firstOf ==> firstOf[id] < |advisories| && Carries(advisories, firstOf[id], id)
  }

  /** `i` is in the tree of the index filed under `id`. */
  ghost predicate Filed(parent: seq<nat>, rank: seq<nat>, firstOf: map<string, nat>, i: nat, id: string) {
    && Forest(parent, rank) && i < |parent|
    && id in firstOf && firstOf[id] < |parent|
    && Root(parent, rank, i) == Root(parent, rank, firstOf[id])
  }

  ghost predicate AllFiled(advisories: seq<Advisory>, parent: seq<nat>, rank: seq<nat>,
                           firstOf: map<string, nat>, n: nat)
    requires n <= |advisories|
  {
    forall i: nat, id :: i < n && Carries(advisories, i, id) ==> Filed(parent, rank, firstOf, i, id)
  }

  lemma SharingConnects(advisories: seq<Advisory>, i: nat, k: nat, id: string)
    requires i < |advisories| && k < |advisories|
    requires Carries(advisories, i, id) && Carries(advisories, k, id)
    ensures Connected(Edges(Elements(advisories)), advisories[i], advisories[k])
  {
    var all := Elements(advisories);
    assert advisories[i] in all && advisories[k] in all;
    assert id in advisories[i].Identifiers() && id in advisories[k].Identifiers();
    HoldersIsEdge(all, id);
    ConnectedByEdge(Edges(all), Holders(all, id), advisories[i], advisories[k]);
  }

  /** Joining two indices that are connected anyway keeps the forest sound. */
  lemma JoinKeepsSound(advisories: seq<Advisory>, parent: seq<nat>, rank: seq<nat>,
                       parent': seq<nat>, rank': seq<nat>, x: nat, y: nat)
    requires Sound(advisories, parent, rank) && x < |parent| && y < |parent|
    requires Joined(parent, rank, parent', rank', x, y)
    requires Connected(Edges(Elements(advisories)), advisories[x], advisories[y])
    ensures Sound(advisories, parent', rank')
  {
    var edges := Edges(Elements(advisories));
    forall a, b | 0 <= a < |parent| && 0 <= b < |parent| && Root(parent', rank', a) == Root(parent', rank', b)
      ensures Connected(edges, advisories[a], advisories[b])
    {
      if Root(parent, rank, a) != Root(parent, rank, b) {
        ConnectedSym(edges, advisories[x], advisories[y]);
        if Root(parent, rank, a) == Root(parent, rank, x) {
          ConnectedTrans(edges, advisories[a], advisories[x], advisories[y]);
          ConnectedTrans(edges, advisories[a], advisories[y], advisories[b]);
        } else {
          ConnectedTrans(edges, advisories[a], advisories[y], advisories[x]);
          ConnectedTrans(edges, advisories[a], advisories[x], advisories[b]);
        }
      }
    }
  }

  lemma JoinKeepsFiled(parent: seq<nat>, rank: seq<nat>, parent': seq<nat>, rank': seq<nat>, x: nat, y: nat,
                       firstOf: map<string, nat>, i: nat, id: string)
    requires x < |parent| && y < |parent| && Joined(parent, rank, parent', rank', x, y)
    requires Filed(parent, rank, firstOf, i, id)
    ensures Filed(parent', rank', firstOf, i, id)
  {
  }

  /** The body of the inner loop: one identifier of one advisory. */
  method FileIdentifier(advisories: seq<Advisory>, parent: array<nat>, rank: array<nat>,
                        firstOf: map<string, nat>, i: nat, id: string)
    returns (firstOf': map<string, nat>)
    requires parent != rank && Sound(advisories, parent[..], rank[..]) && Indexed(advisories, firstOf)
    requires i < |advisories| && Carries(advisories, i, id)
    modifies parent, rank
    ensures Sound(advisories, parent[..], rank[..]) && Indexed(advisories, firstOf')
    ensures Filed(parent[..], rank[..], firstOf', i, id)
    ensures forall j: nat, other :: Filed(old(parent[..]), old(rank[..]), firstOf, j, other) ==>
                                      Filed(parent[..], rank[..], firstOf', j, other)
  {
    if id in firstOf {
      ghost var p, r := parent[..], rank[..];
      UnionByRank(parent, rank, i, firstOf[id]);
      SharingConnects(advisories, i, firstOf[id], id);
      JoinKeepsSound(advisories, p, r, parent[..], rank[..], i, firstOf[id]);
      firstOf' := firstOf;
      forall j: nat, other | Filed(p, r, firstOf, j, other)
        ensures Filed(parent[..], rank[..], firstOf', j, other)
      {
        JoinKeepsFiled(p, r, parent[..], rank[..], i, firstOf[id], firstOf, j, other);
      }
    } else {
      firstOf' := firstOf[id := i];
    }
  }

  /** The inner loop: all identifiers of advisory `i`. */
  method FileAdvisory(advisories: seq<Advisory>, parent: array<nat>, rank: array<nat>,
                      firstOf: map<string, nat>, i: nat, ids: seq<string>)
    returns (firstOf': map<string, nat>)
    requires parent != rank && Sound(advisories, parent[..], rank[..]) && Indexed(advisories, firstOf)
    requires i < |advisories| && ids == advisories[i].IdentifierList()
    modifies parent, rank
    ensures Sound(advisories, parent[..], rank[..]) && Indexed(advisories, firstOf')
    ensures forall id :: id in ids ==> Filed(parent[..], rank[..], firstOf', i, id)
    ensures forall j: nat, other :: Filed(old(parent[..]), old(rank[..]), firstOf, j, other) ==>
                                      Filed(parent[..], rank[..], firstOf', j, other)
  {
    firstOf' := firstOf;
    for j := 0 to |ids|
      invariant Sound(advisories, parent[..], rank[..]) && Indexed(advisories, firstOf')
      invariant forall k :: 0 <= k < j ==> Filed(parent[..], rank[..], firstOf', i, ids[k])
      invariant forall k: nat, other :: Filed(old(parent[..]), old(rank[..]), firstOf, k, other) ==>
                                          Filed(parent[..], rank[..], firstOf', k, other)
    {
      firstOf' := FileIdentifier(advisories, parent, rank, firstOf', i, ids[j]);
    }
  }

  /** The first loop: every identifier ends up leading to the tree of everybody who carries it. */
  method LinkAll(advisories: seq<Advisory>, aliasMap: map<nat, seq<string>>,
                 parent: array<nat>, rank: array<nat>)
    returns (firstOf: map<string, nat>)
    requires AliasMapFor(aliasMap, advisories)
    requires parent != rank && Sound(advisories, parent[..], rank[..])
    modifies parent, rank
    ensures Sound(advisories, parent[..], rank[..]) && Indexed(advisories, firstOf)
    ensures AllFiled(advisories, parent[..], rank[..], firstOf, |advisories|)
  {
    firstOf := map[];
    for i := 0 to |advisories|
      invariant Sound(advisories, parent[..], rank[..]) && Indexed(advisories, firstOf)
      invariant AllFiled(advisories, parent[..], rank[..], firstOf, i)
    {
      var ids := [advisories[i].advisoryId] + AliasesFor(aliasMap, advisories[i]);
      firstOf := FileAdvisory(advisories, parent, rank, firstOf, i, ids);
    }
  }

  /** In a finished forest the trees are exactly the chains of shared identifiers. */
  ghost predicate TreesAreChains(advisories: seq<Advisory>, parent: seq<nat>, rank: seq<nat>) {
    && Sound(advisories, parent, rank)
    && forall i: nat, j: nat, id ::
         i < |advisories| && j < |advisories| && Carries(advisories, i, id) && Carries(advisories, j, id) ==>
           Root(parent, rank, i) == Root(parent, rank, j)
  }

  /** The members of the tree with root `root`, in list order. */
  function Members<T(!new)>(list: seq<T>, roots: seq<nat>, root: nat): (r: seq<T>)
    requires |roots| <= |list|
    ensures forall a :: a in r <==> exists i :: 0 <= i < |roots| && roots[i] == root && list[i] == a
  {
    if roots == [] then []
    else
      var last := |roots| - 1;
      var init := Members(list, roots[..last], root);
      assert roots == roots[..last] + [roots[last]];
      if roots[last] == root then init + [list[last]] else init
  }

  ghost predicate RootsOf(roots: seq<nat>, parent: seq<nat>, rank: seq<nat>) {
    && Forest(parent, rank) && |roots| <= |parent|
    && forall i :: 0 <= i < |roots| ==> roots[i] == Root(parent, rank, i)
  }

  /** `root_to_group` after the indices whose roots are `roots`; `order` is its insertion order. */
  ghost predicate Collected(entries: seq<Entry>, roots: seq<nat>, order: seq<nat>,
                            groupOf: map<nat, seq<Entry>>)
  {
    && |roots| <= |entries|
    && Elements(order) == groupOf.Keys == Elements(roots)
    && (forall i, j :: 0 <= i < j < |order| ==> order[i] != order[j])
    && forall r :: r in groupOf ==> groupOf[r] == Members(entries, roots, r)
  }

  function AppendTo(groupOf: map<nat, seq<Entry>>, root: nat, e: Entry): map<nat, seq<Entry>> {
    groupOf[root := (if root in groupOf then groupOf[root] else []) + [e]]
  }

  lemma MembersGrow(entries: seq<Entry>, roots: seq<nat>, root: nat, r: nat)
    requires |roots| < |entries|
    ensures Members(entries, roots + [root], r)
         == Members(entries, roots, r) + if r == root then [entries[|roots|]] else []
  {
    assert (roots + [root])[..|roots|] == roots;
  }

  lemma CollectOneMore(entries: seq<Entry>, roots: seq<nat>, order: seq<nat>,
                       groupOf: map<nat, seq<Entry>>, root: nat)
    requires Collected(entries, roots, order, groupOf) && |roots| < |entries|
    ensures Collected(entries, roots + [root], if root in groupOf then order else order + [root],
                      AppendTo(groupOf, root, entries[|roots|]))
  {
    var groupOf' := AppendTo(groupOf, root, entries[|roots|]);
    if root !in groupOf {
      assert forall k :: 0 <= k < |order| ==> order[k] in Elements(order);
      OutsideHasNoMembers(entries, roots, root);
    }
    forall r | r in groupOf'
      ensures groupOf'[r] == Members(entries, roots + [root], r)
    {
      MembersGrow(entries, roots, root, r);
    }
    assert Elements(roots + [root]) == Elements(roots) + {root};
  }

  /** `find(i)` in terms of the forest the loop started with. */
  method FindAgain(parent: array<nat>, ghost rank: seq<nat>, ghost start: seq<nat>, i: nat) returns (root: nat)
    requires SameRoots(start, parent[..], rank) && i < parent.Length == |start|
    modifies parent
    ensures SameRoots(start, parent[..], rank)
    ensures root == Root(start, rank, i)
  {
    root := Find(parent, rank, i);
  }

  lemma RootsGrow(roots: seq<nat>, parent: seq<nat>, rank: seq<nat>)
    requires RootsOf(roots, parent, rank) && |roots| < |parent|
    ensures RootsOf(roots + [Root(parent, rank, |roots|)], parent, rank)
  {
  }

  /** The second loop: `root_to_group`, with `order` its insertion order. */
  method CollectTrees(entries: seq<Entry>, parent: array<nat>, ghost rank: seq<nat>)
    returns (order: seq<nat>, groupOf: map<nat, seq<Entry>>, ghost roots: seq<nat>)
    requires Forest(parent[..], rank) && parent.Length == |entries|
    modifies parent
    ensures |roots| == |entries| && RootsOf(roots, old(parent[..]), rank)
    ensures Collected(entries, roots, order, groupOf)
  {
    order, groupOf, roots := [], map[], [];
    for i := 0 to |entries|
      invariant SameRoots(old(parent[..]), parent[..], rank)
      invariant |roots| == i && RootsOf(roots, old(parent[..]), rank)
      invariant Collected(entries, roots, order, groupOf)
    {
      var root := FindAgain(parent, rank, old(parent[..]), i);
      RootsGrow(roots, old(parent[..]), rank);
      CollectOneMore(entries, roots, order, groupOf, root);
      if root !in groupOf {
        order := order + [root];
      }
      groupOf := AppendTo(groupOf, root, entries[i]);
      roots := roots + [root];
    }
  }

  lemma {:induction false} OutsideHasNoMembers(entries: seq<Entry>, roots: seq<nat>, root: nat)
    requires |roots| <= |entries| && root !in roots
    ensures Members(entries, roots, root) == []
  {
    if roots != [] {
      assert roots == roots[..|roots| - 1] + [roots[|roots| - 1]];
      OutsideHasNoMembers(entries, roots[..|roots| - 1], root);
    }
  }

  lemma {:induction false} MembersOfRows(entries: seq<Entry>, roots: seq<nat>, root: nat)
    requires |roots| <= |entries|
    ensures Rows(Members(entries, roots, root)) == Members(Rows(entries), roots, root)
  {
    if roots != [] {
      MembersOfRows(entries, roots[..|roots| - 1], root);
    }
  }

  lemma TreeIsComponent(advisories: seq<Advisory>, parent: seq<nat>, rank: seq<nat>, roots: seq<nat>, root: nat)
    requires TreesAreChains(advisories, parent, rank)
    requires RootsOf(roots, parent, rank) && |roots| == |advisories| && root in roots
    ensures IsComponent(Elements(advisories), Edges(Elements(advisories)),
                        Elements(Members(advisories, roots, root)))
    ensures Members(advisories, roots, root) != []
  {
    var all := Elements(advisories);
    var tree := Elements(Members(advisories, roots, root));
    var w :| 0 <= w < |roots| && roots[w] == root;
    assert advisories[w] in Members(advisories, roots, root);
    forall e, a, b | e in Edges(all) && a in e && b in e && a in tree
      ensures b in tree
    {
      var id :| id in AllIdentifiers(all) && e == Holders(all, id);
      var i :| 0 <= i < |roots| && roots[i] == root && advisories[i] == a;
      var j :| 0 <= j < |advisories| && advisories[j] == b;
      assert Carries(advisories, i, id) && Carries(advisories, j, id);
      assert roots[j] == root;
    }
    forall a, b | a in tree && b in tree
      ensures Connected(Edges(all), a, b)
    {
      var i :| 0 <= i < |roots| && roots[i] == root && advisories[i] == a;
      var j :| 0 <= j < |roots| && roots[j] == root && advisories[j] == b;
    }
  }

  /** `max` over a list: the first member of maximal precedence. */
  method FirstMax(members: seq<Entry>) returns (primary: Entry)
    requires members != []
    ensures primary in members
    ensures forall e :: e in members ==> e.row.PrecedenceKey() <= primary.row.PrecedenceKey()
    ensures exists k :: 0 <= k < |members| && members[k] == primary
              && forall i :: 0 <= i < k ==> members[i].row.PrecedenceKey() < primary.row.PrecedenceKey()
  {
    primary := members[0];
    ghost var k := 0;
    for n := 1 to |members|
      invariant k < n && members[k] == primary
      invariant forall i :: 0 <= i < n ==> members[i].row.PrecedenceKey() <= primary.row.PrecedenceKey()
      invariant forall i :: 0 <= i < k ==> members[i].row.PrecedenceKey() < primary.row.PrecedenceKey()
    {
      if members[n].row.PrecedenceKey() > primary.row.PrecedenceKey() {
        primary, k := members[n], n;
      }
    }
  }

  /** Entry `k` is the first of maximal precedence, it gives the primary, and the entries that are
    other objects give the secondaries, in list order. */
  ghost predicate HeadedBy(members: seq<Entry>, k: nat, g: Group) {
    && k < |members|
    && (forall i :: 0 <= i < |members| ==> members[i].row.PrecedenceKey() <= members[k].row.PrecedenceKey())
    && (forall i :: 0 <= i < k ==> members[i].row.PrecedenceKey() < members[k].row.PrecedenceKey())
    && g.primary == members[k].row && g.secondaries == Others(members, members[k])
  }

  /** One group.  The primary comes back among the secondaries exactly if another object of the
    group holds the same row. */
  method BuildGroup(members: seq<Entry>, aliasMap: map<nat, seq<string>>) returns (group: Group)
    requires members != [] && Loaded(members) && AliasMapFor(aliasMap, Rows(members))
    ensures group.Members() == Elements(Rows(members)) && group.Headed()
    ensures group.primary in group.secondaries <==> LoadedTwice(members, group.primary)
    ensures exists k: nat :: HeadedBy(members, k, group)
  {
    ghost var rows := Rows(members);
    var aliases: set<string> := {};
    for n := 0 to |members|
      invariant aliases == AllAliases(Elements(rows[..n]))
    {
      assert Elements(rows[..n + 1]) == Elements(rows[..n]) + {rows[n]};
      aliases := aliases + set s | s in AliasesFor(aliasMap, members[n].row);
    }
    assert rows[..|members|] == rows;
    var primary := FirstMax(members);
    var secondaries := Others(members, primary);
    group := Group(aliases, primary.row, secondaries);
    OthersAndPrimary(members, primary, group);
    FirstMaxHeads(members, primary, group);
  }

  lemma FirstMaxHeads(members: seq<Entry>, primary: Entry, group: Group)
    requires forall e :: e in members ==> e.row.PrecedenceKey() <= primary.row.PrecedenceKey()
    requires exists k :: 0 <= k < |members| && members[k] == primary
               && forall i :: 0 <= i < k ==> members[i].row.PrecedenceKey() < primary.row.PrecedenceKey()
    requires group.primary == primary.row && group.secondaries == Others(members, primary)
    ensures exists k: nat :: HeadedBy(members, k, group)
  {
    var k :| 0 <= k < |members| && members[k] == primary
      && forall i :: 0 <= i < k ==> members[i].row.PrecedenceKey() < primary.row.PrecedenceKey();
    assert HeadedBy(members, k, group);
  }

  lemma OthersAndPrimary(members: seq<Entry>, primary: Entry, group: Group)
    requires Loaded(members) && primary in members
    requires group.primary == primary.row && group.secondaries == Others(members, primary)
    ensures group.Members() == Elements(Rows(members))
    ensures group.primary in group.secondaries <==> LoadedTwice(members, group.primary)
  {
    forall a | true
      ensures a in group.Members() <==> a in Rows(members)
    {
      if a in Rows(members) {
        var i :| 0 <= i < |members| && Rows(members)[i] == a;
        assert members[i] in members;
      }
      if a in group.Members() {
        var e :| e in members && e.row == a;
        var i :| 0 <= i < |members| && members[i] == e;
        assert Rows(members)[i] == a;
      }
    }
  }

  /** `[a for a in group_members if a is not primary]`. */
  function Others(members: seq<Entry>, primary: Entry): (r: seq<Advisory>)
    ensures forall a :: a in r <==> exists e :: e in members && e.identity != primary.identity && e.row == a
  {
    if members == [] then []
    else
      assert members == [members[0]] + members[1..];
      (if members[0].identity == primary.identity then [] else [members[0].row]) + Others(members[1..], primary)
  }

  /** A row held by two objects: the group they form lists its primary again. */
  lemma LoadedTwiceExample(a: Advisory)
    ensures var entries := [Entry(0, a), Entry(1, a)];
            Loaded(entries) && LoadedTwice(entries, a) && Others(entries, entries[0]) == [a]
  {
    var entries := [Entry(0, a), Entry(1, a)];
    assert entries[0] in entries && entries[1] in entries;
    assert entries[1..] == [Entry(1, a)] && entries[1..][1..] == [];
    assert Others(entries[1..], entries[0]) == [a];
  }

  /** Entry `k` heads its group: nobody chained to it ranks higher, and nobody chained to it and
    listed earlier ranks as high. */
  ghost predicate Heads(entries: seq<Entry>, k: nat) {
    k < |entries| && forall j :: 0 <= j < |entries| && Chained(entries, k, j) ==> GivesWay(entries, j, k)
  }

  ghost predicate Chained(entries: seq<Entry>, k: nat, j: nat)
    requires k < |entries| && j < |entries|
  {
    Connected(Edges(Elements(Rows(entries))), entries[k].row, entries[j].row)
  }

  predicate GivesWay(entries: seq<Entry>, j: nat, k: nat)
    requires k < |entries| && j < |entries|
  {
    && entries[j].row.PrecedenceKey() <= entries[k].row.PrecedenceKey()
    && (j < k ==> entries[j].row.PrecedenceKey() < entries[k].row.PrecedenceKey())
  }

  ghost predicate IsHead(entries: seq<Entry>, a: Advisory) {
    exists k: nat :: Heads(entries, k) && entries[k].row == a
  }

  /** No row that heads its group was loaded twice. */
  ghost predicate HeadsLoadedOnce(entries: seq<Entry>) {
    forall a :: IsHead(entries, a) ==> !LoadedTwice(entries, a)
  }

  /** The fast merge: the components of the identifier graph, for any list, and never an
    overlap.  Each group's primary heads it, ties going to the entry listed first; and the
    groups are all valid exactly when no row that heads its group was loaded twice. */
  method GetMergedIdentifierGroups(entries: seq<Entry>, aliasMap: map<nat, seq<string>>)
    returns (groups: seq<Group>)
    requires Loaded(entries) && AliasMapFor(aliasMap, Rows(entries))
    ensures MemberSets(groups) == IdentifierComponents(Elements(Rows(entries)))
    ensures DisjointGroups(groups)
    ensures forall g :: g in groups ==> ValidExactly(entries, g) && IsHead(entries, g.primary)
    ensures (forall g :: g in groups ==> g.Valid()) <==> HeadsLoadedOnce(entries)
  {
    var advisories := Rows(entries);
    if advisories == [] {
      groups := [];
      CoverIsComponents(Elements(advisories), Edges(Elements(advisories)), MemberSets(groups));
      AllValidExactly(entries, groups);
      return;
    }
    var parent := new nat[|advisories|](i => i);
    var rank := new nat[|advisories|](i => 0);
    InitiallySound(advisories, parent[..], rank[..]);
    var firstOf := LinkAll(advisories, aliasMap, parent, rank);
    ghost var p, r := parent[..], rank[..];
    FiledTreesAreChains(advisories, p, r, firstOf);
    var order, groupOf;
    ghost var roots;
    order, groupOf, roots := CollectTrees(entries, parent, rank[..]);
    groups := BuildAll(entries, aliasMap, order, groupOf, roots);
    assert forall x :: x in order <==> x in Elements(order);
    forall n | 0 <= n < |groups|
      ensures groups[n].Members() == Elements(Members(advisories, roots, order[n]))
    {
      GroupOfTree(entries, roots, order[n], groups[n]);
    }
    TreesAreAllComponents(advisories, p, r, roots, order, groups);
    forall n | 0 <= n < |groups|
      ensures ValidExactly(entries, groups[n]) && IsHead(entries, groups[n].primary)
    {
      GroupValidExactly(entries, p, r, roots, order[n], groups[n]);
      TreeHead(entries, p, r, roots, order[n], groups[n]);
    }
    AllValidExactly(entries, groups);
  }

  /** Where a member of a tree comes from, and that those listed before it there come before it. */
  lemma {:induction false} MemberIndex<T(!new)>(list: seq<T>, roots: seq<nat>, root: nat, m: nat) returns (k: nat)
    requires |roots| <= |list| && m < |Members(list, roots, root)|
    ensures k < |roots| && roots[k] == root && list[k] == Members(list, roots, root)[m]
    ensures forall j :: 0 <= j < k && roots[j] == root ==> list[j] in Members(list, roots, root)[..m]
  {
    var last := |roots| - 1;
    var init := Members(list, roots[..last], root);
    assert roots == roots[..last] + [roots[last]];
    if m < |init| {
      k := MemberIndex(list, roots[..last], root, m);
      assert Members(list, roots, root)[..m] == init[..m];
    } else {
      k := last;
      assert Members(list, roots, root)[..m] == init;
    }
  }

  /** Chained entries are in one tree. */
  lemma ChainedSameRoot(entries: seq<Entry>, parent: seq<nat>, rank: seq<nat>, roots: seq<nat>, k: nat, j: nat)
    requires TreesAreChains(Rows(entries), parent, rank)
    requires RootsOf(roots, parent, rank) && |roots| == |entries| && k < |entries| && j < |entries|
    requires Chained(entries, k, j)
    ensures roots[j] == roots[k]
  {
    var rows := Rows(entries);
    var tree := Elements(Members(rows, roots, roots[k]));
    TreeIsComponent(rows, parent, rank, roots, roots[k]);
    assert rows[k] in Members(rows, roots, roots[k]);
    ClosedContainsConnected(Edges(Elements(rows)), tree, rows[k], rows[j]);
    assert rows[j] in Members(rows, roots, roots[j]);
    SameAdvisorySameTree(rows, parent, rank, roots, roots[k], roots[j], rows[j]);
  }

  lemma TreeHead(entries: seq<Entry>, parent: seq<nat>, rank: seq<nat>, roots: seq<nat>, root: nat, g: Group)
    requires TreesAreChains(Rows(entries), parent, rank)
    requires RootsOf(roots, parent, rank) && |roots| == |entries|
    requires BuiltFrom(Members(entries, roots, root), g)
    ensures IsHead(entries, g.primary)
  {
    var tree := Members(entries, roots, root);
    var m: nat :| HeadedBy(tree, m, g);
    var k := MemberIndex(entries, roots, root, m);
    forall j | 0 <= j < |entries| && Chained(entries, k, j)
      ensures GivesWay(entries, j, k)
    {
      ChainedSameRoot(entries, parent, rank, roots, k, j);
      assert entries[j] in tree;
      var i :| 0 <= i < |tree| && tree[i] == entries[j];
      if j < k {
        var i' :| 0 <= i' < m && tree[..m][i'] == entries[j];
        assert tree[i'] == entries[j];
      }
    }
    assert Heads(entries, k);
  }

  /** A chain has one head. */
  lemma HeadsAgree(entries: seq<Entry>, k: nat, m: nat)
    requires Heads(entries, k) && Heads(entries, m) && Chained(entries, k, m)
    ensures k == m
  {
    ConnectedSym(Edges(Elements(Rows(entries))), entries[k].row, entries[m].row);
    assert Chained(entries, m, k);
    assert GivesWay(entries, k, m) && GivesWay(entries, m, k);
  }

  /** Every row that heads its group is the primary of one. */
  lemma HeadIsPrimary(entries: seq<Entry>, groups: seq<Group>, a: Advisory) returns (g: Group)
    requires MemberSets(groups) == IdentifierComponents(Elements(Rows(entries)))
    requires forall h :: h in groups ==> IsHead(entries, h.primary)
    requires IsHead(entries, a)
    ensures g in groups && g.primary == a
  {
    var all := Elements(Rows(entries));
    var k: nat :| Heads(entries, k) && entries[k].row == a;
    assert Rows(entries)[k] in all;
    ConnectedRefl(Edges(all), a);
    TogetherExactlyWhenChained(all, a, a);
    var c :| c in IdentifierComponents(all) && a in c;
    g :| g in groups && g.Members() == c;
    var m: nat :| Heads(entries, m) && entries[m].row == g.primary;
    assert Rows(entries)[m] in all;
    TogetherExactlyWhenChained(all, a, g.primary);
    assert g.primary in c;
    HeadsAgree(entries, k, m);
  }

  lemma AllValidExactly(entries: seq<Entry>, groups: seq<Group>)
    requires MemberSets(groups) == IdentifierComponents(Elements(Rows(entries)))
    requires forall g :: g in groups ==> ValidExactly(entries, g) && IsHead(entries, g.primary)
    ensures (forall g :: g in groups ==> g.Valid()) <==> HeadsLoadedOnce(entries)
  {
    if forall g :: g in groups ==> g.Valid() {
      forall a | IsHead(entries, a)
        ensures !LoadedTwice(entries, a)
      {
        var g := HeadIsPrimary(entries, groups, a);
        assert ValidExactly(entries, g);
      }
    }
    if HeadsLoadedOnce(entries) {
      forall g | g in groups
        ensures g.Valid()
      {
        assert ValidExactly(entries, g) && IsHead(entries, g.primary);
      }
    }
  }

  /** All copies of a row share its id, so they are in one tree. */
  lemma CopyInTree(entries: seq<Entry>, parent: seq<nat>, rank: seq<nat>, roots: seq<nat>, root: nat,
                   e: Entry, f: Entry)
    requires TreesAreChains(Rows(entries), parent, rank)
    requires RootsOf(roots, parent, rank) && |roots| == |entries|
    requires e in Members(entries, roots, root) && f in entries && f.row == e.row
    ensures f in Members(entries, roots, root)
  {
    var w :| 0 <= w < |roots| && roots[w] == root && entries[w] == e;
    var i :| 0 <= i < |entries| && entries[i] == f;
    var id := e.row.IdentifierList()[0];
    assert Carries(Rows(entries), i, id) && Carries(Rows(entries), w, id);
  }

  lemma LoadedTwiceInTree(entries: seq<Entry>, parent: seq<nat>, rank: seq<nat>, roots: seq<nat>, root: nat,
                          a: Advisory)
    requires TreesAreChains(Rows(entries), parent, rank)
    requires RootsOf(roots, parent, rank) && |roots| == |entries|
    requires a in Rows(Members(entries, roots, root))
    ensures LoadedTwice(Members(entries, roots, root), a) <==> LoadedTwice(entries, a)
  {
    var tree := Members(entries, roots, root);
    var k :| 0 <= k < |tree| && Rows(tree)[k] == a;
    assert tree[k] in tree;
    forall f | f in entries && f.row == a
      ensures f in tree
    {
      CopyInTree(entries, parent, rank, roots, root, tree[k], f);
    }
    assert forall f :: f in tree ==> f in entries;
  }

  lemma GroupValidExactly(entries: seq<Entry>, parent: seq<nat>, rank: seq<nat>, roots: seq<nat>, root: nat, g: Group)
    requires TreesAreChains(Rows(entries), parent, rank)
    requires RootsOf(roots, parent, rank) && |roots| == |entries|
    requires BuiltFrom(Members(entries, roots, root), g)
    ensures ValidExactly(entries, g)
  {
    var tree := Members(entries, roots, root);
    assert g.primary in Rows(tree) by {
      assert g.primary in g.Members();
    }
    LoadedTwiceInTree(entries, parent, rank, roots, root, g.primary);
  }

  ghost predicate ValidExactly(entries: seq<Entry>, g: Group) {
    g.Headed() && (g.Valid() <==> !LoadedTwice(entries, g.primary))
  }

  /** What the last loop makes of one tree. */
  ghost predicate BuiltFrom(members: seq<Entry>, g: Group) {
    && g.Members() == Elements(Rows(members)) && g.Headed()
    && (g.primary in g.secondaries <==> LoadedTwice(members, g.primary))
    && exists k: nat :: HeadedBy(members, k, g)
  }

  lemma InitiallySound(advisories: seq<Advisory>, parent: seq<nat>, rank: seq<nat>)
    requires |parent| == |rank| == |advisories|
    requires forall i :: 0 <= i < |parent| ==> parent[i] == i
    ensures Sound(advisories, parent, rank)
  {
    forall a | 0 <= a < |parent|
      ensures Connected(Edges(Elements(advisories)), advisories[a], advisories[a])
    {
      ConnectedRefl(Edges(Elements(advisories)), advisories[a]);
    }
  }

  lemma FiledTreesAreChains(advisories: seq<Advisory>, parent: seq<nat>, rank: seq<nat>, firstOf: map<string, nat>)
    requires Sound(advisories, parent, rank) && Indexed(advisories, firstOf)
    requires AllFiled(advisories, parent, rank, firstOf, |advisories|)
    ensures TreesAreChains(advisories, parent, rank)
  {
    forall i: nat, j: nat, id | i < |advisories| && j < |advisories|
                                && Carries(advisories, i, id) && Carries(advisories, j, id)
      ensures Root(parent, rank, i) == Root(parent, rank, j)
    {
      assert Filed(parent, rank, firstOf, i, id) && Filed(parent, rank, firstOf, j, id);
    }
  }

  /** The body of the last loop. */
  method BuildOne(entries: seq<Entry>, aliasMap: map<nat, seq<string>>, order: seq<nat>,
                  groupOf: map<nat, seq<Entry>>, ghost roots: seq<nat>, n: nat)
    returns (group: Group)
    requires Loaded(entries) && AliasMapFor(aliasMap, Rows(entries)) && |roots| == |entries|
    requires Collected(entries, roots, order, groupOf) && n < |order|
    ensures BuiltFrom(Members(entries, roots, order[n]), group)
  {
    assert order[n] in Elements(order);
    TreeIsLoaded(entries, aliasMap, roots, order[n]);
    group := BuildGroup(groupOf[order[n]], aliasMap);
  }

  /** The last loop. */
  method BuildAll(entries: seq<Entry>, aliasMap: map<nat, seq<string>>, order: seq<nat>,
                  groupOf: map<nat, seq<Entry>>, ghost roots: seq<nat>)
    returns (groups: seq<Group>)
    requires Loaded(entries) && AliasMapFor(aliasMap, Rows(entries)) && |roots| == |entries|
    requires Collected(entries, roots, order, groupOf)
    ensures |groups| == |order|
    ensures forall n :: 0 <= n < |order| ==> BuiltFrom(Members(entries, roots, order[n]), groups[n])
  {
    groups := [];
    for n := 0 to |order|
      invariant |groups| == n
      invariant forall m :: 0 <= m < n ==> BuiltFrom(Members(entries, roots, order[m]), groups[m])
    {
      var group := BuildOne(entries, aliasMap, order, groupOf, roots, n);
      groups := groups + [group];
    }
  }

  lemma GroupOfTree(entries: seq<Entry>, roots: seq<nat>, root: nat, g: Group)
    requires |roots| <= |entries| && BuiltFrom(Members(entries, roots, root), g)
    ensures g.Members() == Elements(Members(Rows(entries), roots, root))
  {
    MembersOfRows(entries, roots, root);
  }

  lemma TreeIsLoaded(entries: seq<Entry>, aliasMap: map<nat, seq<string>>, roots: seq<nat>, root: nat)
    requires Loaded(entries) && AliasMapFor(aliasMap, Rows(entries)) && |roots| == |entries| && root in roots
    ensures var tree := Members(entries, roots, root);
            tree != [] && Loaded(tree) && AliasMapFor(aliasMap, Rows(tree))
  {
    var tree := Members(entries, roots, root);
    var w :| 0 <= w < |roots| && roots[w] == root;
    assert entries[w] in tree;
    MembersOfRows(entries, roots, root);
  }

  /** `groups` are the trees with the roots `order`. */
  ghost predicate GroupsOfTrees(advisories: seq<Advisory>, roots: seq<nat>, order: seq<nat>, groups: seq<Group>) {
    && |groups| == |order|
    && (forall r :: r in order <==> r in roots)
    && (forall i, j :: 0 <= i < j < |order| ==> order[i] != order[j])
    && |roots| <= |advisories|
    && forall n :: 0 <= n < |order| ==> groups[n].Members() == Elements(Members(advisories, roots, order[n]))
  }

  lemma TreesAreAllComponents(advisories: seq<Advisory>, parent: seq<nat>, rank: seq<nat>, roots: seq<nat>,
                              order: seq<nat>, groups: seq<Group>)
    requires TreesAreChains(advisories, parent, rank)
    requires RootsOf(roots, parent, rank) && |roots| == |advisories|
    requires GroupsOfTrees(advisories, roots, order, groups)
    ensures MemberSets(groups) == IdentifierComponents(Elements(advisories))
    ensures DisjointGroups(groups)
  {
    var all := Elements(advisories);
    forall s | s in MemberSets(groups)
      ensures s != {} && IsComponent(all, Edges(all), s)
    {
      var n :| 0 <= n < |groups| && groups[n].Members() == s;
      assert order[n] in roots;
      TreeIsComponent(advisories, parent, rank, roots, order[n]);
      assert Members(advisories, roots, order[n])[0] in s;
    }
    TreesCover(advisories, roots, order, groups);
    CoverIsComponents(all, Edges(all), MemberSets(groups));
    forall m, n | 0 <= m < n < |groups|
      ensures groups[m].Members() !! groups[n].Members()
    {
      TreesDisjoint(advisories, parent, rank, roots, order[m], order[n]);
    }
  }

  lemma TreesCover(advisories: seq<Advisory>, roots: seq<nat>, order: seq<nat>, groups: seq<Group>)
    requires |roots| == |advisories| && GroupsOfTrees(advisories, roots, order, groups)
    ensures Covers(Elements(advisories), MemberSets(groups))
  {
    forall a | a in Elements(advisories)
      ensures exists s :: s in MemberSets(groups) && a in s
    {
      var i :| 0 <= i < |advisories| && advisories[i] == a;
      assert roots[i] in order;
      var n :| 0 <= n < |order| && order[n] == roots[i];
      assert groups[n] in groups;
      assert a in groups[n].Members();
    }
  }

  lemma TreesDisjoint(advisories: seq<Advisory>, parent: seq<nat>, rank: seq<nat>, roots: seq<nat>, r: nat, s: nat)
    requires TreesAreChains(advisories, parent, rank)
    requires RootsOf(roots, parent, rank) && |roots| == |advisories| && r != s
    ensures Elements(Members(advisories, roots, r)) !! Elements(Members(advisories, roots, s))
  {
    forall a | a in Members(advisories, roots, r)
      ensures a !in Members(advisories, roots, s)
    {
      if a in Members(advisories, roots, s) {
        SameAdvisorySameTree(advisories, parent, rank, roots, r, s, a);
      }
    }
  }

  /** Two copies of one advisory share its id, so they are in one tree. */
  lemma SameAdvisorySameTree(advisories: seq<Advisory>, parent: seq<nat>, rank: seq<nat>, roots: seq<nat>,
                             r: nat, s: nat, a: Advisory)
    requires TreesAreChains(advisories, parent, rank)
    requires RootsOf(roots, parent, rank) && |roots| == |advisories|
    requires a in Members(advisories, roots, r) && a in Members(advisories, roots, s)
    ensures r == s
  {
    var i :| 0 <= i < |roots| && roots[i] == r && advisories[i] == a;
    var j :| 0 <= j < |roots| && roots[j] == s && advisories[j] == a;
    assert Carries(advisories, i, a.IdentifierList()[0]) && Carries(advisories, j, a.IdentifierList()[0]);
  }

  /** The fast merge refines the list scan: group by group, the same members, the same
    identifiers, and primaries of the same precedence. */
  lemma FastRefinesScan(scanned: seq<Group>, fast: seq<Group>, s: Group)
    requires MemberSets(scanned) == MemberSets(fast) && s in scanned
    requires forall g :: g in scanned || g in fast ==> g.Headed()
    ensures exists f :: f in fast && f.Members() == s.Members() && f.aliases == s.aliases
                        && f.primary.PrecedenceKey() == s.primary.PrecedenceKey()
  {
    assert s.Members() in MemberSets(fast);
    var f :| f in fast && f.Members() == s.Members();
    assert f.primary in s.Members() && s.primary in f.Members();
  }
}
