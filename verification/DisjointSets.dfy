/** The union-find forest that lives in the closures of `get_merged_identifier_groups`
  (vulnerabilities/pipes/group_advisories.py): `find` with path halving, `union` by rank. */
module DisjointSets {

  /** A forest over `0..|parent|`: ranks strictly grow towards the root. */
  ghost predicate Forest(parent: seq<nat>, rank: seq<nat>) {
    && |parent| == |rank|
    && (forall x :: 0 <= x < |parent| ==> parent[x] < |parent|)
    && (forall x :: 0 <= x < |parent| && parent[x] != x ==> rank[x] < rank[parent[x]])
  }

  ghost function Highest(rank: seq<nat>): (h: nat)
    ensures forall x :: 0 <= x < |rank| ==> rank[x] <= h
  {
    if rank == [] then 0
    else
      var h := Highest(rank[1..]);
      assert forall x :: 1 <= x < |rank| ==> rank[x] == rank[1..][x - 1];
      if rank[0] > h then rank[0] else h
  }

  ghost function Root(parent: seq<nat>, rank: seq<nat>, x: nat): (r: nat)
    requires Forest(parent, rank) && x < |parent|
    ensures r < |parent| && parent[r] == r
    decreases Highest(rank) - rank[x]
  {
    if parent[x] == x then x else Root(parent, rank, parent[x])
  }

  /** The same trees, perhaps flatter. */
  ghost predicate SameRoots(parent: seq<nat>, parent': seq<nat>, rank: seq<nat>) {
    && Forest(parent, rank) && Forest(parent', rank)
    && forall y :: 0 <= y < |parent| ==> Root(parent', rank, y) == Root(parent, rank, y)
  }

  /** Pointing a node at its grandparent changes no root. */
  lemma HalvingKeepsRoots(parent: seq<nat>, rank: seq<nat>, x: nat)
    requires Forest(parent, rank) && x < |parent| && parent[x] != x
    ensures SameRoots(parent, parent[x := parent[parent[x]]], rank)
  {
    var parent' := parent[x := parent[parent[x]]];
    forall y | 0 <= y < |parent|
      ensures Root(parent', rank, y) == Root(parent, rank, y)
    {
      HalvingKeepsRoot(parent, rank, x, y);
    }
  }

  lemma {:induction false} HalvingKeepsRoot(parent: seq<nat>, rank: seq<nat>, x: nat, y: nat)
    requires Forest(parent, rank) && x < |parent| && parent[x] != x && y < |parent|
    requires Forest(parent[x := parent[parent[x]]], rank)
    ensures Root(parent[x := parent[parent[x]]], rank, y) == Root(parent, rank, y)
    decreases Highest(rank) - rank[y]
  {
    if parent[y] != y {
      HalvingKeepsRoot(parent, rank, x, parent[y]);
      if y == x && parent[parent[x]] != parent[x] {
        HalvingKeepsRoot(parent, rank, x, parent[parent[x]]);
      }
    }
  }

  /** Hanging the root `low` under the root `high` moves exactly the nodes below `low`. */
  lemma {:induction false} LinkingMovesRoot(parent: seq<nat>, rank: seq<nat>, rank': seq<nat>,
                                            low: nat, high: nat, y: nat)
    requires Forest(parent, rank) && low < |parent| && high < |parent| && y < |parent| && low != high
    requires parent[low] == low && parent[high] == high
    requires Forest(parent[low := high], rank')
    ensures Root(parent[low := high], rank', y)
         == if Root(parent, rank, y) == low then high else Root(parent, rank, y)
    decreases Highest(rank) - rank[y]
  {
    if parent[y] != y {
      LinkingMovesRoot(parent, rank, rank', low, high, parent[y]);
    } else if y == low {
      assert Root(parent[low := high], rank', high) == high;
    }
  }

  /** `find`, halving the path on the way up. */
  method Find(parent: array<nat>, ghost rank: seq<nat>, start: nat) returns (x: nat)
    requires Forest(parent[..], rank) && start < parent.Length
    modifies parent
    ensures SameRoots(old(parent[..]), parent[..], rank)
    ensures x == Root(parent[..], rank, start)
  {
    x := start;
    while parent[x] != x
      invariant x < parent.Length
      invariant SameRoots(old(parent[..]), parent[..], rank)
      invariant Root(parent[..], rank, x) == Root(parent[..], rank, start)
      decreases Highest(rank) - rank[x]
    {
      ghost var before := parent[..];
      HalvingKeepsRoots(before, rank, x);
      parent[x] := parent[parent[x]];
      assert parent[..] == before[x := before[before[x]]];
      x := parent[x];
    }
  }

  /** Exactly the sets of `x` and `y` are joined, whatever the roots are called. */
  ghost predicate Joined(parent: seq<nat>, rank: seq<nat>, parent': seq<nat>, rank': seq<nat>, x: nat, y: nat)
    requires x < |parent| && y < |parent|
  {
    && Forest(parent, rank) && Forest(parent', rank') && |parent'| == |parent|
    && forall a, b :: 0 <= a < |parent| && 0 <= b < |parent| ==>
         (Root(parent', rank', a) == Root(parent', rank', b)
          <==> var ra, rb := Root(parent, rank, a), Root(parent, rank, b);
               var rx, ry := Root(parent, rank, x), Root(parent, rank, y);
               ra == rb || (ra == rx && rb == ry) || (ra == ry && rb == rx))
  }

  lemma LinkingJoins(parent: seq<nat>, rank: seq<nat>, rank': seq<nat>, low: nat, high: nat, x: nat, y: nat)
    requires Forest(parent, rank) && x < |parent| && y < |parent| && low < |parent| && high < |parent|
    requires low != high && {low, high} == {Root(parent, rank, x), Root(parent, rank, y)}
    requires parent[low] == low && parent[high] == high
    requires Forest(parent[low := high], rank')
    ensures Joined(parent, rank, parent[low := high], rank', x, y)
  {
    forall a | 0 <= a < |parent|
      ensures Root(parent[low := high], rank', a)
           == if Root(parent, rank, a) == low then high else Root(parent, rank, a)
    {
      LinkingMovesRoot(parent, rank, rank', low, high, a);
    }
    assert low in {Root(parent, rank, x), Root(parent, rank, y)};
    assert high in {Root(parent, rank, x), Root(parent, rank, y)};
  }

  lemma SameRootsJoin(parent: seq<nat>, parent1: seq<nat>, rank: seq<nat>, parent2: seq<nat>, rank2: seq<nat>,
                      x: nat, y: nat)
    requires SameRoots(parent, parent1, rank) && x < |parent| && y < |parent|
    requires Joined(parent1, rank, parent2, rank2, x, y)
    ensures Joined(parent, rank, parent2, rank2, x, y)
  {
  }

  /** Both roots, found one after the other, are roots of the flattened forest. */
  method FindBoth(parent: array<nat>, ghost rank: seq<nat>, x: nat, y: nat) returns (rx: nat, ry: nat)
    requires Forest(parent[..], rank) && x < parent.Length && y < parent.Length
    modifies parent
    ensures SameRoots(old(parent[..]), parent[..], rank)
    ensures rx == Root(parent[..], rank, x) && ry == Root(parent[..], rank, y)
  {
    rx := Find(parent, rank, x);
    ry := Find(parent, rank, y);
  }

  /** `union` by rank. */
  method UnionByRank(parent: array<nat>, rank: array<nat>, x: nat, y: nat)
    requires parent != rank && Forest(parent[..], rank[..]) && x < parent.Length && y < parent.Length
    modifies parent, rank
    ensures Joined(old(parent[..]), old(rank[..]), parent[..], rank[..], x, y)
  {
    var rx, ry := FindBoth(parent, rank[..], x, y);
    ghost var flat, ranks := parent[..], rank[..];
    if rx == ry {
      return;
    }
    if rank[rx] < rank[ry] {
      rx, ry := ry, rx;
    }
    parent[ry] := rx;
    if rank[rx] == rank[ry] {
      rank[rx] := rank[rx] + 1;
    }
    assert parent[..] == flat[ry := rx];
    LinkingJoins(flat, ranks, rank[..], ry, rx, x, y);
    SameRootsJoin(old(parent[..]), flat, ranks, parent[..], rank[..], x, y);
  }
}
