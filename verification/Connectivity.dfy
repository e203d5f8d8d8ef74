/** Being joined by a chain of overlapping sets.

  An edge is a set of nodes; two nodes of one edge are linked, and two nodes are
  connected when a finite chain of links leads from one to the other.  Advisory grouping
  uses it with one edge per identifier (the advisories that carry it), the alias import with
  one edge per successful call (the aliases it was given). */
module Connectivity {

  ghost predicate Link<T>(edges: set<set<T>>, a: T, b: T) {
    exists e :: e in edges && a in e && b in e
  }

  /** `p` is a walk along `edges`: each node is linked to its successor. */
  ghost predicate Walk<T>(edges: set<set<T>>, p: seq<T>) {
    && |p| > 0
    && forall i :: 0 <= i < |p| - 1 ==> Link(edges, p[i], p[i + 1])
  }

  ghost predicate WalkBetween<T>(edges: set<set<T>>, p: seq<T>, a: T, b: T) {
    Walk(edges, p) && p[0] == a && p[|p| - 1] == b
  }

  ghost predicate Connected<T(!new)>(edges: set<set<T>>, a: T, b: T) {
    exists p: seq<T> :: WalkBetween(edges, p, a, b)
  }

  lemma ConnectedRefl<T(!new)>(edges: set<set<T>>, a: T)
    ensures Connected(edges, a, a)
  {
    assert WalkBetween(edges, [a], a, a);
  }

  lemma ConnectedByEdge<T(!new)>(edges: set<set<T>>, e: set<T>, a: T, b: T)
    requires e in edges && a in e && b in e
    ensures Connected(edges, a, b)
  {
    assert Link(edges, a, b);
    assert WalkBetween(edges, [a, b], a, b);
  }

  lemma ConnectedSym<T(!new)>(edges: set<set<T>>, a: T, b: T)
    requires Connected(edges, a, b)
    ensures Connected(edges, b, a)
  {
    var p :| WalkBetween(edges, p, a, b);
    var q := seq(|p|, i requires 0 <= i < |p| => p[|p| - 1 - i]);
    forall i | 0 <= i < |q| - 1
      ensures Link(edges, q[i], q[i + 1])
    {
      assert Link(edges, p[|p| - 2 - i], p[|p| - 2 - i + 1]);
    }
    assert WalkBetween(edges, q, b, a);
  }

  lemma ConnectedTrans<T(!new)>(edges: set<set<T>>, a: T, b: T, c: T)
    requires Connected(edges, a, b) && Connected(edges, b, c)
    ensures Connected(edges, a, c)
  {
    var p :| WalkBetween(edges, p, a, b);
    var q :| WalkBetween(edges, q, b, c);
    var r := p + q[1..];
    forall i | 0 <= i < |r| - 1
      ensures Link(edges, r[i], r[i + 1])
    {
      if i >= |p| - 1 {
        assert Link(edges, q[i - (|p| - 1)], q[i - (|p| - 1) + 1]);
      }
    }
    assert WalkBetween(edges, r, a, c);
  }

  /** More edges connect at least as much. */
  lemma ConnectedMono<T(!new)>(edges: set<set<T>>, more: set<set<T>>, a: T, b: T)
    requires edges <= more && Connected(edges, a, b)
    ensures Connected(more, a, b)
  {
    var p :| WalkBetween(edges, p, a, b);
    forall i | 0 <= i < |p| - 1
      ensures Link(more, p[i], p[i + 1])
    {
      assert Link(edges, p[i], p[i + 1]);
    }
    assert WalkBetween(more, p, a, b);
  }

  /** A set no edge leaves. */
  ghost predicate Closed<T>(edges: set<set<T>>, s: set<T>) {
    forall e, a, b :: e in edges && a in e && b in e && a in s ==> b in s
  }

  /** A walk that starts in a closed set stays in it. */
  lemma {:induction false} ClosedHolds<T(!new)>(edges: set<set<T>>, s: set<T>, p: seq<T>)
    requires Closed(edges, s) && Walk(edges, p) && p[0] in s
    ensures p[|p| - 1] in s
    decreases |p|
  {
    if |p| > 1 {
      assert Link(edges, p[0], p[0 + 1]);
      var e :| e in edges && p[0] in e && p[1] in e;
      forall i | 0 <= i < |p[1..]| - 1
        ensures Link(edges, p[1..][i], p[1..][i + 1])
      {
        assert Link(edges, p[i + 1], p[i + 1 + 1]);
      }
      ClosedHolds(edges, s, p[1..]);
    }
  }

  lemma ClosedContainsConnected<T(!new)>(edges: set<set<T>>, s: set<T>, a: T, b: T)
    requires Closed(edges, s) && a in s && Connected(edges, a, b)
    ensures b in s
  {
    var p :| WalkBetween(edges, p, a, b);
    ClosedHolds(edges, s, p);
  }

  /** All nodes of `nodes` that a chain joins to `a`. */
  ghost function Component<T(!new)>(nodes: set<T>, edges: set<set<T>>, a: T): set<T> {
    set b | b in nodes && Connected(edges, a, b)
  }

  ghost function Components<T(!new)>(nodes: set<T>, edges: set<set<T>>): set<set<T>> {
    set a | a in nodes :: Component(nodes, edges, a)
  }

  lemma ComponentOf<T(!new)>(nodes: set<T>, edges: set<set<T>>, a: T)
    requires a in nodes
    ensures Component(nodes, edges, a) in Components(nodes, edges)
    ensures a in Component(nodes, edges, a)
  {
    ConnectedRefl(edges, a);
  }

  lemma ComponentWitness<T(!new)>(nodes: set<T>, edges: set<set<T>>, c: set<T>) returns (a: T)
    requires c in Components(nodes, edges)
    ensures a in nodes && c == Component(nodes, edges, a)
  {
    a :| a in nodes && c == Component(nodes, edges, a);
  }

  /** What an algorithm has to establish of a group for it to be a component. */
  ghost predicate IsComponent<T(!new)>(nodes: set<T>, edges: set<set<T>>, g: set<T>) {
    && g <= nodes
    && Closed(edges, g)
    && forall a, b {:trigger Connected(edges, a, b)} :: a in g && b in g ==> Connected(edges, a, b)
  }

  lemma IsComponentUnique<T(!new)>(nodes: set<T>, edges: set<set<T>>, g: set<T>, a: T)
    requires IsComponent(nodes, edges, g) && a in g
    ensures g == Component(nodes, edges, a)
  {
    forall b | b in Component(nodes, edges, a)
      ensures b in g
    {
      ClosedContainsConnected(edges, g, a, b);
    }
  }

  lemma IsComponentIsOne<T(!new)>(nodes: set<T>, edges: set<set<T>>, g: set<T>)
    requires IsComponent(nodes, edges, g) && g != {}
    ensures g in Components(nodes, edges)
  {
    var a :| a in g;
    IsComponentUnique(nodes, edges, g, a);
    ComponentOf(nodes, edges, a);
  }

  ghost predicate AllComponents<T(!new)>(nodes: set<T>, edges: set<set<T>>, family: set<set<T>>) {
    {} !in family && forall g :: g in family ==> IsComponent(nodes, edges, g)
  }

  ghost predicate Covers<T(!new)>(nodes: set<T>, family: set<set<T>>) {
    forall a :: a in nodes ==> exists g :: g in family && a in g
  }

  lemma FamilyWithin<T(!new)>(nodes: set<T>, edges: set<set<T>>, family: set<set<T>>)
    requires AllComponents(nodes, edges, family)
    ensures family <= Components(nodes, edges)
  {
    forall g | g in family
      ensures g in Components(nodes, edges)
    {
      IsComponentIsOne(nodes, edges, g);
    }
  }

  lemma CoveredComponent<T(!new)>(nodes: set<T>, edges: set<set<T>>, family: set<set<T>>, c: set<T>)
    requires AllComponents(nodes, edges, family) && Covers(nodes, family)
    requires c in Components(nodes, edges)
    ensures c in family
  {
    var a := ComponentWitness(nodes, edges, c);
    var g :| g in family && a in g;
    IsComponentUnique(nodes, edges, g, a);
  }

  /** A family of components that covers the nodes is the family of all components. */
  lemma CoverIsComponents<T(!new)>(nodes: set<T>, edges: set<set<T>>, family: set<set<T>>)
    requires AllComponents(nodes, edges, family) && Covers(nodes, family)
    ensures family == Components(nodes, edges)
  {
    FamilyWithin(nodes, edges, family);
    var all := Components(nodes, edges);
    forall c | c in all
      ensures c in family
    {
      CoveredComponent(nodes, edges, family, c);
    }
  }
}
