/** Advisories and the identifiers that tie them together: the vocabulary shared by the
  list-scan merge and the union-find merge. */
module Advisories {
  import opened Options
  import opened Connectivity

  /** A row of the advisory table; two rows are the same advisory when they are equal. */
  datatype Advisory = Advisory(pk: nat, advisoryId: string, aliases: seq<string>, precedence: Option<int>) {
    /** The identifiers in the order in which both merges visit them. */
    function IdentifierList(): seq<string> {
      [advisoryId] + aliases
    }

    ghost function Identifiers(): set<string> {
      set i | i in IdentifierList()
    }

    /** The key of `max`: a missing precedence ranks as -1. */
    function PrecedenceKey(): int {
      if precedence.Some? then precedence.value else -1
    }
  }

  datatype Group = Group(aliases: set<string>, primary: Advisory, secondaries: seq<Advisory>) {
    ghost function Members(): set<Advisory> {
      {primary} + set a | a in secondaries
    }

    /** What every caller of a merge relies on: the identifiers are those of the members and
      the primary takes precedence over everybody. */
    ghost predicate Headed() {
      && (forall s :: s in aliases <==> exists a :: a in Members() && s in a.aliases)
      && forall a :: a in Members() ==> a.PrecedenceKey() <= primary.PrecedenceKey()
    }

    /** And the primary is not its own secondary. */
    ghost predicate Valid() {
      Headed() && primary !in secondaries
    }
  }

  /** A missing precedence gives way to every precedence above -1, and only to those. */
  lemma MissingPrecedenceGivesWay(g: Group, a: Advisory)
    requires g.Headed() && a in g.Members()
    ensures g.primary.precedence.None? && a.precedence.Some? ==> a.precedence.value <= -1
    ensures g.primary.precedence.Some? && a.precedence.None? ==> g.primary.precedence.value >= -1
    ensures g.primary.precedence.Some? && a.precedence.Some? ==> a.precedence.value <= g.primary.precedence.value
  {
    assert a.PrecedenceKey() <= g.primary.PrecedenceKey();
  }

  ghost function AllAliases(members: set<Advisory>): set<string> {
    set a, s | a in members && s in a.aliases :: s
  }

  ghost function Elements<T>(s: seq<T>): set<T> {
    set x | x in s
  }

  ghost function AllIdentifiers(advisories: set<Advisory>): set<string> {
    set a, i | a in advisories && i in a.Identifiers() :: i
  }

  /** The advisories that carry `identifier`, as their id or as an alias. */
  ghost function Holders(advisories: set<Advisory>, identifier: string): set<Advisory> {
    set a | a in advisories && identifier in a.Identifiers()
  }

  /** One edge per identifier. */
  ghost function Edges(advisories: set<Advisory>): set<set<Advisory>> {
    set i | i in AllIdentifiers(advisories) :: Holders(advisories, i)
  }

  lemma HoldersIsEdge(advisories: set<Advisory>, i: string)
    requires i in AllIdentifiers(advisories)
    ensures Holders(advisories, i) in Edges(advisories)
  {
  }

  lemma IdentifiersAre(a: Advisory)
    ensures forall i :: i in a.Identifiers() <==> i == a.advisoryId || i in a.aliases
  {
    assert a.advisoryId == a.IdentifierList()[0];
    forall i | i in a.aliases
      ensures i in a.IdentifierList()
    {
      var k :| 0 <= k < |a.aliases| && a.aliases[k] == i;
      assert a.IdentifierList()[k + 1] == i;
    }
  }

  lemma SharedIdentifier(a: Advisory, b: Advisory)
    ensures a.Identifiers() * b.Identifiers() != {}
       <==> || a.advisoryId == b.advisoryId || a.advisoryId in b.aliases || b.advisoryId in a.aliases
            || exists s :: s in a.aliases && s in b.aliases
  {
    IdentifiersAre(a);
    IdentifiersAre(b);
    var both := a.Identifiers() * b.Identifiers();
    if both != {} {
      var i :| i in both;
    }
    if a.advisoryId in b.Identifiers() {
      assert a.advisoryId in both;
    }
    if b.advisoryId in a.Identifiers() {
      assert b.advisoryId in both;
    }
    if s :| s in a.aliases && s in b.aliases {
      assert s in both;
    }
  }

  /** An advisory is filed under exactly its id and its aliases. */
  lemma HoldersAre(advisories: set<Advisory>, identifier: string)
    ensures forall a :: a in Holders(advisories, identifier)
                    <==> a in advisories && (identifier == a.advisoryId || identifier in a.aliases)
  {
    forall a | a in advisories
      ensures identifier in a.Identifiers() <==> identifier == a.advisoryId || identifier in a.aliases
    {
      IdentifiersAre(a);
    }
  }

  /** Being linked is sharing an identifier: the same id, the id of one among the aliases of the
    other, or an alias in common. */
  lemma LinkIsSharing(advisories: set<Advisory>, a: Advisory, b: Advisory)
    requires a in advisories && b in advisories
    ensures Link(Edges(advisories), a, b) <==> a.Identifiers() * b.Identifiers() != {}
    ensures Link(Edges(advisories), a, b)
       <==> || a.advisoryId == b.advisoryId || a.advisoryId in b.aliases || b.advisoryId in a.aliases
            || exists s :: s in a.aliases && s in b.aliases
  {
    IdentifiersAre(a);
    IdentifiersAre(b);
    SharedIdentifier(a, b);
    if i :| i in a.Identifiers() * b.Identifiers() {
      HoldersIsEdge(advisories, i);
      assert a in Holders(advisories, i) && b in Holders(advisories, i);
    }
    if Link(Edges(advisories), a, b) {
      var e :| e in Edges(advisories) && a in e && b in e;
      var i :| i in AllIdentifiers(advisories) && e == Holders(advisories, i);
      assert i in a.Identifiers() * b.Identifiers();
    }
  }

  /** The partition both merges are meant to compute: advisories are together exactly when
    a chain of shared identifiers joins them. */
  ghost function IdentifierComponents(advisories: set<Advisory>): set<set<Advisory>> {
    Components(advisories, Edges(advisories))
  }

  lemma TogetherExactlyWhenChained(advisories: set<Advisory>, a: Advisory, b: Advisory)
    requires a in advisories && b in advisories
    ensures (exists g :: g in IdentifierComponents(advisories) && a in g && b in g)
       <==> Connected(Edges(advisories), a, b)
  {
    var edges := Edges(advisories);
    if Connected(edges, a, b) {
      ComponentOf(advisories, edges, a);
      assert b in Component(advisories, edges, a);
    }
    if g :| g in IdentifierComponents(advisories) && a in g && b in g {
      var c := ComponentWitness(advisories, edges, g);
      ConnectedSym(edges, c, a);
      ConnectedTrans(edges, a, c, b);
    }
  }

  ghost function MemberSets(groups: seq<Group>): set<set<Advisory>> {
    set g | g in groups :: g.Members()
  }

  ghost predicate DisjointGroups(groups: seq<Group>) {
    forall i, j :: 0 <= i < j < |groups| ==> groups[i].Members() !! groups[j].Members()
  }
}
