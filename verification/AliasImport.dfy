/** The alias database of vulnerabilities/import_runner.py.

  Alias rows point to at most one vulnerability.  A call of
  `get_or_create_vulnerability_and_aliases` either settles all given aliases on one
  vulnerability or refuses.  What holds over whole import histories is proved here. */
module AliasImport {
  import opened Options
  import opened Connectivity

  type AliasName = string
  type VulnId = string

  /** The alias table (name to foreign key) and the ids of the vulnerability table. */
  datatype State = State(pointers: map<AliasName, Option<VulnId>>, vulns: set<VulnId>)

  /** The arguments of a call, and what it meets outside: the random id drawn for a new
    vulnerability, and whether writing the change log raises. */
  datatype Call = Call(aliases: set<AliasName>, requested: Option<VulnId>, drawn: VulnId, logFails: bool) {
    /** An empty requested id counts as none. */
    predicate HasRequest() {
      requested.Some? && requested.value != ""
    }
  }

  // ----- what one call does, as a function of the tables

  /** The rows of the query set: only existing aliases are in it. */
  function Given(s: State, aliases: set<AliasName>): set<AliasName> {
    set a | a in aliases && a in s.pointers
  }

  /** `aliases.filter(vulnerability__isnull=True)`. */
  function NewAliases(s: State, aliases: set<AliasName>): set<AliasName> {
    set a | a in aliases && a in s.pointers && s.pointers[a].None?
  }

  function ExistingVulns(s: State, aliases: set<AliasName>): set<VulnId> {
    set a | a in aliases && a in s.pointers && s.pointers[a].Some? :: s.pointers[a].value
  }

  function AliasesOf(s: State, v: VulnId): set<AliasName> {
    set a | a in s.pointers && s.pointers[a] == Some(v)
  }

  /** `aliases.update(vulnerability=v)`. */
  function Pointed(s: State, aliases: set<AliasName>, v: VulnId): State {
    s.(pointers := map a | a in s.pointers :: if a in aliases then Some(v) else s.pointers[a])
  }

  /** The guard of the creating branch: nothing to reuse and nothing requested, at least one
    new alias, and an id that is not taken. */
  predicate Creates(s: State, c: Call) {
    && ExistingVulns(s, c.aliases) == {} && !c.HasRequest()
    && NewAliases(s, c.aliases) != {} && c.drawn !in s.vulns
  }

  /** The vulnerability a call reuses, if any. */
  function Reused(s: State, c: Call): Option<VulnId> {
    var existing := ExistingVulns(s, c.aliases);
    if existing != {} then
      if |existing| != 1 then None
      else
        var v: VulnId := TheOne(existing);
        if c.HasRequest() && v != c.requested.value then None else Some(v)
    else if c.HasRequest() && c.requested.value in s.vulns then c.requested
    else None
  }

  function TheOne(vs: set<VulnId>): (v: VulnId)
    requires |vs| == 1
    ensures vs == {v}
  {
    SingletonIsUnique(vs);
    var v :| v in vs; v
  }

  lemma SingletonIsUnique(vs: set<VulnId>)
    requires |vs| == 1
    ensures forall v, w :: v in vs && w in vs ==> v == w
    ensures forall v :: v in vs ==> vs == {v}
  {
    forall v, w | v in vs && w in vs
      ensures v == w
    {
      assert |vs - {v}| == 0;
      assert vs - {v} == {};
    }
  }

  function Outcome(s: State, c: Call): (State, Option<VulnId>) {
    if Reused(s, c).Some? then
      var v := Reused(s, c).value;
      (Pointed(s, NewAliases(s, c.aliases), v), Some(v))
    else if Creates(s, c) then
      (Pointed(s.(vulns := s.vulns + {c.drawn}), NewAliases(s, c.aliases), c.drawn),
       if c.logFails then None else Some(c.drawn))
    else (s, None)
  }

  // ----- the code

  class AliasDatabase {
    var pointers: map<AliasName, Option<VulnId>>
    var vulns: set<VulnId>

    ghost function Contents(): State
      reads this
    {
      State(pointers, vulns)
    }

    constructor ()
      ensures Contents() == State(map[], {})
    {
      pointers, vulns := map[], {};
    }

    /** `get_or_create_aliases`: rows for unknown names, pointing nowhere. */
    method GetOrCreateAliases(names: set<AliasName>)
      modifies this
      ensures Contents() == WithAliases(old(Contents()), names)
      ensures pointers.Keys == old(pointers).Keys + names && vulns == old(vulns)
      ensures forall a :: a in pointers ==> pointers[a] == if a in old(pointers) then old(pointers)[a] else None
    {
      pointers := (map a | a in names :: None) + pointers;
    }

    method GetVulnsForAliasesAndGetNewAliases(aliases: set<AliasName>)
      returns (newAliases: set<AliasName>, existingVulns: set<VulnId>)
      ensures newAliases == NewAliases(Contents(), aliases)
      ensures existingVulns == ExistingVulns(Contents(), aliases)
    {
      newAliases := set a | a in aliases && a in pointers && pointers[a].None?;
      existingVulns := set a | a in aliases && a in pointers && pointers[a].Some? :: pointers[a].value;
    }

    method AssociateVulnerabilityWithAliases(aliases: set<AliasName>, v: VulnId)
      modifies this`pointers
      ensures Contents() == Pointed(old(Contents()), aliases, v)
    {
      pointers := map a | a in pointers :: if a in aliases then Some(v) else pointers[a];
    }

    /** Atomic: a taken id, or a vulnerability left without alias, rolls everything back. */
    method CreateVulnerabilityAndAddAliases(aliases: set<AliasName>, drawn: VulnId)
      returns (r: Result<VulnId, string>)
      requires aliases <= pointers.Keys
      requires forall a :: a in pointers && pointers[a].Some? ==> pointers[a].value in vulns
      modifies this
      ensures r.Ok? <==> old(drawn !in vulns) && aliases != {}
      ensures r.Ok? ==> r.value == drawn
      ensures r.Ok? ==> Contents() == Pointed(old(Contents()).(vulns := old(vulns) + {drawn}), aliases, drawn)
      ensures r.Raise? ==> Contents() == old(Contents())
    {
      if drawn in vulns {
        return Raise("duplicate vulnerability_id");
      }
      var savedPointers, savedVulns := pointers, vulns;
      vulns := vulns + {drawn};
      AssociateVulnerabilityWithAliases(aliases, drawn);
      var owned := set a | a in pointers && pointers[a] == Some(drawn);
      assert owned == aliases;
      if owned == {} {
        pointers, vulns := savedPointers, savedVulns;
        return Raise("Vulnerability must have one or more aliases");
      }
      return Ok(drawn);
    }

    method GetOrCreateVulnerabilityAndAliases(c: Call) returns (r: Option<VulnId>)
      requires forall a :: a in pointers && pointers[a].Some? ==> pointers[a].value in vulns
      modifies this
      ensures (Contents(), r) == Outcome(old(Contents()), c)
    {
      var newAliases, existingVulns := GetVulnsForAliasesAndGetNewAliases(c.aliases);
      var vulnerability: Option<VulnId> := None;
      if existingVulns != {} {
        if |existingVulns| != 1 {
          return None;
        }
        vulnerability := Some(TheOne(existingVulns));
        if c.HasRequest() && vulnerability.value != c.requested.value {
          return None;
        }
      }
      if c.HasRequest() && vulnerability.None? {
        if c.requested.value !in vulns {
          return None;
        }
        vulnerability := c.requested;
      }
      if vulnerability.Some? {
        AssociateVulnerabilityWithAliases(newAliases, vulnerability.value);
      } else {
        var created := CreateVulnerabilityAndAddAliases(newAliases, c.drawn);
        if created.Raise? || c.logFails {
          return None;
        }
        vulnerability := Some(created.value);
      }
      return vulnerability;
    }
  }

  function WithAliases(s: State, names: set<AliasName>): State {
    s.(pointers := (map a | a in names :: None) + s.pointers)
  }

  // ----- one call

  ghost predicate Consistent(s: State) {
    && (forall a :: a in s.pointers && s.pointers[a].Some? ==> s.pointers[a].value in s.vulns)
    && (forall v :: v in s.vulns ==> AliasesOf(s, v) != {})
  }

  /** Foreign keys stay valid and no vulnerability is ever left without an alias. */
  lemma CallKeepsConsistent(s: State, c: Call)
    requires Consistent(s)
    ensures Consistent(Outcome(s, c).0)
  {
    var t := Outcome(s, c).0;
    forall v | v in t.vulns
      ensures AliasesOf(t, v) != {}
    {
      if v in s.vulns {
        var a :| a in AliasesOf(s, v);
        assert a in AliasesOf(t, v);
      } else {
        var a :| a in NewAliases(s, c.aliases);
        assert a in AliasesOf(t, v);
      }
    }
    forall a | a in t.pointers && t.pointers[a].Some?
      ensures t.pointers[a].value in t.vulns
    {
      if Reused(s, c).Some? && ExistingVulns(s, c.aliases) != {} {
        assert Reused(s, c).value in ExistingVulns(s, c.aliases);
      }
    }
  }

  lemma AddingAliasesKeepsConsistent(s: State, names: set<AliasName>)
    requires Consistent(s)
    ensures Consistent(WithAliases(s, names))
  {
    forall v | v in s.vulns
      ensures AliasesOf(WithAliases(s, names), v) != {}
    {
      var a :| a in AliasesOf(s, v);
      assert a in AliasesOf(WithAliases(s, names), v);
    }
  }

  /** A call that returns `v` leaves every given alias on `v`. */
  lemma ReturnedCallSettles(s: State, c: Call)
    requires Consistent(s) && Outcome(s, c).1.Some?
    ensures var (t, r) := Outcome(s, c);
            && r.value in t.vulns
            && forall a :: a in c.aliases && a in s.pointers ==> a in t.pointers && t.pointers[a] == r
  {
    var (t, r) := Outcome(s, c);
    forall a | a in c.aliases && a in s.pointers
      ensures a in t.pointers && t.pointers[a] == r
    {
      if s.pointers[a].Some? {
        assert s.pointers[a].value in ExistingVulns(s, c.aliases);
      }
    }
    CallKeepsConsistent(s, c);
    if Reused(s, c).Some? && ExistingVulns(s, c.aliases) != {} {
      assert r.value in ExistingVulns(s, c.aliases);
    }
  }

  /** `v` is the one vulnerability the given aliases already point to. */
  ghost predicate OnlyVulnerability(s: State, aliases: set<AliasName>, v: VulnId) {
    && (exists a :: a in aliases && a in s.pointers && s.pointers[a] == Some(v))
    && (forall a :: a in aliases && a in s.pointers && s.pointers[a].Some? ==> s.pointers[a] == Some(v))
  }

  ghost predicate NoneAssigned(s: State, aliases: set<AliasName>) {
    forall a :: a in aliases && a in s.pointers ==> s.pointers[a].None?
  }

  /** Which vulnerability a call returns, if any: the only one its aliases point to, unless
    another is requested; else the requested one, if it exists; else a new one, if there is an
    alias to give it, the id is free and the log works.  An empty requested id is none. */
  lemma ReturnsExactly(s: State, c: Call, v: VulnId)
    ensures Outcome(s, c).1 == Some(v)
       <==> || (OnlyVulnerability(s, c.aliases, v)
                && (c.requested == None || c.requested == Some("") || c.requested == Some(v)))
            || (NoneAssigned(s, c.aliases) && c.requested == Some(v) && v != "" && v in s.vulns)
            || (NoneAssigned(s, c.aliases) && (c.requested == None || c.requested == Some(""))
                && (exists a :: a in c.aliases && a in s.pointers)
                && v == c.drawn && v !in s.vulns && !c.logFails)
  {
    var existing := ExistingVulns(s, c.aliases);
    ExistingMeans(s, c.aliases, v);
    if NoneAssigned(s, c.aliases) {
      assert NewAliases(s, c.aliases) == Given(s, c.aliases);
      if a :| a in c.aliases && a in s.pointers {
        assert a in Given(s, c.aliases);
      }
    }
  }

  lemma ExistingMeans(s: State, aliases: set<AliasName>, v: VulnId)
    ensures NoneAssigned(s, aliases) <==> ExistingVulns(s, aliases) == {}
    ensures OnlyVulnerability(s, aliases, v) <==> ExistingVulns(s, aliases) == {v}
  {
    var existing := ExistingVulns(s, aliases);
    forall a | a in Given(s, aliases) && s.pointers[a].Some?
      ensures s.pointers[a].value in existing
    {
    }
    if existing == {v} {
      assert v in existing;
      var a :| a in aliases && a in s.pointers && s.pointers[a] == Some(v);
      assert a in Given(s, aliases);
    }
  }

  /** A call that returns None leaves the tables alone, except that a failing change log comes
    too late to undo a creation. */
  lemma RefusedCallChangesNothing(s: State, c: Call)
    requires Consistent(s) && Outcome(s, c).1.None?
    ensures Outcome(s, c).0 == s <==> !(c.logFails && Creates(s, c))
  {
  }

  lemma FailingLogExample()
    ensures var s := State(map["CVE-1" := None], {});
            var c := Call({"CVE-1"}, None, "VCID-1", true);
            Consistent(s) && Outcome(s, c).1.None? && Outcome(s, c).0.pointers["CVE-1"] == Some("VCID-1")
  {
    var s := State(map["CVE-1" := None], {});
    var c := Call({"CVE-1"}, None, "VCID-1", true);
    assert "CVE-1" in NewAliases(s, c.aliases);
    assert ExistingVulns(s, c.aliases) == {};
  }

  /** An empty requested id is none. */
  lemma EmptyRequestIsNone(s: State, c: Call)
    requires c.requested == Some("")
    ensures Outcome(s, c) == Outcome(s, c.(requested := None))
  {
  }

  /** What a call that returned `v` leaves for its repetition to find. */
  lemma NothingLeftToDo(s: State, c: Call)
    requires Consistent(s) && Outcome(s, c).1.Some?
    ensures var (t, r) := Outcome(s, c);
            && NewAliases(t, c.aliases) == {}
            && ExistingVulns(t, c.aliases) == (if Given(s, c.aliases) == {} then {} else {r.value})
            && r.value in t.vulns
            && (Given(s, c.aliases) == {} ==> c.HasRequest() && c.requested == r)
            && (c.HasRequest() ==> c.requested == r)
  {
    var (t, r) := Outcome(s, c);
    ReturnedCallSettles(s, c);
    assert t.pointers.Keys == s.pointers.Keys;
    assert forall a :: a in c.aliases && a in t.pointers <==> a in Given(s, c.aliases);
    ReturnsExactly(s, c, r.value);
    if Given(s, c.aliases) != {} {
      var a :| a in Given(s, c.aliases);
      assert t.pointers[a] == r;
      assert r.value in ExistingVulns(t, c.aliases);
    }
  }

  /** Repeating a call that returned `v` returns `v` again and changes nothing. */
  lemma RepeatedCallIsIdle(s: State, c: Call, again: Call)
    requires Consistent(s) && Outcome(s, c).1.Some?
    requires again.aliases == c.aliases && again.requested == c.requested
    ensures Outcome(Outcome(s, c).0, again) == Outcome(s, c)
  {
    var (t, r) := Outcome(s, c);
    NothingLeftToDo(s, c);
    if Given(s, c.aliases) != {} {
      SingletonIsUnique({r.value});
    }
    assert Reused(t, again) == r;
    assert Pointed(t, {}, r.value) == t;
  }

  // ----- aliases first, then the import

  /** Making sure of aliases adds rows for the names that had none, pointing nowhere, and does
    nothing else. */
  lemma EnsuringAddsRows(s: State, names: set<AliasName>)
    ensures var t := After(s, EnsureAliases(names));
            && t.pointers.Keys == s.pointers.Keys + names && t.vulns == s.vulns
            && (forall a :: a in s.pointers ==> t.pointers[a] == s.pointers[a])
            && (forall a :: a in names && a !in s.pointers ==> t.pointers[a] == None)
  {
  }

  /** The importer's two steps on names of which none has a vulnerability: whether or not the names
    are known, they all end up on a new vulnerability, and nothing else changes. */
  lemma EnsuredNamesAreImported(s: State, c: Call)
    requires Consistent(s) && c.aliases != {} && c.drawn !in s.vulns && !c.logFails
    requires c.requested == None || c.requested == Some("")
    requires forall a :: a in c.aliases && a in s.pointers ==> s.pointers[a] == None
    ensures var t := After(s, EnsureAliases(c.aliases));
            var u := After(t, Import(c));
            && Outcome(t, c).1 == Some(c.drawn)
            && u.vulns == s.vulns + {c.drawn} && u.pointers.Keys == s.pointers.Keys + c.aliases
            && (forall a :: a in c.aliases ==> u.pointers[a] == Some(c.drawn))
            && (forall a :: a in s.pointers && a !in c.aliases ==> u.pointers[a] == s.pointers[a])
  {
    var t := After(s, EnsureAliases(c.aliases));
    EnsuringAddsRows(s, c.aliases);
    assert NewAliases(t, c.aliases) == c.aliases && ExistingVulns(t, c.aliases) == {};
  }

  // ----- whole histories

  datatype Step = EnsureAliases(names: set<AliasName>) | Import(call: Call)

  function After(s: State, step: Step): State {
    match step
    case EnsureAliases(names) => WithAliases(s, names)
    case Import(c) => Outcome(s, c).0
  }

  function Run(s: State, steps: seq<Step>): State {
    if steps == [] then s else After(Run(s, steps[..|steps| - 1]), steps[|steps| - 1])
  }

  ghost predicate Empty(s: State) {
    s.vulns == {} && forall a :: a in s.pointers ==> s.pointers[a].None?
  }

  /** The call took effect: it returned a vulnerability, or only its change log failed. */
  ghost predicate Effective(s: State, c: Call) {
    Reused(s, c).Some? || Creates(s, c)
  }

  lemma EffectiveIsReturned(s: State, c: Call)
    ensures Effective(s, c) <==> Outcome(s, c).1.Some? || (c.logFails && Creates(s, c))
  {
  }

  /** What an effective call ties together: its aliases, and when it names a vulnerability
    also the aliases that vulnerability already had. */
  ghost function Tied(s: State, c: Call): set<AliasName> {
    Given(s, c.aliases)
    + if c.HasRequest() then AliasesOf(s, c.requested.value) else {}
  }

  ghost function EdgesOf(s: State, step: Step): set<set<AliasName>> {
    if step.Import? && Effective(s, step.call) then {Tied(s, step.call)} else {}
  }

  ghost function HistoryEdges(s: State, steps: seq<Step>): set<set<AliasName>> {
    if steps == [] then {}
    else
      var init := steps[..|steps| - 1];
      HistoryEdges(s, init) + EdgesOf(Run(s, init), steps[|steps| - 1])
  }

  ghost predicate OnSame(s: State, a: AliasName, b: AliasName) {
    a in s.pointers && b in s.pointers && s.pointers[a].Some? && s.pointers[a] == s.pointers[b]
  }

  /** The vulnerabilities are exactly the classes of the chains so far. */
  ghost predicate Tracks(s: State, edges: set<set<AliasName>>) {
    && (forall e, a, b :: e in edges && a in e && b in e ==> OnSame(s, a, b))
    && (forall a, b {:trigger Connected(edges, a, b)} :: OnSame(s, a, b) ==> Connected(edges, a, b))
  }

  /** A call never repoints an alias. */
  lemma NeverRepointed(s: State, step: Step, a: AliasName)
    requires Consistent(s) && a in s.pointers && s.pointers[a].Some?
    ensures a in After(s, step).pointers && After(s, step).pointers[a] == s.pointers[a]
  {
  }

  /** The vulnerability an effective call settles on. */
  ghost function Target(s: State, c: Call): VulnId
    requires Effective(s, c)
  {
    if Reused(s, c).Some? then Reused(s, c).value else c.drawn
  }

  /** After an effective call exactly its new aliases have joined the target. */
  lemma TargetClass(s: State, c: Call, a: AliasName)
    requires Consistent(s) && Effective(s, c)
    ensures var t := Outcome(s, c).0;
            (a in t.pointers && t.pointers[a] == Some(Target(s, c)))
            <==> (a in NewAliases(s, c.aliases) || a in AliasesOf(s, Target(s, c)))
  {
  }

  /** Everything tied ends on the target, and if the target is an old vulnerability the tie
    reaches at least one alias it already had. */
  lemma TiedOnTarget(s: State, c: Call)
    requires Consistent(s) && Effective(s, c)
    ensures forall a :: a in Tied(s, c) ==>
                          a in NewAliases(s, c.aliases) || a in AliasesOf(s, Target(s, c))
    ensures NewAliases(s, c.aliases) <= Tied(s, c)
    ensures Target(s, c) in s.vulns ==> Tied(s, c) * AliasesOf(s, Target(s, c)) != {}
    ensures Target(s, c) !in s.vulns ==> AliasesOf(s, Target(s, c)) == {}
  {
    var existing := ExistingVulns(s, c.aliases);
    var v := Target(s, c);
    forall a | a in Given(s, c.aliases) && s.pointers[a].Some?
      ensures a in AliasesOf(s, v)
    {
      assert s.pointers[a].value in existing;
    }
    if existing != {} {
      var w :| w in existing;
      var a :| a in c.aliases && a in s.pointers && s.pointers[a] == Some(w);
      assert a in Tied(s, c) * AliasesOf(s, v);
    } else if c.HasRequest() {
      var a :| a in AliasesOf(s, v);
      assert a in Tied(s, c) * AliasesOf(s, v);
    }
  }

  lemma EdgesStayOnSame(s: State, c: Call, edges: set<set<AliasName>>, e: set<AliasName>, a: AliasName, b: AliasName)
    requires Consistent(s) && Tracks(s, edges) && Effective(s, c)
    requires e in edges + {Tied(s, c)} && a in e && b in e
    ensures OnSame(Outcome(s, c).0, a, b)
  {
    if e in edges {
      assert OnSame(s, a, b);
      NeverRepointed(s, Import(c), a);
      NeverRepointed(s, Import(c), b);
    } else {
      TiedOnTarget(s, c);
      TargetClass(s, c, a);
      TargetClass(s, c, b);
    }
  }

  lemma SameIsConnected(s: State, c: Call, edges: set<set<AliasName>>, a: AliasName, b: AliasName)
    requires Consistent(s) && Tracks(s, edges) && Effective(s, c)
    requires OnSame(Outcome(s, c).0, a, b)
    ensures Connected(edges + {Tied(s, c)}, a, b)
  {
    var t, v := Outcome(s, c).0, Target(s, c);
    var more := edges + {Tied(s, c)};
    TargetClass(s, c, a);
    TargetClass(s, c, b);
    TiedOnTarget(s, c);
    if t.pointers[a] != Some(v) {
      assert OnSame(s, a, b);
      assert Connected(edges, a, b);
      ConnectedMono(edges, more, a, b);
    } else if AliasesOf(s, v) == {} {
      ConnectedByEdge(more, Tied(s, c), a, b);
    } else {
      assert v in s.vulns;
      var x :| x in Tied(s, c) * AliasesOf(s, v);
      ReachesTarget(s, c, edges, x, a);
      ReachesTarget(s, c, edges, x, b);
      ConnectedSym(more, b, x);
      ConnectedTrans(more, a, x, b);
    }
  }

  lemma EffectiveCallTracks(s: State, c: Call, edges: set<set<AliasName>>)
    requires Consistent(s) && Tracks(s, edges) && Effective(s, c)
    ensures Tracks(Outcome(s, c).0, edges + {Tied(s, c)})
  {
    forall e, a, b | e in edges + {Tied(s, c)} && a in e && b in e
      ensures OnSame(Outcome(s, c).0, a, b)
    {
      EdgesStayOnSame(s, c, edges, e, a, b);
    }
    forall a, b | OnSame(Outcome(s, c).0, a, b)
      ensures Connected(edges + {Tied(s, c)}, a, b)
    {
      SameIsConnected(s, c, edges, a, b);
    }
  }

  lemma ReachesTarget(s: State, c: Call, edges: set<set<AliasName>>, x: AliasName, a: AliasName)
    requires Consistent(s) && Tracks(s, edges) && Effective(s, c)
    requires x in Tied(s, c) * AliasesOf(s, Target(s, c))
    requires a in NewAliases(s, c.aliases) || a in AliasesOf(s, Target(s, c))
    ensures Connected(edges + {Tied(s, c)}, a, x)
  {
    TiedOnTarget(s, c);
    if a in NewAliases(s, c.aliases) {
      ConnectedByEdge(edges + {Tied(s, c)}, Tied(s, c), a, x);
    } else {
      assert OnSame(s, a, x);
      assert Connected(edges, a, x);
      ConnectedMono(edges, edges + {Tied(s, c)}, a, x);
    }
  }

  lemma StepTracks(s: State, step: Step, edges: set<set<AliasName>>)
    requires Consistent(s) && Tracks(s, edges)
    ensures Consistent(After(s, step)) && Tracks(After(s, step), edges + EdgesOf(s, step))
  {
    match step
    case EnsureAliases(names) =>
      AddingAliasesKeepsConsistent(s, names);
      assert forall a, b :: OnSame(WithAliases(s, names), a, b) <==> OnSame(s, a, b);
      assert edges + {} == edges;
    case Import(c) =>
      CallKeepsConsistent(s, c);
      if Effective(s, c) {
        EffectiveCallTracks(s, c, edges);
      } else {
        assert edges + {} == edges;
      }
  }

  lemma {:induction false} RunTracks(s: State, steps: seq<Step>)
    requires Empty(s)
    ensures Consistent(Run(s, steps)) && Tracks(Run(s, steps), HistoryEdges(s, steps))
  {
    if steps != [] {
      var init := steps[..|steps| - 1];
      RunTracks(s, init);
      StepTracks(Run(s, init), steps[|steps| - 1], HistoryEdges(s, init));
    }
  }

  /** After any import history two aliases are on one vulnerability exactly when a chain of
    calls that took effect, each overlapping the next, joins them. */
  lemma SameVulnerabilityExactlyWhenChained(s: State, steps: seq<Step>, a: AliasName, b: AliasName)
    requires Empty(s) && a != b
    ensures OnSame(Run(s, steps), a, b) <==> Connected(HistoryEdges(s, steps), a, b)
  {
    RunTracks(s, steps);
    var t, edges := Run(s, steps), HistoryEdges(s, steps);
    if Connected(edges, a, b) {
      var p :| WalkBetween(edges, p, a, b);
      WalkStaysOnSame(t, edges, p);
    }
  }

  lemma {:induction false} WalkStaysOnSame(t: State, edges: set<set<AliasName>>, p: seq<AliasName>)
    requires Tracks(t, edges) && Walk(edges, p) && |p| > 1
    ensures OnSame(t, p[0], p[|p| - 1])
    decreases |p|
  {
    assert Link(edges, p[0], p[0 + 1]);
    var e :| e in edges && p[0] in e && p[1] in e;
    assert OnSame(t, p[0], p[1]);
    if |p| > 2 {
      forall i | 0 <= i < |p[1..]| - 1
        ensures Link(edges, p[1..][i], p[1..][i + 1])
      {
        assert Link(edges, p[i + 1], p[i + 1 + 1]);
      }
      WalkStaysOnSame(t, edges, p[1..]);
    }
  }

  /** The alias sets of the calls that returned a vulnerability. */
  ghost function ReturnedSets(s: State, steps: seq<Step>): set<set<AliasName>> {
    if steps == [] then {}
    else
      var init, last := steps[..|steps| - 1], steps[|steps| - 1];
      ReturnedSets(s, init)
      + if last.Import? && Outcome(Run(s, init), last.call).1.Some?
        then {Given(Run(s, init), last.call.aliases)} else {}
  }

  /** Without requested ids and failing logs, the chains run over the alias sets of exactly
    the calls that returned a vulnerability. */
  lemma {:induction false} PlainHistory(s: State, steps: seq<Step>)
    requires forall step :: step in steps && step.Import? ==> step.call.requested.None? && !step.call.logFails
    ensures HistoryEdges(s, steps) == ReturnedSets(s, steps)
  {
    if steps != [] {
      var init, last := steps[..|steps| - 1], steps[|steps| - 1];
      PlainHistory(s, init);
      if last.Import? {
        assert last in steps;
        EffectiveIsReturned(Run(s, init), last.call);
        assert Given(Run(s, init), last.call.aliases) + {} == Given(Run(s, init), last.call.aliases);
      }
    }
  }

  /** An assigned alias keeps its vulnerability for the rest of the history. */
  lemma {:induction false} AssignedForever(s: State, steps: seq<Step>, k: nat, a: AliasName)
    requires Empty(s) && k <= |steps|
    requires a in Run(s, steps[..k]).pointers && Run(s, steps[..k]).pointers[a].Some?
    ensures a in Run(s, steps).pointers && Run(s, steps).pointers[a] == Run(s, steps[..k]).pointers[a]
    decreases |steps|
  {
    if k == |steps| {
      assert steps[..k] == steps;
    } else {
      var init := steps[..|steps| - 1];
      assert init[..k] == steps[..k];
      AssignedForever(s, init, k, a);
      RunTracks(s, init);
      NeverRepointed(Run(s, init), steps[|steps| - 1], a);
    }
  }
}
