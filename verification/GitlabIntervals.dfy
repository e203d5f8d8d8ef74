/** GitLab's bracket notation (vulntotal/vulntotal_utils.py): intervals separated by commas, which
  also separate the bounds of one interval; and what becomes of exact versions among them. */
module GitlabIntervals {
  import opened Options
  import opened Text
  import opened GenericVersions
  import opened Constraints

  /** An interval; an empty bound is no bound. */
  datatype Interval = Interval(lowClosed: bool, low: string, high: string, highClosed: bool) {
    function Low(): Constraint {
      Constraint(if lowClosed then OpenBracket else OpenParen, low)
    }

    function High(): Constraint {
      Constraint(if highClosed then CloseBracket else CloseParen, high)
    }

    function Bounds(): seq<Constraint> {
      [Low(), High()]
    }

    predicate PlainBounds() {
      Plain(low) && Plain(high)
    }
  }

  function PrintInterval(i: Interval): string {
    Print(i.Low()) + "," + Print(i.High())
  }

  function PrintIntervals(ivs: seq<Interval>): (r: seq<string>)
    ensures |r| == |ivs|
  {
    if ivs == [] then [] else [PrintInterval(ivs[0])] + PrintIntervals(ivs[1..])
  }

  /** The printed bounds of all intervals in one row. */
  function BoundTexts(ivs: seq<Interval>): seq<string> {
    if ivs == [] then [] else [Print(ivs[0].Low()), Print(ivs[0].High())] + BoundTexts(ivs[1..])
  }

  /** Splitting at every comma and pairing up again gives the intervals back. */
  lemma {:induction false} PairUpUndoesSplit(ivs: seq<Interval>)
    requires ivs != [] && forall i :: i in ivs ==> i.PlainBounds()
    ensures PairUp(Split(Join(PrintIntervals(ivs), ',', false), ',', false)) == PrintIntervals(ivs)
  {
    BoundsJoin(ivs);
    BoundTextsFree(ivs);
    SplitJoin(BoundTexts(ivs), ',', false);
    BoundsPairUp(ivs);
  }

  lemma {:induction false} BoundsJoin(ivs: seq<Interval>)
    requires ivs != []
    ensures BoundTexts(ivs) != []
    ensures Join(PrintIntervals(ivs), ',', false) == Join(BoundTexts(ivs), ',', false)
  {
    var low, high := Print(ivs[0].Low()), Print(ivs[0].High());
    var rest := BoundTexts(ivs[1..]);
    assert BoundTexts(ivs) == [low] + ([high] + rest);
    JoinCons(low, [high] + rest, ',', false);
    if |ivs| > 1 {
      BoundsJoin(ivs[1..]);
      JoinCons(high, rest, ',', false);
      JoinCons(PrintInterval(ivs[0]), PrintIntervals(ivs[1..]), ',', false);
      Regroup(low, high, Join(rest, ',', false));
    } else {
      assert rest == [] && [high] + rest == [high];
    }
  }

  lemma Regroup(low: string, high: string, tail: string)
    ensures low + "," + (high + "," + tail) == (low + "," + high) + "," + tail
  {
  }

  lemma {:induction false} BoundTextsFree(ivs: seq<Interval>)
    requires forall i :: i in ivs ==> i.PlainBounds()
    ensures forall p :: p in BoundTexts(ivs) ==> Free(p, ',')
  {
    if ivs != [] {
      assert ivs[0] in ivs;
      ParsePrint(ivs[0].Low());
      ParsePrint(ivs[0].High());
      BoundTextsFree(ivs[1..]);
    }
  }

  lemma {:induction false} BoundsPairUp(ivs: seq<Interval>)
    ensures PairUp(BoundTexts(ivs)) == PrintIntervals(ivs)
  {
    if ivs != [] {
      BoundsPairUp(ivs[1..]);
      assert BoundTexts(ivs)[2..] == BoundTexts(ivs[1..]);
    }
  }

  // ----- written intervals

  ghost predicate WritesBound(t: string, c: Constraint) {
    Writes(t, c, false) || Writes(t, c, true)
  }

  /** The bounds of all intervals, with blanks around them and next to the brackets. */
  ghost predicate WritesBounds(texts: seq<string>, ivs: seq<Interval>) {
    if ivs == [] then texts == []
    else
      && |texts| >= 2 && WritesBound(texts[0], ivs[0].Low()) && WritesBound(texts[1], ivs[0].High())
      && WritesBounds(texts[2..], ivs[1..])
  }

  lemma {:induction false} PrintedBounds(ivs: seq<Interval>)
    requires forall i :: i in ivs ==> i.PlainBounds()
    ensures WritesBounds(BoundTexts(ivs), ivs)
  {
    if ivs != [] {
      assert ivs[0] in ivs;
      PrintedInterval(ivs[0], BoundTexts(ivs)[0], BoundTexts(ivs)[1]);
      PrintedBounds(ivs[1..]);
      assert BoundTexts(ivs)[2..] == BoundTexts(ivs[1..]);
    }
  }

  /** `version` lies inside some interval. */
  ghost predicate SomeContains(version: string, ivs: seq<Interval>) {
    exists i :: i in ivs && Satisfied(version, i.Low()) && Satisfied(version, i.High())
  }

  lemma SomeContainsStep(version: string, ivs: seq<Interval>)
    requires ivs != []
    ensures SomeContains(version, ivs)
       <==> (Satisfied(version, ivs[0].Low()) && Satisfied(version, ivs[0].High())) || SomeContains(version, ivs[1..])
  {
    assert ivs == [ivs[0]] + ivs[1..];
  }

  /** One interval: the pair of its bounds, put together again. */
  lemma IntervalEvaluates(i: Interval, low: string, high: string, version: string)
    requires i.PlainBounds() && WritesBound(low, i.Low()) && WritesBound(high, i.High())
    ensures Reading(low + "," + high, ',', version)
         == Ok(Satisfied(version, i.Low()) && Satisfied(version, i.High()))
  {
    var cl, parts := i.Bounds(), [low, high];
    var gaps := [Writes(low, i.Low(), true), Writes(high, i.High(), true)];
    assert parts[1..] == [high];
    assert Join(parts, ',', false) == low + "," + high;
    CommaListEvaluates(cl, parts, gaps, version);
    assert cl[0] in cl && cl[1] in cl;
  }

  // ----- items: intervals and exact versions

  /** What bracket notation lists: intervals, and exact versions as in `[1.0]`. */
  datatype Item = Exact(version: string) | Between(interval: Interval) {
    predicate PlainItem() {
      match this
      case Exact(v) => Plain(v) && v != ""
      case Between(i) => i.PlainBounds()
    }

    /** An exact version lets in what equals it, an interval what satisfies both bounds. */
    ghost predicate Lets(version: string) {
      match this
      case Exact(v) => Equal(Decompose(version), Decompose(v))
      case Between(i) => Satisfied(version, i.Low()) && Satisfied(version, i.High())
    }
  }

  ghost predicate SomeLets(version: string, items: seq<Item>) {
    exists item :: item in items && item.Lets(version)
  }

  /** The items between commas: one text for an exact version, two for an interval. */
  ghost predicate WritesItems(texts: seq<string>, items: seq<Item>) {
    if items == [] then texts == []
    else
      match items[0]
      case Exact(v) => texts != [] && Strip(texts[0]) == "[" + v + "]" && WritesItems(texts[1..], items[1..])
      case Between(i) =>
        && |texts| >= 2 && WritesBound(texts[0], i.Low()) && WritesBound(texts[1], i.High())
        && WritesItems(texts[2..], items[1..])
  }

  /** Which items are exact versions. */
  ghost predicate Shape(items: seq<Item>, exact: seq<bool>) {
    && |items| == |exact|
    && forall n :: 0 <= n < |items| ==> items[n].PlainItem() && items[n].Exact? == exact[n]
  }

  /** Every text of the shape lets in what its items let in. */
  ghost predicate DenotesItems(exact: seq<bool>) {
    forall items, texts, version | Shape(items, exact) && WritesItems(texts, items) ::
      Gitlab(Join(texts, ',', false), version) == Ok(SomeLets(version, items))
  }

  /** Bracket notation means what it says on exactly the lists without an exact version: the pairing
    of pieces takes every comma for one inside an interval. */
  lemma GitlabOnItemsExactly(exact: seq<bool>)
    requires exact != []
    ensures DenotesItems(exact) <==> forall n :: 0 <= n < |exact| ==> !exact[n]
  {
    if n :| 0 <= n < |exact| && exact[n] {
      ExactVersionIsMissed(exact, n);
    } else {
      forall items, texts, version | Shape(items, exact) && WritesItems(texts, items)
        ensures Gitlab(Join(texts, ',', false), version) == Ok(SomeLets(version, items))
      {
        ItemsAsIntervals(items, texts, version);
        GitlabIsUnionOfIntervals(Intervals(items), texts, version);
      }
    }
  }

  function Intervals(items: seq<Item>): (ivs: seq<Interval>)
    requires forall item :: item in items ==> item.Between?
    ensures |ivs| == |items| && forall n :: 0 <= n < |ivs| ==> ivs[n] == items[n].interval
  {
    seq(|items|, n requires 0 <= n < |items| => assert items[n] in items; items[n].interval)
  }

  lemma {:induction false} ItemsAsIntervals(items: seq<Item>, texts: seq<string>, version: string)
    requires (forall item :: item in items ==> item.Between? && item.PlainItem()) && WritesItems(texts, items)
    ensures WritesBounds(texts, Intervals(items))
    ensures forall i :: i in Intervals(items) ==> i.PlainBounds()
    ensures SomeContains(version, Intervals(items)) <==> SomeLets(version, items)
  {
    var ivs := Intervals(items);
    forall i | i in ivs
      ensures i.PlainBounds()
    {
      var n :| 0 <= n < |ivs| && ivs[n] == i;
      assert items[n] in items;
    }
    if items != [] {
      assert items[0] in items && items == [items[0]] + items[1..];
      assert Intervals(items[1..]) == ivs[1..];
      ItemsAsIntervals(items[1..], texts[2..], version);
      SomeContainsStep(version, ivs);
      assert SomeLets(version, items) <==> items[0].Lets(version) || SomeLets(version, items[1..]);
    }
  }

  // ----- evaluating written intervals

  lemma {:induction false} AnyHoldsIntervals(ivs: seq<Interval>, pieces: seq<string>, version: string)
    requires forall i :: i in ivs ==> i.PlainBounds()
    requires WritesBounds(pieces, ivs)
    ensures AnyHolds(PairUp(pieces), ',', version) == Ok(SomeContains(version, ivs))
  {
    if ivs != [] {
      assert ivs[0] in ivs;
      IntervalEvaluates(ivs[0], pieces[0], pieces[1], version);
      SomeContainsStep(version, ivs);
      AnyHoldsIntervals(ivs[1..], pieces[2..], version);
    }
  }

  lemma {:induction false} SplitHead(s: string, c: char)
    ensures Split(s, c, false)[0] <= s
  {
    if s != "" && s[0] != c {
      SplitHead(s[1..], c);
      assert s == [s[0]] + s[1..];
    }
  }

  /** A text without blanks around it begins as its first piece does. */
  lemma BeginsAsFirstPiece(s: string)
    requires Trimmed(s) && StartsInterval(Strip(Split(s, ',', false)[0]))
    ensures StartsInterval(s)
  {
    var first := Split(s, ',', false)[0];
    SplitHead(s, ',');
    assert first != "" && first[0] == s[0];
    var y := RightStripSplits(first);
    assert Strip(first)[0] == first[0];
  }

  /** Only what is left after stripping matters. */
  lemma {:induction false} LooseBounds(texts: seq<string>, pieces: seq<string>, ivs: seq<Interval>)
    requires WritesBounds(texts, ivs) && SameUpToBlanks(pieces, texts)
    ensures WritesBounds(pieces, ivs)
  {
    if ivs != [] {
      LooseBound(texts[0], pieces[0], ivs[0].Low());
      LooseBound(texts[1], pieces[1], ivs[0].High());
      LooseBounds(texts[2..], pieces[2..], ivs[1..]);
    }
  }

  lemma LooseBound(t: string, piece: string, c: Constraint)
    requires WritesBound(t, c) && Strip(piece) == Strip(t)
    ensures WritesBound(piece, c)
  {
    if Writes(t, c, true) {
      var gap :| WritesWith(t, c, true, gap);
      assert WritesWith(piece, c, true, gap);
    } else {
      var gap :| WritesWith(t, c, false, gap);
      assert WritesWith(piece, c, false, gap);
    }
  }

  lemma {:induction false} BoundFreeAt(texts: seq<string>, ivs: seq<Interval>, k: nat)
    requires WritesBounds(texts, ivs) && (forall i :: i in ivs ==> i.PlainBounds()) && k < |texts|
    ensures Free(texts[k], ',')
  {
    assert ivs[0] in ivs;
    if k < 2 {
      var c := if k == 0 then ivs[0].Low() else ivs[0].High();
      CommaOutside(texts[k], c, Writes(texts[k], c, true));
    } else {
      BoundFreeAt(texts[2..], ivs[1..], k - 2);
    }
  }

  lemma BoundsFree(texts: seq<string>, ivs: seq<Interval>)
    requires WritesBounds(texts, ivs) && forall i :: i in ivs ==> i.PlainBounds()
    ensures forall p :: p in texts ==> Free(p, ',')
  {
    forall p | p in texts
      ensures Free(p, ',')
    {
      var k :| 0 <= k < |texts| && texts[k] == p;
      BoundFreeAt(texts, ivs, k);
    }
  }

  /** GitLab's interval notation, with blanks around the bounds and next to the brackets: satisfied
    exactly when some interval has both bounds satisfied. */
  lemma GitlabIsUnionOfIntervals(ivs: seq<Interval>, texts: seq<string>, version: string)
    requires ivs != [] && forall i :: i in ivs ==> i.PlainBounds()
    requires WritesBounds(texts, ivs)
    ensures Gitlab(Join(texts, ',', false), version) == Ok(SomeContains(version, ivs))
  {
    var s := Join(texts, ',', false);
    var pieces := Split(Strip(s), ',', false);
    BoundsFree(texts, ivs);
    CommaPieces(texts);
    LooseBounds(texts, pieces, ivs);
    LowBegins(pieces[0], ivs[0].Low());
    var x, y := StripSplits(s);
    BeginsAsFirstPiece(Strip(s));
    AnyHoldsIntervals(ivs, pieces, version);
  }

  lemma LowBegins(t: string, c: Constraint)
    requires WritesBound(t, c) && (c.op == OpenParen || c.op == OpenBracket)
    ensures StartsInterval(Strip(t))
  {
    if Writes(t, c, true) {
      var gap :| WritesWith(t, c, true, gap);
    } else {
      var gap :| WritesWith(t, c, false, gap);
    }
  }

  /** The printed intervals. */
  lemma GitlabOnPrinted(ivs: seq<Interval>, version: string)
    requires ivs != [] && forall i :: i in ivs ==> i.PlainBounds()
    ensures Gitlab(Join(PrintIntervals(ivs), ',', false), version) == Ok(SomeContains(version, ivs))
  {
    BoundsJoin(ivs);
    PrintedBounds(ivs);
    GitlabIsUnionOfIntervals(ivs, BoundTexts(ivs), version);
  }

  // ----- a text for every list with an exact version

  /** Exact versions 1, and intervals from 2 to 3. */
  function ProbeItems(exact: seq<bool>): (items: seq<Item>)
    ensures |items| == |exact|
    ensures forall n :: 0 <= n < |exact| ==>
                          items[n] == if exact[n] then Exact("1") else Between(Interval(true, "2", "3", false))
  {
    seq(|exact|, n requires 0 <= n < |exact| =>
      if exact[n] then Exact("1") else Between(Interval(true, "2", "3", false)))
  }

  function ProbePieces(exact: seq<bool>): seq<string> {
    if exact == [] then []
    else (if exact[0] then ["[1]"] else ["[2", "3)"]) + ProbePieces(exact[1..])
  }

  /** No piece but the three, and an upper bound never meets another. */
  predicate ProbeLike(pieces: seq<string>) {
    && (forall n :: 0 <= n < |pieces| ==> pieces[n] == "[1]" || pieces[n] == "[2" || pieces[n] == "3)")
    && (forall n :: 0 <= n < |pieces| - 1 ==> pieces[n] != "3)" || pieces[n + 1] != "3)")
  }

  lemma {:induction false} PiecesProbeLike(exact: seq<bool>)
    ensures ProbeLike(ProbePieces(exact))
    ensures exact != [] ==> ProbePieces(exact) != [] && ProbePieces(exact)[0] != "3)"
  {
    if exact != [] {
      PiecesProbeLike(exact[1..]);
    }
  }

  lemma {:induction false} PiecesWrite(exact: seq<bool>)
    ensures WritesItems(ProbePieces(exact), ProbeItems(exact))
  {
    if exact != [] {
      var items, pieces := ProbeItems(exact), ProbePieces(exact);
      PiecesWrite(exact[1..]);
      assert items[1..] == ProbeItems(exact[1..]);
      if exact[0] {
        assert pieces[1..] == ProbePieces(exact[1..]);
        StripTrimmed(pieces[0]);
        assert Strip(pieces[0]) == "[" + items[0].version + "]";
      } else {
        assert pieces[2..] == ProbePieces(exact[1..]);
        ProbeBounds(items[0].interval, pieces[0], pieces[1]);
      }
    }
  }

  lemma ProbeBounds(i: Interval, low: string, high: string)
    requires i == Interval(true, "2", "3", false) && low == "[2" && high == "3)"
    ensures i.PlainBounds() && WritesBound(low, i.Low()) && WritesBound(high, i.High())
  {
    assert Print(i.Low()) == low && Print(i.High()) == high;
    PrintedInterval(i, low, high);
  }

  lemma PrintedInterval(i: Interval, low: string, high: string)
    requires i.PlainBounds() && low == Print(i.Low()) && high == Print(i.High())
    ensures WritesBound(low, i.Low()) && WritesBound(high, i.High())
  {
    PrintedWrites(i.Low());
    PrintedWrites(i.High());
  }

  /** What the three pieces say about version 1: both that open with a bracket ask for more. */
  lemma PieceAsks(piece: string, version: string)
    requires piece == "[1]" || piece == "[2" || piece == "3)"
    requires Decompose(version) == ["1"]
    ensures Trimmed(piece) && piece != "" && Free(piece, ',')
    ensures var c := ParseConstraint(piece); c.Some? && (Satisfied(version, c.value) <==> piece == "3)")
  {
    if piece == "3)" {
      BoundAsks(piece, Constraint(CloseParen, "3"), "3", version);
    } else if piece == "[2" {
      BoundAsks(piece, Constraint(OpenBracket, "2"), "2", version);
    } else {
      BoundAsks(piece, Constraint(OpenBracket, "1]"), "1]", version);
    }
  }

  lemma BoundAsks(piece: string, c: Constraint, v: string, version: string)
    requires c.version == v && piece == Print(c) && Decompose(version) == ["1"]
    requires (c.op == CloseParen && v == "3") || (c.op == OpenBracket && (v == "2" || v == "1]"))
    ensures ParseConstraint(piece) == Some(c) && (Satisfied(version, c) <==> c.op == CloseParen)
  {
    if c.op == CloseParen {
      assert piece[..1] == v;
    } else {
      assert piece[1..] == v;
    }
    DecomposePiece(v);
    PieceOrder(v);
    VersionTrichotomy(["1"], [v]);
  }

  lemma DecomposePiece(v: string)
    requires v == "1" || v == "1]" || v == "2" || v == "3"
    ensures Decompose(v) == [v]
  {
    var a := [v];
    assert PlainComponent(v) && StripV(v) == v;
    assert Join(a, '.', false) == v && "" + v == v;
    DecomposeJoined(a, "");
  }

  lemma PieceOrder(v: string)
    requires v == "1]" || v == "2" || v == "3"
    ensures Less(["1"], [v])
  {
    assert IntOf("1"[..0]) == 0 && IntOf("1") == 1 && IntOf("2"[..0]) == 0 && IntOf("2") == 2;
    assert IntOf("3"[..0]) == 0 && IntOf("3") == 3;
    assert !IsDigit("1]"[1]) && "1"[1..] == "" && "1]"[1..] == "]";
    assert LessAt(["1"], [v], 0);
  }

  lemma PairFails(p: string, q: string, version: string)
    requires ProbeLike([p, q]) && Decompose(version) == ["1"]
    ensures Reading(p + "," + q, ',', version) == Ok(false)
  {
    var pair := [p, q];
    assert pair[0] == p && pair[1] == q;
    PieceAsks(p, version);
    PieceAsks(q, version);
    PairSplits(p, q);
    StripTrimmed(p);
    StripTrimmed(q);
    var last := [q];
    assert pair[1..] == last && last[1..] == [];
    if p == "3)" {
      assert AllHold(last, version, true) == Ok(false);
    }
  }

  lemma PairSplits(p: string, q: string)
    requires p != "" && q != "" && Trimmed(p) && Trimmed(q) && Free(p, ',') && Free(q, ',')
    ensures Split(Strip(p + "," + q), ',', false) == [p, q]
  {
    var pair := p + "," + q;
    assert pair[0] == p[0] && pair[|pair| - 1] == q[|q| - 1];
    StripTrimmed(pair);
    SplitPiece(p, q, ',', false);
    SplitWhole(q, ',', false);
  }

  /** Whatever pairs are formed, each has a piece that asks for more than version 1. */
  lemma {:induction false} ProbeFails(pieces: seq<string>, version: string)
    requires ProbeLike(pieces) && Decompose(version) == ["1"]
    ensures AnyHolds(PairUp(pieces), ',', version) == Ok(false)
  {
    if |pieces| >= 2 {
      var p, q := pieces[0], pieces[1];
      assert ProbeLike([p, q]);
      PairFails(p, q, version);
      ProbeFails(pieces[2..], version);
    }
  }

  lemma ExactVersionIsMissed(exact: seq<bool>, n: nat)
    requires n < |exact| && exact[n]
    ensures !DenotesItems(exact)
  {
    var items, pieces, version := ProbeItems(exact), ProbePieces(exact), "1";
    PiecesWrite(exact);
    DecomposePiece(version);
    ProbeIsRejected(exact, version);
    ProbeShape(exact);
    assert items[n] in items && items[n].Lets(version);
    assert Gitlab(Join(pieces, ',', false), version) != Ok(SomeLets(version, items));
  }

  lemma ProbeShape(exact: seq<bool>)
    ensures Shape(ProbeItems(exact), exact)
  {
    assert Plain("1") && Plain("2") && Plain("3");
  }

  lemma ProbeIsRejected(exact: seq<bool>, version: string)
    requires exact != [] && Decompose(version) == ["1"]
    ensures Gitlab(Join(ProbePieces(exact), ',', false), version) == Ok(false)
  {
    var pieces := ProbePieces(exact);
    var s := Join(pieces, ',', false);
    PiecesProbeLike(exact);
    forall p | p in pieces
      ensures Trimmed(p) && p != "" && Free(p, ',')
    {
      PieceAsks(p, version);
    }
    JoinTrimmed(pieces, ',', false);
    StripTrimmed(s);
    SplitJoin(pieces, ',', false);
    assert s[0] == pieces[0][0];
    ProbeFails(pieces, version);
  }

  // ----- concrete lists

  /** An interval text without comma, such as the exact version `[1.0]`, pairs up to nothing and
    is never satisfied. */
  lemma LoneBoundNeverSatisfied(s: string, version: string)
    requires StartsInterval(Strip(s)) && Free(s, ',')
    ensures Gitlab(s, version) == Ok(false)
  {
    StripKeeps(s, ',');
    SplitWhole(Strip(s), ',', false);
  }

  /** In front of an interval an exact version shifts the pairs: it is paired with the interval's
    lower bound, as another lower bound, and the upper bound is dropped. */
  lemma LoneBoundShifts(x: string, y: string, z: string, version: string)
    requires Plain(x) && Plain(y) && Plain(z)
    ensures Gitlab("[" + x + "],[" + y + "," + z + ")", version)
         == Ok(Satisfied(version, Constraint(OpenBracket, x + "]")) && Satisfied(version, Constraint(OpenBracket, y)))
  {
    var a, b, c := "[" + x + "]", "[" + y, z + ")";
    var s := a + "," + (b + "," + c);
    assert "[" + x + "],[" + y + "," + z + ")" == s;
    LonePieces(x, y, z);
    assert s[|s| - 1] == ')';
    StripTrimmed(s);
    SplitPiece(a, b + "," + c, ',', false);
    SplitPiece(b, c, ',', false);
    SplitWhole(c, ',', false);
    assert Split(s, ',', false) == [a, b, c];
    LonePairs(a, b, c, version);
    TwoBounds(x, y, version);
  }

  lemma LonePieces(x: string, y: string, z: string)
    requires Plain(x) && Plain(y) && Plain(z)
    ensures var a, b, c := "[" + x + "]", "[" + y, z + ")";
            && Free(a, ',') && Free(b, ',') && Free(c, ',')
            && Trimmed(a) && Trimmed(b)
  {
    var b := "[" + y;
    PlainFree(x);
    PlainFree(y);
    PlainFree(z);
    assert b[|b| - 1] == if y == "" then '[' else y[|y| - 1];
  }

  /** Three pieces: the first two are the only alternative. */
  lemma LonePairs(a: string, b: string, c: string, version: string)
    requires a != "" && b != "" && Free(a, ',') && Free(b, ',') && Trimmed(a) && Trimmed(b)
    ensures AnyHolds(PairUp([a, b, c]), ',', version) == AllHold([a, b], version, true)
  {
    var pair := a + "," + b;
    assert [a, b, c][2..] == [c];
    var alternatives := [pair];
    assert PairUp([a, b, c]) == alternatives && alternatives[1..] == [];
    assert pair[0] == a[0] && pair[|pair| - 1] == b[|b| - 1];
    StripTrimmed(pair);
    SplitPiece(a, b, ',', false);
    SplitWhole(b, ',', false);
    assert Split(pair, ',', false) == [a, b];
  }

  lemma TwoBounds(x: string, y: string, version: string)
    requires Plain(x) && Plain(y)
    ensures AllHold(["[" + x + "]", "[" + y], version, true)
         == Ok(Satisfied(version, Constraint(OpenBracket, x + "]")) && Satisfied(version, Constraint(OpenBracket, y)))
  {
    var a, b := "[" + x + "]", "[" + y;
    LonePieces(x, y, "");
    StripTrimmed(a);
    StripTrimmed(b);
    assert x != "" ==> a[1] == x[0] && x[0] !in ",|<>=!()[]";
    assert y != "" ==> b[1] == y[0] && y[0] !in ",|<>=!()[]";
    assert a[1..] == x + "]" && b[1..] == y;
    assert ParseConstraint(a) == Some(Constraint(OpenBracket, x + "]"));
    assert ParseConstraint(b) == Some(Constraint(OpenBracket, y));
    var last := [b];
    assert [a, b][1..] == last && last[1..] == [];
    assert AllHold(last, version, true) == Ok(Satisfied(version, Constraint(OpenBracket, y)));
  }

  /** `[1.0],[2.0,3.0)` lets in 5.0, which lies in neither, and keeps out 1.0. */
  lemma LoneBoundExample(text: string, five: string, one: string)
    requires text == "[1.0],[2.0,3.0)" && five == "5.0" && one == "1.0"
    ensures Gitlab(text, five) == Ok(true) && Gitlab(text, one) == Ok(false)
  {
    var x, y, z := "1.0", "2.0", "3.0";
    assert text == "[" + x + "],[" + y + "," + z + ")";
    LoneBoundShifts(x, y, z, five);
    LoneBoundShifts(x, y, z, one);
    DottedVersions();
    FiveIsIn(x, y, five);
    OneIsOut(x, one);
  }

  lemma FiveIsIn(x: string, y: string, five: string)
    requires Decompose(x + "]") == ["1", "0]"] && Decompose(y) == ["2", "0"] && Decompose(five) == ["5", "0"]
    ensures Satisfied(five, Constraint(OpenBracket, x + "]")) && Satisfied(five, Constraint(OpenBracket, y))
  {
    ExampleOrder();
  }

  lemma OneIsOut(x: string, one: string)
    requires Decompose(x + "]") == ["1", "0]"] && Decompose(one) == ["1", "0"]
    ensures !Satisfied(one, Constraint(OpenBracket, x + "]"))
  {
    ExampleOrder();
  }

  lemma DottedVersions()
    ensures Decompose("5.0") == ["5", "0"] && Decompose("2.0") == ["2", "0"] && Decompose("1.0") == ["1", "0"]
    ensures Decompose("1.0" + "]") == ["1", "0]"]
  {
    DecomposeTwo("5", "0");
    DecomposeTwo("2", "0");
    DecomposeTwo("1", "0");
    DecomposeTwo("1", "0]");
    assert "5" + "." + "0" == "5.0" && "2" + "." + "0" == "2.0" && "1" + "." + "0" == "1.0";
    assert "1" + "." + "0]" == "1.0" + "]";
  }

  lemma ExampleOrder()
    ensures Less(["1", "0]"], ["5", "0"]) && Less(["2", "0"], ["5", "0"]) && Less(["1", "0"], ["1", "0]"])
    ensures !Less(["1", "0]"], ["1", "0"]) && !Equal(["1", "0]"], ["1", "0"])
  {
    assert IntOf("1"[..0]) == 0 && IntOf("1") == 1 && IntOf("2"[..0]) == 0 && IntOf("2") == 2;
    assert IntOf("5"[..0]) == 0 && IntOf("5") == 5;
    assert LessAt(["1", "0]"], ["5", "0"], 0) && LessAt(["2", "0"], ["5", "0"], 0);
    assert !IsDigit("0]"[1]) && "0"[1..] == "" && "0]"[1..] == "]";
    assert LessAt(["1", "0"], ["1", "0]"], 1);
    VersionTrichotomy(["1", "0"], ["1", "0]"]);
  }

  lemma DecomposeTwo(major: string, minor: string)
    requires PlainComponent(major) && PlainComponent(minor) && major != "" && major[0] != 'v' && major[0] != 'V'
    ensures Decompose(major + "." + minor) == [major, minor]
  {
    var a := [major, minor];
    assert a[1..] == [minor];
    assert Join(a, '.', false) == major + "." + minor;
    DecomposeJoined(a, "");
    assert "" + Join(a, '.', false) == major + "." + minor;
  }
}
