/** The score board of vulntotal/vulntotal_cli.py (`compare`): how far the data sources that
  report one CVE agree with each other. */
module ScoreBoard {
  import opened Listings

  type Source = string

  /** The normalized version lists of a source's first advisory. */
  datatype Lists = Lists(affected: seq<string>, fixed: seq<string>) {
    /** Only a source with both lists starts comparisons. */
    predicate Full() {
      affected != [] && fixed != []
    }
  }

  type Report = map<Source, Lists>
  type Board = map<Source, map<Source, real>>

  /** Half a point for each list two sources have in common. */
  function Agreement(r: Report, a: Source, b: Source): real
    requires a in r && b in r
  {
    (if r[a].fixed == r[b].fixed then 0.5 else 0.0) + (if r[a].affected == r[b].affected then 0.5 else 0.0)
  }

  /** Different sources are compared as soon as one of them is full. */
  predicate Comparable(r: Report, a: Source, b: Source)
    requires a in r && b in r
  {
    a != b && (r[a].Full() || r[b].Full())
  }

  // ----- filling the board

  /** The finished board: one entry in both directions for every comparable pair, no other. */
  ghost predicate IsBoard(r: Report, board: Board) {
    && board.Keys == r.Keys
    && (forall a, b :: a in r && b in board[a] ==> b in r)
    && (forall a, b :: a in r && b in r ==> (b in board[a] <==> Comparable(r, a, b)))
    && (forall a, b :: a in r && b in r && b in board[a] ==> board[a][b] == Agreement(r, a, b))
  }

  /** The entries, by the lists: two different sources have one exactly when one of them has both of
    its lists, and it is half a point for equal fixed versions and half for equal affected ones. */
  lemma EntriesAre(r: Report, board: Board, a: Source, b: Source)
    requires IsBoard(r, board) && a in r && b in r
    ensures b in board[a]
       <==> a != b && ((r[a].affected != [] && r[a].fixed != []) || (r[b].affected != [] && r[b].fixed != []))
    ensures b in board[a] ==>
              board[a][b] == if r[a].fixed == r[b].fixed && r[a].affected == r[b].affected then 1.0
                             else if r[a].fixed == r[b].fixed || r[a].affected == r[b].affected then 0.5 else 0.0
  {
  }

  /** A finished board is symmetric. */
  lemma BoardSymmetric(r: Report, board: Board, a: Source, b: Source)
    requires IsBoard(r, board) && a in r && b in board[a]
    ensures b in board && a in board[b] && board[b][a] == board[a][b]
  {
    assert b in r;
    assert Comparable(r, a, b) && Comparable(r, b, a);
    assert a in board[b];
    assert board[a][b] == Agreement(r, a, b) && board[b][a] == Agreement(r, b, a);
  }

  /** The report alone determines it: the order of the sources plays no part. */
  lemma BoardUnique(r: Report, board: Board, board': Board)
    requires IsBoard(r, board) && IsBoard(r, board')
    ensures board == board'
  {
    forall a | a in r
      ensures board[a] == board'[a]
    {
      forall b | b in board[a]
        ensures b in board'[a] && board'[a][b] == board[a][b]
      {
        EntryInBoth(r, board, board', a, b);
      }
      forall b | b in board'[a]
        ensures b in board[a]
      {
        EntryInBoth(r, board', board, a, b);
      }
    }
  }

  lemma EntryInBoth(r: Report, board: Board, board': Board, a: Source, b: Source)
    requires IsBoard(r, board) && IsBoard(r, board') && a in r && b in board[a]
    ensures b in board'[a] && board'[a][b] == board[a][b]
  {
    assert b in r && Comparable(r, a, b);
  }

  /** The board that holds exactly the entries `pairs`. */
  function BoardOf(r: Report, pairs: set<(Source, Source)>): Board {
    map a | a in r :: RowOf(r, pairs, a)
  }

  function RowOf(r: Report, pairs: set<(Source, Source)>, a: Source): map<Source, real>
    requires a in r
  {
    map b | b in r && (a, b) in pairs :: Agreement(r, a, b)
  }

  /** `board[a][b] = v; board[b][a] = v`. */
  function Put(board: Board, a: Source, b: Source, v: real): Board
    requires a in board && b in board && a != b
  {
    board[a := board[a][b := v]][b := board[b][a := v]]
  }

  lemma PutAgain(board: Board, a: Source, b: Source, v: real, w: real)
    requires a in board && b in board && a != b
    ensures Put(Put(board, a, b, v), a, b, w) == Put(board, a, b, w)
  {
    assert board[a][b := v][b := w] == board[a][b := w];
    assert board[b][a := v][a := w] == board[b][a := w];
  }

  lemma RowWith(r: Report, pairs: set<(Source, Source)>, more: set<(Source, Source)>, a: Source, b: Source)
    requires a in r && b in r
    requires forall c :: (a, c) in more <==> (a, c) in pairs || c == b
    ensures RowOf(r, more, a) == RowOf(r, pairs, a)[b := Agreement(r, a, b)]
  {
  }

  lemma RowWithout(r: Report, pairs: set<(Source, Source)>, more: set<(Source, Source)>, a: Source)
    requires a in r
    requires forall c :: (a, c) in more <==> (a, c) in pairs
    ensures RowOf(r, more, a) == RowOf(r, pairs, a)
  {
  }

  lemma PutPair(r: Report, pairs: set<(Source, Source)>, a: Source, b: Source)
    requires a in r && b in r && a != b
    ensures Put(BoardOf(r, pairs), a, b, Agreement(r, a, b)) == BoardOf(r, pairs + {(a, b), (b, a)})
  {
    var more := pairs + {(a, b), (b, a)};
    RowWith(r, pairs, more, a, b);
    RowWith(r, pairs, more, b, a);
    forall c | c in r && c != a && c != b
      ensures RowOf(r, pairs, c) == RowOf(r, more, c)
    {
      RowWithout(r, pairs, more, c);
    }
  }

  ghost predicate SymmetricPairs(pairs: set<(Source, Source)>) {
    forall a, b :: (a, b) in pairs ==> (b, a) in pairs
  }

  /** The pairs in which `d` meets `seen`. */
  ghost function Turn(d: Source, seen: set<Source>): set<(Source, Source)> {
    (set s | s in seen && s != d :: (d, s)) + (set s | s in seen && s != d :: (s, d))
  }

  /** `board[a][b] += 0.5; board[b][a] += 0.5` on an entry both ways that holds `v`. */
  method AddHalf(board: Board, a: Source, b: Source, ghost before: Board, ghost v: real) returns (board': Board)
    requires a in before && b in before && a != b && board == Put(before, a, b, v)
    ensures board' == Put(before, a, b, v + 0.5)
  {
    PutAgain(before, a, b, v, v + 0.5);
    board' := board[a := board[a][b := board[a][b] + 0.5]][b := board[b][a := board[b][a] + 0.5]];
  }

  /** The body of the inner loop. */
  method MeetOne(r: Report, board: Board, d: Source, s: Source, ghost pairs: set<(Source, Source)>)
    returns (board': Board)
    requires d in r && s in r && board == BoardOf(r, pairs) && SymmetricPairs(pairs)
    ensures board' == BoardOf(r, pairs + Turn(d, {s}))
  {
    if s == d || s in board[d] || d in board[s] {
      assert pairs + Turn(d, {s}) == pairs;
      return board;
    }
    board' := Put(board, d, s, 0.0);
    ghost var v := 0.0;
    if r[d].fixed == r[s].fixed {
      board' := AddHalf(board', d, s, board, v);
      v := v + 0.5;
    }
    if r[d].affected == r[s].affected {
      board' := AddHalf(board', d, s, board, v);
      v := v + 0.5;
    }
    MetOne(r, pairs, d, s);
    assert v == Agreement(r, d, s);
  }

  lemma MetOne(r: Report, pairs: set<(Source, Source)>, d: Source, s: Source)
    requires d in r && s in r && s != d
    ensures Put(BoardOf(r, pairs), d, s, Agreement(r, d, s)) == BoardOf(r, pairs + Turn(d, {s}))
  {
    PutPair(r, pairs, d, s);
    assert pairs + Turn(d, {s}) == pairs + {(d, s), (s, d)};
  }

  function SetOf(sources: seq<Source>): set<Source> {
    set s | s in sources
  }

  /** `pairs` and those in which `d` meets the first `m` sources. */
  ghost function TurnUpTo(pairs: set<(Source, Source)>, d: Source, sources: seq<Source>, m: nat)
    : set<(Source, Source)>
    requires m <= |sources|
  {
    if m == 0 then pairs else TurnUpTo(pairs, d, sources, m - 1) + Turn(d, {sources[m - 1]})
  }

  lemma {:induction false} TurnUpToIs(pairs: set<(Source, Source)>, d: Source, sources: seq<Source>, m: nat)
    requires SymmetricPairs(pairs) && m <= |sources|
    ensures TurnUpTo(pairs, d, sources, m) == pairs + Turn(d, SetOf(sources[..m]))
    ensures SymmetricPairs(TurnUpTo(pairs, d, sources, m))
  {
    if m == 0 {
      assert Turn(d, {}) == {};
    } else {
      TurnUpToIs(pairs, d, sources, m - 1);
      var seen, more := SetOf(sources[..m - 1]), {sources[m - 1]};
      assert SetOf(sources[..m]) == seen + more;
      UnionOfTurns(pairs, d, seen, more);
      TurnsSymmetric(pairs, d, seen + more);
    }
  }

  lemma TurnsSymmetric(pairs: set<(Source, Source)>, d: Source, seen: set<Source>)
    requires SymmetricPairs(pairs)
    ensures SymmetricPairs(pairs + Turn(d, seen))
  {
  }

  lemma UnionOfTurns(pairs: set<(Source, Source)>, d: Source, seen: set<Source>, more: set<Source>)
    ensures pairs + Turn(d, seen) + Turn(d, more) == pairs + Turn(d, seen + more)
  {
  }

  /** The inner loop. */
  method TakeTurn(r: Report, board: Board, d: Source, sources: seq<Source>, ghost pairs: set<(Source, Source)>)
    returns (board': Board)
    requires d in r && (forall s :: s in sources ==> s in r) && board == BoardOf(r, pairs) && SymmetricPairs(pairs)
    ensures board' == BoardOf(r, TurnUpTo(pairs, d, sources, |sources|))
  {
    board' := board;
    for m := 0 to |sources|
      invariant board' == BoardOf(r, TurnUpTo(pairs, d, sources, m))
    {
      TurnUpToIs(pairs, d, sources, m);
      board' := MeetOne(r, board', d, sources[m], TurnUpTo(pairs, d, sources, m));
    }
  }

  /** The pairs compared once the sources `done` have had their turn. */
  ghost function PairsAfter(r: Report, done: set<Source>): set<(Source, Source)> {
    set a, b | a in r && b in r && a != b && ((a in done && r[a].Full()) || (b in done && r[b].Full())) :: (a, b)
  }

  lemma AfterOneMore(r: Report, done: set<Source>, d: Source)
    requires d in r
    ensures SymmetricPairs(PairsAfter(r, done))
    ensures PairsAfter(r, done + {d})
         == if r[d].Full() then PairsAfter(r, done) + Turn(d, r.Keys) else PairsAfter(r, done)
  {
  }

  /** The pairs compared after `n` turns of the outer loop. */
  ghost function PairsUpTo(r: Report, sources: seq<Source>, n: nat): set<(Source, Source)>
    requires n <= |sources| && forall s :: s in sources ==> s in r
  {
    if n == 0 then {}
    else
      var before := PairsUpTo(r, sources, n - 1);
      assert sources[n - 1] in sources;
      if r[sources[n - 1]].Full() then TurnUpTo(before, sources[n - 1], sources, |sources|) else before
  }

  lemma {:induction false} PairsUpToIs(r: Report, sources: seq<Source>, n: nat)
    requires n <= |sources| && ListsOnce(sources, r.Keys)
    ensures PairsUpTo(r, sources, n) == PairsAfter(r, SetOf(sources[..n]))
    ensures SymmetricPairs(PairsUpTo(r, sources, n))
  {
    if n == 0 {
      assert PairsAfter(r, {}) == {};
    } else {
      PairsUpToIs(r, sources, n - 1);
      var d := sources[n - 1];
      assert d in sources;
      assert SetOf(sources[..n]) == SetOf(sources[..n - 1]) + {d};
      AfterOneMore(r, SetOf(sources[..n - 1]), d);
      TurnUpToIs(PairsUpTo(r, sources, n - 1), d, sources, |sources|);
      assert SetOf(sources[..|sources|]) == r.Keys;
      AfterOneMore(r, SetOf(sources[..n]), d);
    }
  }

  /** The board after every source has had its turn. */
  ghost function FinalBoard(r: Report): Board {
    BoardOf(r, PairsAfter(r, r.Keys))
  }

  lemma FinalBoardIsBoard(r: Report)
    ensures IsBoard(r, FinalBoard(r))
  {
  }

  method FillBoard(r: Report, sources: seq<Source>) returns (board: Board)
    requires ListsOnce(sources, r.Keys)
    ensures board == FinalBoard(r) && IsBoard(r, board)
  {
    board := map s | s in r :: map[];
    assert board == BoardOf(r, {}) by {
      assert forall a :: a in r ==> RowOf(r, {}, a) == map[];
    }
    for n := 0 to |sources|
      invariant board == BoardOf(r, PairsUpTo(r, sources, n))
    {
      assert sources[n] in sources;
      if r[sources[n]].Full() {
        PairsUpToIs(r, sources, n);
        board := TakeTurn(r, board, sources[n], sources, PairsUpTo(r, sources, n));
      }
    }
    PairsUpToIs(r, sources, |sources|);
    assert SetOf(sources[..|sources|]) == r.Keys;
    FinalBoardIsBoard(r);
  }

  // ----- scoring

  /** The sources that agree with `a` on the fixed versions, or on the affected ones. */
  function FixedPeers(r: Report, a: Source): set<Source>
    requires a in r
  {
    set b | b in r && Comparable(r, a, b) && r[a].fixed == r[b].fixed
  }

  function AffectedPeers(r: Report, a: Source): set<Source>
    requires a in r
  {
    set b | b in r && Comparable(r, a, b) && r[a].affected == r[b].affected
  }

  /** What a row of the board adds up to, counted by heads. */
  function Total(r: Report, a: Source): real
    requires a in r
  {
    Points(FixedPeers(r, a), AffectedPeers(r, a))
  }

  datatype Score = Percent(value: real) | TotalCollision | NotApplicable

  /** Half a point per element of two sets. */
  function Points(fixed: set<Source>, affected: set<Source>): real {
    (|fixed| + |affected|) as real / 2.0
  }

  lemma OneMorePoint(fixed: set<Source>, affected: set<Source>, rest: set<Source>, b: Source)
    requires b in rest
    ensures Points(fixed - (rest - {b}), affected - (rest - {b}))
         == Points(fixed - rest, affected - rest)
            + (if b in fixed then 0.5 else 0.0) + (if b in affected then 0.5 else 0.0)
  {
    assert fixed - (rest - {b}) == (fixed - rest) + if b in fixed then {b} else {};
    assert affected - (rest - {b}) == (affected - rest) + if b in affected then {b} else {};
  }

  /** `sum(table.values())`, whatever the order of the entries. */
  method SumValues(table: map<Source, real>, ghost fixed: set<Source>, ghost affected: set<Source>)
    returns (total: real)
    requires fixed <= table.Keys && affected <= table.Keys
    requires forall b :: b in table ==>
                           table[b] == (if b in fixed then 0.5 else 0.0) + (if b in affected then 0.5 else 0.0)
    ensures total == Points(fixed, affected)
  {
    total := 0.0;
    var rest := table.Keys;
    assert fixed - rest == {} && affected - rest == {};
    while rest != {}
      invariant rest <= table.Keys
      invariant total == Points(fixed - rest, affected - rest)
      decreases rest
    {
      var b :| b in rest;
      OneMorePoint(fixed, affected, rest, b);
      rest := rest - {b};
      total := total + table[b];
    }
    assert fixed - rest == fixed && affected - rest == affected;
  }

  /** `maximum` is the largest row sum. */
  ghost predicate IsMaximum(r: Report, maximum: real) {
    && (forall a :: a in r ==> Total(r, a) <= maximum)
    && (exists a :: a in r && Total(r, a) == maximum)
  }

  function ScoreOf(total: real, maximum: real, count: nat): Score {
    if maximum == 0.0 then (if count > 1 then TotalCollision else NotApplicable)
    else Percent(total / maximum * 100.0)
  }

  /** The sources that report one CVE, with the scores written into their advisories. */
  class CveEntry {
    const report: Report
    const sources: seq<Source>
    var scores: map<Source, Score>

    constructor (report: Report, sources: seq<Source>)
      ensures this.report == report && this.sources == sources && scores == map[]
    {
      this.report, this.sources := report, sources;
      scores := map[];
    }

    method RowSum(board: Board, a: Source) returns (total: real)
      requires board == FinalBoard(report) && a in report
      ensures total == Total(report, a)
    {
      FinalBoardIsBoard(report);
      RowEntries(report, board, a);
      total := SumValues(board[a], FixedPeers(report, a), AffectedPeers(report, a));
    }

    /** `max([...])`. */
    method Maximum(board: Board) returns (maximum: real)
      requires ListsOnce(sources, report.Keys) && sources != [] && board == FinalBoard(report)
      ensures IsMaximum(report, maximum)
    {
      assert forall n :: 0 <= n < |sources| ==> sources[n] in sources;
      maximum := RowSum(board, sources[0]);
      ghost var best := sources[0];
      for n := 1 to |sources|
        invariant best in report && Total(report, best) == maximum
        invariant forall m :: 0 <= m < n ==> Total(report, sources[m]) <= maximum
      {
        var total := RowSum(board, sources[n]);
        if total > maximum {
          maximum, best := total, sources[n];
        }
      }
      forall a | a in report
        ensures Total(report, a) <= maximum
      {
        assert a in sources;
      }
    }

    method Compare()
      requires ListsOnce(sources, report.Keys) && sources != []
      modifies this
      ensures scores.Keys == report.Keys
      ensures exists maximum :: IsMaximum(report, maximum)
                && forall a :: a in report ==> scores[a] == ScoreOf(Total(report, a), maximum, |report|)
    {
      var board := FillBoard(report, sources);
      var maximum := Maximum(board);
      ListedOnce(sources, report.Keys);
      WriteScores(board, maximum);
    }

    method ScoreFor(total: real, maximum: real) returns (score: Score)
      ensures score == ScoreOf(total, maximum, |sources|)
    {
      if maximum == 0.0 {
        return if |sources| > 1 then TotalCollision else NotApplicable;
      }
      return Percent(total / maximum * 100.0);
    }

    method WriteScores(board: Board, maximum: real)
      requires ListsOnce(sources, report.Keys) && board == FinalBoard(report)
      modifies this
      ensures scores.Keys == report.Keys
      ensures forall a :: a in report ==> scores[a] == ScoreOf(Total(report, a), maximum, |sources|)
    {
      assert forall n :: 0 <= n < |sources| ==> sources[n] in sources;
      scores := map[];
      for n := 0 to |sources|
        invariant scores == Written(report, sources, n, maximum)
      {
        var total := RowSum(board, sources[n]);
        var score := ScoreFor(total, maximum);
        scores := scores[sources[n] := score];
      }
      WrittenIs(report, sources, |sources|, maximum);
      assert sources[..|sources|] == sources;
    }
  }

  ghost function Written(r: Report, sources: seq<Source>, n: nat, maximum: real): map<Source, Score>
    requires n <= |sources| && forall s :: s in sources ==> s in r
  {
    if n == 0 then map[]
    else
      assert sources[n - 1] in sources;
      Written(r, sources, n - 1, maximum)[sources[n - 1] := ScoreOf(Total(r, sources[n - 1]), maximum, |sources|)]
  }

  lemma {:induction false} WrittenIs(r: Report, sources: seq<Source>, n: nat, maximum: real)
    requires n <= |sources| && ListsOnce(sources, r.Keys)
    ensures forall a :: a in Written(r, sources, n, maximum) <==> a in sources[..n]
    ensures forall a :: a in sources[..n] ==>
                          a in r && Written(r, sources, n, maximum)[a] == ScoreOf(Total(r, a), maximum, |sources|)
  {
    if n > 0 {
      WrittenIs(r, sources, n - 1, maximum);
      assert sources[..n] == sources[..n - 1] + [sources[n - 1]];
      assert sources[n - 1] in sources;
    }
  }

  lemma RowEntries(r: Report, board: Board, a: Source)
    requires IsBoard(r, board) && a in r
    ensures FixedPeers(r, a) <= board[a].Keys && AffectedPeers(r, a) <= board[a].Keys
    ensures forall b :: b in board[a] ==>
                          board[a][b] == (if b in FixedPeers(r, a) then 0.5 else 0.0)
                                         + (if b in AffectedPeers(r, a) then 0.5 else 0.0)
  {
    forall b | b in board[a]
      ensures b in r && Comparable(r, a, b) && board[a][b] == Agreement(r, a, b)
    {
      assert b in r;
    }
  }

  /** Where somebody agrees with somebody, scores are percentages of the best total: within
    0 and 100, in the order of the totals, and 100 exactly for the best, of whom there is one. */
  lemma ScoresArePercentages(r: Report, maximum: real, a: Source, b: Source)
    requires IsMaximum(r, maximum) && maximum > 0.0 && a in r && b in r
    ensures var s, t := ScoreOf(Total(r, a), maximum, |r|), ScoreOf(Total(r, b), maximum, |r|);
            && s.Percent? && t.Percent? && 0.0 <= s.value <= 100.0
            && (s.value <= t.value <==> Total(r, a) <= Total(r, b))
            && (s.value == 100.0 <==> Total(r, a) == maximum)
    ensures exists c :: c in r && ScoreOf(Total(r, c), maximum, |r|) == Percent(100.0)
  {
    ShareInOrder(Total(r, a), Total(r, b), maximum);
    ShareInOrder(Total(r, a), maximum, maximum);
    ShareInOrder(maximum, Total(r, a), maximum);
    ShareInOrder(0.0, Total(r, a), maximum);
    var c :| c in r && Total(r, c) == maximum;
    assert ScoreOf(Total(r, c), maximum, |r|) == Percent(100.0);
  }

  /** And exactly the share of the best total, in percent. */
  lemma ScoreIsShare(total: real, maximum: real, count: nat)
    requires maximum > 0.0
    ensures var s := ScoreOf(total, maximum, count); s.Percent? && s.value * maximum == 100.0 * total
  {
    ShareOf(total, maximum);
  }

  lemma ShareOf(x: real, m: real)
    requires m > 0.0
    ensures x / m * 100.0 * m == 100.0 * x
  {
    var u := x / m;
    assert u * m == x;
    assert u * 100.0 * m == 100.0 * (u * m);
  }

  lemma ShareInOrder(x: real, y: real, m: real)
    requires m > 0.0
    ensures x / m * 100.0 <= y / m * 100.0 <==> x <= y
    ensures m / m * 100.0 == 100.0 && 0.0 / m * 100.0 == 0.0
  {
    var u, v := x / m, y / m;
    assert u * m == x && v * m == y;
    if u <= v {
      assert (v - u) * m >= 0.0;
    } else {
      assert (u - v) * m > 0.0;
    }
  }

  lemma OneKey(r: Report, a: Source)
    requires a in r
    ensures |r| == 1 <==> r.Keys == {a}
  {
    assert |r.Keys - {a}| == |r| - 1;
  }

  /** Nobody is scored in percent exactly when no comparable sources share a list; then a lone
    source has nothing to compare with, and several have nothing in common. */
  lemma NoPercentExactly(r: Report, maximum: real, s: Source)
    requires IsMaximum(r, maximum) && s in r
    ensures ScoreOf(Total(r, s), maximum, |r|) == NotApplicable <==> maximum == 0.0 && r.Keys == {s}
    ensures ScoreOf(Total(r, s), maximum, |r|) == TotalCollision <==> maximum == 0.0 && r.Keys != {s}
    ensures maximum == 0.0 <==>
              forall a, b :: a in r && b in r && Comparable(r, a, b) ==>
                               r[a].fixed != r[b].fixed && r[a].affected != r[b].affected
  {
    OneKey(r, s);
    if maximum == 0.0 {
      forall a, b | a in r && b in r && Comparable(r, a, b)
        ensures r[a].fixed != r[b].fixed && r[a].affected != r[b].affected
      {
        assert Total(r, a) <= 0.0;
        assert b !in FixedPeers(r, a) && b !in AffectedPeers(r, a);
      }
    } else {
      var a :| a in r && Total(r, a) == maximum;
      var b :| b in FixedPeers(r, a) || b in AffectedPeers(r, a);
    }
  }
}
