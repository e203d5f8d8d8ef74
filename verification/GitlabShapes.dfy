/** On which shapes GitLab's operator notation (vulntotal/vulntotal_utils.py) means what it says: the
  exact condition, and for every other shape a text that goes wrong. */
module GitlabShapes {
  import opened Options
  import opened Text
  import opened GenericVersions
  import opened Constraints
  import opened GitlabClauses

  /** All texts of a shape denote their disjunctions. */
  ghost predicate Denotes(shape: seq<Layout>) {
    forall cls, texts, version | WritesEach(texts, cls, shape) ::
      Gitlab(Join(texts, '|', true), version) == Ok(SomeSatisfied(version, cls))
  }

  /** Operator notation means what it says on exactly the harmless shapes. */
  lemma GitlabIsDisjunctionExactly(shape: seq<Layout>)
    requires shape != []
    ensures Denotes(shape) <==> Harmless(shape)
  {
    if Harmless(shape) {
      forall cls, texts, version | WritesEach(texts, cls, shape)
        ensures Gitlab(Join(texts, '|', true), version) == Ok(SomeSatisfied(version, cls))
      {
        GitlabIsDisjunction(cls, shape, texts, version);
      }
    } else if HasComma(shape) {
      BlankListMisread(shape);
    } else {
      GapRaises(shape);
    }
  }

  // ----- a text for every harmful shape

  function AllEqualTo(w: string, n: nat): (cl: Clause)
    ensures |cl| == n && forall k :: 0 <= k < n ==> cl[k] == Constraint(Eq, w)
  {
    seq(n, _ => Constraint(Eq, w))
  }

  /** Alternatives before `i` ask for version 2, the others for version 1. */
  function Probe(shape: seq<Layout>, i: nat): (cls: seq<Clause>)
    ensures |cls| == |shape|
    ensures forall n :: 0 <= n < |shape| ==> cls[n] == AllEqualTo(if n < i then "2" else "1", |shape[n].gaps|)
  {
    seq(|shape|, n requires 0 <= n < |shape| => AllEqualTo(if n < i then "2" else "1", |shape[n].gaps|))
  }

  /** The text of one alternative of the probe. */
  function ProbeText(w: string, gaps: Gaps): string {
    Join(Words(AllEqualTo(w, |gaps|), gaps), ' ', false)
  }

  function ProbeTexts(shape: seq<Layout>, i: nat): (texts: seq<string>)
    ensures |texts| == |shape|
    ensures forall n :: 0 <= n < |shape| ==> texts[n] == ProbeText(if n < i then "2" else "1", shape[n].gaps)
  {
    seq(|shape|, n requires 0 <= n < |shape| => ProbeText(if n < i then "2" else "1", shape[n].gaps))
  }

  lemma ProbePlain(w: string, n: nat)
    requires w == "1" || w == "2"
    ensures Plain(w) && ClausePlain(AllEqualTo(w, n))
  {
  }

  /** Words joined by single blanks write their clause. */
  lemma WordsWrite(cl: Clause, gaps: Gaps)
    requires ClausePlain(cl) && |gaps| == |cl| && forall c :: c in cl ==> c.version != ""
    ensures WritesClause(Join(Words(cl, gaps), ' ', false), cl, gaps, ' ')
    ensures |cl| <= 1 ==> WritesClause(Join(Words(cl, gaps), ' ', false), cl, gaps, ',')
  {
    var words := Words(cl, gaps);
    var t := Join(words, ' ', false);
    WordsPlain(cl, gaps);
    WordsNotEmpty(cl, gaps);
    JoinTrimmed(words, ' ', false);
    StripTrimmed(t);
    if cl == [] {
      var nothing := [""];
      assert nothing[1..] == [] && NonEmpty(nothing) == [];
      assert WritesAs(t, cl, gaps, ' ', nothing) && WritesAs(t, cl, gaps, ',', nothing);
    } else {
      NothingEmpty(words);
      assert WritesAs(t, cl, gaps, ' ', words);
      if |cl| == 1 {
        SingleWrites(t, cl, gaps);
      }
    }
  }

  lemma SingleWrites(t: string, cl: Clause, gaps: Gaps)
    requires ClausePlain(cl) && |gaps| == |cl| == 1 && cl[0].version != ""
    requires t == Join(Words(cl, gaps), ' ', false) && Strip(t) == t
    ensures WritesClause(t, cl, gaps, ',')
  {
    var gap, one := if gaps[0] then " " else "", [t];
    assert cl[0] in cl && cl[1..] == [] && Words(cl[1..], gaps[1..]) == [];
    SingleWords(cl[0], gaps[0], Words(cl, gaps));
    assert WritesWith(t, cl[0], gaps[0], gap);
    assert WritesAll(one, cl, gaps);
    assert WritesAs(t, cl, gaps, ',', one);
  }

  lemma SingleWords(c: Constraint, gapped: bool, words: seq<string>)
    requires IsPrefix(c.op) && words == (if gapped then [Token(c.op), c.version] else [Print(c)])
    ensures Join(words, ' ', false) == PrintGap(c, if gapped then " " else "")
  {
    if gapped {
      assert words[1..] == [c.version];
    } else {
      assert PrintGap(c, "") == Print(c);
    }
  }

  lemma {:induction false} WordsNotEmpty(cl: Clause, gaps: Gaps)
    requires |gaps| == |cl| && forall c :: c in cl ==> c.version != ""
    ensures "" !in Words(cl, gaps) && (cl != [] ==> Words(cl, gaps) != [])
  {
    if cl != [] {
      assert cl[0] in cl;
      TokenTrimmed(cl[0].op);
      WordsNotEmpty(cl[1..], gaps[1..]);
    }
  }

  lemma ProbeWrites(shape: seq<Layout>, i: nat)
    requires !HasComma(shape)
    ensures WritesEach(ProbeTexts(shape, i), Probe(shape, i), shape)
  {
    var cls, texts := Probe(shape, i), ProbeTexts(shape, i);
    forall n | 0 <= n < |shape|
      ensures ClausePlain(cls[n]) && WritesClause(texts[n], cls[n], shape[n].gaps, shape[n].Delimiter())
    {
      ProbePlain(if n < i then "2" else "1", |shape[n].gaps|);
      WordsWrite(cls[n], shape[n].gaps);
    }
  }

  /** A gap, once reached, raises: the comparator alone is skipped, and the version alone is no
    constraint. */
  lemma {:induction false} WordsRaise(w: string, gaps: Gaps, version: string)
    requires Plain(w) && w != "" && Satisfied(version, Constraint(Eq, w)) && !NoGap(gaps)
    ensures AllHold(Words(AllEqualTo(w, |gaps|), gaps), version, true) == Raise("TypeError")
  {
    if gaps[0] {
      GapFirst(w, gaps, version);
    } else {
      var k :| 0 <= k < |gaps| && gaps[k];
      assert gaps[1..][k - 1];
      NoGapFirst(w, gaps, version);
      WordsRaise(w, gaps[1..], version);
    }
  }

  lemma GapFirst(w: string, gaps: Gaps, version: string)
    requires Plain(w) && w != "" && gaps != [] && gaps[0]
    ensures AllHold(Words(AllEqualTo(w, |gaps|), gaps), version, true) == Raise("TypeError")
  {
    FirstWords(w, gaps);
    ComparatorThenVersion(w, Words(AllEqualTo(w, |gaps| - 1), gaps[1..]), version);
  }

  lemma NoGapFirst(w: string, gaps: Gaps, version: string)
    requires Plain(w) && Satisfied(version, Constraint(Eq, w)) && gaps != [] && !gaps[0]
    ensures AllHold(Words(AllEqualTo(w, |gaps|), gaps), version, true)
         == AllHold(Words(AllEqualTo(w, |gaps[1..]|), gaps[1..]), version, true)
  {
    FirstWords(w, gaps);
    SatisfiedFirst(Constraint(Eq, w), Words(AllEqualTo(w, |gaps| - 1), gaps[1..]), version);
  }

  lemma FirstWords(w: string, gaps: Gaps)
    requires gaps != []
    ensures Words(AllEqualTo(w, |gaps|), gaps)
         == (if gaps[0] then [Token(Eq), w] else [Print(Constraint(Eq, w))])
            + Words(AllEqualTo(w, |gaps| - 1), gaps[1..])
  {
    assert AllEqualTo(w, |gaps|)[1..] == AllEqualTo(w, |gaps| - 1);
  }

  lemma SatisfiedFirst(c: Constraint, rest: seq<string>, version: string)
    requires Plain(c.version) && Satisfied(version, c)
    ensures AllHold([Print(c)] + rest, version, true) == AllHold(rest, version, true)
  {
    assert ([Print(c)] + rest)[1..] == rest;
    ParsePrint(c);
    StripTrimmed(Print(c));
  }

  lemma ComparatorThenVersion(w: string, rest: seq<string>, version: string)
    requires Plain(w) && w != ""
    ensures AllHold([Token(Eq), w] + rest, version, true) == Raise("TypeError")
  {
    assert w[0] !in ",|<>=!()[]" && w[|w| - 1] !in ",|<>=!()[]" && !IsSpace(w[0]) && !IsSpace(w[|w| - 1]);
    assert |w| >= 2 ==> w[1] !in ",|<>=!()[]";
    StripTrimmed(w);
    TokenTrimmed(Eq);
    StripTrimmed(Token(Eq));
    ParseToken(Eq, "");
    assert Token(Eq) + "" == Token(Eq);
    assert ParseConstraint(w) == None;
    var words := [Token(Eq), w] + rest;
    assert words[1..] == [w] + rest;
    assert AllHold([w] + rest, version, true) == Raise("TypeError");
  }

  lemma ProbeTail(shape: seq<Layout>, i: nat)
    requires 0 < i < |shape|
    ensures ProbeTexts(shape[1..], i - 1) == ProbeTexts(shape, i)[1..]
  {
  }

  lemma {:induction false} AnyHoldsProbe(shape: seq<Layout>, i: nat, alternatives: seq<string>, version: string)
    requires FirstGapAt(shape, i) && SameUpToBlanks(alternatives, ProbeTexts(shape, i))
    requires Decompose(version) == ["1"]
    ensures AnyHolds(alternatives, ' ', version) == Raise("TypeError")
    decreases i
  {
    if i == 0 {
      GapReached("1", shape[0].gaps, version);
    } else {
      Passed("2", shape[0].gaps, version);
      ProbeTail(shape, i);
      AnyHoldsProbe(shape[1..], i - 1, alternatives[1..], version);
    }
  }

  lemma GapReached(w: string, gaps: Gaps, version: string)
    requires w == "1" && !NoGap(gaps) && Decompose(version) == ["1"]
    ensures Reading(ProbeText(w, gaps), ' ', version) == Raise("TypeError")
  {
    var cl := AllEqualTo(w, |gaps|);
    OneAndTwo(version);
    ProbePlain(w, |gaps|);
    WordsWrite(cl, gaps);
    BlankClause(ProbeText(w, gaps), cl, gaps, version);
    WordsRaise(w, gaps, version);
  }

  lemma Passed(w: string, gaps: Gaps, version: string)
    requires w == "2" && NoGap(gaps) && gaps != [] && Decompose(version) == ["1"]
    ensures Reading(ProbeText(w, gaps), ' ', version) == Ok(false)
  {
    var cl := AllEqualTo(w, |gaps|);
    OneAndTwo(version);
    ProbePlain(w, |gaps|);
    WordsWrite(cl, gaps);
    UngappedClause(ProbeText(w, gaps), cl, gaps, version);
    assert cl[0] in cl && !AllSatisfied(version, cl);
  }

  lemma OneAndTwo(version: string)
    requires Decompose(version) == ["1"]
    ensures Plain("1") && Plain("2")
    ensures Satisfied(version, Constraint(Eq, "1")) && !Satisfied(version, Constraint(Eq, "2"))
  {
    DecomposeDigit("1");
    DecomposeDigit("2");
    assert IntOf("1"[..0]) == 0 && IntOf("1") == 1 && IntOf("2"[..0]) == 0 && IntOf("2") == 2;
    assert !ComponentEqual(["1"][0], ["2"][0]);
  }

  lemma DecomposeDigit(v: string)
    requires |v| == 1 && IsDigit(v[0])
    ensures Decompose(v) == [v]
  {
    var a := [v];
    assert PlainComponent(v) && StripV(v) == v;
    assert Join(a, '.', false) == v && "" + v == v;
    DecomposeJoined(a, "");
  }

  /** Alternative `i` is the first with a gap, and none before it is without constraints. */
  ghost predicate FirstGapAt(shape: seq<Layout>, i: nat) {
    && i < |shape| && !NoGap(shape[i].gaps)
    && forall n :: 0 <= n < i ==> NoGap(shape[n].gaps) && shape[n].gaps != []
  }

  /** Without a comma, the first gap of a harmful shape is reached. */
  lemma GapRaises(shape: seq<Layout>)
    requires shape != [] && !HasComma(shape) && !GapsAfterEmpty(shape)
    ensures !Denotes(shape)
  {
    var i := FirstGap(shape);
    var cls, texts, version := Probe(shape, i), ProbeTexts(shape, i), "1";
    ProbeWrites(shape, i);
    DecomposeDigit(version);
    ProbeRaises(shape, i, version);
    assert Gitlab(Join(texts, '|', true), version) != Ok(SomeSatisfied(version, cls));
  }

  lemma ProbeRaises(shape: seq<Layout>, i: nat, version: string)
    requires FirstGapAt(shape, i) && !HasComma(shape)
    requires WritesEach(ProbeTexts(shape, i), Probe(shape, i), shape) && Decompose(version) == ["1"]
    ensures Gitlab(Join(ProbeTexts(shape, i), '|', true), version) == Raise("TypeError")
  {
    var s := Join(ProbeTexts(shape, i), '|', true);
    TextOutside(Probe(shape, i), shape, ProbeTexts(shape, i));
    SplitStrip(s, '|', true);
    Unbracketed(s);
    AnyHoldsProbe(shape, i, Split(Strip(s), '|', true), version);
  }

  lemma FirstGap(shape: seq<Layout>) returns (i: nat)
    requires !GapsAfterEmpty(shape)
    ensures FirstGapAt(shape, i)
  {
    var last :| 0 <= last < |shape| && !NoGap(shape[last].gaps)
      && forall j :: 0 <= j < last ==> shape[j].gaps != [];
    i := 0;
    while NoGap(shape[i].gaps)
      invariant i <= last && forall n :: 0 <= n < i ==> NoGap(shape[n].gaps)
      decreases last - i
    {
      i := i + 1;
    }
  }

  // ----- a blank list in a text with commas

  /** Alternative `i` asks for version 1, all others for version 2. */
  function Mixed(shape: seq<Layout>, i: nat): (cls: seq<Clause>)
    ensures |cls| == |shape|
    ensures forall n :: 0 <= n < |shape| ==> cls[n] == AllEqualTo(if n == i then "1" else "2", |shape[n].gaps|)
  {
    seq(|shape|, n requires 0 <= n < |shape| => AllEqualTo(if n == i then "1" else "2", |shape[n].gaps|))
  }

  function GapPieces(w: string, gaps: Gaps): (pieces: seq<string>)
    ensures |pieces| == |gaps|
    ensures forall k :: 0 <= k < |gaps| ==> pieces[k] == PrintGap(Constraint(Eq, w), if gaps[k] then " " else "")
  {
    seq(|gaps|, k requires 0 <= k < |gaps| => PrintGap(Constraint(Eq, w), if gaps[k] then " " else ""))
  }

  function LayoutText(w: string, layout: Layout): string {
    if layout.commas then Join(GapPieces(w, layout.gaps), ',', false) else ProbeText(w, layout.gaps)
  }

  function MixedTexts(shape: seq<Layout>, i: nat): (texts: seq<string>)
    ensures |texts| == |shape|
    ensures forall n :: 0 <= n < |shape| ==> texts[n] == LayoutText(if n == i then "1" else "2", shape[n])
  {
    seq(|shape|, n requires 0 <= n < |shape| => LayoutText(if n == i then "1" else "2", shape[n]))
  }

  lemma LayoutWrites(w: string, layout: Layout)
    requires (w == "1" || w == "2") && layout.gaps != []
    ensures WritesClause(LayoutText(w, layout), AllEqualTo(w, |layout.gaps|), layout.gaps, layout.Delimiter())
  {
    var cl, pieces := AllEqualTo(w, |layout.gaps|), GapPieces(w, layout.gaps);
    ProbePlain(w, |layout.gaps|);
    WordsWrite(cl, layout.gaps);
    if layout.commas {
      forall k | 0 <= k < |cl|
        ensures Writes(pieces[k], cl[k], layout.gaps[k])
      {
        GapPieceWrites(w, layout.gaps[k]);
      }
      assert WritesAs(LayoutText(w, layout), cl, layout.gaps, ',', pieces);
    }
  }

  lemma GapPieceWrites(w: string, gapped: bool)
    requires Plain(w) && w != ""
    ensures Writes(PrintGap(Constraint(Eq, w), if gapped then " " else ""), Constraint(Eq, w), gapped)
  {
    var gap := if gapped then " " else "";
    var piece := PrintGap(Constraint(Eq, w), gap);
    assert piece[0] == '=' && piece[|piece| - 1] == w[|w| - 1];
    StripTrimmed(piece);
    assert WritesWith(piece, Constraint(Eq, w), gapped, gap);
  }

  /** A list of two or more, read as one constraint, asks for no plain version. */
  lemma MisreadFails(w: string, gaps: Gaps, version: string)
    requires (w == "1" || w == "2") && |gaps| >= 2 && Decompose(version) == ["1"]
    ensures Reading(ProbeText(w, gaps), ',', version) == Ok(false)
  {
    var s := ProbeText(w, gaps);
    MisreadChars(w, gaps);
    StripTrimmed(s);
    assert ParseConstraint(s) == Some(Constraint(Eq, s[1..]));
    WholeReading(s, version);
    OddVersion(s[1..], version);
  }

  /** `=1 =1`, or the like with gaps: what follows the first comparator has another one in it. */
  lemma MisreadChars(w: string, gaps: Gaps)
    requires (w == "1" || w == "2") && |gaps| >= 2
    ensures var s := ProbeText(w, gaps);
            && Trimmed(s) && Free(s, ',') && |s| > 1 && s[0] == '=' && s[1] != '='
            && '=' in s[1..] && Free(s[1..], '.') && Free(s[1..], 'v') && Free(s[1..], 'V')
  {
    var s := ProbeText(w, gaps);
    ProbeChars(w, gaps);
    assert forall ch :: ch in s[1..] ==> ch in s;
    SecondComparator(w, gaps);
  }

  lemma ProbeChars(w: string, gaps: Gaps)
    requires w == "1" || w == "2"
    ensures Trimmed(ProbeText(w, gaps))
    ensures forall ch :: ch in ProbeText(w, gaps) ==> ch == '=' || ch == ' ' || ch == w[0]
  {
    var cl := AllEqualTo(w, |gaps|);
    var words := Words(cl, gaps);
    ProbePlain(w, |gaps|);
    WordsPlain(cl, gaps);
    WordsNotEmpty(cl, gaps);
    JoinTrimmed(words, ' ', false);
    forall ch | ch in ProbeText(w, gaps)
      ensures ch == '=' || ch == ' ' || ch == w[0]
    {
      JoinChars(words, ' ', false, ch);
      if ch != ' ' {
        var c :| c in cl && ch in Print(c);
        PrintedChar(w, c, ch);
      }
    }
  }

  lemma PrintedChar(w: string, c: Constraint, ch: char)
    requires c == Constraint(Eq, w) && |w| == 1 && ch in Print(c)
    ensures ch == '=' || ch == w[0]
  {
    assert Print(c) == ['=', w[0]];
  }

  lemma SecondComparator(w: string, gaps: Gaps)
    requires |w| == 1 && w[0] != '=' && |gaps| >= 2
    ensures var s := ProbeText(w, gaps); |s| > 1 && s[0] == '=' && s[1] != '=' && '=' in s[1..]
  {
    var rest := Words(AllEqualTo(w, |gaps| - 1), gaps[1..]);
    FirstWords(w, gaps);
    assert |gaps[1..]| == |gaps| - 1;
    FirstWords(w, gaps[1..]);
    assert rest[0][0] == '=';
    if gaps[0] {
      var later := [w] + rest;
      assert later[1] == rest[0];
      assert ["="] + later == ["=", w] + rest;
      LaterWord("=", later, rest[0]);
    } else {
      LaterWord("=" + w, rest, rest[0]);
    }
  }

  /** Joining keeps what is in a later word behind the first. */
  lemma LaterWord(first: string, later: seq<string>, word: string)
    requires word in later && '=' in word && first != ""
    ensures var s := Join([first] + later, ' ', false);
            |s| > |first| && s[..|first|] == first && s[|first|] == ' ' && '=' in s[1..]
  {
    var words := [first] + later;
    var tail := Join(later, ' ', false);
    assert words[1..] == later;
    PartInJoin(later, ' ', false, word, '=');
    var s := Join(words, ' ', false);
    assert s == first + " " + tail;
    assert s[1..] == first[1..] + " " + tail;
  }

  lemma {:induction false} RemoveBlanksKeeps(s: string, ch: char)
    requires ch != ' '
    ensures ch in RemoveBlanks(s) <==> ch in s
  {
    if s != "" {
      RemoveBlanksKeeps(s[1..], ch);
      assert s == [s[0]] + s[1..];
    }
  }

  lemma OddVersion(rest: string, version: string)
    requires '=' in rest && Free(rest, '.') && Free(rest, 'v') && Free(rest, 'V') && Decompose(version) == ["1"]
    ensures !Satisfied(version, Constraint(Eq, rest))
  {
    var u := RemoveBlanks(rest);
    RemoveBlanksKeeps(rest, '=');
    RemoveBlanksKeeps(rest, '.');
    RemoveBlanksKeeps(rest, 'v');
    RemoveBlanksKeeps(rest, 'V');
    assert StripV(u) == u by {
      assert u != "" ==> u[0] in u;
    }
    SplitWhole(u, '.', false);
    var k :| 0 <= k < |u| && u[k] == '=';
    assert !IsDigit(u[k]) && u != "1";
    assert !ComponentEqual(["1"][0], [u][0]);
  }

  /** With a comma, a blank list of two constraints is misread. */
  lemma BlankListMisread(shape: seq<Layout>)
    requires HasComma(shape) && !BlanksIdle(shape)
    ensures !Denotes(shape)
  {
    var i :| 0 <= i < |shape| && !shape[i].commas && |shape[i].gaps| > 1;
    var cls, texts, version := Mixed(shape, i), MixedTexts(shape, i), "1";
    DecomposeDigit(version);
    MixedWrites(shape, i);
    MixedRejected(shape, i, version);
    MixedSatisfied(shape, i, version);
    assert Gitlab(Join(texts, '|', true), version) != Ok(SomeSatisfied(version, cls));
  }

  lemma MixedSatisfied(shape: seq<Layout>, i: nat, version: string)
    requires i < |shape| && Decompose(version) == ["1"]
    ensures SomeSatisfied(version, Mixed(shape, i))
  {
    OneAndTwo(version);
    var cls := Mixed(shape, i);
    assert cls[i] in cls && AllSatisfied(version, cls[i]);
  }

  lemma MixedWrites(shape: seq<Layout>, i: nat)
    requires forall n :: 0 <= n < |shape| ==> shape[n].gaps != []
    ensures WritesEach(MixedTexts(shape, i), Mixed(shape, i), shape)
  {
    var cls, texts := Mixed(shape, i), MixedTexts(shape, i);
    forall n | 0 <= n < |shape|
      ensures ClausePlain(cls[n]) && WritesClause(texts[n], cls[n], shape[n].gaps, shape[n].Delimiter())
    {
      ProbePlain(if n == i then "1" else "2", |shape[n].gaps|);
      LayoutWrites(if n == i then "1" else "2", shape[n]);
    }
  }

  lemma MixedRejected(shape: seq<Layout>, i: nat, version: string)
    requires HasComma(shape) && i < |shape| && !shape[i].commas && |shape[i].gaps| > 1
    requires forall n :: 0 <= n < |shape| ==> shape[n].gaps != []
    requires WritesEach(MixedTexts(shape, i), Mixed(shape, i), shape) && Decompose(version) == ["1"]
    ensures Gitlab(Join(MixedTexts(shape, i), '|', true), version) == Ok(false)
  {
    var texts := MixedTexts(shape, i);
    var s := Join(texts, '|', true);
    TextOutside(Mixed(shape, i), shape, texts);
    SplitStrip(s, '|', true);
    Unbracketed(s);
    forall n | 0 <= n < |shape|
      ensures Reading(texts[n], ',', version) == Ok(false)
    {
      if shape[n].commas || |shape[n].gaps| <= 1 {
        AsksForTwo("2", shape[n], version);
      } else {
        MisreadFails(if n == i then "1" else "2", shape[n].gaps, version);
      }
    }
    NoneHolds(Split(Strip(s), '|', true), texts, version);
  }

  lemma AsksForTwo(w: string, layout: Layout, version: string)
    requires w == "2" && layout.gaps != [] && (layout.commas || |layout.gaps| <= 1) && Decompose(version) == ["1"]
    ensures Reading(LayoutText(w, layout), ',', version) == Ok(false)
  {
    var cl := AllEqualTo(w, |layout.gaps|);
    ProbePlain(w, |layout.gaps|);
    LayoutWrites(w, layout);
    if !layout.commas {
      BlankAsSingle(LayoutText(w, layout), cl, layout.gaps);
    }
    CommaClause(LayoutText(w, layout), cl, layout.gaps, version);
    OneAndTwo(version);
    assert cl[0] in cl && !AllSatisfied(version, cl);
  }

  lemma {:induction false} NoneHolds(alternatives: seq<string>, texts: seq<string>, version: string)
    requires SameUpToBlanks(alternatives, texts)
    requires forall n :: 0 <= n < |texts| ==> Reading(texts[n], ',', version) == Ok(false)
    ensures AnyHolds(alternatives, ',', version) == Ok(false)
  {
    if texts != [] {
      NoneHolds(alternatives[1..], texts[1..], version);
    }
  }

  /** In particular: one constraint with one blank after its comparator raises, for every version. */
  lemma BlankAfterComparatorRaises(op: Op, w: string, version: string)
    requires IsPrefix(op) && Plain(w) && w != ""
    ensures Gitlab(Token(op) + " " + w, version) == Raise("TypeError")
  {
    var c := Constraint(op, "");
    ParsePrint(c);
    assert Print(c) == Token(op);
    PrefixFree(c);
    LoneComparatorThenVersion(Token(op), w, version);
    OneBlank(Token(op), w, version);
  }

  /** A text with one blank and no other delimiter. */
  lemma OneBlank(t: string, w: string, version: string)
    requires t != "" && Trimmed(t) && !StartsInterval(t) && Free(t, ',') && Free(t, '|') && Free(t, ' ')
    requires w != "" && Plain(w)
    ensures AllHold([t, w], version, true).Raise? ==> Gitlab(t + " " + w, version) == AllHold([t, w], version, true)
  {
    var s := t + " " + w;
    PlainFree(w);
    assert s[0] == t[0] && s[|s| - 1] == w[|w| - 1];
    StripTrimmed(s);
    SplitWhole(s, '|', true);
    SplitPiece(t, w, ' ', false);
    SplitWhole(w, ' ', false);
    assert Split(s, ' ', false) == [t, w];
    assert Alternatives(s) == [s];
  }

  lemma LoneComparatorThenVersion(t: string, w: string, version: string)
    requires t != "" && Trimmed(t) && ParseConstraint(t).Some? && ParseConstraint(t).value.version == ""
    requires w != "" && Plain(w)
    ensures AllHold([t, w], version, true) == Raise("TypeError")
  {
    assert w[0] !in ",|<>=!()[]" && w[|w| - 1] !in ",|<>=!()[]" && !IsSpace(w[0]) && !IsSpace(w[|w| - 1]);
    assert |w| >= 2 ==> w[1] !in ",|<>=!()[]";
    StripTrimmed(t);
    StripTrimmed(w);
    assert ParseConstraint(w) == None;
    var last := [w];
    assert [t, w][1..] == last;
    assert AllHold(last, version, true) == Raise("TypeError");
  }
}
