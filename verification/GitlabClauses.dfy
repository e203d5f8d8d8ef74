/** GitLab's operator notation (vulntotal/vulntotal_utils.py): alternatives separated by `||`, each
  a list of constraints separated by commas or by blanks. */
module GitlabClauses {
  import opened Options
  import opened Text
  import opened Constraints

  type Clause = seq<Constraint>

  /** For each constraint of a clause: is there a gap between its comparator and its version? */
  type Gaps = seq<bool>

  /** How a clause is laid out: separated by commas or by blanks, and with which gaps. */
  datatype Layout = Layout(commas: bool, gaps: Gaps) {
    function Delimiter(): char {
      if commas then ',' else ' '
    }
  }

  ghost predicate ClausePlain(cl: Clause) {
    AllPlain(cl) && forall c :: c in cl ==> IsPrefix(c.op)
  }

  // ----- written clauses

  function NonEmpty(parts: seq<string>): (r: seq<string>)
    ensures forall p :: p in r <==> p in parts && p != ""
  {
    if parts == [] then []
    else
      assert parts == [parts[0]] + parts[1..];
      (if parts[0] == "" then [] else [parts[0]]) + NonEmpty(parts[1..])
  }

  /** What blanks separate: constraints, and where there is a gap, comparator and version. */
  function Words(cl: Clause, gaps: Gaps): seq<string>
    requires |gaps| == |cl|
  {
    if cl == [] then []
    else (if gaps[0] then [Token(cl[0].op), cl[0].version] else [Print(cl[0])]) + Words(cl[1..], gaps[1..])
  }

  /** `t` writes a clause: `>=1 , < 2` with commas and blanks around the constraints, or `>=1  < 2`
    with one or more blanks between them. */
  ghost predicate WritesClause(t: string, cl: Clause, gaps: Gaps, d: char) {
    exists parts :: WritesAs(t, cl, gaps, d, parts)
  }

  ghost predicate WritesAs(t: string, cl: Clause, gaps: Gaps, d: char, parts: seq<string>) {
    && |gaps| == |cl| && parts != []
    && if d == ',' && cl == [] then t == parts[0] && Strip(t) == ""
       else if d == ',' then t == Join(parts, ',', false) && WritesAll(parts, cl, gaps)
       else Strip(t) == Join(parts, ' ', false) && NonEmpty(parts) == Words(cl, gaps)
  }

  /** Every text writes its clause, in the layout of its place. */
  ghost predicate WritesEach(texts: seq<string>, cls: seq<Clause>, shape: seq<Layout>) {
    && |texts| == |cls| == |shape|
    && forall i :: 0 <= i < |cls| ==>
                     ClausePlain(cls[i]) && WritesClause(texts[i], cls[i], shape[i].gaps, shape[i].Delimiter())
  }

  lemma {:induction false} WordsPlain(cl: Clause, gaps: Gaps)
    requires |gaps| == |cl| && AllPlain(cl)
    ensures forall w, ch | w in Words(cl, gaps) && ch in w :: exists c :: c in cl && ch in Print(c)
    ensures forall w :: w in Words(cl, gaps) ==> Free(w, ' ') && Trimmed(w)
  {
    if cl != [] {
      var c, rest := cl[0], Words(cl[1..], gaps[1..]);
      assert c in cl && cl == [c] + cl[1..];
      WordsPlain(cl[1..], gaps[1..]);
      ParsePrint(c);
      assert Trimmed(c.version) && Free(c.version, ' ');
      TokenTrimmed(c.op);
      forall w | w in Words(cl, gaps)
        ensures w in rest || w == Token(c.op) || w == c.version || w == Print(c)
      {
      }
      assert forall ch :: ch in Token(c.op) || ch in c.version ==> ch in Print(c);
    }
  }

  lemma {:induction false} WordsUngapped(cl: Clause, gaps: Gaps)
    requires |gaps| == |cl| && NoGap(gaps)
    ensures Words(cl, gaps) == PrintAll(cl)
  {
    if cl != [] {
      WordsUngapped(cl[1..], gaps[1..]);
    }
  }

  lemma TokenTrimmed(op: Op)
    ensures Trimmed(Token(op)) && Free(Token(op), ' ') && Token(op) != ""
  {
  }

  lemma {:induction false} NothingEmpty(parts: seq<string>)
    requires "" !in parts
    ensures NonEmpty(parts) == parts
  {
    if parts != [] {
      NothingEmpty(parts[1..]);
      assert parts == [parts[0]] + parts[1..];
    }
  }

  /** In particular a printed clause writes itself, without gaps. */
  lemma PrintedClause(cl: Clause, gaps: Gaps, commas: bool)
    requires AllPlain(cl) && |gaps| == |cl| && NoGap(gaps)
    ensures var d := Layout(commas, gaps).Delimiter(); WritesClause(Join(PrintAll(cl), d, false), cl, gaps, d)
  {
    var d, pieces := Layout(commas, gaps).Delimiter(), PrintAll(cl);
    PrintedPieces(cl);
    WordsUngapped(cl, gaps);
    if cl == [] {
      var nothing := [""];
      assert nothing[1..] == [] && NonEmpty(nothing) == [];
      assert WritesAs("", cl, gaps, d, nothing);
    } else {
      JoinTrimmed(pieces, d, false);
      StripTrimmed(Join(pieces, d, false));
      NothingEmpty(pieces);
      PrintedAll(cl, gaps);
      assert WritesAs(Join(pieces, d, false), cl, gaps, d, pieces);
    }
  }

  lemma PrintedAll(cl: Clause, gaps: Gaps)
    requires AllPlain(cl) && |gaps| == |cl| && NoGap(gaps)
    ensures WritesAll(PrintAll(cl), cl, gaps)
  {
    forall k | 0 <= k < |cl|
      ensures Writes(PrintAll(cl)[k], cl[k], gaps[k])
    {
      assert cl[k] in cl;
      PrintedWrites(cl[k]);
    }
  }

  // ----- evaluating written clauses

  lemma {:induction false} AllHoldSkips(parts: seq<string>, version: string)
    ensures AllHold(parts, version, true) == AllHold(NonEmpty(parts), version, true)
  {
    if parts != [] {
      AllHoldSkips(parts[1..], version);
      var rest := NonEmpty(parts[1..]);
      if parts[0] == "" {
        assert NonEmpty(parts) == rest;
      } else {
        assert NonEmpty(parts) == [parts[0]] + rest && ([parts[0]] + rest)[1..] == rest;
      }
    }
  }

  lemma EmptyClause(t: string, delimiter: char, version: string)
    requires Strip(t) == ""
    ensures Reading(t, delimiter, version) == Ok(true)
  {
    var parts := [""];
    assert Split("", delimiter, false) == parts && parts[1..] == [];
    assert AllHold(parts, version, true) == AllHold(parts[1..], version, true);
  }

  /** Split at commas, a comma list is the conjunction it writes, gaps or not. */
  lemma CommaClause(t: string, cl: Clause, gaps: Gaps, version: string)
    requires AllPlain(cl) && WritesClause(t, cl, gaps, ',')
    ensures Reading(t, ',', version) == Ok(AllSatisfied(version, cl))
  {
    var parts :| WritesAs(t, cl, gaps, ',', parts);
    if cl == [] {
      EmptyClause(t, ',', version);
    } else {
      CommaListEvaluates(cl, parts, gaps, version);
    }
  }

  /** Split at blanks, a blank list is its words. */
  lemma BlankClause(t: string, cl: Clause, gaps: Gaps, version: string)
    requires AllPlain(cl) && WritesClause(t, cl, gaps, ' ')
    ensures Reading(t, ' ', version) == AllHold(Words(cl, gaps), version, true)
  {
    var parts :| WritesAs(t, cl, gaps, ' ', parts);
    WordsPlain(cl, gaps);
    forall p | p in parts
      ensures Free(p, ' ')
    {
      assert p != "" ==> p in NonEmpty(parts);
    }
    SplitJoin(parts, ' ', false);
    AllHoldSkips(parts, version);
  }

  ghost predicate NoGap(gaps: Gaps) {
    forall k :: 0 <= k < |gaps| ==> !gaps[k]
  }

  /** Without gaps that is the conjunction. */
  lemma UngappedClause(t: string, cl: Clause, gaps: Gaps, version: string)
    requires AllPlain(cl) && WritesClause(t, cl, gaps, ' ') && NoGap(gaps)
    ensures Reading(t, ' ', version) == Ok(AllSatisfied(version, cl))
  {
    BlankClause(t, cl, gaps, version);
    WordsUngapped(cl, gaps);
    forall k | 0 <= k < |cl|
      ensures ReadsAs(PrintAll(cl)[k], cl[k], version)
    {
      assert cl[k] in cl;
      PrintedWrites(cl[k]);
      WrittenReads(Print(cl[k]), cl[k], false, version);
    }
    AllHoldReads(cl, PrintAll(cl), version);
  }

  /** A clause of at most one constraint has no delimiter of its own: it can be read as a blank
    list, with a gap as the delimiter. */
  lemma SingleAsBlank(t: string, cl: Clause, gaps: Gaps)
    requires AllPlain(cl) && (forall c :: c in cl ==> IsPrefix(c.op))
    requires |cl| <= 1 && WritesClause(t, cl, gaps, ',')
    ensures WritesClause(t, cl, gaps, ' ')
  {
    var parts :| WritesAs(t, cl, gaps, ',', parts);
    if cl == [] {
      var nothing := [""];
      assert nothing[1..] == [] && NonEmpty(nothing) == [];
      assert WritesAs(t, cl, gaps, ' ', nothing);
    } else {
      assert cl[0] in cl;
      var gap :| WritesWith(t, cl[0], gaps[0], gap);
      GapWords(cl[0], gap);
      var words := Split(Strip(t), ' ', false);
      JoinSplit(Strip(t), ' ');
      assert cl[1..] == [] && Words(cl[1..], gaps[1..]) == [];
      assert WritesAs(t, cl, gaps, ' ', words);
    }
  }

  lemma GapWords(c: Constraint, gap: string)
    requires Plain(c.version) && IsPrefix(c.op) && Gap(gap) && (gap != "" ==> c.version != "")
    ensures NonEmpty(Split(PrintGap(c, gap), ' ', false))
         == if gap == "" then [Print(c)] else [Token(c.op), c.version]
  {
    if gap == "" {
      assert PrintGap(c, gap) == Print(c);
      ParsePrint(c);
      SplitWhole(Print(c), ' ', false);
      NonEmptyCons(Print(c), []);
    } else {
      var rest := gap[1..];
      TokenTrimmed(c.op);
      PlainFree(c.version);
      assert PrintGap(c, gap) == Token(c.op) + Separator(' ', false) + (rest + c.version);
      SplitPiece(Token(c.op), rest + c.version, ' ', false);
      GapWord(rest, c.version);
      NonEmptyCons(Token(c.op), Split(rest + c.version, ' ', false));
    }
  }

  lemma NonEmptyCons(word: string, parts: seq<string>)
    ensures NonEmpty([word] + parts) == (if word == "" then [] else [word]) + NonEmpty(parts)
  {
    assert ([word] + parts)[1..] == parts;
  }

  lemma {:induction false} GapWord(gap: string, v: string)
    requires Gap(gap) && v != "" && Free(v, ' ')
    ensures NonEmpty(Split(gap + v, ' ', false)) == [v]
  {
    if gap == "" {
      assert gap + v == v;
      SplitWhole(v, ' ', false);
      NonEmptyCons(v, []);
    } else {
      GapWord(gap[1..], v);
      assert gap + v == "" + Separator(' ', false) + (gap[1..] + v);
      SplitPiece("", gap[1..] + v, ' ', false);
      NonEmptyCons("", Split(gap[1..] + v, ' ', false));
    }
  }

  // ----- blank lists in a text with commas

  lemma {:induction false} NoWord(parts: seq<string>)
    requires parts != [] && NonEmpty(parts) == []
    ensures Gap(Join(parts, ' ', false))
  {
    if |parts| > 1 {
      NoWord(parts[1..]);
    }
  }

  /** `z` is a word with blanks before it, and perhaps after it. */
  ghost predicate AfterGap(word: string, z: string) {
    exists gap, y :: Padded(word, z, gap, y)
  }

  ghost predicate Padded(word: string, z: string, gap: string, y: string) {
    Gap(gap) && gap != "" && Gap(y) && z == gap + word + y
  }

  /** Up to its first word, a joined list is blank. */
  lemma {:induction false} FirstWord(parts: seq<string>) returns (x: string, z: string)
    requires NonEmpty(parts) != []
    ensures Gap(x) && Join(parts, ' ', false) == x + NonEmpty(parts)[0] + z
    ensures |NonEmpty(parts)| == 1 ==> Gap(z)
    ensures |NonEmpty(parts)| == 2 ==> AfterGap(NonEmpty(parts)[1], z)
    decreases parts, 0
  {
    if parts[0] == "" {
      var x', z' := FirstWord(parts[1..]);
      x, z := " " + x', z';
      assert NonEmpty(parts) == NonEmpty(parts[1..]);
      assert "" + Separator(' ', false) + (x' + NonEmpty(parts)[0] + z') == x + NonEmpty(parts)[0] + z;
    } else if |parts| == 1 {
      x, z := "", "";
    } else {
      x, z := "", " " + Join(parts[1..], ' ', false);
      LaterWords(parts[1..], z);
      assert NonEmpty(parts) == [parts[0]] + NonEmpty(parts[1..]);
    }
  }

  lemma {:induction false} LaterWords(parts: seq<string>, z: string)
    requires parts != [] && z == " " + Join(parts, ' ', false)
    ensures NonEmpty(parts) == [] ==> Gap(z)
    ensures |NonEmpty(parts)| == 1 ==> AfterGap(NonEmpty(parts)[0], z)
    decreases parts, 1
  {
    if NonEmpty(parts) == [] {
      NoWord(parts);
    } else {
      var x', z' := FirstWord(parts);
      if |NonEmpty(parts)| == 1 {
        OneMoreBlank(NonEmpty(parts)[0], x', z', z);
      }
    }
  }

  lemma OneMoreBlank(word: string, x: string, y: string, z: string)
    requires Gap(x) && Gap(y) && z == " " + (x + word + y)
    ensures AfterGap(word, z)
  {
    var gap := " " + x;
    assert z == gap + word + y;
    assert Padded(word, z, gap, y);
  }

  /** A blank list of at most one constraint can be read as a comma list. */
  lemma BlankAsSingle(t: string, cl: Clause, gaps: Gaps)
    requires AllPlain(cl) && (forall c :: c in cl ==> IsPrefix(c.op))
    requires |cl| <= 1 && WritesClause(t, cl, gaps, ' ')
    ensures WritesClause(t, cl, gaps, ',')
  {
    var parts :| WritesAs(t, cl, gaps, ' ', parts);
    var whole := [t];
    var a, b := StripSplits(t);
    StripTrimmed(Strip(t));
    if cl == [] {
      NoWord(parts);
      BlankStrips(Strip(t));
      assert WritesAs(t, cl, gaps, ',', whole);
    } else {
      assert cl[0] in cl;
      assert cl[1..] == [] && Words(cl[1..], gaps[1..]) == [];
      var gap := SingleGap(Strip(t), cl[0], gaps[0], parts);
      assert WritesWith(t, cl[0], gaps[0], gap);
      assert WritesAll(whole, cl, gaps);
      assert WritesAs(t, cl, gaps, ',', whole);
    }
  }

  lemma BlankStrips(s: string)
    requires Gap(s) && Strip(s) == s
    ensures s == ""
  {
    StripPad(s, "", "");
    assert s + "" + "" == s;
  }

  lemma SingleGap(s: string, c: Constraint, gapped: bool, parts: seq<string>) returns (gap: string)
    requires Plain(c.version) && IsPrefix(c.op) && Strip(s) == s && s == Join(parts, ' ', false)
    requires NonEmpty(parts) == if gapped then [Token(c.op), c.version] else [Print(c)]
    ensures Gap(gap) && (gapped <==> gap != "") && (gapped ==> c.version != "") && s == PrintGap(c, gap)
  {
    if gapped {
      TokenTrimmed(c.op);
      assert c.version in NonEmpty(parts);
      gap := TwoWords(s, Token(c.op), c.version, parts);
    } else {
      gap := "";
      ParsePrint(c);
      OneWord(s, Print(c), parts);
      assert PrintGap(c, "") == Print(c);
    }
  }

  lemma OneWord(s: string, word: string, parts: seq<string>)
    requires Trimmed(word) && Strip(s) == s && s == Join(parts, ' ', false) && NonEmpty(parts) == [word]
    ensures s == word
  {
    var x, z := FirstWord(parts);
    StripsTo(s, x, word, z);
  }

  lemma TwoWords(s: string, t: string, v: string, parts: seq<string>) returns (gap: string)
    requires t != "" && v != "" && Trimmed(t) && Trimmed(v) && Strip(s) == s && s == Join(parts, ' ', false)
    requires NonEmpty(parts) == [t, v]
    ensures Gap(gap) && gap != "" && s == t + gap + v
  {
    var x, z := FirstWord(parts);
    var y;
    gap, y :| Padded(v, z, gap, y);
    var core := t + gap + v;
    assert x + t + (gap + v + y) == x + core + y;
    assert core[0] == t[0] && core[|core| - 1] == v[|v| - 1];
    StripsTo(s, x, core, y);
  }

  lemma StripsTo(s: string, x: string, core: string, y: string)
    requires s == x + core + y && Strip(s) == s && Gap(x) && Gap(y) && Trimmed(core)
    ensures s == core
  {
    StripPad(x, core, y);
    StripTrimmed(core);
  }

  /** A blank list of several constraints is read as one constraint with an odd version: it does not
    raise. */
  lemma MisreadDoesNotRaise(t: string, cl: Clause, gaps: Gaps, version: string)
    requires ClausePlain(cl) && cl != [] && WritesClause(t, cl, gaps, ' ')
    ensures Reading(t, ',', version).Ok?
  {
    BeginsWithComparator(t, cl, gaps);
    ClauseCommas(t, cl, gaps);
    StripKeeps(t, ',');
    WholeReading(t, version);
  }

  /** A text without comma, split at commas, is one constraint. */
  lemma WholeReading(t: string, version: string)
    requires Free(Strip(t), ',') && Strip(t) != "" && ParseConstraint(Strip(t)).Some?
    ensures Reading(t, ',', version) == Ok(Satisfied(version, ParseConstraint(Strip(t)).value))
  {
    var whole := [Strip(t)];
    var a, b := StripSplits(t);
    StripTrimmed(Strip(t));
    SplitWhole(Strip(t), ',', false);
    assert whole[1..] == [] && Reading(t, ',', version) == AllHold(whole, version, true);
    if Satisfied(version, ParseConstraint(Strip(t)).value) {
      assert AllHold(whole, version, true) == AllHold(whole[1..], version, true);
    }
  }

  lemma BeginsWithComparator(t: string, cl: Clause, gaps: Gaps)
    requires ClausePlain(cl) && cl != [] && WritesClause(t, cl, gaps, ' ')
    ensures ParseConstraint(Strip(t)).Some? && Strip(t) != ""
  {
    var parts :| WritesAs(t, cl, gaps, ' ', parts);
    var word := Words(cl, gaps)[0];
    var a, b := StripSplits(t);
    var x, z := FirstWord(parts);
    WordBegins(Strip(t), x, word, z);
    assert cl[0] in cl;
    BeginsConstraint(Strip(t), word, cl[0]);
  }

  lemma WordBegins(s: string, x: string, word: string, z: string)
    requires Trimmed(s) && Gap(x) && s == x + word + z
    ensures word <= s
  {
    assert s == x + (word + z);
    LeadingGap(x, word + z);
    assert x == "" && s == word + z;
  }

  lemma LeadingGap(x: string, rest: string)
    requires Gap(x)
    ensures x != "" ==> !Trimmed(x + rest)
  {
    if x != "" {
      assert (x + rest)[0] == ' ';
    }
  }

  lemma BeginsConstraint(s: string, word: string, c: Constraint)
    requires IsPrefix(c.op) && (word == Token(c.op) || word == Print(c)) && word <= s
    ensures ParseConstraint(s).Some? && s != ""
  {
    TokenTrimmed(c.op);
    assert Token(c.op) <= word;
    assert s[0] == Token(c.op)[0];
    assert |Token(c.op)| == 2 ==> s[1] == Token(c.op)[1];
  }

  lemma ClauseCommas(t: string, cl: Clause, gaps: Gaps)
    requires ClausePlain(cl) && WritesClause(t, cl, gaps, ' ')
    ensures Free(t, ',')
  {
    forall c | c in cl
      ensures Free(Print(c), ',')
    {
      ParsePrint(c);
    }
    ClauseFree(t, cl, gaps, ' ', ',');
  }

  // ----- evaluating the alternatives

  ghost predicate SomeSatisfied(version: string, cls: seq<Clause>) {
    exists cl :: cl in cls && AllSatisfied(version, cl)
  }

  lemma SomeSatisfiedStep(version: string, cls: seq<Clause>)
    requires cls != []
    ensures SomeSatisfied(version, cls) <==> AllSatisfied(version, cls[0]) || SomeSatisfied(version, cls[1..])
  {
    assert cls == [cls[0]] + cls[1..];
    if SomeSatisfied(version, cls) {
      var cl :| cl in cls && AllSatisfied(version, cl);
      assert cl == cls[0] || cl in cls[1..];
    }
    if SomeSatisfied(version, cls[1..]) {
      var cl :| cl in cls[1..] && AllSatisfied(version, cl);
      assert cl in cls;
    }
  }

  /** In a text with commas blanks separate nothing, so blank lists may have one constraint only,
    unless some alternative has none and all is satisfied anyway. */
  ghost predicate BlanksIdle(shape: seq<Layout>) {
    || (exists j :: 0 <= j < |shape| && shape[j].gaps == [])
    || forall i :: 0 <= i < |shape| ==> shape[i].commas || |shape[i].gaps| <= 1
  }

  lemma {:induction false} AnyHoldsComma(cls: seq<Clause>, shape: seq<Layout>, texts: seq<string>,
                                         alternatives: seq<string>, version: string)
    requires WritesEach(texts, cls, shape) && SameUpToBlanks(alternatives, texts)
    requires forall i :: 0 <= i < |shape| ==> shape[i].commas || |shape[i].gaps| <= 1
    ensures AnyHolds(alternatives, ',', version) == Ok(SomeSatisfied(version, cls))
  {
    if cls != [] {
      if !shape[0].commas {
        BlankAsSingle(texts[0], cls[0], shape[0].gaps);
      }
      CommaClause(texts[0], cls[0], shape[0].gaps, version);
      SomeSatisfiedStep(version, cls);
      AnyHoldsComma(cls[1..], shape[1..], texts[1..], alternatives[1..], version);
    }
  }

  /** Split at commas, whatever is written can be read, and no constraint is satisfied. */
  lemma ReadByComma(t: string, cl: Clause, layout: Layout, version: string)
    requires ClausePlain(cl) && WritesClause(t, cl, layout.gaps, layout.Delimiter())
    ensures Reading(t, ',', version).Ok?
    ensures cl == [] ==> Reading(t, ',', version) == Ok(true)
  {
    if layout.commas {
      CommaClause(t, cl, layout.gaps, version);
    } else if cl == [] {
      BlankAsSingle(t, cl, layout.gaps);
      CommaClause(t, cl, layout.gaps, version);
    } else {
      MisreadDoesNotRaise(t, cl, layout.gaps, version);
    }
  }

  /** Alternatives that can be read are passed until one holds. */
  lemma {:induction false} AnyHoldsReached(alternatives: seq<string>, texts: seq<string>, j: nat, version: string)
    requires SameUpToBlanks(alternatives, texts) && j < |texts|
    requires forall n :: 0 <= n < |texts| ==> Reading(texts[n], ',', version).Ok?
    requires Reading(texts[j], ',', version) == Ok(true)
    ensures AnyHolds(alternatives, ',', version) == Ok(true)
    decreases j
  {
    var first := Reading(texts[0], ',', version);
    SameReading(alternatives[0], texts[0], version);
    assert first.Ok?;
    if first.value {
      assert first == Ok(true);
    } else {
      assert first == Ok(false);
      AnyHoldsReached(alternatives[1..], texts[1..], j - 1, version);
    }
  }

  lemma SameReading(s: string, t: string, version: string)
    requires Strip(s) == Strip(t)
    ensures Reading(s, ',', version) == Reading(t, ',', version)
  {
  }

  /** An alternative without constraints is reached if no other holds. */
  lemma AnyHoldsEmpty(cls: seq<Clause>, shape: seq<Layout>, texts: seq<string>,
                      alternatives: seq<string>, j: nat, version: string)
    requires WritesEach(texts, cls, shape) && SameUpToBlanks(alternatives, texts)
    requires j < |cls| && cls[j] == []
    ensures AnyHolds(alternatives, ',', version) == Ok(true) && SomeSatisfied(version, cls)
  {
    forall n | 0 <= n < |texts|
      ensures Reading(texts[n], ',', version).Ok?
      ensures cls[n] == [] ==> Reading(texts[n], ',', version) == Ok(true)
    {
      ReadByComma(texts[n], cls[n], shape[n], version);
    }
    AnyHoldsReached(alternatives, texts, j, version);
    assert cls[j] in cls && AllSatisfied(version, cls[j]);
  }

  /** A gap comes only after an alternative without constraints. */
  ghost predicate GapsAfterEmpty(shape: seq<Layout>) {
    forall i :: 0 <= i < |shape| && !NoGap(shape[i].gaps) ==> exists j :: 0 <= j < i && shape[j].gaps == []
  }

  lemma GapsAfterEmptyTail(shape: seq<Layout>)
    requires GapsAfterEmpty(shape) && shape != [] && shape[0].gaps != []
    ensures GapsAfterEmpty(shape[1..])
  {
    var rest := shape[1..];
    forall i | 0 <= i < |rest| && !NoGap(rest[i].gaps)
      ensures exists j :: 0 <= j < i && rest[j].gaps == []
    {
      assert !NoGap(shape[i + 1].gaps);
      var j :| 0 <= j < i + 1 && shape[j].gaps == [];
      assert j > 0 && rest[j - 1].gaps == [];
    }
  }

  lemma {:induction false} AnyHoldsBlank(cls: seq<Clause>, shape: seq<Layout>, texts: seq<string>,
                                         alternatives: seq<string>, version: string)
    requires WritesEach(texts, cls, shape) && SameUpToBlanks(alternatives, texts) && GapsAfterEmpty(shape)
    requires !HasComma(shape)
    ensures AnyHolds(alternatives, ' ', version) == Ok(SomeSatisfied(version, cls))
  {
    if cls != [] {
      assert NoGap(shape[0].gaps);
      AsBlank(texts[0], cls[0], shape[0]);
      UngappedClause(texts[0], cls[0], shape[0].gaps, version);
      SomeSatisfiedStep(version, cls);
      if cls[0] != [] {
        GapsAfterEmptyTail(shape);
        AnyHoldsBlank(cls[1..], shape[1..], texts[1..], alternatives[1..], version);
      }
    }
  }

  lemma AsBlank(t: string, cl: Clause, layout: Layout)
    requires ClausePlain(cl) && WritesClause(t, cl, layout.gaps, layout.Delimiter())
    requires layout.commas ==> |layout.gaps| <= 1
    ensures WritesClause(t, cl, layout.gaps, ' ')
  {
    if layout.commas {
      SingleAsBlank(t, cl, layout.gaps);
    }
  }

  /** The text has a comma. */
  ghost predicate HasComma(shape: seq<Layout>) {
    exists i :: 0 <= i < |shape| && shape[i].commas && |shape[i].gaps| > 1
  }

  // ----- the whole text

  lemma PrefixFree(c: Constraint)
    requires IsPrefix(c.op) && Plain(c.version)
    ensures Free(Print(c), '[') && Free(Print(c), '(')
  {
    assert '[' !in Token(c.op) && '(' !in Token(c.op);
    assert '[' !in c.version && '(' !in c.version;
  }

  /** The characters of a written clause that matter to the whole text. */
  lemma ClauseOutside(t: string, cl: Clause, gaps: Gaps, d: char)
    requires ClausePlain(cl) && WritesClause(t, cl, gaps, d) && (d == ',' || d == ' ')
    ensures Free(t, '|') && Free(t, '[') && Free(t, '(')
    ensures ',' in t <==> d == ',' && |cl| > 1
  {
    forall c | c in cl
      ensures Free(Print(c), '|') && Free(Print(c), ',') && Free(Print(c), '[') && Free(Print(c), '(')
    {
      ParsePrint(c);
      PrefixFree(c);
    }
    ClauseFree(t, cl, gaps, d, '|');
    ClauseFree(t, cl, gaps, d, '[');
    ClauseFree(t, cl, gaps, d, '(');
    if d == ',' && |cl| > 1 {
      var parts :| WritesAs(t, cl, gaps, d, parts);
      assert t[|parts[0]|] == ',';
    } else {
      ClauseFree(t, cl, gaps, d, ',');
    }
  }

  lemma ClauseFree(t: string, cl: Clause, gaps: Gaps, d: char, ch: char)
    requires WritesClause(t, cl, gaps, d) && AllPlain(cl) && (d == ',' || d == ' ') && !IsSpace(ch)
    requires ch != d || |cl| <= 1
    requires forall c :: c in cl ==> Free(Print(c), ch)
    ensures Free(t, ch)
  {
    var parts :| WritesAs(t, cl, gaps, d, parts);
    StripKeeps(t, ch);
    if d == ' ' {
      WordsPlain(cl, gaps);
      forall p | p in parts
        ensures Free(p, ch)
      {
        assert p != "" ==> p in NonEmpty(parts);
      }
      JoinFree(parts, ' ', false, ch);
    } else if cl != [] {
      forall p | p in parts
        ensures Free(p, ch)
      {
        var k :| 0 <= k < |parts| && parts[k] == p;
        assert cl[k] in cl;
        WrittenFree(p, cl[k], gaps[k], ch);
      }
      if ch == ',' {
        assert parts[0] in parts;
      } else {
        JoinFree(parts, ',', false, ch);
      }
    }
  }

  /** What the whole text looks like from outside. */
  lemma TextOutside(cls: seq<Clause>, shape: seq<Layout>, texts: seq<string>)
    requires cls != [] && WritesEach(texts, cls, shape)
    ensures var s := Join(texts, '|', true);
            && Split(s, '|', true) == texts && Free(s, '[') && Free(s, '(')
            && (',' in s <==> HasComma(shape))
  {
    var s := Join(texts, '|', true);
    forall p | p in texts
      ensures Free(p, '|') && Free(p, '[') && Free(p, '(')
      ensures ',' in p ==> HasComma(shape)
    {
      var i :| 0 <= i < |texts| && texts[i] == p;
      ClauseOutside(p, cls[i], shape[i].gaps, shape[i].Delimiter());
      assert |shape[i].gaps| == |cls[i]|;
    }
    SplitJoin(texts, '|', true);
    JoinFree(texts, '|', true, '[');
    JoinFree(texts, '|', true, '(');
    if ',' in s {
      JoinChars(texts, '|', true, ',');
    }
    if HasComma(shape) {
      var i :| 0 <= i < |shape| && shape[i].commas && |shape[i].gaps| > 1;
      ClauseOutside(texts[i], cls[i], shape[i].gaps, ',');
      assert texts[i] in texts;
      PartInJoin(texts, '|', true, texts[i], ',');
    }
  }

  lemma {:induction false} PartInJoin(parts: seq<string>, c: char, doubled: bool, p: string, ch: char)
    requires p in parts && ch in p
    ensures ch in Join(parts, c, doubled)
  {
    if |parts| > 1 && p != parts[0] {
      assert p in parts[1..];
      PartInJoin(parts[1..], c, doubled, p, ch);
    }
  }

  lemma Unbracketed(s: string)
    requires Free(s, '[') && Free(s, '(')
    ensures Alternatives(Strip(s)) == Split(Strip(s), '|', true)
    ensures Delimiter(Strip(s)) == if ',' in s then ',' else ' '
  {
    StripKeeps(s, ',');
    StripKeeps(s, '[');
    StripKeeps(s, '(');
  }

  /** What the shape of a text must be for its blanks to do no harm.  Where there is a comma, no
    blank is a delimiter; where there is none, every blank is, so that no alternative with a gap
    may be reached. */
  ghost predicate Harmless(shape: seq<Layout>) {
    if HasComma(shape) then BlanksIdle(shape) else GapsAfterEmpty(shape)
  }

  /** GitLab's operator notation, with blanks around whatever is separated: satisfied exactly when
    some alternative holds throughout, in all harmless shapes. */
  lemma GitlabIsDisjunction(cls: seq<Clause>, shape: seq<Layout>, texts: seq<string>, version: string)
    requires cls != [] && WritesEach(texts, cls, shape) && Harmless(shape)
    ensures Gitlab(Join(texts, '|', true), version) == Ok(SomeSatisfied(version, cls))
  {
    var s := Join(texts, '|', true);
    TextOutside(cls, shape, texts);
    SplitStrip(s, '|', true);
    Unbracketed(s);
    var alternatives := Split(Strip(s), '|', true);
    if !HasComma(shape) {
      AnyHoldsBlank(cls, shape, texts, alternatives, version);
    } else if j :| 0 <= j < |shape| && shape[j].gaps == [] {
      AnyHoldsEmpty(cls, shape, texts, alternatives, j, version);
    } else {
      AnyHoldsComma(cls, shape, texts, alternatives, version);
    }
  }
}
