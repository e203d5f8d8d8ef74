/** The version constraint languages of vulntotal/vulntotal_utils.py: parsed, split into
  alternatives, and evaluated. */
module Constraints {
  import opened Options
  import opened Text
  import opened GenericVersions

  /** The comparators; the brackets come from interval notation. */
  datatype Op = Lt | Gt | Eq | Le | Ge | EqEq | Ne | CloseParen | CloseBracket | OpenParen | OpenBracket

  datatype Constraint = Constraint(op: Op, version: string)

  // ----- what a constraint means

  /** `compare`, with Python's reflected `>` and `>=`. */
  ghost predicate Holds(v: Version, op: Op, w: Version) {
    match op
    case Lt | CloseParen => Less(v, w)
    case Le | CloseBracket => Less(v, w) || Equal(v, w)
    case Gt | OpenParen => Less(w, v)
    case Ge | OpenBracket => Less(w, v) || Equal(w, v)
    case Eq | EqEq => Equal(v, w)
    case Ne => !Equal(v, w)
  }

  /** The comparators fit together: complements, mirror images, and brackets as the comparisons
    they stand for, for any two versions. */
  lemma ComparatorLaws(v: Version, w: Version)
    ensures Holds(v, Lt, w) <==> !Holds(v, Ge, w)
    ensures Holds(v, Gt, w) <==> !Holds(v, Le, w)
    ensures Holds(v, Ne, w) <==> !Holds(v, Eq, w)
    ensures Holds(v, Lt, w) <==> Holds(w, Gt, v)
    ensures Holds(v, Le, w) <==> Holds(w, Ge, v)
    ensures Holds(v, Eq, w) <==> Holds(v, Le, w) && Holds(v, Ge, w)
    ensures Holds(v, Lt, w) ==> Holds(v, Le, w) && Holds(v, Ne, w)
    ensures Holds(v, CloseParen, w) <==> Holds(v, Lt, w)
    ensures Holds(v, CloseBracket, w) <==> Holds(v, Le, w)
    ensures Holds(v, OpenParen, w) <==> Holds(v, Gt, w)
    ensures Holds(v, OpenBracket, w) <==> Holds(v, Ge, w)
    ensures Holds(v, EqEq, w) <==> Holds(v, Eq, w)
    ensures Holds(v, Lt, w) ==> Less(v, w)
  {
    VersionTrichotomy(v, w);
  }

  /** A constraint without version always holds. */
  ghost predicate Satisfied(version: string, c: Constraint) {
    c.version == "" || Holds(Decompose(version), c.op, Decompose(c.version))
  }

  method CompareVersions(v: Version, op: Op, w: Version) returns (r: bool)
    ensures r <==> Holds(v, op, w)
  {
    match op
    case Lt | CloseParen =>
      r := VersionLess(v, w);
    case Gt | OpenParen =>
      r := VersionLess(w, v);
    case Le | CloseBracket =>
      r := VersionLess(v, w);
      if !r { r := VersionEqual(v, w); }
    case Ge | OpenBracket =>
      r := VersionLess(w, v);
      if !r { r := VersionEqual(w, v); }
    case Eq | EqEq =>
      r := VersionEqual(v, w);
    case Ne =>
      r := VersionEqual(v, w);
      r := !r;
  }

  // ----- parsing one constraint

  /** `parse_constraint`: two-character comparators first, then one-character prefixes, then
    closing brackets; anything else has no result, and unpacking that raises. */
  function ParseConstraint(s: string): Option<Constraint> {
    if |s| >= 2 && s[1] == '=' && s[0] in "<>=!" then
      Some(Constraint(if s[0] == '<' then Le else if s[0] == '>' then Ge else if s[0] == '=' then EqEq else Ne, s[2..]))
    else if s != "" && s[0] == '<' then Some(Constraint(Lt, s[1..]))
    else if s != "" && s[0] == '>' then Some(Constraint(Gt, s[1..]))
    else if s != "" && s[0] == '=' then Some(Constraint(Eq, s[1..]))
    else if s != "" && s[0] == '[' then Some(Constraint(OpenBracket, s[1..]))
    else if s != "" && s[0] == '(' then Some(Constraint(OpenParen, s[1..]))
    else if s != "" && s[|s| - 1] == ']' then Some(Constraint(CloseBracket, s[..|s| - 1]))
    else if s != "" && s[|s| - 1] == ')' then Some(Constraint(CloseParen, s[..|s| - 1]))
    else None
  }

  // ----- evaluation

  /** A comma list that must hold throughout.  `lenient` is GitLab's reading: pieces are
    stripped and empty ones skipped. */
  ghost function AllHold(subs: seq<string>, version: string, lenient: bool): Result<bool, string> {
    if subs == [] then Ok(true)
    else if lenient && subs[0] == "" then AllHold(subs[1..], version, lenient)
    else
      match ParseConstraint(if lenient then Strip(subs[0]) else subs[0])
      case None => Raise("TypeError")
      case Some(c) => if Satisfied(version, c) then AllHold(subs[1..], version, lenient) else Ok(false)
  }

  /** One alternative: stripped, then split at the delimiter. */
  ghost function Reading(t: string, delimiter: char, version: string): Result<bool, string> {
    AllHold(Split(Strip(t), delimiter, false), version, true)
  }

  /** The alternatives, left to right; the first that holds decides. */
  ghost function AnyHolds(alternatives: seq<string>, delimiter: char, version: string): Result<bool, string> {
    if alternatives == [] then Ok(false)
    else
      var first := Reading(alternatives[0], delimiter, version);
      if first == Ok(false) then AnyHolds(alternatives[1..], delimiter, version) else first
  }

  /** `[f"{a},{b}" for a, b in zip(splitted[::2], splitted[1::2])]`: a piece left over is dropped. */
  function PairUp(pieces: seq<string>): seq<string> {
    if |pieces| < 2 then [] else [pieces[0] + "," + pieces[1]] + PairUp(pieces[2..])
  }

  predicate StartsInterval(s: string) {
    s != "" && (s[0] == '[' || s[0] == '(')
  }

  function Alternatives(s: string): seq<string> {
    if StartsInterval(s) then PairUp(Split(s, ',', false)) else Split(s, '|', true)
  }

  function Delimiter(s: string): char {
    if StartsInterval(s) || ',' in s then ',' else ' '
  }

  ghost function Gitlab(constraint: string, version: string): Result<bool, string> {
    var s := Strip(constraint);
    AnyHolds(Alternatives(s), Delimiter(s), version)
  }

  ghost function Github(constraint: string, version: string): Result<bool, string> {
    AllHold(Split(RemoveBlanks(Strip(constraint)), ',', false), version, false)
  }

  /** The inner loop, with its `is_constraint_satisfied` flag. */
  method CheckAll(subs: seq<string>, version: string, lenient: bool) returns (r: Result<bool, string>)
    ensures r == AllHold(subs, version, lenient)
  {
    var satisfied := true;
    var n := 0;
    while n < |subs|
      invariant n <= |subs| && satisfied
      invariant AllHold(subs[n..], version, lenient) == AllHold(subs, version, lenient)
    {
      assert subs[n..][0] == subs[n] && subs[n..][1..] == subs[n + 1..];
      if lenient && subs[n] == "" {
        n := n + 1;
        continue;
      }
      var parsed := ParseConstraint(if lenient then Strip(subs[n]) else subs[n]);
      if parsed.None? {
        return Raise("TypeError");
      }
      if parsed.value.version != "" {
        var holds := CompareVersions(Decompose(version), parsed.value.op, Decompose(parsed.value.version));
        if !holds {
          satisfied := false;
          break;
        }
      }
      n := n + 1;
    }
    return Ok(satisfied);
  }

  method GitlabConstraintsSatisfied(constraint: string, version: string) returns (r: Result<bool, string>)
    ensures r == Gitlab(constraint, version)
  {
    var s := Strip(constraint);
    var alternatives, delimiter := Alternatives(s), Delimiter(s);
    var n := 0;
    while n < |alternatives|
      invariant n <= |alternatives|
      invariant AnyHolds(alternatives[n..], delimiter, version) == AnyHolds(alternatives, delimiter, version)
    {
      assert alternatives[n..][0] == alternatives[n] && alternatives[n..][1..] == alternatives[n + 1..];
      var one := CheckAll(Split(Strip(alternatives[n]), delimiter, false), version, true);
      if one != Ok(false) {
        return one;
      }
      n := n + 1;
    }
    return Ok(false);
  }

  /** Also the body of the Snyk evaluator, which is the same code. */
  method GithubConstraintsSatisfied(constraint: string, version: string) returns (r: Result<bool, string>)
    ensures r == Github(constraint, version)
  {
    r := CheckAll(Split(RemoveBlanks(Strip(constraint)), ',', false), version, false);
  }

  // ----- printing

  /** Version text that uses none of the notation's own characters. */
  predicate Plain(s: string) {
    forall i :: 0 <= i < |s| ==> !IsSpace(s[i]) && s[i] !in ",|<>=!()[]"
  }

  /** A comparator written in front of its version. */
  predicate IsPrefix(op: Op) {
    op == Lt || op == Gt || op == Eq || op == Le || op == Ge || op == EqEq || op == Ne
  }

  function Token(op: Op): string {
    match op
    case Lt => "<"
    case Gt => ">"
    case Eq => "="
    case Le => "<="
    case Ge => ">="
    case EqEq => "=="
    case Ne => "!="
    case CloseParen => ")"
    case CloseBracket => "]"
    case OpenParen => "("
    case OpenBracket => "["
  }

  function Print(c: Constraint): string {
    if c.op == CloseParen || c.op == CloseBracket then c.version + Token(c.op) else Token(c.op) + c.version
  }

  /** Parsing undoes printing. */
  lemma ParsePrint(c: Constraint)
    requires Plain(c.version)
    ensures ParseConstraint(Print(c)) == Some(c)
    ensures Trimmed(Print(c)) && Print(c) != "" && Free(Print(c), ',') && Free(Print(c), '|') && Free(Print(c), ' ')
  {
    assert PrintGap(c, "") == Print(c);
    ParseGap(c, "");
    assert "" + c.version == c.version && c.version + "" == c.version;
    PrintTrimmed(c);
    PrintFree(c);
  }

  /** The symbols, one by one. */
  lemma ParseReadsSymbols(v: string)
    requires Plain(v)
    ensures ParseConstraint("<" + v) == Some(Constraint(Lt, v)) && ParseConstraint("<=" + v) == Some(Constraint(Le, v))
    ensures ParseConstraint(">" + v) == Some(Constraint(Gt, v)) && ParseConstraint(">=" + v) == Some(Constraint(Ge, v))
    ensures ParseConstraint("=" + v) == Some(Constraint(Eq, v))
    ensures ParseConstraint("==" + v) == Some(Constraint(EqEq, v))
    ensures ParseConstraint("!=" + v) == Some(Constraint(Ne, v))
    ensures ParseConstraint("[" + v) == Some(Constraint(OpenBracket, v))
    ensures ParseConstraint("(" + v) == Some(Constraint(OpenParen, v))
    ensures ParseConstraint(v + "]") == Some(Constraint(CloseBracket, v))
    ensures ParseConstraint(v + ")") == Some(Constraint(CloseParen, v))
  {
    ReadsToken(Constraint(Lt, v), "<");
    ReadsToken(Constraint(Le, v), "<=");
    ReadsToken(Constraint(Gt, v), ">");
    ReadsToken(Constraint(Ge, v), ">=");
    ReadsToken(Constraint(Eq, v), "=");
    ReadsToken(Constraint(EqEq, v), "==");
    ReadsToken(Constraint(Ne, v), "!=");
    ReadsToken(Constraint(OpenBracket, v), "[");
    ReadsToken(Constraint(OpenParen, v), "(");
    ReadsToken(Constraint(CloseBracket, v), "]");
    ReadsToken(Constraint(CloseParen, v), ")");
  }

  lemma ReadsToken(c: Constraint, token: string)
    requires Plain(c.version) && token == Token(c.op)
    ensures c.op == CloseParen || c.op == CloseBracket ==> ParseConstraint(c.version + token) == Some(c)
    ensures c.op != CloseParen && c.op != CloseBracket ==> ParseConstraint(token + c.version) == Some(c)
  {
    ParsePrint(c);
  }

  lemma PrintFree(c: Constraint)
    requires Plain(c.version)
    ensures Free(Print(c), ',') && Free(Print(c), '|') && Free(Print(c), ' ')
  {
    PlainFree(c.version);
    assert ',' !in Token(c.op) && '|' !in Token(c.op) && ' ' !in Token(c.op);
  }

  lemma PrintTrimmed(c: Constraint)
    requires Plain(c.version)
    ensures Trimmed(Print(c))
  {
    var s, v, t := Print(c), c.version, Token(c.op);
    assert !IsSpace(t[0]) && !IsSpace(t[|t| - 1]);
    assert s[0] == t[0] || s[0] == v[0];
    assert s[|s| - 1] == t[|t| - 1] || s[|s| - 1] == v[|v| - 1];
  }

  lemma PlainFree(v: string)
    requires Plain(v)
    ensures Free(v, ',') && Free(v, '|') && Free(v, ' ')
  {
  }

  function PrintAll(cs: seq<Constraint>): (r: seq<string>)
    ensures |r| == |cs| && forall i :: 0 <= i < |cs| ==> r[i] == Print(cs[i])
  {
    if cs == [] then [] else [Print(cs[0])] + PrintAll(cs[1..])
  }

  ghost predicate AllPlain(cs: seq<Constraint>) {
    forall c :: c in cs ==> Plain(c.version)
  }

  ghost predicate AllSatisfied(version: string, cs: seq<Constraint>) {
    forall c :: c in cs ==> Satisfied(version, c)
  }

  /** Evaluating printed constraints without GitLab's lenience is evaluating the constraints. */
  lemma {:induction false} AllHoldPrinted(cs: seq<Constraint>, version: string)
    requires AllPlain(cs)
    ensures AllHold(PrintAll(cs), version, false) == Ok(AllSatisfied(version, cs))
  {
    if cs != [] {
      var c, rest := cs[0], cs[1..];
      assert c in cs && cs == [c] + rest;
      assert PrintAll(cs)[0] == Print(c) && PrintAll(cs)[1..] == PrintAll(rest);
      ParsePrint(c);
      AllHoldPrinted(rest, version);
      assert AllSatisfied(version, cs) <==> Satisfied(version, c) && AllSatisfied(version, rest);
    }
  }

  lemma PrintedPieces(cs: seq<Constraint>)
    requires AllPlain(cs)
    ensures forall p :: p in PrintAll(cs) ==>
                          Trimmed(p) && p != "" && Free(p, ',') && Free(p, '|') && Free(p, ' ')
  {
    forall p | p in PrintAll(cs)
      ensures Trimmed(p) && p != "" && Free(p, ',') && Free(p, '|') && Free(p, ' ')
    {
      var i :| 0 <= i < |cs| && PrintAll(cs)[i] == p;
      assert cs[i] in cs;
      ParsePrint(cs[i]);
    }
  }

  /** GitHub's notation, with blanks anywhere: the conjunction of the constraints. */
  lemma GithubIsConjunction(cs: seq<Constraint>, text: string, version: string)
    requires cs != [] && AllPlain(cs)
    requires RemoveBlanks(Strip(text)) == Join(PrintAll(cs), ',', false)
    ensures Github(text, version) == Ok(AllSatisfied(version, cs))
  {
    PrintedPieces(cs);
    SplitJoin(PrintAll(cs), ',', false);
    AllHoldPrinted(cs, version);
  }

  ghost predicate Passes(piece: string, version: string) {
    var c := ParseConstraint(piece);
    c.Some? && Satisfied(version, c.value)
  }

  /** GitHub's notation on any pieces, empty ones and other white space included: all must pass,
    and the first that does not decides between false and a type error. */
  lemma GithubDecides(pieces: seq<string>, text: string, version: string)
    requires pieces != [] && forall p :: p in pieces ==> Free(p, ',')
    requires RemoveBlanks(Strip(text)) == Join(pieces, ',', false)
    ensures Github(text, version) == Ok(true) <==> forall p :: p in pieces ==> Passes(p, version)
    ensures forall k :: 0 <= k < |pieces| && !Passes(pieces[k], version)
                        && (forall j :: 0 <= j < k ==> Passes(pieces[j], version)) ==>
                          Github(text, version)
                          == if ParseConstraint(pieces[k]).None? then Raise("TypeError") else Ok(false)
  {
    SplitJoin(pieces, ',', false);
    forall k: nat | k < |pieces| && !Passes(pieces[k], version) && PassBefore(pieces, k, version)
      ensures AllHold(pieces, version, false)
           == if ParseConstraint(pieces[k]).None? then Raise("TypeError") else Ok(false)
    {
      PassingSkipped(pieces, k, version);
    }
    var k := FirstFailing(pieces, version);
    PassingSkipped(pieces, k, version);
    if k < |pieces| {
      assert pieces[k] in pieces;
    }
  }

  ghost predicate PassBefore(pieces: seq<string>, k: nat, version: string)
    requires k <= |pieces|
  {
    forall j :: 0 <= j < k ==> Passes(pieces[j], version)
  }

  lemma {:induction false} PassingSkipped(pieces: seq<string>, k: nat, version: string)
    requires k <= |pieces| && PassBefore(pieces, k, version)
    ensures AllHold(pieces, version, false) == AllHold(pieces[k..], version, false)
  {
    if k == 0 {
      assert pieces[0..] == pieces;
    } else {
      PassingSkipped(pieces, k - 1, version);
      assert pieces[k - 1..][0] == pieces[k - 1] && pieces[k - 1..][1..] == pieces[k..];
    }
  }

  lemma FirstFailing(pieces: seq<string>, version: string) returns (k: nat)
    ensures k <= |pieces| && PassBefore(pieces, k, version)
    ensures k < |pieces| ==> !Passes(pieces[k], version)
  {
    k := 0;
    while k < |pieces| && Passes(pieces[k], version)
      invariant k <= |pieces| && PassBefore(pieces, k, version)
    {
      k := k + 1;
    }
  }

  // ----- writing with blanks

  /** Blanks between comparator and version, which the version drops. */
  predicate Gap(s: string) {
    forall i :: 0 <= i < |s| ==> s[i] == ' '
  }

  function PrintGap(c: Constraint, gap: string): string {
    if c.op == CloseParen || c.op == CloseBracket then c.version + gap + Token(c.op)
    else Token(c.op) + gap + c.version
  }

  /** `t` writes `c`, with blanks around it or not; `gapped` says whether there are blanks between
    comparator and version too. */
  ghost predicate Writes(t: string, c: Constraint, gapped: bool) {
    exists gap :: WritesWith(t, c, gapped, gap)
  }

  ghost predicate WritesWith(t: string, c: Constraint, gapped: bool, gap: string) {
    && Gap(gap) && (gapped <==> gap != "") && (gapped ==> c.version != "")
    && Strip(t) == PrintGap(c, gap)
  }

  ghost predicate WritesAll(ts: seq<string>, cs: seq<Constraint>, gaps: seq<bool>) {
    && |ts| == |cs| == |gaps|
    && forall k :: 0 <= k < |cs| ==> Writes(ts[k], cs[k], gaps[k])
  }

  lemma PrintedWrites(c: Constraint)
    requires Plain(c.version)
    ensures Writes(Print(c), c, false)
  {
    ParsePrint(c);
    StripTrimmed(Print(c));
    assert PrintGap(c, "") == Print(c);
    assert WritesWith(Print(c), c, false, "");
  }

  /** What GitLab's reading makes of `t` is a constraint with the meaning of `c`. */
  ghost predicate ReadsAs(t: string, c: Constraint, version: string) {
    var read := ParseConstraint(Strip(t));
    Strip(t) != "" && read.Some? && (Satisfied(version, read.value) <==> Satisfied(version, c))
  }

  lemma WrittenReads(t: string, c: Constraint, gapped: bool, version: string)
    requires Plain(c.version) && Writes(t, c, gapped)
    ensures ReadsAs(t, c, version)
  {
    var gap :| WritesWith(t, c, gapped, gap);
    var wide := GapVersion(c, gap);
    ParseGap(c, gap);
    DecomposeGap(c.version, gap);
    assert wide.version == "" <==> c.version == "";
  }

  /** The constraint with the gap as part of its version. */
  function GapVersion(c: Constraint, gap: string): Constraint {
    Constraint(c.op, if c.op == CloseParen || c.op == CloseBracket then c.version + gap else gap + c.version)
  }

  lemma ParseGap(c: Constraint, gap: string)
    requires Plain(c.version) && Gap(gap) && (gap != "" ==> c.version != "")
    ensures ParseConstraint(PrintGap(c, gap)) == Some(GapVersion(c, gap))
  {
    var v := c.version;
    assert v != "" ==> v[0] !in ",|<>=!()[]";
    if c.op == CloseParen || c.op == CloseBracket {
      ParseCloser(c.op, v + gap);
    } else {
      assert PrintGap(c, gap) == Token(c.op) + (gap + v);
      ParseToken(c.op, gap + v);
    }
  }

  lemma ParseCloser(op: Op, rest: string)
    requires (op == CloseParen || op == CloseBracket) && (rest != "" ==> rest[0] !in "<>=!([")
    ensures ParseConstraint(rest + Token(op)) == Some(Constraint(op, rest))
  {
    var s := rest + Token(op);
    assert s[..|s| - 1] == rest;
    assert rest != "" ==> s[0] == rest[0];
  }

  lemma ParseToken(op: Op, rest: string)
    requires op != CloseParen && op != CloseBracket && (rest != "" ==> rest[0] != '=')
    ensures ParseConstraint(Token(op) + rest) == Some(Constraint(op, rest))
  {
    var s := Token(op) + rest;
    if |Token(op)| == 2 {
      assert s[2..] == rest;
    } else {
      assert s[1..] == rest;
      assert |s| >= 2 ==> s[1] == rest[0];
    }
  }

  lemma DecomposeGap(v: string, gap: string)
    requires Gap(gap)
    ensures Decompose(gap + v) == Decompose(v) && Decompose(v + gap) == Decompose(v)
  {
    RemoveBlanksConcat(gap, v);
    RemoveBlanksConcat(v, gap);
    GapVanishes(gap);
    assert "" + RemoveBlanks(v) == RemoveBlanks(v) && RemoveBlanks(v) + "" == RemoveBlanks(v);
  }

  lemma {:induction false} GapVanishes(gap: string)
    requires Gap(gap)
    ensures RemoveBlanks(gap) == ""
  {
    if gap != "" {
      GapVanishes(gap[1..]);
    }
  }

  /** GitLab's reading of written constraints is their conjunction. */
  lemma {:induction false} AllHoldReads(cs: seq<Constraint>, subs: seq<string>, version: string)
    requires |subs| == |cs| && forall k :: 0 <= k < |cs| ==> ReadsAs(subs[k], cs[k], version)
    ensures AllHold(subs, version, true) == Ok(AllSatisfied(version, cs))
  {
    if cs != [] {
      var c, rest := cs[0], cs[1..];
      assert ReadsAs(subs[0], c, version);
      OneReads(c, subs, version);
      AllHoldReads(rest, subs[1..], version);
      SatisfiedInParts(version, cs);
    }
  }

  lemma SatisfiedInParts(version: string, cs: seq<Constraint>)
    requires cs != []
    ensures AllSatisfied(version, cs) <==> Satisfied(version, cs[0]) && AllSatisfied(version, cs[1..])
  {
    assert cs[0] in cs && cs == [cs[0]] + cs[1..];
  }

  lemma OneReads(c: Constraint, subs: seq<string>, version: string)
    requires subs != [] && ReadsAs(subs[0], c, version)
    ensures AllHold(subs, version, true)
         == if Satisfied(version, c) then AllHold(subs[1..], version, true) else Ok(false)
  {
    assert Strip("") == "";
  }

  /** A character that is not blank is in a written constraint only if it is in the printed one. */
  lemma WrittenFree(t: string, c: Constraint, gapped: bool, ch: char)
    requires Writes(t, c, gapped) && !IsSpace(ch) && Free(Print(c), ch)
    ensures Free(t, ch)
  {
    var gap :| WritesWith(t, c, gapped, gap);
    StripKeeps(t, ch);
    assert ch in c.version || ch in Token(c.op) ==> ch in Print(c);
  }

  /** Texts that are joined by commas come apart at the commas, blanks at the ends aside. */
  lemma CommaPieces(parts: seq<string>)
    requires parts != [] && forall p :: p in parts ==> Free(p, ',')
    ensures SameUpToBlanks(Split(Strip(Join(parts, ',', false)), ',', false), parts)
  {
    SplitJoin(parts, ',', false);
    SplitStrip(Join(parts, ',', false), ',', false);
  }

  lemma CommasOutside(cs: seq<Constraint>, parts: seq<string>, gaps: seq<bool>)
    requires AllPlain(cs) && WritesAll(parts, cs, gaps)
    ensures forall p :: p in parts ==> Free(p, ',')
  {
    forall p | p in parts
      ensures Free(p, ',')
    {
      var k :| 0 <= k < |parts| && parts[k] == p;
      assert cs[k] in cs;
      CommaOutside(p, cs[k], gaps[k]);
    }
  }

  lemma CommaOutside(t: string, c: Constraint, gapped: bool)
    requires Plain(c.version) && Writes(t, c, gapped)
    ensures Free(t, ',')
  {
    ParsePrint(c);
    WrittenFree(t, c, gapped, ',');
  }

  /** A comma list of written constraints is evaluated as their conjunction. */
  lemma CommaListEvaluates(cs: seq<Constraint>, parts: seq<string>, gaps: seq<bool>, version: string)
    requires cs != [] && AllPlain(cs) && WritesAll(parts, cs, gaps)
    ensures Reading(Join(parts, ',', false), ',', version)
         == Ok(AllSatisfied(version, cs))
  {
    CommasOutside(cs, parts, gaps);
    CommaPieces(parts);
    var subs := Split(Strip(Join(parts, ',', false)), ',', false);
    forall k | 0 <= k < |cs|
      ensures ReadsAs(subs[k], cs[k], version)
    {
      assert cs[k] in cs;
      WrittenReads(parts[k], cs[k], gaps[k], version);
    }
    AllHoldReads(cs, subs, version);
  }

  /** A version without comparator is no constraint: both evaluators raise. */
  lemma BareVersionRaises(s: string, version: string)
    requires Plain(s) && s != ""
    ensures Gitlab(s, version) == Raise("TypeError") && Github(s, version) == Raise("TypeError")
  {
    assert s[0] !in ",|<>=!()[]" && s[|s| - 1] !in ",|<>=!()[]";
    PlainFree(s);
    StripTrimmed(s);
    RemoveBlanksNothing(s);
    SplitWhole(s, '|', true);
    SplitWhole(s, ' ', false);
    SplitWhole(s, ',', false);
    assert ParseConstraint(s) == None;
  }
}
