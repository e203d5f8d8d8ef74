/** The string operations the version and constraint parsers are made of. */
module Text {

  /** What `strip` removes: ASCII blanks and separators, and the blanks of Unicode. */
  predicate IsSpace(ch: char) {
    || ch == ' ' || '\t' <= ch <= '\r' || '\U{1c}' <= ch <= '\U{1f}'
    || ch == '\U{85}' || ch == '\U{a0}' || ch == '\U{1680}' || '\U{2000}' <= ch <= '\U{200a}'
    || ch == '\U{2028}' || ch == '\U{2029}' || ch == '\U{202f}' || ch == '\U{205f}' || ch == '\U{3000}'
  }

  /** The same by code points. */
  lemma SpacesAre(ch: char)
    ensures IsSpace(ch)
       <==> var n := ch as int;
            || 9 <= n <= 13 || 28 <= n <= 32 || n == 133 || n == 160 || n == 5760 || 8192 <= n <= 8202
            || n == 8232 || n == 8233 || n == 8239 || n == 8287 || n == 12288
  {
  }

  function LeftStrip(s: string): string {
    if s != "" && IsSpace(s[0]) then LeftStrip(s[1..]) else s
  }

  function RightStrip(s: string): string {
    if s != "" && IsSpace(s[|s| - 1]) then RightStrip(s[..|s| - 1]) else s
  }

  /** `s.strip()`. */
  function Strip(s: string): string {
    RightStrip(LeftStrip(s))
  }

  /** `s.replace(" ", "")`. */
  function RemoveBlanks(s: string): string {
    if s == "" then "" else (if s[0] == ' ' then "" else [s[0]]) + RemoveBlanks(s[1..])
  }

  /** `s.split(c)`, and where `doubled`, `s.split(cc)`: the pieces between separators, of which
    there is always at least one. */
  function Split(s: string, c: char, doubled: bool): (r: seq<string>)
    ensures |r| >= 1
  {
    if s == "" then [""]
    else if !doubled && s[0] == c then [""] + Split(s[1..], c, doubled)
    else if doubled && |s| >= 2 && s[0] == c && s[1] == c then [""] + Split(s[2..], c, doubled)
    else
      var rest := Split(s[1..], c, doubled);
      [[s[0]] + rest[0]] + rest[1..]
  }

  function Separator(c: char, doubled: bool): string {
    if doubled then [c, c] else [c]
  }

  /** The separator is `c` once or twice. */
  lemma SeparatorIs(c: char)
    ensures Separator(c, false) == [c] && Separator(c, true) == [c, c]
  {
  }

  /** `sep.join(parts)`. */
  function Join(parts: seq<string>, c: char, doubled: bool): string {
    if parts == [] then ""
    else if |parts| == 1 then parts[0]
    else parts[0] + Separator(c, doubled) + Join(parts[1..], c, doubled)
  }

  lemma JoinCons(part: string, rest: seq<string>, c: char, doubled: bool)
    requires rest != []
    ensures Join([part] + rest, c, doubled) == part + Separator(c, doubled) + Join(rest, c, doubled)
  {
    assert ([part] + rest)[1..] == rest;
  }

  predicate Free(s: string, c: char) {
    c !in s
  }

  lemma {:induction false} SplitPiece(s: string, t: string, c: char, doubled: bool)
    requires Free(s, c)
    ensures Split(s + Separator(c, doubled) + t, c, doubled) == [s] + Split(t, c, doubled)
    decreases |s|
  {
    var whole := s + Separator(c, doubled) + t;
    if s == "" {
      if doubled {
        assert whole[2..] == t;
      } else {
        assert whole[1..] == t;
      }
    } else {
      assert s[0] in s;
      assert whole[1..] == s[1..] + Separator(c, doubled) + t;
      SplitPiece(s[1..], t, c, doubled);
      assert [s[0]] + s[1..] == s;
    }
  }

  lemma {:induction false} SplitWhole(s: string, c: char, doubled: bool)
    requires Free(s, c)
    ensures Split(s, c, doubled) == [s]
  {
    if s != "" {
      assert s[0] in s;
      SplitWhole(s[1..], c, doubled);
      assert [s[0]] + s[1..] == s;
    }
  }

  /** Splitting undoes joining. */
  lemma {:induction false} SplitJoin(parts: seq<string>, c: char, doubled: bool)
    requires parts != [] && forall p :: p in parts ==> Free(p, c)
    ensures Split(Join(parts, c, doubled), c, doubled) == parts
  {
    assert parts[0] in parts;
    if |parts| == 1 {
      SplitWhole(parts[0], c, doubled);
    } else {
      SplitJoin(parts[1..], c, doubled);
      SplitPiece(parts[0], Join(parts[1..], c, doubled), c, doubled);
      assert parts == [parts[0]] + parts[1..];
    }
  }

  /** Every character of a joined text is the separator or comes from a part. */
  lemma {:induction false} JoinChars(parts: seq<string>, c: char, doubled: bool, d: char)
    requires d in Join(parts, c, doubled)
    ensures d == c || exists p :: p in parts && d in p
  {
    if |parts| > 1 {
      var rest := Join(parts[1..], c, doubled);
      if d !in parts[0] && d !in Separator(c, doubled) {
        assert d in rest;
        JoinChars(parts[1..], c, doubled, d);
      }
    }
  }

  lemma JoinFree(parts: seq<string>, c: char, doubled: bool, d: char)
    requires c != d && forall p :: p in parts ==> Free(p, d)
    ensures Free(Join(parts, c, doubled), d)
  {
    if d in Join(parts, c, doubled) {
      JoinChars(parts, c, doubled, d);
    }
  }

  /** Nothing to strip. */
  predicate Trimmed(s: string) {
    s == "" || (!IsSpace(s[0]) && !IsSpace(s[|s| - 1]))
  }

  lemma StripTrimmed(s: string)
    requires Trimmed(s)
    ensures Strip(s) == s
  {
  }

  lemma {:induction false} JoinTrimmed(parts: seq<string>, c: char, doubled: bool)
    requires forall p :: p in parts ==> Trimmed(p) && (IsSpace(c) ==> p != "")
    ensures Trimmed(Join(parts, c, doubled))
    ensures parts != [] && IsSpace(c) ==> Join(parts, c, doubled) != ""
  {
    if |parts| > 0 {
      assert parts[0] in parts;
    }
    if |parts| > 1 {
      JoinTrimmed(parts[1..], c, doubled);
    }
  }

  predicate Blank(s: string) {
    forall i :: 0 <= i < |s| ==> IsSpace(s[i])
  }

  lemma {:induction false} LeftStripPad(x: string, t: string)
    requires Blank(x)
    ensures LeftStrip(x + t) == LeftStrip(t)
  {
    if x == "" {
      assert x + t == t;
    } else {
      LeftStripPad(x[1..], t);
      assert (x + t)[1..] == x[1..] + t;
    }
  }

  lemma {:induction false} RightStripPad(t: string, y: string)
    requires Blank(y)
    ensures RightStrip(t + y) == RightStrip(t)
  {
    if y == "" {
      assert t + y == t;
    } else {
      var last := |y| - 1;
      RightStripPad(t, y[..last]);
      assert (t + y)[..|t| + last] == t + y[..last];
    }
  }

  lemma {:induction false} LeftStripSplits(s: string) returns (x: string)
    ensures Blank(x) && s == x + LeftStrip(s)
    ensures LeftStrip(s) == "" || !IsSpace(LeftStrip(s)[0])
  {
    x := "";
    if s != "" && IsSpace(s[0]) {
      var rest := LeftStripSplits(s[1..]);
      x := [s[0]] + rest;
      assert s == [s[0]] + s[1..];
    }
  }

  lemma {:induction false} RightStripSplits(s: string) returns (y: string)
    ensures Blank(y) && s == RightStrip(s) + y
    ensures RightStrip(s) == "" || !IsSpace(RightStrip(s)[|RightStrip(s)| - 1])
  {
    y := "";
    if s != "" && IsSpace(s[|s| - 1]) {
      var rest := RightStripSplits(s[..|s| - 1]);
      y := rest + [s[|s| - 1]];
      assert s == s[..|s| - 1] + [s[|s| - 1]];
    }
  }

  /** A text is what stripping leaves, with blanks around. */
  lemma StripSplits(s: string) returns (x: string, y: string)
    ensures Blank(x) && Blank(y) && s == x + Strip(s) + y && Trimmed(Strip(s))
  {
    x := LeftStripSplits(s);
    y := RightStripSplits(LeftStrip(s));
    assert Strip(s) != "" ==> Strip(s)[0] == LeftStrip(s)[0];
  }

  /** Blanks around a text make no difference to `strip`. */
  lemma StripPad(x: string, t: string, y: string)
    requires Blank(x) && Blank(y)
    ensures Strip(x + t + y) == Strip(t)
  {
    var core := LeftStrip(t);
    var p := LeftStripSplits(t);
    assert x + t + y == (x + p) + (core + y);
    LeftStripPad(x + p, core + y);
    if core == "" {
      assert core + y == y && y + "" == y;
      LeftStripPad(y, "");
    } else {
      RightStripPad(core, y);
    }
  }

  lemma StripKeeps(s: string, ch: char)
    requires !IsSpace(ch)
    ensures ch in Strip(s) <==> ch in s
  {
    var x, y := StripSplits(s);
  }

  function OntoFirst(x: string, pieces: seq<string>): (r: seq<string>)
    requires pieces != []
    ensures |r| == |pieces|
  {
    [x + pieces[0]] + pieces[1..]
  }

  function OntoLast(pieces: seq<string>, y: string): (r: seq<string>)
    requires pieces != []
    ensures |r| == |pieces|
  {
    pieces[..|pieces| - 1] + [pieces[|pieces| - 1] + y]
  }

  lemma OntoBoth(x: string, pieces: seq<string>, y: string)
    requires pieces != []
    ensures OntoLast(OntoFirst(x, pieces), y) == OntoFirst(x, OntoLast(pieces, y))
    ensures OntoLast([x] + pieces, y) == [x] + OntoLast(pieces, y)
  {
    if |pieces| == 1 {
      assert (x + pieces[0]) + y == x + (pieces[0] + y);
    }
  }

  /** A character at which no separator begins stays with the first piece. */
  lemma SplitLetter(ch: char, t: string, c: char, doubled: bool)
    requires ch != c || (doubled && (t == "" || t[0] != c))
    ensures Split([ch] + t, c, doubled) == OntoFirst([ch], Split(t, c, doubled))
  {
    assert ([ch] + t)[1..] == t;
  }

  lemma {:induction false} SplitPrefix(x: string, t: string, c: char, doubled: bool)
    requires Free(x, c)
    ensures Split(x + t, c, doubled) == OntoFirst(x, Split(t, c, doubled))
  {
    if x == "" {
      assert x + t == t && x + Split(t, c, doubled)[0] == Split(t, c, doubled)[0];
    } else {
      var rest := x[1..];
      assert x[0] in x;
      SplitPrefix(rest, t, c, doubled);
      assert x + t == [x[0]] + (rest + t);
      SplitLetter(x[0], rest + t, c, doubled);
      assert [x[0]] + (rest + Split(t, c, doubled)[0]) == x + Split(t, c, doubled)[0];
    }
  }

  /** A separator begins the text. */
  lemma SplitCut(t: string, c: char, doubled: bool)
    ensures Split(Separator(c, doubled) + t, c, doubled) == [""] + Split(t, c, doubled)
  {
    SplitPiece("", t, c, doubled);
    assert "" + Separator(c, doubled) + t == Separator(c, doubled) + t;
  }

  lemma {:induction false} SplitSuffix(t: string, y: string, c: char, doubled: bool)
    requires Free(y, c)
    ensures Split(t + y, c, doubled) == OntoLast(Split(t, c, doubled), y)
    decreases |t|
  {
    var cut := Separator(c, doubled);
    if t == "" {
      assert t + y == y && "" + y == y;
      SplitWhole(y, c, doubled);
    } else if cut <= t {
      var rest := t[|cut|..];
      SplitSuffix(rest, y, c, doubled);
      assert t == cut + rest && t + y == cut + (rest + y);
      SplitCut(rest, c, doubled);
      SplitCut(rest + y, c, doubled);
      OntoBoth("", Split(rest, c, doubled), y);
    } else {
      var rest := t[1..];
      SplitSuffix(rest, y, c, doubled);
      LetterStays(t, y, c, doubled);
      OntoBoth([t[0]], Split(rest, c, doubled), y);
    }
  }

  lemma LetterStays(t: string, y: string, c: char, doubled: bool)
    requires Free(y, c) && t != "" && !(Separator(c, doubled) <= t)
    ensures Split(t, c, doubled) == OntoFirst([t[0]], Split(t[1..], c, doubled))
    ensures Split(t + y, c, doubled) == OntoFirst([t[0]], Split(t[1..] + y, c, doubled))
  {
    var rest := t[1..];
    assert t + y == [t[0]] + (rest + y) && t == [t[0]] + rest;
    assert rest == "" && y != "" ==> y[0] in y;
    assert t[0] == c ==> doubled && (rest == "" || rest[0] != c);
    SplitLetter(t[0], rest + y, c, doubled);
    SplitLetter(t[0], rest, c, doubled);
  }

  /** Position by position the same text, blanks around it aside. */
  predicate SameUpToBlanks(xs: seq<string>, ys: seq<string>) {
    |xs| == |ys| && forall i :: 0 <= i < |xs| ==> Strip(xs[i]) == Strip(ys[i])
  }

  lemma BlanksOntoFirst(x: string, pieces: seq<string>)
    requires Blank(x) && pieces != []
    ensures SameUpToBlanks(pieces, OntoFirst(x, pieces))
  {
    StripPad(x, pieces[0], "");
    assert x + pieces[0] + "" == x + pieces[0];
  }

  lemma BlanksOntoLast(pieces: seq<string>, y: string)
    requires Blank(y) && pieces != []
    ensures SameUpToBlanks(pieces, OntoLast(pieces, y))
  {
    var last := pieces[|pieces| - 1];
    StripPad("", last, y);
    assert "" + last + y == last + y;
  }

  /** Stripping before splitting changes the pieces by blanks only. */
  lemma SplitStrip(s: string, c: char, doubled: bool)
    requires !IsSpace(c)
    ensures SameUpToBlanks(Split(Strip(s), c, doubled), Split(s, c, doubled))
  {
    var x, y := StripSplits(s);
    var t := Strip(s);
    assert s == x + (t + y);
    SplitSuffix(t, y, c, doubled);
    SplitPrefix(x, t + y, c, doubled);
    BlanksOntoLast(Split(t, c, doubled), y);
    BlanksOntoFirst(x, Split(t + y, c, doubled));
  }

  lemma {:induction false} RemoveBlanksConcat(s: string, t: string)
    ensures RemoveBlanks(s + t) == RemoveBlanks(s) + RemoveBlanks(t)
  {
    if s == "" {
      assert s + t == t;
    } else {
      var rest := s[1..];
      var head := if s[0] == ' ' then "" else [s[0]];
      RemoveBlanksConcat(rest, t);
      assert (s + t)[1..] == rest + t;
      assert head + (RemoveBlanks(rest) + RemoveBlanks(t)) == (head + RemoveBlanks(rest)) + RemoveBlanks(t);
    }
  }

  /** Joining undoes splitting. */
  lemma {:induction false} JoinSplit(s: string, c: char)
    ensures Join(Split(s, c, false), c, false) == s
  {
    if s != "" {
      var rest := Split(s[1..], c, false);
      JoinSplit(s[1..], c);
      assert s == [s[0]] + s[1..];
      if s[0] == c {
        JoinCons("", rest, c, false);
      } else if |rest| > 1 {
        assert ([[s[0]] + rest[0]] + rest[1..])[1..] == rest[1..];
        JoinCons([s[0]] + rest[0], rest[1..], c, false);
        JoinCons(rest[0], rest[1..], c, false);
        assert rest == [rest[0]] + rest[1..];
      }
    }
  }

  /** No blank is left, and a text without blanks is left alone. */
  lemma {:induction false} RemoveBlanksFree(s: string)
    ensures Free(RemoveBlanks(s), ' ')
  {
    if s != "" {
      RemoveBlanksFree(s[1..]);
    }
  }

  lemma {:induction false} RemoveBlanksNothing(s: string)
    requires Free(s, ' ')
    ensures RemoveBlanks(s) == s
  {
    if s != "" {
      RemoveBlanksNothing(s[1..]);
      assert s == [s[0]] + s[1..];
    }
  }
}
