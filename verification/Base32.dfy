/** The custom base 32 of aboutcode/hashid/__init__.py and the vulnerability ids made of it.

  It differs from section 6 of RFC 4648 in its alphabet and in the last group: a short group
  is read as a small number and not filled up with zero bits on the right. */
module Base32 {

  type Byte = b: nat | b < 256

  /** The number a group of up to five bytes stands for: forty bits. */
  type Group = c: nat | c < 0x100_0000_0000

  /** No i, l, o and 0, which are easily confused. */
  const ALPHABET: string := "abcdefghjkmnpqrstuvwxyz123456789"

  /** The letter for a digit: four stretches of the Latin letters and then the digits 1 to 9. */
  function Letter(d: nat): char
    requires d < 32
  {
    if d < 8 then 'a' + d as char
    else if d < 10 then 'j' + (d - 8) as char
    else if d < 12 then 'm' + (d - 10) as char
    else if d < 23 then 'p' + (d - 12) as char
    else '1' + (d - 23) as char
  }

  /** That is the alphabet. */
  lemma AlphabetLetters()
    ensures |ALPHABET| == 32 && forall d :: 0 <= d < 32 ==> ALPHABET[d] == Letter(d)
  {
    FirstLetters();
    LastLetters();
  }

  lemma FirstLetters()
    ensures forall d :: 0 <= d < 16 ==> ALPHABET[d] == Letter(d)
  {
    var a := ALPHABET;
    assert a[0] == 'a' && a[1] == 'b' && a[2] == 'c' && a[3] == 'd' && a[4] == 'e' && a[5] == 'f'
           && a[6] == 'g' && a[7] == 'h' && a[8] == 'j' && a[9] == 'k' && a[10] == 'm' && a[11] == 'n'
           && a[12] == 'p' && a[13] == 'q' && a[14] == 'r' && a[15] == 's';
  }

  lemma LastLetters()
    ensures forall d :: 16 <= d < 32 ==> ALPHABET[d] == Letter(d)
  {
    var a := ALPHABET;
    assert a[16] == 't' && a[17] == 'u' && a[18] == 'v' && a[19] == 'w' && a[20] == 'x' && a[21] == 'y'
           && a[22] == 'z' && a[23] == '1' && a[24] == '2' && a[25] == '3' && a[26] == '4' && a[27] == '5'
           && a[28] == '6' && a[29] == '7' && a[30] == '8' && a[31] == '9';
  }

  predicate IsLetter(ch: char) {
    exists d :: 0 <= d < 32 && Letter(d) == ch
  }

  lemma LettersAreAlphabet(ch: char)
    ensures IsLetter(ch) <==> ch in ALPHABET
  {
    AlphabetLetters();
  }

  /** The table of all pairs of letters, first letter first. */
  function Table(): (t: seq<string>)
    ensures |t| == 1024
  {
    seq(1024, k requires 0 <= k < 1024 => Pair(k))
  }

  /** The table entry `k`: two letters. */
  function Pair(k: nat): (s: string)
    requires k < 1024
    ensures |s| == 2
  {
    [Letter(k / 32), Letter(k % 32)]
  }

  /** `int.from_bytes(..., "big")`. */
  function FromBytes(bytes: seq<Byte>): nat {
    if bytes == [] then 0 else FromBytes(bytes[..|bytes| - 1]) * 256 + bytes[|bytes| - 1]
  }

  function Power256(n: nat): nat {
    if n == 0 then 1 else 256 * Power256(n - 1)
  }

  lemma {:induction false} FromBytesBound(bytes: seq<Byte>)
    ensures FromBytes(bytes) < Power256(|bytes|)
  {
    if bytes != [] {
      FromBytesBound(bytes[..|bytes| - 1]);
    }
  }

  lemma SmallPowers(n: nat)
    requires n <= 5
    ensures Power256(n) <= 0x100_0000_0000
    ensures Power256(5) == 0x100_0000_0000 && Power256(6) == 0x1_0000_0000_0000
  {
    assert Power256(0) == 1;
    assert Power256(1) == 256;
    assert Power256(2) == 0x1_0000;
    assert Power256(3) == 0x100_0000;
    assert Power256(4) == 0x1_0000_0000;
    assert Power256(5) == 0x100_0000_0000;
  }

  function GroupValue(bytes: seq<Byte>): (c: Group)
    requires |bytes| <= 5
    ensures c == FromBytes(bytes)
  {
    FromBytesBound(bytes);
    SmallPowers(|bytes|);
    FromBytes(bytes)
  }

  /** The ten-bit table indices of a group: shifts and masks, as the loop writes them. */
  function Index1(c: Group): (k: nat)
    ensures k < 1024
  {
    c / 0x4000_0000
  }

  function Index2(c: Group): (k: nat)
    ensures k < 1024
  {
    c / 0x10_0000 % 0x400
  }

  function Index3(c: Group): (k: nat)
    ensures k < 1024
  {
    c / 0x400 % 0x400
  }

  function Index4(c: Group): (k: nat)
    ensures k < 1024
  {
    c % 0x400
  }

  /** Eight letters for forty bits, two at a time. */
  function EncodeGroup(c: Group): (r: string)
    ensures |r| == 8
  {
    Pair(Index1(c)) + Pair(Index2(c)) + Pair(Index3(c)) + Pair(Index4(c))
  }

  function Head(bytes: seq<Byte>): (h: seq<Byte>)
    ensures |h| <= 5
  {
    if |bytes| <= 5 then bytes else bytes[..5]
  }

  function Rest(bytes: seq<Byte>): (r: seq<Byte>)
    ensures bytes != [] ==> |r| < |bytes|
  {
    if |bytes| <= 5 then [] else bytes[5..]
  }

  function Groups(bytes: seq<Byte>): (r: seq<Group>)
    ensures |r| == (|bytes| + 4) / 5
    decreases |bytes|
  {
    if bytes == [] then [] else [GroupValue(Head(bytes))] + Groups(Rest(bytes))
  }

  function EncodeGroups(groups: seq<Group>): (r: string)
    ensures |r| == 8 * |groups|
  {
    if groups == [] then "" else EncodeGroup(groups[0]) + EncodeGroups(groups[1..])
  }

  function Encode(bytes: seq<Byte>): (r: string)
    ensures |r| == 8 * ((|bytes| + 4) / 5)
  {
    EncodeGroups(Groups(bytes))
  }

  lemma EncodeStep(bytes: seq<Byte>)
    requires bytes != []
    ensures Encode(bytes) == EncodeGroup(GroupValue(Head(bytes))) + Encode(Rest(bytes))
  {
    var c := GroupValue(Head(bytes));
    assert Groups(bytes) == [c] + Groups(Rest(bytes));
    assert Groups(bytes)[1..] == Groups(Rest(bytes));
  }

  function Drop(bytes: seq<Byte>, i: nat): seq<Byte> {
    if i <= |bytes| then bytes[i..] else []
  }

  lemma DropStep(bytes: seq<Byte>, i: nat, chunk: seq<Byte>)
    requires i < |bytes| && chunk == if i + 5 <= |bytes| then bytes[i..i + 5] else bytes[i..]
    ensures Encode(Drop(bytes, i)) == EncodeGroup(GroupValue(chunk)) + Encode(Drop(bytes, i + 5))
  {
    assert chunk == Head(Drop(bytes, i)) && Drop(bytes, i + 5) == Rest(Drop(bytes, i));
    EncodeStep(Drop(bytes, i));
  }

  /** Four look-ups in the table: the shifted number first, the masked ones after. */
  method LookUp(c: Group) returns (letters: string)
    ensures letters == EncodeGroup(c)
  {
    var table := Table();
    letters := table[c / 0x4000_0000] + table[c / 0x10_0000 % 0x400] + table[c / 0x400 % 0x400] + table[c % 0x400];
  }

  /** The loop. */
  method Base32Custom(bytes: seq<Byte>) returns (encoded: string)
    ensures encoded == Encode(bytes)
  {
    encoded := "";
    var i := 0;
    while i < |bytes|
      invariant encoded + Encode(Drop(bytes, i)) == Encode(bytes)
      decreases |bytes| - i
    {
      var chunk := if i + 5 <= |bytes| then bytes[i..i + 5] else bytes[i..];
      var letters := LookUp(GroupValue(chunk));
      DropStep(bytes, i, chunk);
      Associative(encoded, letters, Encode(Drop(bytes, i + 5)));
      encoded := encoded + letters;
      i := i + 5;
    }
    NothingLeft(bytes, i);
  }

  lemma Associative(a: string, b: string, c: string)
    ensures (a + b) + c == a + (b + c)
  {
  }

  lemma NothingLeft(bytes: seq<Byte>, i: nat)
    requires i >= |bytes|
    ensures Encode(Drop(bytes, i)) == ""
  {
  }

  // ----- shape

  /** Eight letters of the alphabet for every five bytes begun. */
  lemma EncodeShape(bytes: seq<Byte>)
    ensures |Encode(bytes)| == 8 * ((|bytes| + 4) / 5)
    ensures forall i :: 0 <= i < |Encode(bytes)| ==> Encode(bytes)[i] in ALPHABET
  {
    LettersOnly(Groups(bytes));
    forall i | 0 <= i < |Encode(bytes)|
      ensures Encode(bytes)[i] in ALPHABET
    {
      LettersAreAlphabet(Encode(bytes)[i]);
    }
  }

  ghost predicate AllLetters(s: string) {
    forall i :: 0 <= i < |s| ==> IsLetter(s[i])
  }

  lemma {:induction false} LettersOnly(groups: seq<Group>)
    ensures AllLetters(EncodeGroups(groups))
  {
    if groups != [] {
      LettersOnly(groups[1..]);
      GroupLetters(groups[0]);
      LettersConcat(EncodeGroup(groups[0]), EncodeGroups(groups[1..]));
    }
  }

  lemma LettersConcat(s: string, t: string)
    requires AllLetters(s) && AllLetters(t)
    ensures AllLetters(s + t)
  {
  }

  lemma GroupLetters(c: Group)
    ensures AllLetters(EncodeGroup(c))
  {
    PairLetters(Index1(c));
    PairLetters(Index2(c));
    PairLetters(Index3(c));
    PairLetters(Index4(c));
  }

  lemma PairLetters(k: nat)
    requires k < 1024
    ensures AllLetters(Pair(k))
  {
    assert Letter(k / 32) == Pair(k)[0] && Letter(k % 32) == Pair(k)[1];
  }

  // ----- the decoder

  /** The digit of a letter. */
  function Digit(ch: char): nat {
    if 'a' <= ch <= 'h' then (ch - 'a') as nat
    else if 'j' <= ch <= 'k' then 8 + (ch - 'j') as nat
    else if 'm' <= ch <= 'n' then 10 + (ch - 'm') as nat
    else if 'p' <= ch <= 'z' then 12 + (ch - 'p') as nat
    else if '1' <= ch <= '9' then 23 + (ch - '1') as nat
    else 0
  }

  lemma DigitOfLetter(d: nat)
    requires d < 32
    ensures Digit(Letter(d)) == d
  {
  }

  function DecodePair(s: string): nat
    requires |s| == 2
  {
    Digit(s[0]) * 32 + Digit(s[1])
  }

  lemma PairRoundTrip(k: nat)
    requires k < 1024
    ensures DecodePair(Pair(k)) == k
  {
    DigitOfLetter(k / 32);
    DigitOfLetter(k % 32);
  }

  /** Different indices, different pairs. */
  lemma PairInjective(j: nat, k: nat)
    requires j < 1024 && k < 1024
    ensures Pair(j) == Pair(k) <==> j == k
  {
    PairRoundTrip(j);
    PairRoundTrip(k);
  }

  function DecodeGroup(s: string): nat
    requires |s| == 8
  {
    DecodePair(s[..2]) * 0x4000_0000 + DecodePair(s[2..4]) * 0x10_0000 + DecodePair(s[4..6]) * 0x400
    + DecodePair(s[6..])
  }

  lemma GroupPairs(c: Group)
    ensures var r := EncodeGroup(c);
            && r[..2] == Pair(Index1(c)) && r[2..4] == Pair(Index2(c))
            && r[4..6] == Pair(Index3(c)) && r[6..] == Pair(Index4(c))
  {
  }

  lemma IndicesCompose(c: Group)
    ensures c == Index1(c) * 0x4000_0000 + Index2(c) * 0x10_0000 + Index3(c) * 0x400 + Index4(c)
    ensures c / 0x10_0000 == Index1(c) * 0x400 + Index2(c)
  {
    assert c / 0x10_0000 / 0x400 == c / 0x4000_0000;
    assert c / 0x400 / 0x400 == c / 0x10_0000;
  }

  lemma GroupRoundTrip(c: Group)
    ensures DecodeGroup(EncodeGroup(c)) == c
  {
    GroupPairs(c);
    IndicesCompose(c);
    PairRoundTrip(Index1(c));
    PairRoundTrip(Index2(c));
    PairRoundTrip(Index3(c));
    PairRoundTrip(Index4(c));
  }

  /** `n` bytes, most significant first. */
  function ToBytes(c: nat, n: nat): (r: seq<Byte>)
    ensures |r| == n
  {
    if n == 0 then [] else ToBytes(c / 256, n - 1) + [c % 256]
  }

  lemma {:induction false} BytesRoundTrip(bytes: seq<Byte>)
    ensures ToBytes(FromBytes(bytes), |bytes|) == bytes
  {
    if bytes != [] {
      BytesRoundTrip(bytes[..|bytes| - 1]);
      assert bytes == bytes[..|bytes| - 1] + [bytes[|bytes| - 1]];
    }
  }

  /** Decode the text of `n` bytes. */
  function Decode(s: string, n: nat): seq<Byte>
    requires |s| == 8 * ((n + 4) / 5)
  {
    if n == 0 then []
    else if n <= 5 then ToBytes(DecodeGroup(s), n)
    else ToBytes(DecodeGroup(s[..8]), 5) + Decode(s[8..], n - 5)
  }

  lemma DecodeStep(s: string, t: string, n: nat)
    requires n > 5 && |s| == 8 && |t| == 8 * ((n - 5 + 4) / 5)
    ensures |s + t| == 8 * ((n + 4) / 5)
    ensures Decode(s + t, n) == ToBytes(DecodeGroup(s), 5) + Decode(t, n - 5)
  {
    assert (s + t)[..8] == s && (s + t)[8..] == t;
  }

  lemma GroupBytes(bytes: seq<Byte>)
    requires |bytes| <= 5
    ensures ToBytes(DecodeGroup(EncodeGroup(GroupValue(bytes))), |bytes|) == bytes
  {
    GroupRoundTrip(GroupValue(bytes));
    BytesRoundTrip(bytes);
  }

  lemma OneGroupRoundTrip(bytes: seq<Byte>)
    requires 0 < |bytes| <= 5
    ensures Decode(Encode(bytes), |bytes|) == bytes
  {
    EncodeStep(bytes);
    NothingLeft([], 0);
    assert Encode(bytes) == EncodeGroup(GroupValue(bytes));
    GroupBytes(bytes);
  }

  /** The encoding loses nothing once the number of bytes is known. */
  lemma {:induction false} RoundTrip(bytes: seq<Byte>)
    ensures Decode(Encode(bytes), |bytes|) == bytes
    decreases |bytes|
  {
    if |bytes| > 5 {
      EncodeStep(bytes);
      GroupBytes(Head(bytes));
      RoundTrip(Rest(bytes));
      DecodeStep(EncodeGroup(GroupValue(Head(bytes))), Encode(Rest(bytes)), |bytes|);
      assert bytes == Head(bytes) + Rest(bytes);
    } else if bytes != [] {
      OneGroupRoundTrip(bytes);
    }
  }

  /** On inputs of one length the encoding is injective. */
  lemma InjectiveOnLength(xs: seq<Byte>, ys: seq<Byte>)
    requires |xs| == |ys|
    ensures Encode(xs) == Encode(ys) <==> xs == ys
  {
    RoundTrip(xs);
    RoundTrip(ys);
  }

  lemma {:induction false} EncodeGroupsInjective(gs: seq<Group>, hs: seq<Group>)
    requires EncodeGroups(gs) == EncodeGroups(hs)
    ensures gs == hs
  {
    assert |gs| == |hs|;
    if gs != [] {
      assert EncodeGroup(gs[0]) == EncodeGroups(gs)[..8];
      assert EncodeGroup(hs[0]) == EncodeGroups(hs)[..8];
      GroupRoundTrip(gs[0]);
      GroupRoundTrip(hs[0]);
      assert EncodeGroups(gs[1..]) == EncodeGroups(gs)[8..];
      assert EncodeGroups(hs[1..]) == EncodeGroups(hs)[8..];
      EncodeGroupsInjective(gs[1..], hs[1..]);
      assert gs == [gs[0]] + gs[1..] && hs == [hs[0]] + hs[1..];
    }
  }

  lemma EncodeEqualsGroups(xs: seq<Byte>, ys: seq<Byte>)
    ensures Encode(xs) == Encode(ys) <==> Groups(xs) == Groups(ys)
  {
    if Encode(xs) == Encode(ys) {
      EncodeGroupsInjective(Groups(xs), Groups(ys));
    }
  }

  function WithoutZeros(bytes: seq<Byte>): (r: seq<Byte>)
    ensures |r| <= |bytes| && (r != [] ==> r[0] != 0)
  {
    if bytes != [] && bytes[0] == 0 then WithoutZeros(bytes[1..]) else bytes
  }

  /** Where the last group begins. */
  function LastStart(bytes: seq<Byte>): (k: nat)
    ensures k <= |bytes|
  {
    if bytes == [] then 0 else (|bytes| - 1) / 5 * 5
  }

  /** As many groups, the same full groups, and last groups that differ in leading zero bytes only. */
  predicate SameUpToZeros(xs: seq<Byte>, ys: seq<Byte>) {
    && (|xs| + 4) / 5 == (|ys| + 4) / 5
    && xs[..LastStart(xs)] == ys[..LastStart(ys)]
    && WithoutZeros(xs[LastStart(xs)..]) == WithoutZeros(ys[LastStart(ys)..])
  }

  lemma {:induction false} ZerosAddNothing(bytes: seq<Byte>)
    ensures FromBytes(WithoutZeros(bytes)) == FromBytes(bytes)
  {
    if bytes != [] && bytes[0] == 0 {
      var zero: seq<Byte> := [0];
      ZerosAddNothing(bytes[1..]);
      FromBytesConcat(zero, bytes[1..]);
      assert FromBytes(zero) == 0;
      assert bytes == zero + bytes[1..];
    }
  }

  /** Without leading zeros, bytes are determined by the number they spell. */
  lemma {:induction false} DigitsUnique(xs: seq<Byte>, ys: seq<Byte>)
    requires (xs != [] ==> xs[0] != 0) && (ys != [] ==> ys[0] != 0)
    requires FromBytes(xs) == FromBytes(ys)
    ensures xs == ys
    decreases |xs| + |ys|
  {
    SpellsPositive(xs);
    SpellsPositive(ys);
    if xs != [] && ys != [] {
      var m, n := |xs| - 1, |ys| - 1;
      LastDigit(FromBytes(xs[..m]), xs[m], FromBytes(ys[..n]), ys[n]);
      DigitsUnique(xs[..m], ys[..n]);
      assert xs == xs[..m] + [xs[m]] && ys == ys[..n] + [ys[n]];
    }
  }

  lemma LastDigit(h: nat, d: Byte, h': nat, d': Byte)
    requires h * 256 + d == h' * 256 + d'
    ensures h == h' && d == d'
  {
  }

  lemma {:induction false} SpellsPositive(bytes: seq<Byte>)
    requires bytes != [] ==> bytes[0] != 0
    ensures FromBytes(bytes) == 0 <==> bytes == []
  {
    if |bytes| > 1 {
      SpellsPositive(bytes[..|bytes| - 1]);
    }
  }

  lemma SameNumber(xs: seq<Byte>, ys: seq<Byte>)
    ensures FromBytes(xs) == FromBytes(ys) <==> WithoutZeros(xs) == WithoutZeros(ys)
  {
    ZerosAddNothing(xs);
    ZerosAddNothing(ys);
    if FromBytes(xs) == FromBytes(ys) {
      DigitsUnique(WithoutZeros(xs), WithoutZeros(ys));
    }
  }

  /** Between lengths two inputs collide exactly when they have as many groups of five bytes, the
    full ones agree, and the last ones differ in leading zero bytes only. */
  lemma {:induction false} CollisionsExactly(xs: seq<Byte>, ys: seq<Byte>)
    ensures Encode(xs) == Encode(ys) <==> SameUpToZeros(xs, ys)
    decreases |xs|
  {
    EncodeEqualsGroups(xs, ys);
    if |xs| > 5 && |ys| > 5 {
      EncodeEqualsGroups(Rest(xs), Rest(ys));
      CollisionsExactly(Rest(xs), Rest(ys));
      FullGroups(xs[..5], ys[..5]);
      LaterGroups(xs, ys);
    } else if |xs| <= 5 && |ys| <= 5 {
      SameNumber(xs, ys);
      assert xs[..0] == ys[..0] && xs[0..] == xs && ys[0..] == ys;
      assert Groups(xs) == if xs == [] then [] else [GroupValue(xs)];
      assert Groups(ys) == if ys == [] then [] else [GroupValue(ys)];
    }
  }

  lemma FullGroups(xs: seq<Byte>, ys: seq<Byte>)
    requires |xs| == 5 && |ys| == 5
    ensures GroupValue(xs) == GroupValue(ys) <==> xs == ys
  {
    BytesRoundTrip(xs);
    BytesRoundTrip(ys);
  }

  lemma LaterGroups(xs: seq<Byte>, ys: seq<Byte>)
    requires |xs| > 5 && |ys| > 5
    ensures SameUpToZeros(xs, ys) <==> xs[..5] == ys[..5] && SameUpToZeros(Rest(xs), Rest(ys))
  {
    var k, m := LastStart(Rest(xs)), LastStart(Rest(ys));
    assert LastStart(xs) == 5 + k && LastStart(ys) == 5 + m;
    assert xs[..5 + k] == xs[..5] + Rest(xs)[..k] && ys[..5 + m] == ys[..5] + Rest(ys)[..m];
    assert xs[5 + k..] == Rest(xs)[k..] && ys[5 + m..] == Rest(ys)[m..];
    if xs[..5 + k] == ys[..5 + m] {
      assert xs[..5] == xs[..5 + k][..5] && ys[..5] == ys[..5 + m][..5];
      assert Rest(xs)[..k] == xs[..5 + k][5..] && Rest(ys)[..m] == ys[..5 + m][5..];
    }
  }

  /** A leading zero byte in the last group is invisible. */
  lemma CollisionExample()
    ensures Encode([0]) == Encode([0, 0])
  {
    var zero: seq<Byte>, zeros: seq<Byte> := [0], [0, 0];
    assert zero[0..] == zero && zeros[0..] == zeros && zeros[1..] == zero && zero[1..] == [];
    assert WithoutZeros(zero) == [] && WithoutZeros(zeros) == [];
    CollisionsExactly(zero, zeros);
  }

  // ----- vulnerability ids

  type Uuid = u: seq<Byte> | |u| == 16 witness seq(16, _ => 0)

  function Lower(s: string): (r: string)
    ensures |r| == |s|
  {
    seq(|s|, i requires 0 <= i < |s| => LowerLetter(s[i]))
  }

  function LowerLetter(ch: char): char {
    if 'A' <= ch <= 'Z' then ch - 'A' + 'a' else ch
  }

  /** The prefix and three segments of four letters. */
  function Segments(prefix: string, u: string): string
    requires |u| == 12
  {
    prefix + "-" + u[..4] + "-" + u[4..8] + "-" + u[8..12]
  }

  /** `build_vcid` for the drawn `uid`. */
  function BuildVcid(prefix: string, uid: Uuid): string {
    Segments(prefix, Lower(Encode(uid)[..12]))
  }

  /** The first sixty bits of the 128. */
  function TopBits(uid: Uuid): nat {
    FromBytes(uid) / 0x10_0000_0000_0000_0000
  }

  lemma LowerKeepsLetters(s: string)
    requires forall i :: 0 <= i < |s| ==> s[i] in ALPHABET
    ensures Lower(s) == s
  {
    forall i | 0 <= i < |s|
      ensures Lower(s)[i] == s[i]
    {
      LettersAreAlphabet(s[i]);
      var d :| 0 <= d < 32 && Letter(d) == s[i];
    }
  }

  lemma {:induction false} FromBytesConcat(xs: seq<Byte>, ys: seq<Byte>)
    ensures FromBytes(xs + ys) == FromBytes(xs) * Power256(|ys|) + FromBytes(ys)
  {
    if ys == [] {
      assert xs + ys == xs;
    } else {
      var init := ys[..|ys| - 1];
      FromBytesConcat(xs, init);
      assert (xs + ys)[..|xs + ys| - 1] == xs + init;
      assert FromBytes(xs + ys) == FromBytes(xs + init) * 256 + ys[|ys| - 1];
      ShiftByte(FromBytes(xs), Power256(|init|), FromBytes(init), ys[|ys| - 1]);
    }
  }

  lemma ShiftByte(x: nat, p: nat, i: nat, b: nat)
    ensures (x * p + i) * 256 + b == x * (256 * p) + (i * 256 + b)
  {
  }

  /** The sixty bits are the first group and half of the second. */
  lemma TopBitsSplit(uid: Uuid)
    ensures TopBits(uid) == GroupValue(uid[..5]) * 0x10_0000 + GroupValue(uid[5..10]) / 0x10_0000
  {
    var g, h, rest := FromBytes(uid[..5]), FromBytes(uid[5..10]), FromBytes(uid[10..]);
    FromBytesConcat(uid[..5], uid[5..10] + uid[10..]);
    FromBytesConcat(uid[5..10], uid[10..]);
    assert uid == uid[..5] + (uid[5..10] + uid[10..]);
    FromBytesBound(uid[10..]);
    SmallPowers(5);
    assert Power256(8) == 256 * (256 * Power256(6));
    assert Power256(11) == 256 * (256 * (256 * Power256(8)));
    assert FromBytes(uid) == g * 0x100_0000_0000_0000_0000_0000 + h * 0x1_0000_0000_0000 + rest;
  }

  lemma FirstTwelve(uid: Uuid)
    ensures Encode(uid)[..12] == EncodeGroup(GroupValue(uid[..5])) + EncodeGroup(GroupValue(uid[5..10]))[..4]
  {
    EncodeStep(uid);
    assert uid[5..][..5] == uid[5..10];
    EncodeStep(uid[5..]);
  }

  /** Four letters determine the twenty bits above them. */
  lemma HalfGroup(h: Group, k: Group)
    ensures EncodeGroup(h)[..4] == EncodeGroup(k)[..4] <==> h / 0x10_0000 == k / 0x10_0000
  {
    HalfPairs(h);
    HalfPairs(k);
    IndicesCompose(h);
    IndicesCompose(k);
    PairInjective(Index1(h), Index1(k));
    PairInjective(Index2(h), Index2(k));
    ConcatInjective(Pair(Index1(h)), Pair(Index2(h)), Pair(Index1(k)), Pair(Index2(k)));
  }

  lemma HalfPairs(h: Group)
    ensures EncodeGroup(h)[..4] == Pair(Index1(h)) + Pair(Index2(h))
  {
  }

  lemma ConcatInjective(a: string, b: string, c: string, d: string)
    requires |a| == |c|
    ensures a + b == c + d <==> a == c && b == d
  {
    if a + b == c + d {
      assert a == (a + b)[..|a|] && c == (c + d)[..|a|];
      assert b == (a + b)[|a|..] && d == (c + d)[|a|..];
    }
  }

  lemma TwelveEqualExactly(uid: Uuid, uid': Uuid)
    ensures Encode(uid)[..12] == Encode(uid')[..12]
       <==> GroupValue(uid[..5]) == GroupValue(uid'[..5])
            && GroupValue(uid[5..10]) / 0x10_0000 == GroupValue(uid'[5..10]) / 0x10_0000
  {
    var g, h := GroupValue(uid[..5]), GroupValue(uid[5..10]);
    var g', h' := GroupValue(uid'[..5]), GroupValue(uid'[5..10]);
    FirstTwelve(uid);
    FirstTwelve(uid');
    ConcatInjective(EncodeGroup(g), EncodeGroup(h)[..4], EncodeGroup(g'), EncodeGroup(h')[..4]);
    GroupRoundTrip(g);
    GroupRoundTrip(g');
    HalfGroup(h, h');
  }

  lemma SplitUnique(g: nat, h: nat, g': nat, h': nat)
    requires h < 0x10_0000 && h' < 0x10_0000
    ensures g * 0x10_0000 + h == g' * 0x10_0000 + h' <==> g == g' && h == h'
  {
  }

  lemma TopBitsEqualExactly(uid: Uuid, uid': Uuid)
    ensures TopBits(uid) == TopBits(uid')
       <==> GroupValue(uid[..5]) == GroupValue(uid'[..5])
            && GroupValue(uid[5..10]) / 0x10_0000 == GroupValue(uid'[5..10]) / 0x10_0000
  {
    TopBitsSplit(uid);
    TopBitsSplit(uid');
    SplitUnique(GroupValue(uid[..5]), GroupValue(uid[5..10]) / 0x10_0000,
                GroupValue(uid'[..5]), GroupValue(uid'[5..10]) / 0x10_0000);
  }

  /** Two vulnerability ids are equal exactly when their prefixes and the first sixty bits of
    their UUIDs are. */
  lemma VcidsEqualExactly(prefix: string, uid: Uuid, prefix': string, uid': Uuid)
    ensures BuildVcid(prefix, uid) == BuildVcid(prefix', uid')
       <==> prefix == prefix' && TopBits(uid) == TopBits(uid')
  {
    VcidLetters(uid);
    VcidLetters(uid');
    SegmentsInjective(prefix, Encode(uid)[..12], prefix', Encode(uid')[..12]);
    TwelveEqualExactly(uid, uid');
    TopBitsEqualExactly(uid, uid');
  }

  /** The number that letters spell, first letter first. */
  function FromLetters(s: string): nat {
    if s == "" then 0 else FromLetters(s[..|s| - 1]) * 32 + Digit(s[|s| - 1])
  }

  lemma TwoMoreLetters(s: string, k: nat)
    requires k < 1024
    ensures FromLetters(s + Pair(k)) == FromLetters(s) * 1024 + k
  {
    var t := s + Pair(k);
    DigitOfLetter(k / 32);
    DigitOfLetter(k % 32);
    assert t[..|s| + 1] == s + [Letter(k / 32)] && t[..|s| + 1][..|s|] == s;
    assert FromLetters(t) == FromLetters(t[..|s| + 1]) * 32 + k % 32;
    assert FromLetters(t[..|s| + 1]) == FromLetters(s) * 32 + k / 32;
  }

  /** Eight letters spell the forty bits of a group, the first four its upper twenty. */
  lemma GroupSpells(s: string, c: Group)
    ensures FromLetters(s + EncodeGroup(c)) == FromLetters(s) * 0x100_0000_0000 + c
    ensures FromLetters(s + EncodeGroup(c)[..4]) == FromLetters(s) * 0x10_0000 + c / 0x10_0000
  {
    var a := s + Pair(Index1(c));
    var b := a + Pair(Index2(c));
    var d := b + Pair(Index3(c));
    TwoMoreLetters(s, Index1(c));
    TwoMoreLetters(a, Index2(c));
    TwoMoreLetters(b, Index3(c));
    TwoMoreLetters(d, Index4(c));
    IndicesCompose(c);
    assert s + EncodeGroup(c) == d + Pair(Index4(c));
    HalfPairs(c);
    assert s + EncodeGroup(c)[..4] == b;
  }

  /** What an id looks like: the prefix and, behind a dash each, three segments of four letters of
    the alphabet; the twelve letters in order spell the first sixty bits of the UUID. */
  lemma VcidSpells(prefix: string, uid: Uuid)
    ensures var id, n := BuildVcid(prefix, uid), |prefix|;
            && |id| == n + 15 && id[..n] == prefix && id[n] == id[n + 5] == id[n + 10] == '-'
            && var letters := id[n + 1..n + 5] + id[n + 6..n + 10] + id[n + 11..];
               && (forall ch :: ch in letters ==> ch in ALPHABET)
               && FromLetters(letters) == TopBits(uid)
  {
    var id, n, u := BuildVcid(prefix, uid), |prefix|, Encode(uid)[..12];
    var g, h := GroupValue(uid[..5]), GroupValue(uid[5..10]);
    VcidLetters(uid);
    SegmentsAre(prefix, u);
    FirstTwelve(uid);
    GroupSpells("", g);
    assert "" + EncodeGroup(g) == EncodeGroup(g);
    GroupSpells(EncodeGroup(g), h);
    TopBitsSplit(uid);
    EncodeShape(uid);
    assert forall ch :: ch in u ==> ch in Encode(uid);
  }

  lemma SegmentsAre(prefix: string, u: string)
    requires |u| == 12
    ensures var id, n := Segments(prefix, u), |prefix|;
            && |id| == n + 15 && id[..n] == prefix && id[n] == id[n + 5] == id[n + 10] == '-'
            && id[n + 1..n + 5] + id[n + 6..n + 10] + id[n + 11..] == u
  {
    var id, n := Segments(prefix, u), |prefix|;
    assert id[n + 1..n + 5] == u[..4] && id[n + 6..n + 10] == u[4..8] && id[n + 11..] == u[8..12];
    assert u == u[..4] + u[4..8] + u[8..12];
  }

  lemma VcidLetters(uid: Uuid)
    ensures Lower(Encode(uid)[..12]) == Encode(uid)[..12]
  {
    EncodeShape(uid);
    LowerKeepsLetters(Encode(uid)[..12]);
  }

  lemma SegmentsInjective(prefix: string, u: string, prefix': string, u': string)
    requires |u| == |u'| == 12
    ensures Segments(prefix, u) == Segments(prefix', u') <==> prefix == prefix' && u == u'
  {
    var s, s' := Segments(prefix, u), Segments(prefix', u');
    if s == s' {
      var n := |prefix|;
      assert |s| == n + 15 && |s'| == |prefix'| + 15;
      assert s[..n] == prefix && s'[..n] == prefix';
      assert s[n + 1..n + 5] == u[..4] && s'[n + 1..n + 5] == u'[..4];
      assert s[n + 6..n + 10] == u[4..8] && s'[n + 6..n + 10] == u'[4..8];
      assert s[n + 11..n + 15] == u[8..12] && s'[n + 11..n + 15] == u'[8..12];
      assert u == u[..4] + u[4..8] + u[8..12] && u' == u'[..4] + u'[4..8] + u'[8..12];
    }
  }

  /** The documented example: four bytes 61 62 63 64. */
  lemma DocumentedExample()
    ensures Encode([0x61, 0x62, 0x63, 0x64]) == "abtze25e"
  {
    var bytes: seq<Byte> := [0x61, 0x62, 0x63, 0x64];
    EncodeStep(bytes);
    NothingLeft([], 0);
    FourBytes(bytes);
    assert GroupValue(Head(bytes)) == 0x61626364;
    ExampleGroup();
  }

  lemma ExampleGroup()
    ensures EncodeGroup(0x61626364) == "abtze25e"
  {
    assert Index1(0x61626364) == 1 && Index2(0x61626364) == 534;
    assert Index3(0x61626364) == 152 && Index4(0x61626364) == 868;
    ExamplePairs();
  }

  lemma ExamplePairs()
    ensures Pair(1) == "ab" && Pair(534) == "tz" && Pair(152) == "e2" && Pair(868) == "5e"
  {
    assert Pair(1) == ['a', 'b'] && Pair(534) == ['t', 'z'];
    assert Pair(152) == ['e', '2'] && Pair(868) == ['5', 'e'];
  }

  lemma FourBytes(bytes: seq<Byte>)
    requires |bytes| == 4
    ensures FromBytes(bytes) == ((FromBytes([bytes[0]]) * 256 + bytes[1]) * 256 + bytes[2]) * 256 + bytes[3]
    ensures FromBytes([bytes[0]]) == bytes[0]
  {
    var three, two, one := bytes[..3], bytes[..2], bytes[..1];
    assert three[..2] == two && two[..1] == one && one == [bytes[0]];
    assert FromBytes(two) == FromBytes(one) * 256 + bytes[1];
    assert FromBytes(three) == FromBytes(two) * 256 + bytes[2];
    assert FromBytes(bytes) == FromBytes(three) * 256 + bytes[3];
  }
}
