/** `GenericVersion` of vulntotal/vulntotal_utils.py: dotted versions compared component by
  component over their common prefix. */
module GenericVersions {
  import opened Text

  type Version = seq<string>

  // ----- parsing

  function StripV(s: string): string {
    if s != "" && (s[0] == 'v' || s[0] == 'V') then StripV(s[1..]) else s
  }

  /** The constructor: no blanks, no leading v, split at the dots. */
  function Decompose(value: string): Version {
    Split(StripV(RemoveBlanks(value)), '.', false)
  }

  /** A component as it can be written between dots. */
  predicate PlainComponent(s: string) {
    Free(s, '.') && Free(s, ' ')
  }

  /** Decomposing undoes joining with dots, whatever v and V stand in front. */
  lemma DecomposeJoined(a: Version, prefix: string)
    requires a != [] && (forall c :: c in a ==> PlainComponent(c))
    requires a[0] != "" ==> a[0][0] != 'v' && a[0][0] != 'V'
    requires forall i :: 0 <= i < |prefix| ==> prefix[i] == 'v' || prefix[i] == 'V'
    ensures Decompose(prefix + Join(a, '.', false)) == a
  {
    var s := Join(a, '.', false);
    JoinFree(a, '.', false, ' ');
    RemoveBlanksNothing(prefix + s);
    SplitJoin(a, '.', false);
    assert s != "" ==> s[0] == if a[0] != "" then a[0][0] else '.';
    StripVAll(prefix, s);
  }

  lemma {:induction false} StripVAll(prefix: string, s: string)
    requires forall i :: 0 <= i < |prefix| ==> prefix[i] == 'v' || prefix[i] == 'V'
    requires s != "" ==> s[0] != 'v' && s[0] != 'V'
    ensures StripV(prefix + s) == s
  {
    if prefix == "" {
      assert prefix + s == s;
    } else {
      StripVAll(prefix[1..], s);
      assert (prefix + s)[1..] == prefix[1..] + s;
    }
  }

  // ----- components

  predicate IsDigit(ch: char) {
    '0' <= ch <= '9'
  }

  predicate IsNumeric(s: string) {
    s != "" && forall i :: 0 <= i < |s| ==> IsDigit(s[i])
  }

  function IntOf(s: string): nat
    requires forall i :: 0 <= i < |s| ==> IsDigit(s[i])
  {
    if s == "" then 0
    else
      assert IsDigit(s[|s| - 1]);
      IntOf(s[..|s| - 1]) * 10 + (s[|s| - 1] - '0') as nat
  }

  /** A number in decimal, without leading zeros. */
  function Decimal(n: nat): (s: string)
    ensures s != ""
  {
    if n < 10 then [DigitChar(n)] else Decimal(n / 10) + [DigitChar(n % 10)]
  }

  function DigitChar(d: nat): char
    requires d < 10
  {
    "0123456789"[d]
  }

  /** `int` undoes printing in decimal. */
  lemma {:induction false} IntOfDecimal(n: nat)
    ensures IsNumeric(Decimal(n)) && IntOf(Decimal(n)) == n
  {
    var s := Decimal(n);
    if n >= 10 {
      IntOfDecimal(n / 10);
      assert s[..|s| - 1] == Decimal(n / 10);
    } else {
      assert s[..0] == "" && IntOf(s[..0]) == 0;
    }
  }

  /** Leading zeros do not matter to `int`. */
  lemma {:induction false} LeadingZero(s: string)
    requires IsNumeric(s)
    ensures IsNumeric("0" + s) && IntOf("0" + s) == IntOf(s)
  {
    var t, last := "0" + s, |s| - 1;
    assert forall i :: 0 <= i < |t| ==> t[i] == if i == 0 then '0' else s[i - 1];
    if last == 0 {
      assert s[..0] == "" && t[..1] == "0" && "0"[..0] == "" && IntOf("") == 0;
      assert IntOf("0") == 0;
    } else {
      LeadingZero(s[..last]);
      assert t[..last + 1] == "0" + s[..last];
    }
  }

  /** Every numeric component is the decimal of its number, with zeros in front. */
  lemma {:induction false} NumericIsDecimal(s: string) returns (zeros: string)
    requires IsNumeric(s)
    ensures (forall i :: 0 <= i < |zeros| ==> zeros[i] == '0') && s == zeros + Decimal(IntOf(s))
  {
    var last := |s| - 1;
    LastDigit(s, last);
    DigitOf(s[last]);
    var h, d := IntOf(s[..last]), (s[last] - '0') as nat;
    if last == 0 {
      zeros := "";
      assert s == [s[0]];
    } else {
      var front := NumericIsDecimal(s[..last]);
      assert s == s[..last] + [s[last]];
      zeros := ZerosKept(s, front, h, d);
    }
  }

  lemma ZerosKept(s: string, front: string, h: nat, d: nat) returns (zeros: string)
    requires d < 10 && s == front + Decimal(h) + [DigitChar(d)]
    requires forall i :: 0 <= i < |front| ==> front[i] == '0'
    ensures (forall i :: 0 <= i < |zeros| ==> zeros[i] == '0') && s == zeros + Decimal(h * 10 + d)
  {
    OneMoreDigit(h, d);
    if h == 0 {
      zeros := front + "0";
    } else {
      zeros := front;
      assert s == front + (Decimal(h) + [DigitChar(d)]);
    }
  }

  lemma DigitOf(ch: char)
    requires IsDigit(ch)
    ensures (ch - '0') as nat < 10 && DigitChar((ch - '0') as nat) == ch
  {
  }

  lemma LastDigit(s: string, last: nat)
    requires IsNumeric(s) && last == |s| - 1
    ensures IsDigit(s[last]) && IntOf(s) == IntOf(s[..last]) * 10 + (s[last] - '0') as nat
    ensures if last == 0 then IntOf(s[..last]) == 0 else IsNumeric(s[..last])
  {
    assert last == 0 ==> s[..last] == "";
  }

  lemma OneMoreDigit(h: nat, d: nat)
    requires d < 10
    ensures Decimal(h * 10 + d) == (if h == 0 then "" else Decimal(h)) + [DigitChar(d)]
    ensures Decimal(0) == "0"
  {
    if h > 0 {
      assert (h * 10 + d) / 10 == h && (h * 10 + d) % 10 == d;
    }
  }

  /** String order, character by character. */
  function TextBefore(s: string, t: string): bool {
    if t == "" then false
    else if s == "" then true
    else if s[0] == t[0] then TextBefore(s[1..], t[1..])
    else s[0] < t[0]
  }

  /** The order of texts: after a common beginning one ends, or has the lesser character. */
  lemma {:induction false} TextOrder(s: string, t: string)
    ensures TextBefore(s, t) <==> exists k :: BeforeAt(s, t, k)
  {
    if s != "" && t != "" && s[0] == t[0] {
      TextOrder(s[1..], t[1..]);
      if k :| BeforeAt(s[1..], t[1..], k) {
        assert s == [s[0]] + s[1..] && t == [t[0]] + t[1..];
        assert BeforeAt(s, t, k + 1);
      }
      if k :| BeforeAt(s, t, k) {
        assert k > 0;
        assert s[1..][..k - 1] == s[..k][1..] && t[1..][..k - 1] == t[..k][1..];
        assert BeforeAt(s[1..], t[1..], k - 1);
      }
    } else if TextBefore(s, t) {
      assert BeforeAt(s, t, 0);
    }
  }

  predicate BeforeAt(s: string, t: string, k: int) {
    0 <= k < |t| && k <= |s| && s[..k] == t[..k] && (k == |s| || s[k] < t[k])
  }

  /** Two components are compared as numbers when both are numeric, else as text. */
  predicate ComponentEqual(i: string, j: string) {
    if IsNumeric(i) && IsNumeric(j) then IntOf(i) == IntOf(j) else i == j
  }

  predicate ComponentLess(i: string, j: string) {
    if IsNumeric(i) && IsNumeric(j) then IntOf(i) < IntOf(j) else TextBefore(i, j)
  }

  // ----- versions

  function Shorter(a: Version, b: Version): nat {
    if |a| < |b| then |a| else |b|
  }

  /** `__eq__`: the common prefix agrees. */
  ghost predicate Equal(a: Version, b: Version) {
    forall k :: 0 <= k < Shorter(a, b) ==> ComponentEqual(a[k], b[k])
  }

  /** `__lt__`: the first component in the common prefix that differs is less. */
  ghost predicate Less(a: Version, b: Version) {
    exists k :: LessAt(a, b, k)
  }

  ghost predicate LessAt(a: Version, b: Version, k: int) {
    && 0 <= k < Shorter(a, b)
    && ComponentLess(a[k], b[k])
    && forall j :: 0 <= j < k ==> ComponentEqual(a[j], b[j])
  }

  method VersionEqual(a: Version, b: Version) returns (r: bool)
    ensures r <==> Equal(a, b)
  {
    var n := Shorter(a, b);
    for k := 0 to n
      invariant forall j :: 0 <= j < k ==> ComponentEqual(a[j], b[j])
    {
      if !ComponentEqual(a[k], b[k]) {
        return false;
      }
    }
    return true;
  }

  method VersionLess(a: Version, b: Version) returns (r: bool)
    ensures r <==> Less(a, b)
  {
    var n := Shorter(a, b);
    for k := 0 to n
      invariant forall j :: 0 <= j < k ==> ComponentEqual(a[j], b[j])
    {
      if ComponentEqual(a[k], b[k]) {
        continue;
      }
      ComponentTrichotomy(a[k], b[k]);
      if ComponentLess(a[k], b[k]) {
        assert LessAt(a, b, k);
        return true;
      }
      forall m | LessAt(a, b, m)
        ensures false
      {
        EqualNotLess(a, b, k, m);
      }
      return false;
    }
    forall m | LessAt(a, b, m)
      ensures false
    {
      ComponentTrichotomy(a[m], b[m]);
    }
    return false;
  }

  lemma EqualNotLess(a: Version, b: Version, k: nat, m: int)
    requires k < Shorter(a, b) && (forall j :: 0 <= j < k ==> ComponentEqual(a[j], b[j]))
    requires !ComponentEqual(a[k], b[k]) && !ComponentLess(a[k], b[k])
    ensures !LessAt(a, b, m)
  {
    if 0 <= m < Shorter(a, b) {
      ComponentTrichotomy(a[m], b[m]);
    }
  }

  // ----- order laws

  lemma {:induction false} TextTrichotomy(s: string, t: string)
    ensures s == t ==> !TextBefore(s, t) && !TextBefore(t, s)
    ensures s != t ==> (TextBefore(s, t) <==> !TextBefore(t, s))
  {
    if s != "" && t != "" && s[0] == t[0] {
      TextTrichotomy(s[1..], t[1..]);
      assert s == [s[0]] + s[1..] && t == [t[0]] + t[1..];
    }
  }

  lemma {:induction false} TextTransitive(s: string, t: string, u: string)
    requires TextBefore(s, t) && TextBefore(t, u)
    ensures TextBefore(s, u)
  {
    if s != "" && s[0] == t[0] && t[0] == u[0] {
      TextTransitive(s[1..], t[1..], u[1..]);
    }
  }

  /** Exactly one of equal, less, greater. */
  lemma ComponentTrichotomy(i: string, j: string)
    ensures ComponentEqual(i, j) <==> ComponentEqual(j, i)
    ensures ComponentEqual(i, j) ==> !ComponentLess(i, j) && !ComponentLess(j, i)
    ensures !ComponentEqual(i, j) ==> (ComponentLess(i, j) <==> !ComponentLess(j, i))
  {
    TextTrichotomy(i, j);
  }

  /** For any two versions, of whatever components and lengths, exactly one of `<`, `==` and
    `>` holds; so `<=` is the negation of `>`. */
  lemma VersionTrichotomy(a: Version, b: Version)
    ensures Equal(a, b) <==> Equal(b, a)
    ensures Equal(a, b) ==> !Less(a, b) && !Less(b, a)
    ensures !Equal(a, b) ==> (Less(a, b) <==> !Less(b, a))
    ensures Less(a, b) || Equal(a, b) <==> !Less(b, a)
  {
    forall k | 0 <= k < Shorter(a, b)
      ensures ComponentEqual(a[k], b[k]) <==> ComponentEqual(b[k], a[k])
      ensures ComponentEqual(a[k], b[k]) ==> !ComponentLess(a[k], b[k]) && !ComponentLess(b[k], a[k])
    {
      ComponentTrichotomy(a[k], b[k]);
    }
    if !Equal(a, b) {
      var k := FirstDifference(a, b);
      ComponentTrichotomy(a[k], b[k]);
      assert LessAt(a, b, k) || LessAt(b, a, k);
      forall m | LessAt(a, b, m)
        ensures m == k
      {
      }
      forall m | LessAt(b, a, m)
        ensures m == k
      {
      }
    }
  }

  lemma FirstDifference(a: Version, b: Version) returns (k: nat)
    requires !Equal(a, b)
    ensures k < Shorter(a, b) && !ComponentEqual(a[k], b[k])
    ensures forall j :: 0 <= j < k ==> ComponentEqual(a[j], b[j])
  {
    k := 0;
    while ComponentEqual(a[k], b[k])
      invariant k < Shorter(a, b) && forall j :: 0 <= j < k ==> ComponentEqual(a[j], b[j])
      decreases |a| - k
    {
      k := k + 1;
    }
  }

  // ----- when the laws of an order hold

  /** Which components are numeric: the kinds of a version. */
  function Kinds(a: Version): (kinds: seq<bool>)
    ensures |kinds| == |a| && forall k :: 0 <= k < |a| ==> kinds[k] == IsNumeric(a[k])
  {
    seq(|a|, k requires 0 <= k < |a| => IsNumeric(a[k]))
  }

  /** The three versions have a component at `p`, and before `p` their components are, position
    by position, of one kind. */
  predicate AlikeUpTo(ka: seq<bool>, kb: seq<bool>, kc: seq<bool>, p: nat) {
    && p <= |ka| && p <= |kb| && p <= |kc|
    && forall j :: 0 <= j < p ==> ka[j] == kb[j] == kc[j]
  }

  /** The first position where the kinds differ pits two numbers against a text. */
  predicate TwoNumbersOneText(ka: seq<bool>, kb: seq<bool>, kc: seq<bool>, p: nat) {
    && AlikeUpTo(ka, kb, kc, p)
    && p < |ka| && p < |kb| && p < |kc|
    && ((ka[p] && kb[p] && !kc[p]) || (ka[p] && !kb[p] && kc[p]) || (!ka[p] && kb[p] && kc[p]))
  }

  ghost predicate LessIsTransitive(ka: seq<bool>, kb: seq<bool>, kc: seq<bool>) {
    forall a, b, c :: Kinds(a) == ka && Kinds(b) == kb && Kinds(c) == kc && Less(a, b) && Less(b, c) ==> Less(a, c)
  }

  /** `<` is transitive, across lengths, on exactly the kinds whose first disagreement is not two
    numbers against one text. */
  lemma LessTransitiveExactly(ka: seq<bool>, kb: seq<bool>, kc: seq<bool>)
    ensures LessIsTransitive(ka, kb, kc) <==> !exists p :: TwoNumbersOneText(ka, kb, kc, p)
  {
    if p :| TwoNumbersOneText(ka, kb, kc, p) {
      LessCycles(ka, kb, kc, p);
    } else {
      forall a, b, c | Kinds(a) == ka && Kinds(b) == kb && Kinds(c) == kc && Less(a, b) && Less(b, c)
        ensures Less(a, c)
      {
        LessChains(a, b, c);
      }
    }
  }

  lemma LessChains(a: Version, b: Version, c: Version)
    requires Less(a, b) && Less(b, c)
    requires !exists p :: TwoNumbersOneText(Kinds(a), Kinds(b), Kinds(c), p)
    ensures Less(a, c)
  {
    var k :| LessAt(a, b, k);
    var m :| LessAt(b, c, m);
    var n := if k < m then k else m;
    forall j | 0 <= j < n
      ensures ComponentEqual(a[j], c[j]) && IsNumeric(a[j]) == IsNumeric(b[j]) == IsNumeric(c[j])
    {
      ComponentEqualTransitive(a[j], b[j], c[j]);
    }
    assert AlikeUpTo(Kinds(a), Kinds(b), Kinds(c), n);
    assert !TwoNumbersOneText(Kinds(a), Kinds(b), Kinds(c), n);
    ComponentChains(a[n], b[n], c[n]);
    assert LessAt(a, c, n);
  }

  lemma ComponentEqualTransitive(i: string, j: string, k: string)
    requires ComponentEqual(i, j) && ComponentEqual(j, k)
    ensures ComponentEqual(i, k) && IsNumeric(i) == IsNumeric(j) == IsNumeric(k)
  {
  }

  /** On components only two numbers against one text break the order. */
  lemma ComponentChains(i: string, j: string, k: string)
    requires ComponentLess(i, j) || ComponentEqual(i, j)
    requires ComponentLess(j, k) || ComponentEqual(j, k)
    requires ComponentLess(i, j) || ComponentLess(j, k)
    requires !(IsNumeric(i) && IsNumeric(j) && !IsNumeric(k))
    requires !(IsNumeric(i) && !IsNumeric(j) && IsNumeric(k))
    requires !(!IsNumeric(i) && IsNumeric(j) && IsNumeric(k))
    ensures ComponentLess(i, k)
  {
    if TextBefore(i, j) && TextBefore(j, k) {
      TextTransitive(i, j, k);
    }
  }

  /** A version of the given kinds: `s` at `p` and a fixed number or text elsewhere. */
  function Filled(kinds: seq<bool>, p: nat, s: string): (a: Version)
    ensures |a| == |kinds|
    ensures forall k :: 0 <= k < |kinds| && k != p ==> a[k] == if kinds[k] then "1" else "x"
    ensures p < |kinds| ==> a[p] == s
  {
    seq(|kinds|, k requires 0 <= k < |kinds| => if k == p then s else if kinds[k] then "1" else "x")
  }

  lemma FilledKinds(kinds: seq<bool>, p: nat, s: string)
    requires p < |kinds| ==> IsNumeric(s) == kinds[p]
    ensures Kinds(Filled(kinds, p, s)) == kinds
  {
    assert !IsDigit("x"[0]);
  }

  /** Two versions filled alike up to `p` are compared at `p`. */
  lemma FilledLess(ka: seq<bool>, kb: seq<bool>, p: nat, s: string, t: string)
    requires p < |ka| && p < |kb| && (forall j :: 0 <= j < p ==> ka[j] == kb[j])
    requires ComponentLess(s, t)
    ensures Less(Filled(ka, p, s), Filled(kb, p, t))
  {
    assert LessAt(Filled(ka, p, s), Filled(kb, p, t), p);
  }

  lemma FilledEqual(ka: seq<bool>, kb: seq<bool>, p: nat, s: string, t: string)
    requires forall j :: 0 <= j < |ka| && j < |kb| && j != p ==> ka[j] == kb[j]
    requires p < |ka| && p < |kb| ==> ComponentEqual(s, t)
    ensures Equal(Filled(ka, p, s), Filled(kb, p, t))
  {
  }

  /** 9 < 10 < 1a < 9, and 07 equals 7 although 1a lies between them as texts. */
  lemma Cycle()
    ensures IsNumeric("9") && IsNumeric("10") && !IsNumeric("1a") && IsNumeric("7") && IsNumeric("07")
    ensures ComponentLess("9", "10") && ComponentLess("10", "1a") && ComponentLess("1a", "9")
    ensures ComponentEqual("7", "07") && ComponentLess("07", "1a") && ComponentLess("1a", "7")
  {
    assert IntOf("9"[..0]) == 0 && IntOf("9") == 9;
    assert "10"[..1] == "1" && IntOf("1"[..0]) == 0 && IntOf("1") == 1 && IntOf("10") == 10;
    assert "07"[..1] == "0" && IntOf("0"[..0]) == 0 && IntOf("0") == 0 && IntOf("07") == 7;
    assert IntOf("7"[..0]) == 0 && IntOf("7") == 7;
    assert !IsDigit("1a"[1]);
    assert "10"[1..] == "0" && "1a"[1..] == "a";
  }

  lemma LessCycles(ka: seq<bool>, kb: seq<bool>, kc: seq<bool>, p: nat)
    requires TwoNumbersOneText(ka, kb, kc, p)
    ensures !LessIsTransitive(ka, kb, kc)
  {
    Cycle();
    var s, t, u := if !kc[p] then "9" else if !kb[p] then "10" else "1a",
                   if !kc[p] then "10" else if !kb[p] then "1a" else "9",
                   if !kc[p] then "1a" else if !kb[p] then "9" else "10";
    var a, b, c := Filled(ka, p, s), Filled(kb, p, t), Filled(kc, p, u);
    FilledKinds(ka, p, s);
    FilledKinds(kb, p, t);
    FilledKinds(kc, p, u);
    FilledLess(ka, kb, p, s, t);
    FilledLess(kb, kc, p, t, u);
    FilledLess(kc, ka, p, u, s);
    VersionTrichotomy(a, c);
  }

  // ----- equality

  predicate AllNumeric(a: Version) {
    forall k :: 0 <= k < |a| ==> IsNumeric(a[k])
  }

  /** Chaining `==` through `b` between versions of two lengths, all versions or all-digit ones. */
  ghost predicate EqualIsTransitive(b: Version, la: nat, lc: nat, allDigits: bool) {
    forall a, c | |a| == la && |c| == lc && (allDigits ==> AllNumeric(a) && AllNumeric(c)) ::
      Equal(a, b) && Equal(b, c) ==> Equal(a, c)
  }

  /** `==` chains through `b` exactly when `b` is no shorter than one of the two others. */
  lemma EqualTransitiveExactly(b: Version, la: nat, lc: nat, allDigits: bool)
    requires allDigits ==> forall s :: s in b ==> IsNumeric(s)
    ensures EqualIsTransitive(b, la, lc, allDigits) <==> |b| >= la || |b| >= lc
  {
    if |b| >= la || |b| >= lc {
      forall a, c | |a| == la && |c| == lc && Equal(a, b) && Equal(b, c)
        ensures Equal(a, c)
      {
        forall k | 0 <= k < Shorter(a, c)
          ensures ComponentEqual(a[k], c[k])
        {
          ComponentEqualTransitive(a[k], b[k], c[k]);
        }
      }
    } else {
      var a, c := b + seq(la - |b|, _ => "1"), b + seq(lc - |b|, _ => "2");
      assert Equal(a, b) && Equal(b, c);
      assert IntOf("1"[..0]) == 0 && IntOf("1") == 1 && IntOf("2"[..0]) == 0 && IntOf("2") == 2;
      assert !ComponentEqual(a[|b|], c[|b|]);
    }
  }

  // ----- equality followed by less

  ghost predicate EqualThenLess(ka: seq<bool>, kb: seq<bool>, kc: seq<bool>) {
    forall a, b, c :: Kinds(a) == ka && Kinds(b) == kb && Kinds(c) == kc && Equal(a, b) && Less(b, c) ==> Less(a, c)
  }

  /** Two versions of these kinds can be equal. */
  predicate Matching(ka: seq<bool>, kb: seq<bool>) {
    forall j :: 0 <= j < |ka| && j < |kb| ==> ka[j] == kb[j]
  }

  /** The first disagreement pits the two equal numbers against a text, or the left version ends
    where the two others go on. */
  predicate LeftSplits(ka: seq<bool>, kb: seq<bool>, kc: seq<bool>, p: nat) {
    && AlikeUpTo(ka, kb, kc, p)
    && p < |kb| && p < |kc|
    && (p == |ka| || (ka[p] && kb[p] && !kc[p]))
  }

  /** `a == b < c` gives `a < c` on exactly the kinds where `a` and `b` cannot be equal, or which
    never split this way. */
  lemma EqualThenLessExactly(ka: seq<bool>, kb: seq<bool>, kc: seq<bool>)
    ensures EqualThenLess(ka, kb, kc) <==> !Matching(ka, kb) || !exists p :: LeftSplits(ka, kb, kc, p)
  {
    if p :| LeftSplits(ka, kb, kc, p) {
      if Matching(ka, kb) {
        EqualThenLessFails(ka, kb, kc, p);
      }
    }
    forall a, b, c | Kinds(a) == ka && Kinds(b) == kb && Kinds(c) == kc && Equal(a, b) && Less(b, c)
      ensures Matching(ka, kb)
      ensures (exists p :: LeftSplits(ka, kb, kc, p)) || Less(a, c)
    {
      if !exists p :: LeftSplits(ka, kb, kc, p) {
        EqualLessChains(a, b, c);
      }
    }
  }

  lemma EqualLessChains(a: Version, b: Version, c: Version)
    requires Equal(a, b) && Less(b, c)
    requires !exists p :: LeftSplits(Kinds(a), Kinds(b), Kinds(c), p)
    ensures Less(a, c)
  {
    var m :| LessAt(b, c, m);
    var n := if m < |a| then m else |a|;
    forall j | 0 <= j < n
      ensures ComponentEqual(a[j], c[j]) && IsNumeric(a[j]) == IsNumeric(b[j]) == IsNumeric(c[j])
    {
      ComponentEqualTransitive(a[j], b[j], c[j]);
    }
    assert AlikeUpTo(Kinds(a), Kinds(b), Kinds(c), n);
    assert !LeftSplits(Kinds(a), Kinds(b), Kinds(c), n);
    ComponentChains(a[n], b[n], c[n]);
    assert LessAt(a, c, n);
  }

  lemma EqualThenLessFails(ka: seq<bool>, kb: seq<bool>, kc: seq<bool>, p: nat)
    requires Matching(ka, kb) && LeftSplits(ka, kb, kc, p)
    ensures !EqualThenLess(ka, kb, kc)
  {
    Cycle();
    var s, t, u := "7", "07", "1a";
    if p == |ka| {
      t, u := Ascending(kb[p], kc[p]);
    }
    var a, b, c := Filled(ka, p, s), Filled(kb, p, t), Filled(kc, p, u);
    FilledKinds(ka, p, s);
    FilledKinds(kb, p, t);
    FilledKinds(kc, p, u);
    FilledEqual(ka, kb, p, s, t);
    FilledLess(kb, kc, p, t, u);
    if p == |ka| {
      FilledEqual(ka, kc, p, s, u);
    } else {
      FilledLess(kc, ka, p, u, s);
    }
    VersionTrichotomy(a, c);
  }

  /** Two components of given kinds, the first less than the second. */
  lemma Ascending(ks: bool, kt: bool) returns (s: string, t: string)
    ensures IsNumeric(s) == ks && IsNumeric(t) == kt && ComponentLess(s, t)
  {
    Cycle();
    assert !IsDigit("x"[0]) && !IsDigit("y"[0]);
    s := if ks then "9" else if kt then "" else "x";
    t := if kt then "10" else "y";
  }

  // ----- less followed by equality

  ghost predicate LessThenEqual(ka: seq<bool>, kb: seq<bool>, kc: seq<bool>) {
    forall a, b, c :: Kinds(a) == ka && Kinds(b) == kb && Kinds(c) == kc && Less(a, b) && Equal(b, c) ==> Less(a, c)
  }

  predicate RightSplits(ka: seq<bool>, kb: seq<bool>, kc: seq<bool>, p: nat) {
    && AlikeUpTo(ka, kb, kc, p)
    && p < |ka| && p < |kb|
    && (p == |kc| || (!ka[p] && kb[p] && kc[p]))
  }

  /** The mirror image: `a < b == c` gives `a < c` on exactly these kinds. */
  lemma LessThenEqualExactly(ka: seq<bool>, kb: seq<bool>, kc: seq<bool>)
    ensures LessThenEqual(ka, kb, kc) <==> !Matching(kb, kc) || !exists p :: RightSplits(ka, kb, kc, p)
  {
    if p :| RightSplits(ka, kb, kc, p) {
      if Matching(kb, kc) {
        LessThenEqualFails(ka, kb, kc, p);
      }
    }
    forall a, b, c | Kinds(a) == ka && Kinds(b) == kb && Kinds(c) == kc && Less(a, b) && Equal(b, c)
      ensures Matching(kb, kc)
      ensures (exists p :: RightSplits(ka, kb, kc, p)) || Less(a, c)
    {
      if !exists p :: RightSplits(ka, kb, kc, p) {
        LessEqualChains(a, b, c);
      }
    }
  }

  lemma LessEqualChains(a: Version, b: Version, c: Version)
    requires Less(a, b) && Equal(b, c)
    requires !exists p :: RightSplits(Kinds(a), Kinds(b), Kinds(c), p)
    ensures Less(a, c)
  {
    var m :| LessAt(a, b, m);
    var n := if m < |c| then m else |c|;
    forall j | 0 <= j < n
      ensures ComponentEqual(a[j], c[j]) && IsNumeric(a[j]) == IsNumeric(b[j]) == IsNumeric(c[j])
    {
      ComponentEqualTransitive(a[j], b[j], c[j]);
    }
    assert AlikeUpTo(Kinds(a), Kinds(b), Kinds(c), n);
    assert !RightSplits(Kinds(a), Kinds(b), Kinds(c), n);
    ComponentChains(a[n], b[n], c[n]);
    assert LessAt(a, c, n);
  }

  lemma LessThenEqualFails(ka: seq<bool>, kb: seq<bool>, kc: seq<bool>, p: nat)
    requires Matching(kb, kc) && RightSplits(ka, kb, kc, p)
    ensures !LessThenEqual(ka, kb, kc)
  {
    Cycle();
    var s, t, u := "1a", "7", "07";
    if p == |kc| {
      s, t := Ascending(ka[p], kb[p]);
    }
    var a, b, c := Filled(ka, p, s), Filled(kb, p, t), Filled(kc, p, u);
    FilledKinds(ka, p, s);
    FilledKinds(kb, p, t);
    FilledKinds(kc, p, u);
    FilledLess(ka, kb, p, s, t);
    FilledEqual(kb, kc, p, t, u);
    if p == |kc| {
      FilledEqual(ka, kc, p, s, u);
    } else {
      FilledLess(kc, ka, p, u, s);
    }
    VersionTrichotomy(a, c);
  }

  /** Between all-digit versions `<` is always transitive, and `==` can be put before or after it
    unless the outer version it ties is the shortest of the three. */
  lemma AllDigitLaws(a: Version, b: Version, c: Version)
    requires forall s :: s in a || s in b || s in c ==> IsNumeric(s)
    ensures Less(a, b) && Less(b, c) ==> Less(a, c)
    ensures Equal(a, b) && Less(b, c) && !(|a| < |b| && |a| < |c|) ==> Less(a, c)
    ensures Less(a, b) && Equal(b, c) && !(|c| < |a| && |c| < |b|) ==> Less(a, c)
  {
    LessTransitiveExactly(Kinds(a), Kinds(b), Kinds(c));
    EqualThenLessExactly(Kinds(a), Kinds(b), Kinds(c));
    LessThenEqualExactly(Kinds(a), Kinds(b), Kinds(c));
  }

  /** Versions of one number are ordered as their numbers, however long. */
  lemma NumbersInOrder(m: nat, n: nat)
    ensures Less([Decimal(m)], [Decimal(n)]) <==> m < n
    ensures Equal([Decimal(m)], [Decimal(n)]) <==> m == n
  {
    var a, b := [Decimal(m)], [Decimal(n)];
    IntOfDecimal(m);
    IntOfDecimal(n);
    if m < n {
      assert LessAt(a, b, 0);
    }
    assert ComponentEqual(a[0], b[0]) <==> m == n;
  }

  function Decimals(ns: seq<nat>): (a: Version)
    ensures |a| == |ns| && forall k :: 0 <= k < |ns| ==> a[k] == Decimal(ns[k])
  {
    seq(|ns|, k requires 0 <= k < |ns| => Decimal(ns[k]))
  }

  /** A version of numbers as it is written: 1.100. */
  function Dotted(ns: seq<nat>): string {
    Join(Decimals(ns), '.', false)
  }

  /** The first numbers that differ decide, where both versions have one: the left is less. */
  predicate NumbersLess(ms: seq<nat>, ns: seq<nat>, k: int) {
    0 <= k < |ms| && k < |ns| && ms[..k] == ns[..k] && ms[k] < ns[k]
  }

  /** Written versions of numbers are ordered number by number, and equal when one begins with the
    other. */
  lemma DottedInOrder(ms: seq<nat>, ns: seq<nat>)
    requires ms != [] && ns != []
    ensures Less(Decompose(Dotted(ms)), Decompose(Dotted(ns))) <==> exists k :: NumbersLess(ms, ns, k)
    ensures Equal(Decompose(Dotted(ms)), Decompose(Dotted(ns))) <==> ms <= ns || ns <= ms
  {
    var a, b := Decimals(ms), Decimals(ns);
    DecomposeDotted(ms);
    DecomposeDotted(ns);
    forall k: nat | k < Shorter(a, b)
      ensures LessAt(a, b, k) <==> NumbersLess(ms, ns, k)
    {
      LessAtNumber(ms, ns, k);
    }
    if k :| NumbersLess(ms, ns, k) {
      assert LessAt(a, b, k);
    }
    if k :| LessAt(a, b, k) {
      assert NumbersLess(ms, ns, k);
    }
    EqualNumbers(ms, ns);
  }

  lemma NumberAt(ms: seq<nat>, ns: seq<nat>, k: nat)
    requires k < |ms| && k < |ns|
    ensures ComponentEqual(Decimals(ms)[k], Decimals(ns)[k]) <==> ms[k] == ns[k]
    ensures ComponentLess(Decimals(ms)[k], Decimals(ns)[k]) <==> ms[k] < ns[k]
  {
    IntOfDecimal(ms[k]);
    IntOfDecimal(ns[k]);
  }

  lemma LessAtNumber(ms: seq<nat>, ns: seq<nat>, k: nat)
    requires k < |ms| && k < |ns|
    ensures LessAt(Decimals(ms), Decimals(ns), k) <==> NumbersLess(ms, ns, k)
  {
    NumberAt(ms, ns, k);
    forall j | 0 <= j < k
      ensures ComponentEqual(Decimals(ms)[j], Decimals(ns)[j]) <==> ms[..k][j] == ns[..k][j]
    {
      NumberAt(ms, ns, j);
    }
  }

  lemma EqualNumbers(ms: seq<nat>, ns: seq<nat>)
    ensures Equal(Decimals(ms), Decimals(ns)) <==> ms <= ns || ns <= ms
  {
    var a, b := Decimals(ms), Decimals(ns);
    forall k | 0 <= k < Shorter(a, b)
      ensures ComponentEqual(a[k], b[k]) <==> ms[k] == ns[k]
    {
      NumberAt(ms, ns, k);
    }
  }

  lemma DecomposeDotted(ns: seq<nat>)
    requires ns != []
    ensures Decompose(Dotted(ns)) == Decimals(ns)
  {
    var a := Decimals(ns);
    forall c | c in a
      ensures PlainComponent(c) && c != "" && IsDigit(c[0])
    {
      var k :| 0 <= k < |ns| && a[k] == c;
      IntOfDecimal(ns[k]);
    }
    DecomposeJoined(a, "");
    assert "" + Dotted(ns) == Dotted(ns);
  }

  /** Mixing kinds breaks transitivity: 9 < 10 < 1a < 9. */
  lemma MixedKindsCycle()
    ensures Less(["9"], ["10"]) && Less(["10"], ["1a"]) && Less(["1a"], ["9"])
  {
    Cycle();
    assert LessAt(["9"], ["10"], 0) && LessAt(["10"], ["1a"], 0) && LessAt(["1a"], ["9"], 0);
  }

  /** Across lengths `==` is not transitive: 1.1 == 1 == 1.2. */
  lemma PrefixEqualityNotTransitive()
    ensures Equal(["1", "1"], ["1"]) && Equal(["1"], ["1", "2"]) && !Equal(["1", "1"], ["1", "2"])
  {
    assert IntOf("1"[..0]) == 0 && IntOf("1") == 1 && IntOf("2"[..0]) == 0 && IntOf("2") == 2;
    assert !ComponentEqual(["1", "1"][1], ["1", "2"][1]);
  }
}
