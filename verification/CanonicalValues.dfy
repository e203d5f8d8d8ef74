/** `canonical_value` in vulnerabilities/utils.py: the canonical form of nested lists that
  forgets the order of every list.

  Comparing a number with a tuple raises, so a list whose sort meets such a pair has no canonical
  form.  Which pairs a sort meets is its own affair; that some such pair is met whenever there is
  one is proved for the sort defined here and for every comparison sort. */
module CanonicalValues {
  import opened Options
  import opened Ordering

  /** A number, or a list (or tuple, or set) of values. */
  datatype Value = Atom(n: int) | List(items: seq<Value>)

  datatype Comparison = Less | Equal | Greater | TypeError

  /** Tuple comparison: the first items that differ decide; a number and a tuple do not
    compare; a proper prefix is less. */
  function Compare(a: Value, b: Value): Comparison
    decreases a, 1
  {
    match (a, b)
    case (Atom(m), Atom(n)) => if m < n then Less else if m == n then Equal else Greater
    case (List(xs), List(ys)) => CompareItems(xs, ys)
    case _ => TypeError
  }

  function CompareItems(xs: seq<Value>, ys: seq<Value>): Comparison
    decreases xs, 0
  {
    if xs == [] then (if ys == [] then Equal else Less)
    else if ys == [] then Greater
    else
      var c := Compare(xs[0], ys[0]);
      if c == Equal then CompareItems(xs[1..], ys[1..]) else c
  }

  /** What tuple comparison means: numbers by size, never with a tuple, and tuples by their first
    difference, a proper beginning being less. */
  lemma {:induction false} ComparisonMeans(a: Value, b: Value)
    ensures a.Atom? && b.Atom? ==> (Compare(a, b) == Less <==> a.n < b.n) && (Compare(a, b) == Greater <==> a.n > b.n)
    ensures a.Atom? != b.Atom? ==> Compare(a, b) == TypeError
    ensures a.List? && b.List? ==> (Compare(a, b) == Less <==> exists k :: LessAt(a.items, b.items, k))
  {
    if a.List? && b.List? {
      FirstDifferenceDecides(a.items, b.items);
    }
  }

  /** The tuples agree before `k`; there the first ends, or has the lesser item. */
  ghost predicate LessAt(xs: seq<Value>, ys: seq<Value>, k: int) {
    && 0 <= k < |ys| && k <= |xs| && xs[..k] == ys[..k]
    && (k == |xs| || Compare(xs[k], ys[k]) == Less)
  }

  lemma {:induction false} FirstDifferenceDecides(xs: seq<Value>, ys: seq<Value>)
    ensures CompareItems(xs, ys) == Less <==> exists k :: LessAt(xs, ys, k)
  {
    if xs == [] || ys == [] {
      assert CompareItems(xs, ys) == Less ==> LessAt(xs, ys, 0);
    } else {
      ComparisonExtends(xs[0], ys[0]);
      FirstDifferenceDecides(xs[1..], ys[1..]);
      if k :| LessAt(xs, ys, k) {
        if k > 0 {
          assert xs[..k][0] == xs[0] && ys[..k][0] == ys[0];
          assert xs[1..][..k - 1] == xs[..k][1..] && ys[1..][..k - 1] == ys[..k][1..];
          assert LessAt(xs[1..], ys[1..], k - 1);
        }
      }
      if CompareItems(xs, ys) == Less {
        if xs[0] == ys[0] {
          var k :| LessAt(xs[1..], ys[1..], k);
          assert xs[..k + 1] == [xs[0]] + xs[1..][..k] && ys[..k + 1] == [ys[0]] + ys[1..][..k];
          assert LessAt(xs, ys, k + 1);
        } else {
          assert LessAt(xs, ys, 0);
        }
      }
    }
  }

  /** The order the sort works with, made total by putting numbers before tuples. */
  function Before(a: Value, b: Value): bool
    decreases a, 1
  {
    match (a, b)
    case (Atom(m), Atom(n)) => m < n
    case (Atom(_), List(_)) => true
    case (List(_), Atom(_)) => false
    case (List(xs), List(ys)) => BeforeItems(xs, ys)
  }

  function BeforeItems(xs: seq<Value>, ys: seq<Value>): bool
    decreases xs, 0
  {
    if ys == [] then false
    else if xs == [] then true
    else if xs[0] == ys[0] then BeforeItems(xs[1..], ys[1..])
    else Before(xs[0], ys[0])
  }

  // ----- the total order extends the comparison

  lemma {:induction false} ComparisonExtends(a: Value, b: Value)
    ensures Compare(a, b) == Equal <==> a == b
    ensures Compare(a, b) == Less ==> Before(a, b)
    ensures Compare(a, b) == Greater ==> Before(b, a)
    decreases a, 1
  {
    if a.List? && b.List? {
      ComparisonExtendsItems(a.items, b.items);
    }
  }

  lemma {:induction false} ComparisonExtendsItems(xs: seq<Value>, ys: seq<Value>)
    ensures CompareItems(xs, ys) == Equal <==> xs == ys
    ensures CompareItems(xs, ys) == Less ==> BeforeItems(xs, ys)
    ensures CompareItems(xs, ys) == Greater ==> BeforeItems(ys, xs)
    decreases xs, 0
  {
    if xs != [] && ys != [] {
      ComparisonExtends(xs[0], ys[0]);
      ComparisonExtendsItems(xs[1..], ys[1..]);
      assert xs == [xs[0]] + xs[1..] && ys == [ys[0]] + ys[1..];
    }
  }

  lemma {:induction false} BeforeIrreflexive(a: Value)
    ensures !Before(a, a)
  {
    if a.List? {
      BeforeItemsIrreflexive(a.items);
    }
  }

  lemma {:induction false} BeforeItemsIrreflexive(xs: seq<Value>)
    ensures !BeforeItems(xs, xs)
  {
    if xs != [] {
      BeforeItemsIrreflexive(xs[1..]);
    }
  }

  lemma {:induction false} BeforeTotal(a: Value, b: Value)
    ensures Before(a, b) || Before(b, a) || a == b
    decreases a, 1
  {
    if a.List? && b.List? {
      BeforeItemsTotal(a.items, b.items);
    }
  }

  lemma {:induction false} BeforeItemsTotal(xs: seq<Value>, ys: seq<Value>)
    ensures BeforeItems(xs, ys) || BeforeItems(ys, xs) || xs == ys
    decreases xs, 0
  {
    if xs != [] && ys != [] {
      BeforeTotal(xs[0], ys[0]);
      BeforeItemsTotal(xs[1..], ys[1..]);
      assert xs == [xs[0]] + xs[1..] && ys == [ys[0]] + ys[1..];
    }
  }

  lemma {:induction false} BeforeTransitive(a: Value, b: Value, c: Value)
    requires Before(a, b) && Before(b, c)
    ensures Before(a, c)
    decreases a, 1
  {
    if a.List? && b.List? && c.List? {
      BeforeItemsTransitive(a.items, b.items, c.items);
    }
  }

  lemma {:induction false} BeforeItemsTransitive(xs: seq<Value>, ys: seq<Value>, zs: seq<Value>)
    requires BeforeItems(xs, ys) && BeforeItems(ys, zs)
    ensures BeforeItems(xs, zs)
    decreases xs, 0
  {
    if xs != [] {
      if xs[0] == ys[0] && ys[0] == zs[0] {
        BeforeItemsTransitive(xs[1..], ys[1..], zs[1..]);
      } else if xs[0] != ys[0] && ys[0] != zs[0] {
        BeforeTransitive(xs[0], ys[0], zs[0]);
        BeforeIrreflexiveAt(xs[0], ys[0]);
        if xs[0] == zs[0] {
          BeforeAsymmetric(xs[0], ys[0]);
        }
      }
    }
  }

  lemma BeforeIrreflexiveAt(a: Value, b: Value)
    requires Before(a, b)
    ensures a != b
  {
    BeforeIrreflexive(a);
  }

  lemma {:induction false} BeforeAsymmetric(a: Value, b: Value)
    requires Before(a, b)
    ensures !Before(b, a)
    decreases a, 1
  {
    if a.List? && b.List? {
      BeforeItemsAsymmetric(a.items, b.items);
    }
  }

  lemma {:induction false} BeforeItemsAsymmetric(xs: seq<Value>, ys: seq<Value>)
    requires BeforeItems(xs, ys)
    ensures !BeforeItems(ys, xs)
    decreases xs, 0
  {
    if xs != [] {
      if xs[0] == ys[0] {
        BeforeItemsAsymmetric(xs[1..], ys[1..]);
      } else {
        BeforeAsymmetric(xs[0], ys[0]);
      }
    }
  }

  lemma BeforeIsOrder()
    ensures StrictWeak(Before) && NeverTied(Before)
  {
    forall x | true
      ensures !Before(x, x)
    {
      BeforeIrreflexive(x);
    }
    forall x, y | true
      ensures Before(x, y) || Before(y, x) || x == y
    {
      BeforeTotal(x, y);
    }
    forall x, y, z | Before(x, y) && Before(y, z)
      ensures Before(x, z)
    {
      BeforeTransitive(x, y, z);
    }
    forall x, y, z | Before(x, z)
      ensures Before(x, y) || Before(y, z)
    {
      BeforeTotal(x, y);
      if Before(y, x) {
        BeforeTransitive(y, x, z);
      }
    }
  }

  // ----- the canonical form

  /** Canonicalise the items, then sort them. */
  function Canonical(v: Value): Value
    decreases v, 1
  {
    match v
    case Atom(_) => v
    case List(items) => List(Sort(Before, CanonicalItems(items)))
  }

  function CanonicalItems(items: seq<Value>): (r: seq<Value>)
    ensures |r| == |items|
    ensures forall i :: 0 <= i < |r| ==> r[i] == Canonical(items[i])
    decreases items, 0
  {
    if items == [] then [] else [Canonical(items[0])] + CanonicalItems(items[1..])
  }

  // ----- the sort, which raises when it meets two items that do not compare

  /** One insertion step: `x`, which came first, goes before its equals. */
  function InsertChecked(x: Value, s: seq<Value>): Result<seq<Value>, string> {
    if s == [] then Ok([x])
    else
      match Compare(s[0], x)
      case TypeError => Raise("TypeError")
      case Less =>
        (match InsertChecked(x, s[1..])
         case Ok(rest) => Ok([s[0]] + rest)
         case Raise(e) => Raise(e))
      case _ => Ok([x] + s)
  }

  function SortChecked(items: seq<Value>): Result<seq<Value>, string> {
    if items == [] then Ok([])
    else
      match SortChecked(items[1..])
      case Ok(s) => InsertChecked(items[0], s)
      case Raise(e) => Raise(e)
  }

  /** `canonical_value`. */
  function CanonicalValue(v: Value): Result<Value, string>
    decreases v, 1
  {
    match v
    case Atom(_) => Ok(v)
    case List(items) =>
      match CanonicalValueItems(items)
      case Raise(e) => Raise(e)
      case Ok(cs) =>
        match SortChecked(cs)
        case Raise(e) => Raise(e)
        case Ok(sorted) => Ok(List(sorted))
  }

  function CanonicalValueItems(items: seq<Value>): Result<seq<Value>, string>
    decreases items, 0
  {
    if items == [] then Ok([])
    else
      match CanonicalValue(items[0])
      case Raise(e) => Raise(e)
      case Ok(c) =>
        match CanonicalValueItems(items[1..])
        case Raise(e) => Raise(e)
        case Ok(cs) => Ok([c] + cs)
  }

  /** Some two items do not compare. */
  ghost predicate SomeIncomparable(items: seq<Value>) {
    exists i, j :: 0 <= i < |items| && 0 <= j < |items| && Compare(items[i], items[j]) == TypeError
  }

  ghost predicate IncomparableWith(x: Value, s: seq<Value>) {
    exists k :: 0 <= k < |s| && Compare(x, s[k]) == TypeError
  }

  /** At some depth two canonical items of one list do not compare. */
  ghost predicate Raises(v: Value)
    decreases v
  {
    v.List? && ((exists i :: 0 <= i < |v.items| && Raises(v.items[i])) || SomeIncomparable(CanonicalItems(v.items)))
  }

  lemma {:induction false} CompareMirrors(a: Value, b: Value)
    ensures Compare(a, b) == Less <==> Compare(b, a) == Greater
    ensures Compare(a, b) == TypeError <==> Compare(b, a) == TypeError
    decreases a, 1
  {
    if a.List? && b.List? {
      CompareItemsMirrors(a.items, b.items);
    }
  }

  lemma {:induction false} CompareItemsMirrors(xs: seq<Value>, ys: seq<Value>)
    ensures CompareItems(xs, ys) == Less <==> CompareItems(ys, xs) == Greater
    ensures CompareItems(xs, ys) == TypeError <==> CompareItems(ys, xs) == TypeError
    decreases xs, 0
  {
    if xs != [] && ys != [] {
      CompareMirrors(xs[0], ys[0]);
      ComparisonExtends(xs[0], ys[0]);
      ComparisonExtends(ys[0], xs[0]);
      CompareItemsMirrors(xs[1..], ys[1..]);
    }
  }

  /** What is below something is comparable with, and below, whatever lies above that. */
  lemma {:induction false} CompareTransitive(a: Value, b: Value, c: Value)
    requires Compare(a, b) == Less && Compare(b, c) == Less
    ensures Compare(a, c) == Less
    decreases a, 1
  {
    if a.List? {
      CompareItemsTransitive(a.items, b.items, c.items);
    }
  }

  lemma {:induction false} CompareItemsTransitive(xs: seq<Value>, ys: seq<Value>, zs: seq<Value>)
    requires CompareItems(xs, ys) == Less && CompareItems(ys, zs) == Less
    ensures CompareItems(xs, zs) == Less
    decreases xs, 0
  {
    if xs != [] {
      ComparisonExtends(xs[0], ys[0]);
      ComparisonExtends(ys[0], zs[0]);
      ComparisonExtends(xs[0], zs[0]);
      if xs[0] == ys[0] == zs[0] {
        CompareItemsTransitive(xs[1..], ys[1..], zs[1..]);
      } else if xs[0] != ys[0] && ys[0] != zs[0] {
        CompareTransitive(xs[0], ys[0], zs[0]);
      }
    }
  }

  ghost predicate AtMost(a: Value, b: Value) {
    Compare(a, b) == Less || Compare(a, b) == Equal
  }

  lemma AtMostTransitive(a: Value, b: Value, c: Value)
    requires AtMost(a, b) && AtMost(b, c)
    ensures AtMost(a, c)
  {
    ComparisonExtends(a, b);
    ComparisonExtends(b, c);
    if a != b && b != c {
      CompareTransitive(a, b, c);
    }
  }

  /** Every item is at most every later one. */
  ghost predicate Ascending(s: seq<Value>) {
    forall i, j :: 0 <= i < j < |s| ==> AtMost(s[i], s[j])
  }

  /** Inserting raises exactly when some item does not compare with the new one, although it looks
    at the items only up to the first that is not less. */
  lemma {:induction false} InsertRaisesExactly(x: Value, s: seq<Value>)
    requires Ascending(s)
    ensures InsertChecked(x, s) == if IncomparableWith(x, s) then Raise("TypeError") else Ok(Insert(Before, x, s))
  {
    if s == [] {
      assert [x] + s == [x];
    } else {
      ComparisonExtends(s[0], x);
      CompareMirrors(x, s[0]);
      CompareMirrors(s[0], x);
      BeforeNotBoth(s[0], x);
      match Compare(s[0], x) {
        case TypeError =>
          assert Compare(x, s[0]) == TypeError;
        case Less =>
          InsertRaisesExactly(x, s[1..]);
          if k :| 0 <= k < |s| && Compare(x, s[k]) == TypeError {
            assert s[1..][k - 1] == s[k];
          }
          if k :| 0 <= k < |s[1..]| && Compare(x, s[1..][k]) == TypeError {
            assert Compare(x, s[k + 1]) == TypeError;
          }
          assert IncomparableWith(x, s) <==> IncomparableWith(x, s[1..]);
        case _ =>
          assert AtMost(x, s[0]);
          forall k | 0 <= k < |s|
            ensures Compare(x, s[k]) != TypeError
          {
            if k > 0 {
              AtMostTransitive(x, s[0], s[k]);
            }
          }
      }
    }
  }

  lemma BeforeNotBoth(a: Value, b: Value)
    ensures !(Before(a, b) && Before(b, a)) && !Before(a, a)
  {
    BeforeIrreflexive(a);
    if Before(a, b) {
      BeforeAsymmetric(a, b);
    }
  }

  /** The sort raises exactly when some two items do not compare, whichever pairs it gets to
    see, and otherwise gives the sorted list. */
  lemma {:induction false} SortRaisesExactly(items: seq<Value>)
    ensures SortChecked(items) == if SomeIncomparable(items) then Raise("TypeError") else Ok(Sort(Before, items))
  {
    if items != [] {
      var x, rest := items[0], items[1..];
      SortRaisesExactly(rest);
      IncomparableSplits(items);
      if !SomeIncomparable(rest) {
        SortedAscending(rest);
        InsertRaisesExactly(x, Sort(Before, rest));
        SameItems(x, rest);
      }
    }
  }

  lemma IncomparableSplits(items: seq<Value>)
    requires items != []
    ensures SomeIncomparable(items) <==> SomeIncomparable(items[1..]) || IncomparableWith(items[0], items[1..])
  {
    if i, j :| 0 <= i < |items| && 0 <= j < |items| && Compare(items[i], items[j]) == TypeError {
      CompareMirrors(items[i], items[j]);
      ComparisonExtends(items[i], items[j]);
      assert i > 0 ==> items[1..][i - 1] == items[i];
      assert j > 0 ==> items[1..][j - 1] == items[j];
    }
    if i, j :| 0 <= i < |items| - 1 && 0 <= j < |items| - 1 && Compare(items[1..][i], items[1..][j]) == TypeError {
      assert Compare(items[i + 1], items[j + 1]) == TypeError;
    }
    if j :| 0 <= j < |items| - 1 && Compare(items[0], items[1..][j]) == TypeError {
      assert Compare(items[0], items[j + 1]) == TypeError;
    }
  }

  lemma SortedAscending(items: seq<Value>)
    requires !SomeIncomparable(items)
    ensures Ascending(Sort(Before, items))
  {
    BeforeIsOrder();
    SortSorts(Before, items);
    var s := Sort(Before, items);
    forall i, j | 0 <= i < j < |s|
      ensures AtMost(s[i], s[j])
    {
      assert s[i] in multiset(items) && s[j] in multiset(items);
      var k :| 0 <= k < |items| && items[k] == s[i];
      var m :| 0 <= m < |items| && items[m] == s[j];
      assert Compare(items[k], items[m]) != TypeError;
      ComparisonExtends(s[i], s[j]);
    }
  }

  lemma SameItems(x: Value, items: seq<Value>)
    ensures IncomparableWith(x, Sort(Before, items)) <==> IncomparableWith(x, items)
  {
    BeforeIsOrder();
    SortSorts(Before, items);
    var s := Sort(Before, items);
    if k :| 0 <= k < |s| && Compare(x, s[k]) == TypeError {
      assert s[k] in multiset(items);
    }
    if k :| 0 <= k < |items| && Compare(x, items[k]) == TypeError {
      assert items[k] in multiset(s);
    }
  }

  /** The canonical value raises exactly when, at some depth, two items do not compare. */
  lemma {:induction false} CanonicalValueRaisesExactly(v: Value)
    ensures CanonicalValue(v) == if Raises(v) then Raise("TypeError") else Ok(Canonical(v))
    decreases v, 1
  {
    if v.List? {
      CanonicalItemsRaiseExactly(v.items);
      SortRaisesExactly(CanonicalItems(v.items));
    }
  }

  lemma {:induction false} CanonicalItemsRaiseExactly(items: seq<Value>)
    ensures CanonicalValueItems(items)
         == if exists i :: 0 <= i < |items| && Raises(items[i]) then Raise("TypeError") else Ok(CanonicalItems(items))
    decreases items, 0
  {
    if items != [] {
      CanonicalValueRaisesExactly(items[0]);
      CanonicalItemsRaiseExactly(items[1..]);
      assert forall i :: 0 <= i < |items| - 1 ==> items[1..][i] == items[i + 1];
      if i :| 0 <= i < |items| && Raises(items[i]) {
        assert i > 0 ==> Raises(items[1..][i - 1]);
      }
    }
  }

  ghost predicate InOrder(ns: seq<int>) {
    forall i, j :: 0 <= i < j < |ns| ==> ns[i] <= ns[j]
  }

  /** The canonical value of a list of numbers is the same numbers in ascending order. */
  lemma NumbersAscend(ns: seq<int>, sorted: seq<int>)
    requires multiset(sorted) == multiset(ns) && InOrder(sorted)
    ensures CanonicalValue(List(Atoms(ns))) == Ok(List(Atoms(sorted)))
  {
    var cs, ds := Atoms(ns), Atoms(sorted);
    AtomsAreCanonical(cs);
    SortRaisesExactly(cs);
    BeforeIsOrder();
    SortSorts(Before, cs);
    AtomsMultiset(sorted, ns);
    SortedUnique(Before, ds, Sort(Before, cs));
  }

  lemma {:induction false} AtomsAreCanonical(cs: seq<Value>)
    requires forall c :: c in cs ==> c.Atom?
    ensures CanonicalValueItems(cs) == Ok(cs)
  {
    if cs != [] {
      assert cs == [cs[0]] + cs[1..];
      AtomsAreCanonical(cs[1..]);
    }
  }

  lemma AtomsMultiset(ms: seq<int>, ns: seq<int>)
    requires multiset(ms) == multiset(ns)
    ensures multiset(Atoms(ms)) == multiset(Atoms(ns))
  {
    var q := MultisetsMatch(ms, ns);
    MatchingMultisets(Atoms(ms), Atoms(ns), q);
  }

  /** `canonical_value([1, [2]])` raises. */
  lemma MixedListRaises()
    ensures CanonicalValue(List([Atom(1), List([Atom(2)])])) == Raise("TypeError")
  {
    var items := [Atom(1), List([Atom(2)])];
    CanonicalValueRaisesExactly(List(items));
    assert Compare(CanonicalItems(items)[0], CanonicalItems(items)[1]) == TypeError;
  }

  // ----- equality of canonical forms is equality up to order

  /** `q` rearranges `0..n`. */
  ghost predicate Permutation(q: seq<nat>, n: nat) {
    && |q| == n
    && (forall i :: 0 <= i < n ==> q[i] < n)
    && (forall i, j :: 0 <= i < j < n ==> q[i] != q[j])
  }

  /** `w` is `v` with every list, at any depth, put in some other order. */
  ghost predicate Rearranged(v: Value, w: Value)
    decreases v
  {
    match (v, w)
    case (Atom(m), Atom(n)) => m == n
    case (List(xs), List(ys)) =>
      |xs| == |ys|
      && exists q: seq<nat> :: Permutation(q, |xs|)
                    && forall i :: 0 <= i < |xs| ==> Rearranged(xs[i], ys[q[i]])
    case _ => false
  }

  function Without<T>(s: seq<T>, k: nat): (r: seq<T>)
    requires k < |s|
    ensures |r| == |s| - 1
  {
    s[..k] + s[k + 1..]
  }

  lemma WithoutMultiset<T>(s: seq<T>, k: nat)
    requires k < |s|
    ensures multiset(s) == multiset(Without(s, k)) + multiset{s[k]}
  {
    assert s == s[..k] + [s[k]] + s[k + 1..];
  }

  /** Matching items along a permutation gives equal multisets. */
  lemma {:induction false} MatchingMultisets<T>(xs: seq<T>, ys: seq<T>, q: seq<nat>)
    requires |xs| == |ys| && Permutation(q, |xs|)
    requires forall i :: 0 <= i < |xs| ==> xs[i] == ys[q[i]]
    ensures multiset(xs) == multiset(ys)
    decreases |xs|
  {
    if xs != [] {
      var n := |xs| - 1;
      var k := q[n];
      var q' := seq(n, i requires 0 <= i < n => if q[i] > k then q[i] - 1 else q[i]);
      forall i | 0 <= i < n
        ensures q'[i] < n && Without(xs, n)[i] == Without(ys, k)[q'[i]]
      {
        assert q[i] != q[n];
      }
      MatchingMultisets(Without(xs, n), Without(ys, k), q');
      WithoutMultiset(xs, n);
      WithoutMultiset(ys, k);
    }
  }

  /** Extending a match of the remainders by `xs[n] == ys[k]`. */
  lemma MatchExtends<T>(xs: seq<T>, ys: seq<T>, k: nat, rest: seq<nat>) returns (q: seq<nat>)
    requires |xs| == |ys| > 0 && k < |ys| && ys[k] == xs[|xs| - 1]
    requires Permutation(rest, |xs| - 1)
    requires forall i :: 0 <= i < |rest| ==> xs[i] == Without(ys, k)[rest[i]]
    ensures Permutation(q, |xs|)
    ensures forall i :: 0 <= i < |xs| ==> xs[i] == ys[q[i]]
  {
    var n := |xs| - 1;
    q := seq(n, i requires 0 <= i < n => if rest[i] >= k then rest[i] + 1 else rest[i]) + [k];
  }

  /** Equal multisets can be matched along a permutation. */
  lemma {:induction false} MultisetsMatch<T>(xs: seq<T>, ys: seq<T>) returns (q: seq<nat>)
    requires multiset(xs) == multiset(ys)
    ensures |xs| == |ys| && Permutation(q, |xs|)
    ensures forall i :: 0 <= i < |xs| ==> xs[i] == ys[q[i]]
    decreases |xs|
  {
    assert |xs| == |multiset(xs)| == |multiset(ys)| == |ys|;
    if xs == [] {
      q := [];
    } else {
      var n := |xs| - 1;
      assert xs[n] in multiset(ys);
      var k: nat :| k < |ys| && ys[k] == xs[n];
      WithoutMultiset(xs, n);
      WithoutMultiset(ys, k);
      assert multiset(Without(xs, n)) == multiset(xs) - multiset{xs[n]};
      assert multiset(Without(ys, k)) == multiset(ys) - multiset{ys[k]};
      var rest := MultisetsMatch(Without(xs, n), Without(ys, k));
      assert forall i :: 0 <= i < n ==> xs[i] == Without(xs, n)[i];
      q := MatchExtends(xs, ys, k, rest);
    }
  }

  lemma SortForgetsOrder(xs: seq<Value>, ys: seq<Value>)
    ensures Sort(Before, xs) == Sort(Before, ys) <==> multiset(xs) == multiset(ys)
  {
    BeforeIsOrder();
    SortSorts(Before, xs);
    SortSorts(Before, ys);
    if multiset(xs) == multiset(ys) {
      SortedUnique(Before, Sort(Before, xs), Sort(Before, ys));
    }
  }

  lemma {:induction false} RearrangedSameCanonical(v: Value, w: Value)
    requires Rearranged(v, w)
    ensures Canonical(v) == Canonical(w)
    decreases v
  {
    if v.List? {
      var xs, ys := v.items, w.items;
      var cs, ds := CanonicalItems(xs), CanonicalItems(ys);
      var q: seq<nat> :| Permutation(q, |xs|) && forall i :: 0 <= i < |xs| ==> Rearranged(xs[i], ys[q[i]]);
      forall i | 0 <= i < |xs|
        ensures cs[i] == ds[q[i]]
      {
        RearrangedSameCanonical(xs[i], ys[q[i]]);
      }
      MatchingMultisets(cs, ds, q);
      SortForgetsOrder(cs, ds);
    }
  }

  lemma {:induction false} SameCanonicalRearranged(v: Value, w: Value)
    requires Canonical(v) == Canonical(w)
    ensures Rearranged(v, w)
    decreases v
  {
    if v.List? {
      var xs, ys := v.items, w.items;
      var cs, ds := CanonicalItems(xs), CanonicalItems(ys);
      SortForgetsOrder(cs, ds);
      var q := MultisetsMatch(cs, ds);
      forall i | 0 <= i < |xs|
        ensures Rearranged(xs[i], ys[q[i]])
      {
        assert cs[i] == ds[q[i]];
        SameCanonicalRearranged(xs[i], ys[q[i]]);
      }
    }
  }

  /** Two values have the same canonical form exactly when one is a rearrangement of the other. */
  lemma CanonicalExactlyWhenRearranged(v: Value, w: Value)
    ensures Canonical(v) == Canonical(w) <==> Rearranged(v, w)
  {
    if Rearranged(v, w) {
      RearrangedSameCanonical(v, w);
    }
    if Canonical(v) == Canonical(w) {
      SameCanonicalRearranged(v, w);
    }
  }

  lemma IncomparableAlongPermutation(cs: seq<Value>, ds: seq<Value>, q: seq<nat>)
    requires |cs| == |ds| && Permutation(q, |cs|)
    requires forall i :: 0 <= i < |cs| ==> cs[i] == ds[q[i]]
    requires SomeIncomparable(cs)
    ensures SomeIncomparable(ds)
  {
    var i, j :| 0 <= i < |cs| && 0 <= j < |cs| && Compare(cs[i], cs[j]) == TypeError;
    assert Compare(ds[q[i]], ds[q[j]]) == TypeError;
  }

  /** The permutation behind a rearrangement. */
  lemma RearrangedBy(v: Value, w: Value) returns (q: seq<nat>)
    requires v.List? && Rearranged(v, w)
    ensures w.List? && |v.items| == |w.items| && Permutation(q, |v.items|)
    ensures forall i :: 0 <= i < |v.items| ==> Rearranged(v.items[i], w.items[q[i]])
    ensures forall i :: 0 <= i < |v.items| ==> CanonicalItems(v.items)[i] == CanonicalItems(w.items)[q[i]]
  {
    var xs, ys := v.items, w.items;
    q :| Permutation(q, |xs|) && forall i :: 0 <= i < |xs| ==> Rearranged(xs[i], ys[q[i]]);
    forall i | 0 <= i < |xs|
      ensures CanonicalItems(xs)[i] == CanonicalItems(ys)[q[i]]
    {
      CanonicalExactlyWhenRearranged(xs[i], ys[q[i]]);
    }
  }

  lemma {:induction false} RearrangedStillRaises(v: Value, w: Value)
    requires Rearranged(v, w) && Raises(v)
    ensures Raises(w)
    decreases v
  {
    var q := RearrangedBy(v, w);
    if SomeIncomparable(CanonicalItems(v.items)) {
      IncomparableAlongPermutation(CanonicalItems(v.items), CanonicalItems(w.items), q);
    } else {
      var i :| 0 <= i < |v.items| && Raises(v.items[i]);
      RearrangedStillRaises(v.items[i], w.items[q[i]]);
    }
  }

  /** Rearranging neither causes nor cures a type error, although it changes which pairs the sort
    compares. */
  lemma RearrangedRaises(v: Value, w: Value)
    requires Rearranged(v, w)
    ensures CanonicalValue(v).Raise? <==> CanonicalValue(w).Raise?
  {
    CanonicalValueRaisesExactly(v);
    CanonicalValueRaisesExactly(w);
    CanonicalExactlyWhenRearranged(v, w);
    CanonicalExactlyWhenRearranged(w, v);
    if Raises(v) {
      RearrangedStillRaises(v, w);
    }
    if Raises(w) {
      RearrangedStillRaises(w, v);
    }
  }

  /** The canonical value, where it exists, is shared by exactly the rearrangements. */
  lemma CanonicalValueExactly(v: Value, w: Value)
    requires CanonicalValue(v).Ok?
    ensures CanonicalValue(w) == CanonicalValue(v) <==> Rearranged(v, w)
  {
    CanonicalValueRaisesExactly(v);
    CanonicalValueRaisesExactly(w);
    CanonicalExactlyWhenRearranged(v, w);
    if Rearranged(v, w) {
      RearrangedRaises(v, w);
    }
  }

  /** Canonical values are fixed: canonicalising twice is canonicalising once, and does not raise
    the second time. */
  lemma CanonicalIdempotent(v: Value)
    requires CanonicalValue(v).Ok?
    ensures CanonicalValue(CanonicalValue(v).value) == CanonicalValue(v)
  {
    CanonicalValueRaisesExactly(v);
    CanonicalRearranges(v);
    CanonicalValueExactly(v, Canonical(v));
  }

  lemma {:induction false} CanonicalRearranges(v: Value)
    ensures Rearranged(v, Canonical(v))
    decreases v
  {
    if v.List? {
      var xs := v.items;
      var cs := CanonicalItems(xs);
      BeforeIsOrder();
      SortSorts(Before, cs);
      var q := MultisetsMatch(cs, Sort(Before, cs));
      forall i | 0 <= i < |xs|
        ensures Rearranged(xs[i], Sort(Before, cs)[q[i]])
      {
        CanonicalRearranges(xs[i]);
      }
    }
  }

  // ----- every comparison sort

  /** A comparison sort of a list of known length, as the tree of its questions: is item `i` less
    than item `j`?  At a leaf it answers with the order of the items. */
  datatype Sorter = Done(order: seq<nat>) | Ask(i: nat, j: nat, yes: Sorter, no: Sorter)

  predicate AsksWithin(t: Sorter, n: nat) {
    t.Ask? ==> t.i < n && t.j < n && AsksWithin(t.yes, n) && AsksWithin(t.no, n)
  }

  /** Following the tree raises when a question compares a number with a tuple. */
  function Follow(t: Sorter, items: seq<Value>): Result<seq<nat>, string>
    requires AsksWithin(t, |items|)
  {
    match t
    case Done(order) => Ok(order)
    case Ask(i, j, yes, no) =>
      match Compare(items[i], items[j])
      case TypeError => Raise("TypeError")
      case Less => Follow(yes, items)
      case _ => Follow(no, items)
  }

  function Atoms(ns: seq<int>): (r: seq<Value>)
    ensures |r| == |ns| && forall i :: 0 <= i < |r| ==> r[i] == Atom(ns[i])
  {
    seq(|ns|, i requires 0 <= i < |ns| => Atom(ns[i]))
  }

  /** It sorts every list of `n` numbers; nothing is asked of lists with tuples. */
  ghost predicate SortsNumbers(t: Sorter, n: nat) {
    && AsksWithin(t, n)
    && forall ns: seq<int> | |ns| == n :: OrdersNumbers(Follow(t, Atoms(ns)), ns)
  }

  ghost predicate OrdersNumbers(r: Result<seq<nat>, string>, ns: seq<int>) {
    && r.Ok? && Permutation(r.value, |ns|)
    && forall a, b :: 0 <= a < b < |ns| ==> ns[r.value[a]] <= ns[r.value[b]]
  }

  /** What the sort returns. */
  function Outcome(t: Sorter, items: seq<Value>): Result<seq<Value>, string>
    requires AsksWithin(t, |items|)
  {
    match Follow(t, items)
    case Raise(e) => Raise(e)
    case Ok(order) =>
      if forall k :: 0 <= k < |order| ==> order[k] < |items| then Ok(Arranged(items, order)) else Raise("IndexError")
  }

  function Arranged(items: seq<Value>, order: seq<nat>): (r: seq<Value>)
    requires forall k :: 0 <= k < |order| ==> order[k] < |items|
    ensures |r| == |order| && forall k :: 0 <= k < |r| ==> r[k] == items[order[k]]
  {
    seq(|order|, k requires 0 <= k < |order| => items[order[k]])
  }

  /** Numbers that answer every question the items answer in the same way. */
  ghost predicate Imitate(items: seq<Value>, ns: seq<int>) {
    && |ns| == |items|
    && forall i, j | 0 <= i < |items| && 0 <= j < |items| :: Imitates(items[i], items[j], ns[i], ns[j])
  }

  ghost predicate Imitates(a: Value, b: Value, m: int, n: int) {
    match Compare(a, b)
    case Less => m < n
    case Equal => m == n
    case Greater => m > n
    case TypeError => true
  }

  lemma {:induction false} FollowImitated(t: Sorter, items: seq<Value>, ns: seq<int>)
    requires AsksWithin(t, |items|) && Imitate(items, ns) && Follow(t, items).Ok?
    ensures Follow(t, Atoms(ns)) == Follow(t, items)
    decreases t
  {
    if t.Ask? {
      assert Imitates(items[t.i], items[t.j], ns[t.i], ns[t.j]);
      if Compare(items[t.i], items[t.j]) == Less {
        FollowImitated(t.yes, items, ns);
      } else {
        FollowImitated(t.no, items, ns);
      }
    }
  }

  lemma {:induction false} FollowRaises(t: Sorter, items: seq<Value>)
    requires AsksWithin(t, |items|)
    ensures Follow(t, items).Raise? ==> Follow(t, items) == Raise("TypeError") && SomeIncomparable(items)
    decreases t
  {
    if t.Ask? {
      FollowRaises(t.yes, items);
      FollowRaises(t.no, items);
    }
  }

  /** How many items lie before `v` in the total order. */
  function Rank(items: seq<Value>, v: Value): (r: nat)
    ensures r <= |items|
  {
    if items == [] then 0 else (if Before(items[0], v) then 1 else 0) + Rank(items[1..], v)
  }

  lemma {:induction false} RankGrows(items: seq<Value>, v: Value, w: Value)
    requires Before(v, w)
    ensures Rank(items, v) <= Rank(items, w)
    ensures v in items ==> Rank(items, v) < Rank(items, w)
  {
    if items != [] {
      RankGrows(items[1..], v, w);
      BeforeIrreflexive(v);
      if Before(items[0], v) {
        BeforeTransitive(items[0], v, w);
      }
    }
  }

  /** The rank, with everything at or above `x` lifted over everything else. */
  ghost function Lifted(items: seq<Value>, x: Value, v: Value): nat {
    Rank(items, v) + if AtMost(x, v) then |items| + 1 else 0
  }

  lemma LiftedImitates(items: seq<Value>, x: Value, a: Value, b: Value)
    requires a in items && b in items
    ensures Imitates(a, b, Rank(items, a), Rank(items, b))
    ensures Imitates(a, b, Lifted(items, x, a), Lifted(items, x, b))
  {
    ComparisonExtends(a, b);
    CompareMirrors(a, b);
    if Compare(a, b) == Less {
      RankGrows(items, a, b);
      if AtMost(x, a) {
        AtMostTransitive(x, a, b);
      }
    }
    if Compare(a, b) == Greater {
      RankGrows(items, b, a);
      if AtMost(x, b) {
        CompareMirrors(b, a);
        AtMostTransitive(x, b, a);
      }
    }
  }

  ghost function Ranks(items: seq<Value>): (ns: seq<int>)
    ensures |ns| == |items| && forall i :: 0 <= i < |ns| ==> ns[i] == Rank(items, items[i])
  {
    seq(|items|, i requires 0 <= i < |items| => Rank(items, items[i]))
  }

  ghost function LiftedRanks(items: seq<Value>, x: Value): (ns: seq<int>)
    ensures |ns| == |items| && forall i :: 0 <= i < |ns| ==> ns[i] == Lifted(items, x, items[i])
  {
    seq(|items|, i requires 0 <= i < |items| => Lifted(items, x, items[i]))
  }

  lemma RanksImitate(items: seq<Value>, x: Value)
    ensures Imitate(items, Ranks(items)) && Imitate(items, LiftedRanks(items, x))
  {
    forall i, j | 0 <= i < |items| && 0 <= j < |items|
      ensures Imitates(items[i], items[j], Ranks(items)[i], Ranks(items)[j])
      ensures Imitates(items[i], items[j], LiftedRanks(items, x)[i], LiftedRanks(items, x)[j])
    {
      LiftedImitates(items, x, items[i], items[j]);
    }
  }

  /** Every index occurs in a permutation. */
  lemma {:induction false} PermutationCovers(q: seq<nat>, n: nat, k: nat)
    requires Permutation(q, n) && k < n
    ensures k in q
    decreases n
  {
    if q[n - 1] != k {
      var last := q[n - 1];
      var rest := seq(n - 1, i requires 0 <= i < n - 1 => if q[i] > last then q[i] - 1 else q[i]);
      forall i | 0 <= i < n - 1
        ensures q[i] != last
      {
      }
      PermutationCovers(rest, n - 1, if k > last then k - 1 else k);
      var i :| 0 <= i < n - 1 && rest[i] == if k > last then k - 1 else k;
      assert q[i] == k;
    }
  }

  /** A sort that gets through without raising has asked enough questions to rule out that two
    items do not compare: else it would put two such items in one order where the numbers
    imitating them can lie in either. */
  lemma NothingEscapes(t: Sorter, items: seq<Value>, i: nat, j: nat)
    requires SortsNumbers(t, |items|) && Follow(t, items).Ok?
    requires i < |items| && j < |items| && Before(items[i], items[j])
    ensures Compare(items[i], items[j]) != TypeError
  {
    var x := items[i];
    var low, high := Ranks(items), LiftedRanks(items, x);
    RanksImitate(items, x);
    SameOrder(t, items, low);
    SameOrder(t, items, high);
    RankGrows(items, items[i], items[j]);
    OrderAgrees(Follow(t, items).value, low, high, i, j);
    ComparisonExtends(x, x);
    assert AtMost(x, items[j]);
  }

  /** The sort puts the numbers that imitate the items into the order of the items. */
  lemma SameOrder(t: Sorter, items: seq<Value>, ns: seq<int>)
    requires SortsNumbers(t, |items|) && Follow(t, items).Ok? && Imitate(items, ns)
    ensures OrdersNumbers(Follow(t, items), ns)
  {
    FollowImitated(t, items, ns);
    assert OrdersNumbers(Follow(t, Atoms(ns)), ns);
  }

  /** One order for two lists of numbers: what is less in one is not greater in the other. */
  lemma OrderAgrees(order: seq<nat>, low: seq<int>, high: seq<int>, i: nat, j: nat)
    requires OrdersNumbers(Ok(order), low) && OrdersNumbers(Ok(order), high)
    requires i < |low| == |high| && j < |low| && low[i] < low[j]
    ensures high[i] <= high[j]
  {
    PermutationCovers(order, |low|, i);
    PermutationCovers(order, |low|, j);
    var a :| 0 <= a < |order| && order[a] == i;
    var b :| 0 <= b < |order| && order[b] == j;
    assert a < b;
  }

  /** Every comparison sort that sorts numbers does on all lists what `SortChecked` does: it raises
    exactly when some two items do not compare, and else returns the one sorted list. */
  lemma EveryComparisonSort(t: Sorter, items: seq<Value>)
    requires SortsNumbers(t, |items|)
    ensures Outcome(t, items) == SortChecked(items)
  {
    SortRaisesExactly(items);
    FollowRaises(t, items);
    if Follow(t, items).Ok? {
      if i, j :| 0 <= i < |items| && 0 <= j < |items| && Compare(items[i], items[j]) == TypeError {
        CompareMirrors(items[i], items[j]);
        ComparisonExtends(items[i], items[j]);
        BeforeTotal(items[i], items[j]);
        if Before(items[i], items[j]) {
          NothingEscapes(t, items, i, j);
        } else {
          NothingEscapes(t, items, j, i);
        }
      }
      SortedOutcome(t, items);
    }
  }

  lemma ArrangedByRank(items: seq<Value>, order: seq<nat>)
    requires OrdersNumbers(Ok(order), Ranks(items))
    ensures SortedBy(Before, Arranged(items, order))
  {
    var r, ns := Arranged(items, order), Ranks(items);
    forall a, b | 0 <= a < b < |r|
      ensures !Before(r[b], r[a])
    {
      assert ns[order[a]] <= ns[order[b]];
      if Before(r[b], r[a]) {
        RankGrows(items, r[b], r[a]);
      }
    }
  }

  lemma ArrangedIsSort(items: seq<Value>, order: seq<nat>)
    requires OrdersNumbers(Ok(order), Ranks(items))
    ensures Arranged(items, order) == Sort(Before, items)
  {
    var r := Arranged(items, order);
    ArrangedByRank(items, order);
    MatchingMultisets(r, items, order);
    BeforeIsOrder();
    SortSorts(Before, items);
    SortedUnique(Before, r, Sort(Before, items));
  }

  lemma SortedOutcome(t: Sorter, items: seq<Value>)
    requires SortsNumbers(t, |items|) && Follow(t, items).Ok?
    ensures Outcome(t, items) == Ok(Sort(Before, items))
  {
    var ns := Ranks(items);
    RanksImitate(items, Atom(0));
    SameOrder(t, items, ns);
    ArrangedIsSort(items, Follow(t, items).value);
  }

  /** Two items: one question is a comparison sort. */
  lemma OneQuestionSorts()
    ensures SortsNumbers(Ask(1, 0, Done([1, 0]), Done([0, 1])), 2)
  {
    forall ns: seq<int> | |ns| == 2
      ensures OrdersNumbers(Follow(Ask(1, 0, Done([1, 0]), Done([0, 1])), Atoms(ns)), ns)
    {
    }
  }
}
