/** Sorting with a strict weak order, as `sorted` does with objects that only define `<`. */
module Ordering {

  /** `<` of a total preorder: what the version classes of a package type provide. */
  ghost predicate StrictWeak<T(!new)>(lt: (T, T) -> bool) {
    && (forall x :: !lt(x, x))
    && (forall x, y, z :: lt(x, y) && lt(y, z) ==> lt(x, z))
    && (forall x, y, z :: lt(x, z) ==> lt(x, y) || lt(y, z))
  }

  ghost predicate SortedBy<T>(lt: (T, T) -> bool, s: seq<T>) {
    forall i, j :: 0 <= i < j < |s| ==> !lt(s[j], s[i])
  }

  /** Put `x`, which comes first, before its equals. */
  function Insert<T>(lt: (T, T) -> bool, x: T, s: seq<T>): seq<T> {
    if s == [] || !lt(s[0], x) then [x] + s else [s[0]] + Insert(lt, x, s[1..])
  }

  /** `sorted`. */
  function Sort<T>(lt: (T, T) -> bool, s: seq<T>): (r: seq<T>)
    ensures |r| == |s|
  {
    if s == [] then [] else InsertLength(lt, s[0], Sort(lt, s[1..])); Insert(lt, s[0], Sort(lt, s[1..]))
  }

  lemma {:induction false} InsertLength<T>(lt: (T, T) -> bool, x: T, s: seq<T>)
    ensures |Insert(lt, x, s)| == |s| + 1
    ensures multiset(Insert(lt, x, s)) == multiset(s) + multiset{x}
  {
    if s == [] || !lt(s[0], x) {
    } else {
      InsertLength(lt, x, s[1..]);
      assert s == [s[0]] + s[1..];
    }
  }

  lemma {:induction false} InsertSorts<T(!new)>(lt: (T, T) -> bool, x: T, s: seq<T>)
    requires StrictWeak(lt) && SortedBy(lt, s)
    ensures SortedBy(lt, Insert(lt, x, s))
  {
    var r := Insert(lt, x, s);
    if s == [] {
    } else if !lt(s[0], x) {
      forall j | 0 <= j < |s|
        ensures !lt(s[j], x)
      {
        assert j > 0 ==> !lt(s[j], s[0]);
      }
    } else {
      InsertSorts(lt, x, s[1..]);
      InsertLength(lt, x, s[1..]);
      var rest := Insert(lt, x, s[1..]);
      forall j | 0 <= j < |rest|
        ensures !lt(rest[j], s[0])
      {
        assert rest[j] in multiset(rest);
        assert rest[j] == x || rest[j] in s[1..];
        if rest[j] in s[1..] {
          var k :| 0 <= k < |s[1..]| && s[1..][k] == rest[j];
          assert !lt(s[k + 1], s[0]);
        }
      }
    }
  }

  /** The result is sorted and a permutation. */
  lemma {:induction false} SortSorts<T(!new)>(lt: (T, T) -> bool, s: seq<T>)
    requires StrictWeak(lt)
    ensures SortedBy(lt, Sort(lt, s)) && multiset(Sort(lt, s)) == multiset(s)
  {
    if s != [] {
      SortSorts(lt, s[1..]);
      InsertSorts(lt, s[0], Sort(lt, s[1..]));
      InsertLength(lt, s[0], Sort(lt, s[1..]));
      assert s == [s[0]] + s[1..];
    }
  }

  ghost predicate NeverTied<T(!new)>(lt: (T, T) -> bool) {
    forall x, y :: lt(x, y) || lt(y, x) || x == y
  }

  lemma SameHead<T(!new)>(lt: (T, T) -> bool, s: seq<T>, t: seq<T>)
    requires NeverTied(lt) && SortedBy(lt, s) && SortedBy(lt, t)
    requires |s| > 0 && |t| > 0 && s[0] in t && t[0] in s
    ensures s[0] == t[0]
  {
    var i :| 0 <= i < |t| && t[i] == s[0];
    var j :| 0 <= j < |s| && s[j] == t[0];
    assert i > 0 ==> !lt(t[i], t[0]);
    assert j > 0 ==> !lt(s[j], s[0]);
    assert lt(s[0], t[0]) || lt(t[0], s[0]) || s[0] == t[0];
  }

  lemma TailMultiset<T>(s: seq<T>)
    requires |s| > 0
    ensures multiset(s[1..]) == multiset(s) - multiset{s[0]}
  {
    assert s == [s[0]] + s[1..];
  }

  /** Where two elements are never tied, a sorted sequence is determined by its multiset. */
  lemma {:induction false} SortedUnique<T(!new)>(lt: (T, T) -> bool, s: seq<T>, t: seq<T>)
    requires NeverTied(lt) && SortedBy(lt, s) && SortedBy(lt, t)
    requires multiset(s) == multiset(t)
    ensures s == t
  {
    assert |s| == |multiset(s)| == |multiset(t)| == |t|;
    if s != [] {
      assert s[0] in multiset(t) && t[0] in multiset(s);
      SameHead(lt, s, t);
      TailMultiset(s);
      TailMultiset(t);
      SortedUnique(lt, s[1..], t[1..]);
      assert s == [s[0]] + s[1..] && t == [t[0]] + t[1..];
    }
  }
}
