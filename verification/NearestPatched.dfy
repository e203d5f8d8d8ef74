/** `nearest_patched_package` in vulnerabilities/utils.py: each vulnerable package is paired
  with the closest later fix by sorting both lists and bisecting. */
module NearestPatched {
  import opened Options
  import opened Ordering

  /** A package URL with its version; packages are compared by version alone. */
  datatype VersionedPackage<V> = VersionedPackage(purl: string, version: V)

  datatype AffectedPackage<V> = AffectedPackage(vulnerable: VersionedPackage<V>,
                                                patched: Option<VersionedPackage<V>>)

  /** `VersionedPackage.__lt__`. */
  function ByVersion<V>(lt: (V, V) -> bool): (VersionedPackage<V>, VersionedPackage<V>) -> bool {
    (a: VersionedPackage<V>, b: VersionedPackage<V>) => lt(a.version, b.version)
  }

  lemma ByVersionIsStrictWeak<V(!new)>(lt: (V, V) -> bool)
    requires StrictWeak(lt)
    ensures StrictWeak(ByVersion(lt))
  {
    var order := ByVersion(lt);
    forall x: VersionedPackage<V> | true
      ensures !order(x, x)
    {
      assert !lt(x.version, x.version);
    }
    forall x, y, z | order(x, z)
      ensures order(x, y) || order(y, z)
    {
      assert lt(x.version, z.version);
      assert lt(x.version, y.version) || lt(y.version, z.version);
    }
    forall x, y, z | order(x, y) && order(y, z)
      ensures order(x, z)
    {
      assert lt(x.version, y.version) && lt(y.version, z.version);
    }
  }

  /** `bisect.bisect_right` between `lo` and `hi`: the first position after everything that is
    not greater than `x`. */
  function BisectRight<T(!new)>(lt: (T, T) -> bool, a: seq<T>, x: T, lo: nat, hi: nat): (i: nat)
    requires StrictWeak(lt) && SortedBy(lt, a)
    requires lo <= hi <= |a|
    requires forall j :: 0 <= j < lo ==> !lt(x, a[j])
    requires forall j :: hi <= j < |a| ==> lt(x, a[j])
    ensures i <= |a|
    ensures forall j :: 0 <= j < |a| ==> (j < i <==> !lt(x, a[j]))
    decreases hi - lo
  {
    if lo == hi then lo
    else
      var mid := (lo + hi) / 2;
      if lt(x, a[mid]) then
        assert forall j :: mid < j < |a| ==> !lt(a[j], a[mid]);
        BisectRight(lt, a, x, lo, mid)
      else
        assert forall j :: 0 <= j < mid ==> !lt(a[mid], a[j]);
        BisectRight(lt, a, x, mid + 1, hi)
  }

  /** `p` is a resolved package of least version above that of `v`. */
  ghost predicate IsNearest<V>(lt: (V, V) -> bool, resolved: seq<VersionedPackage<V>>,
                               v: VersionedPackage<V>, p: VersionedPackage<V>)
  {
    && p in resolved
    && lt(v.version, p.version)
    && forall q :: q in resolved && lt(v.version, q.version) ==> !lt(q.version, p.version)
  }

  ghost predicate Paired<V>(lt: (V, V) -> bool, resolved: seq<VersionedPackage<V>>, a: AffectedPackage<V>) {
    match a.patched
    case Some(p) => IsNearest(lt, resolved, a.vulnerable, p)
    case None => forall q :: q in resolved ==> !lt(a.vulnerable.version, q.version)
  }

  /** What the list of pairs promises. */
  ghost predicate Answers<V>(lt: (V, V) -> bool, vulnerable: seq<VersionedPackage<V>>,
                             resolved: seq<VersionedPackage<V>>, r: seq<AffectedPackage<V>>)
  {
    var vs := seq(|r|, i requires 0 <= i < |r| => r[i].vulnerable);
    && multiset(vs) == multiset(vulnerable)
    && SortedBy(ByVersion(lt), vs)
    && (forall a :: a in r ==> Paired(lt, resolved, a))
    && NeverDecreasing(lt, r)
  }

  /** Once a package has no fix, neither has any later one; and fixes never go back. */
  ghost predicate NeverDecreasing<V>(lt: (V, V) -> bool, r: seq<AffectedPackage<V>>) {
    forall i, j :: 0 <= i < j < |r| && r[j].patched.Some? ==>
                     r[i].patched.Some? && !lt(r[j].patched.value.version, r[i].patched.value.version)
  }

  lemma PairsNeverDecrease<V(!new)>(lt: (V, V) -> bool, resolved: seq<VersionedPackage<V>>,
                                    r: seq<AffectedPackage<V>>)
    requires StrictWeak(lt)
    requires forall a :: a in r ==> Paired(lt, resolved, a)
    requires forall i, j :: 0 <= i < j < |r| ==> !lt(r[j].vulnerable.version, r[i].vulnerable.version)
    ensures NeverDecreasing(lt, r)
  {
    forall i, j | 0 <= i < j < |r| && r[j].patched.Some?
      ensures r[i].patched.Some? && !lt(r[j].patched.value.version, r[i].patched.value.version)
    {
      var v, w, p := r[i].vulnerable.version, r[j].vulnerable.version, r[j].patched.value;
      assert Paired(lt, resolved, r[i]) && Paired(lt, resolved, r[j]);
      assert lt(w, p.version) && !lt(w, v);
      assert lt(v, p.version);
    }
  }

  method NearestPatchedPackage<V(!new)>(lt: (V, V) -> bool, vulnerable: seq<VersionedPackage<V>>,
                                        resolved: seq<VersionedPackage<V>>)
    returns (r: seq<AffectedPackage<V>>)
    requires StrictWeak(lt)
    ensures Answers(lt, vulnerable, resolved, r)
  {
    var order := ByVersion(lt);
    ByVersionIsStrictWeak(lt);
    var vs, rs := Sort(order, vulnerable), Sort(order, resolved);
    SortSorts(order, vulnerable);
    SortSorts(order, resolved);
    r := [];
    for n := 0 to |vs|
      invariant |r| == n && forall i :: 0 <= i < n ==> r[i].vulnerable == vs[i] && Paired(lt, resolved, r[i])
    {
      var index := BisectRight(order, rs, vs[n], 0, |rs|);
      var patched := if index < |rs| then Some(rs[index]) else None;
      NearestAtBisection(lt, resolved, rs, vs[n], index);
      r := r + [AffectedPackage(vs[n], patched)];
    }
    assert seq(|r|, i requires 0 <= i < |r| => r[i].vulnerable) == vs;
    forall i, j | 0 <= i < j < |r|
      ensures !lt(r[j].vulnerable.version, r[i].vulnerable.version)
    {
      assert !order(vs[j], vs[i]);
    }
    PairsNeverDecrease(lt, resolved, r);
  }

  lemma NearestAtBisection<V(!new)>(lt: (V, V) -> bool, resolved: seq<VersionedPackage<V>>,
                                    rs: seq<VersionedPackage<V>>, v: VersionedPackage<V>, index: nat)
    requires SortedBy(ByVersion(lt), rs) && multiset(rs) == multiset(resolved) && index <= |rs|
    requires forall j :: 0 <= j < |rs| ==> (j < index <==> !ByVersion(lt)(v, rs[j]))
    requires StrictWeak(lt)
    ensures Paired(lt, resolved, AffectedPackage(v, if index < |rs| then Some(rs[index]) else None))
  {
    forall q | q in resolved
      ensures exists j :: 0 <= j < |rs| && rs[j] == q
    {
      assert q in multiset(rs);
    }
    if index < |rs| {
      assert rs[index] in multiset(resolved);
      assert ByVersion(lt)(v, rs[index]);
      forall q | q in resolved && lt(v.version, q.version)
        ensures !lt(q.version, rs[index].version)
      {
        var j :| 0 <= j < |rs| && rs[j] == q;
        assert ByVersion(lt)(v, rs[j]);
        assert j > index ==> !ByVersion(lt)(rs[j], rs[index]);
      }
    } else {
      forall q | q in resolved
        ensures !lt(v.version, q.version)
      {
        var j :| 0 <= j < |rs| && rs[j] == q;
        assert !ByVersion(lt)(v, rs[j]);
      }
    }
  }
}
