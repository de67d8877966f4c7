/** Priorities. The source keys entries by float64 and only ever compares them;
    NaN never occurs and -inf is the reserved sentinel of the deletion path. */
module Keys {

  datatype Key = NegInf | Fin(r: real) | PosInf

  /** Go's `a <= b` on non-NaN float64 values: finite values compare as
      reals, -inf lies below and +inf above every other value. */
  function Le(a: Key, b: Key): (r: bool)
    ensures a.Fin? && b.Fin? ==> (r <==> a.r <= b.r)
    ensures a.NegInf? || b.PosInf? ==> r
    ensures r && a.PosInf? ==> b.PosInf?
    ensures r && b.NegInf? ==> a.NegInf?
  {
    a.NegInf? || b.PosInf? || (a.Fin? && b.Fin? && a.r <= b.r)
  }

  /** Go's `a < b` on non-NaN float64 values: the strict part of Le. */
  function Less(a: Key, b: Key): (r: bool)
    ensures r <==> Le(a, b) && a != b
    ensures a.Fin? && b.Fin? ==> (r <==> a.r < b.r)
  {
    !Le(b, a)
  }

  lemma LeTotalOrder(a: Key, b: Key, c: Key)
    ensures Le(a, a)
    ensures Le(a, b) || Le(b, a)
    ensures Le(a, b) && Le(b, a) ==> a == b
    ensures Le(a, b) && Le(b, c) ==> Le(a, c)
    ensures Less(a, b) <==> Le(a, b) && a != b
  {
  }

  /** The smaller of two keys. */
  function Smaller(a: Key, b: Key): (m: Key)
    ensures Le(m, a) && Le(m, b)
    ensures m == a || m == b
  {
    if Le(a, b) then a else b
  }

  /** `k` is the least key stored in `m`. */
  ghost predicate IsLeast<T>(m: map<T, Key>, k: Key) {
    (exists t :: t in m && m[t] == k) && forall t :: t in m ==> Le(k, m[t])
  }

  lemma LeastUnique<T>(m: map<T, Key>, k1: Key, k2: Key)
    requires IsLeast(m, k1) && IsLeast(m, k2)
    ensures k1 == k2
  {
    var t1 :| t1 in m && m[t1] == k1;
    var t2 :| t2 in m && m[t2] == k2;
    LeTotalOrder(k1, k2, k1);
  }

  /** The least key of two disjoint collections put together is the smaller of their least keys. */
  lemma LeastOfUnion<T>(a: map<T, Key>, b: map<T, Key>, ka: Key, kb: Key)
    requires a.Keys !! b.Keys
    requires IsLeast(a, ka) && IsLeast(b, kb)
    ensures IsLeast(a + b, Smaller(ka, kb))
  {
    var ta :| ta in a && a[ta] == ka;
    var tb :| tb in b && b[tb] == kb;
    var m := Smaller(ka, kb);
    assert (a + b)[ta] == ka && (a + b)[tb] == kb;
    forall t | t in a + b ensures Le(m, (a + b)[t]) {
      if t in b {
        LeTotalOrder(m, kb, b[t]);
      } else {
        LeTotalOrder(m, ka, a[t]);
      }
    }
  }

  /** Removing a least entry never makes the least key smaller: successive
      minima come out in non-decreasing order. */
  lemma SuccessiveLeastNondecreasing<T>(m: map<T, Key>, t: T, k: Key, k2: Key)
    requires t in m && IsLeast(m, k) && IsLeast(m - {t}, k2)
    ensures Le(k, k2)
  {
    var t2 :| t2 in m - {t} && (m - {t})[t2] == k2;
    assert m[t2] == k2;
  }
}
