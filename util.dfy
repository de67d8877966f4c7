/** Small helpers: an optional value and the sequence operations that stand in
    for Go's container/list (PushBack is `+ [x]`, Remove is RemoveAt/Without). */
module Util {

  datatype Option<T> = None | Some(value: T)

  /** No element occurs twice: a linked list never holds one element twice. */
  ghost predicate Distinct<X>(s: seq<X>) {
    forall i, j :: 0 <= i < j < |s| ==> s[i] != s[j]
  }

  ghost function Elems<X>(s: seq<X>): set<X> {
    set x | x in s
  }

  /** `s` with every occurrence of `x` removed, order kept (list.Remove of x's element). */
  function Without(s: seq<nat>, x: nat): (r: seq<nat>)
    ensures forall y :: y in r <==> y in s && y != x
    ensures Distinct(s) ==> Distinct(r)
    ensures Distinct(s) && x in s ==> |r| == |s| - 1
    ensures x !in s ==> r == s
  {
    if s == [] then []
    else if s[0] == x then Without(s[1..], x)
    else
      var rest := Without(s[1..], x);
      assert Distinct(s) ==> Distinct([s[0]] + rest) by {
        if Distinct(s) {
          DistinctTail(s);
          DistinctConcat([s[0]], rest);
        }
      }
      [s[0]] + rest
  }

  /** `s` with position `j` removed (list.Remove of the element at a cursor). */
  function RemoveAt(s: seq<nat>, j: nat): (r: seq<nat>)
    requires j < |s|
    ensures |r| == |s| - 1
    ensures forall k :: 0 <= k < |r| ==> r[k] == if k < j then s[k] else s[k + 1]
    ensures Distinct(s) ==> Distinct(r) && forall y :: y in r <==> y in s && y != s[j]
  {
    s[..j] + s[j + 1..]
  }

  /** The first position holding `x`. */
  function IndexOf<X(==)>(s: seq<X>, x: X): (i: nat)
    requires x in s
    ensures i < |s| && s[i] == x && x !in s[..i]
  {
    if s[0] == x then 0 else 1 + IndexOf(s[1..], x)
  }

  /** IndexOf finds the first occurrence: no later than any position holding x. */
  lemma IndexOfFirst<X>(s: seq<X>, x: X, k: nat)
    requires k < |s| && s[k] == x
    ensures IndexOf(s, x) <= k
  {
    if s[0] != x {
      IndexOfFirst(s[1..], x, k - 1);
    }
  }

  /** An upper bound of every element (the largest, or 0 for the empty sequence). */
  function SeqMax(s: seq<nat>): (m: nat)
    ensures forall k :: 0 <= k < |s| ==> s[k] <= m
    ensures s != [] ==> m in s
  {
    if s == [] then 0
    else
      var rest := SeqMax(s[1..]);
      if s[0] > rest then s[0] else rest
  }

  function Max(a: nat, b: nat): nat {
    if a < b then b else a
  }

  lemma DistinctTail<X>(s: seq<X>)
    requires Distinct(s) && s != []
    ensures Distinct(s[1..]) && s[0] !in s[1..]
  {
    assert forall k :: 0 <= k < |s| - 1 ==> s[1..][k] == s[k + 1];
  }

  lemma DistinctAppend<X>(s: seq<X>, x: X)
    requires Distinct(s) && x !in s
    ensures Distinct(s + [x])
  {
  }

  lemma DistinctPrefix<X>(s: seq<X>, x: X)
    requires Distinct(s + [x])
    ensures Distinct(s) && x !in s
  {
    assert forall k :: 0 <= k < |s| ==> (s + [x])[k] == s[k];
    assert (s + [x])[|s|] == x;
  }

  lemma DistinctConcat<X>(s: seq<X>, t: seq<X>)
    requires Distinct(s) && Distinct(t)
    requires forall x :: x in s ==> x !in t
    ensures Distinct(s + t)
  {
    forall i, j | 0 <= i < j < |s + t| ensures (s + t)[i] != (s + t)[j] {
      if j < |s| {
      } else if i >= |s| {
        assert (s + t)[i] == t[i - |s|] && (s + t)[j] == t[j - |s|];
      } else {
        assert (s + t)[i] == s[i] && (s + t)[j] == t[j - |s|];
        assert s[i] in s;
      }
    }
  }
}
