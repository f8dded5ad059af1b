/** Sequence vocabulary shared by the queue, scheduler and table models. */
module Seqs {

  datatype Option<+T> = None | Some(value: T)

  ghost predicate Distinct<T>(s: seq<T>) {
    forall i, j :: 0 <= i < j < |s| ==> s[i] != s[j]
  }

  /** `s` without its first occurrence of `x`. */
  function Without<T(==)>(s: seq<T>, x: T): seq<T> {
    if s == [] then []
    else if s[0] == x then s[1..]
    else [s[0]] + Without(s[1..], x)
  }

  /** `s` without its element at `k`. */
  function Splice<T>(s: seq<T>, k: nat): (r: seq<T>)
    requires k < |s|
    ensures |r| == |s| - 1
  {
    s[..k] + s[k + 1..]
  }

  /** The index of the first occurrence of `x`, or the length. */
  function Position<T(==)>(s: seq<T>, x: T): (k: nat)
    ensures k <= |s| && (k < |s| <==> x in s)
    ensures x !in s[..k] && (k < |s| ==> s[k] == x)
  {
    if s == [] || s[0] == x then 0
    else
      var k := Position(s[1..], x) + 1;
      assert s[..k] == [s[0]] + s[1..][..k - 1];
      k
  }

  /** What `after` has lost of `before`. */
  ghost function Gone<T>(before: seq<T>, after: seq<T>): set<T> {
    set x | x in before && x !in after
  }

  /** The elements of `s` that satisfy `keep`, in order. */
  function Keep<T>(s: seq<T>, keep: T -> bool): seq<T> {
    if s == [] then []
    else if keep(s[0]) then [s[0]] + Keep(s[1..], keep)
    else Keep(s[1..], keep)
  }

  /** Deleting the first match at index `k` splices that one element out. */
  lemma {:induction false} WithoutSplices<T>(s: seq<T>, x: T, k: nat)
    requires k < |s| && s[k] == x && x !in s[..k]
    ensures Without(s, x) == Splice(s, k) && Position(s, x) == k
  {
    if k > 0 {
      assert s[0] in s[..k];
      assert s[1..][..k - 1] == s[..k][1..];
      assert s[1..][k..] == s[k + 1..];
      WithoutSplices(s[1..], x, k - 1);
      assert [s[0]] + (s[1..][..k - 1] + s[k + 1..]) == s[..k] + s[k + 1..];
    } else {
      assert s[..0] + s[1..] == s[1..];
    }
  }

  /** From a duplicate-free sequence, deletion removes `x` and nothing else. */
  lemma {:induction false} WithoutDistinct<T>(s: seq<T>, x: T)
    requires Distinct(s)
    ensures Distinct(Without(s, x))
    ensures forall y :: y in Without(s, x) <==> y in s && y != x
  {
    if s == [] {
    } else {
      assert Distinct(s[1..]);
      assert forall y :: y in s <==> y == s[0] || y in s[1..];
      WithoutDistinct(s[1..], x);
      if s[0] != x {
        var rest := Without(s[1..], x);
        assert s[0] !in rest;
        assert forall y :: y in [s[0]] + rest <==> y == s[0] || y in rest;
      }
    }
  }

  lemma {:induction false} KeepMembers<T>(s: seq<T>, keep: T -> bool)
    ensures forall y :: y in Keep(s, keep) <==> y in s && keep(y)
  {
    if s == [] {
    } else {
      KeepMembers(s[1..], keep);
      assert forall y :: y in s <==> y == s[0] || y in s[1..];
    }
  }

  lemma {:induction false} KeepConcat<T>(a: seq<T>, b: seq<T>, keep: T -> bool)
    ensures Keep(a + b, keep) == Keep(a, keep) + Keep(b, keep)
  {
    if a == [] {
      assert a + b == b;
    } else {
      assert (a + b)[1..] == a[1..] + b;
      KeepConcat(a[1..], b, keep);
    }
  }

  lemma DistinctSnoc<T>(s: seq<T>, x: T)
    requires Distinct(s) && x !in s
    ensures Distinct(s + [x])
    ensures forall y :: y in s + [x] <==> y in s || y == x
  {
  }
}
