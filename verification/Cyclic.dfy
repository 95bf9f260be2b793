/** Reading a sequence cyclically. */
module Cyclic {
  import opened Arithmetic

  /** |a| consecutive elements of the endless repetition of a, from position s on. */
  function Window<T>(a: seq<T>, s: nat): (w: seq<T>)
    requires a != []
    ensures |w| == |a|
  {
    seq(|a|, i requires 0 <= i < |a| => a[(s + i) % |a|])
  }

  /** Wherever it starts, a full window holds every element as often as the sequence does. */
  lemma {:induction false} WindowIsPermutation<T>(a: seq<T>, s: nat)
    requires a != []
    ensures multiset(Window(a, s)) == multiset(a)
  {
    var n, r := |a|, s % |a|;
    forall i | 0 <= i < n
      ensures Window(a, s)[i] == (a[r..] + a[..r])[i]
    {
      assert s == n * (s / n) + r;
      if r + i < n {
        DivModUnique(s + i, n, s / n, r + i);
      } else {
        assert n * (s / n + 1) == n * (s / n) + n;
        DivModUnique(s + i, n, s / n + 1, r + i - n);
      }
    }
    assert Window(a, s) == a[r..] + a[..r];
    assert a == a[..r] + a[r..];
  }

  lemma {:induction false} WindowCount<T>(a: seq<T>, s: nat, x: T)
    requires a != []
    ensures multiset(Window(a, s))[x] == multiset(a)[x]
  {
    WindowIsPermutation(a, s);
  }
}
