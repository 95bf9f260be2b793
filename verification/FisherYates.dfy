/** The in-place shuffle that the file slots and the line shuffler share, step by step. */
module FisherYates {
  import opened Arithmetic

  function Swapped(a: seq<nat>, i: nat, j: nat): (s: seq<nat>)
    requires i < |a| && j < |a|
    ensures |s| == |a|
  {
    seq(|a|, k requires 0 <= k < |a| => if k == i then a[j] else if k == j then a[i] else a[k])
  }

  /** The place that is swapped into place i of n. */
  function Partner(i: nat, n: nat, draw: nat): (j: nat)
    requires i < n
    ensures i <= j < n
  {
    draw % (n - i) + i
  }

  function Partners(n: nat, draws: seq<nat>): (ps: seq<nat>)
    requires n <= |draws|
    ensures ArePartners(ps, n)
  {
    seq(n, i requires 0 <= i < n => Partner(i, n, draws[i]))
  }

  /** Each place's partner is a place not settled before. */
  ghost predicate ArePartners(ps: seq<nat>, n: nat) {
    |ps| == n && forall i | 0 <= i < n :: i <= ps[i] < n
  }

  /** The sequence after the first k steps: step i settles place i. */
  function Shuffled(a: seq<nat>, ps: seq<nat>, k: nat): (s: seq<nat>)
    requires ArePartners(ps, |a|) && k <= |a|
    ensures |s| == |a|
  {
    if k == 0 then a else Swapped(Shuffled(a, ps, k - 1), k - 1, ps[k - 1])
  }

  lemma {:induction false} SwapPermutes(a: seq<nat>, i: nat, j: nat)
    requires i < |a| && j < |a|
    ensures multiset(Swapped(a, i, j)) == multiset(a)
  {
    assert Swapped(a, i, j) == a[i := a[j]][j := a[i]];
  }

  /** Whatever the draws, the elements stay the same. */
  lemma {:induction false} ShuffledPermutes(a: seq<nat>, ps: seq<nat>, k: nat)
    requires ArePartners(ps, |a|) && k <= |a|
    ensures multiset(Shuffled(a, ps, k)) == multiset(a)
    decreases k
  {
    if k != 0 {
      ShuffledPermutes(a, ps, k - 1);
      SwapPermutes(Shuffled(a, ps, k - 1), k - 1, ps[k - 1]);
    }
  }

  /** The draws of one place, each remainder one partner: with remainder r the partner is r places on. */
  lemma {:induction false} PartnerIsDrawn(i: nat, n: nat, q: nat, r: nat)
    requires i < n && r < n - i
    ensures Partner(i, n, (n - i) * q + r) == i + r
  {
    DivModUnique((n - i) * q + r, n - i, q, r);
  }

  /** So draws of 0 leave the order as it is. */
  lemma {:induction false} ZeroDrawsStay(a: seq<nat>, k: nat)
    requires k <= |a|
    ensures Shuffled(a, Partners(|a|, seq(|a|, _ => 0)), k) == a
    decreases k
  {
    if k != 0 {
      ZeroDrawsStay(a, k - 1);
      PartnerIsDrawn(k - 1, |a|, 0, 0);
    }
  }

  /** Settled places never change again. */
  lemma {:induction false} SettledStays(a: seq<nat>, ps: seq<nat>, k: nat, m: nat)
    requires ArePartners(ps, |a|) && k <= m <= |a|
    ensures Shuffled(a, ps, m)[..k] == Shuffled(a, ps, k)[..k]
    decreases m
  {
    if k < m {
      SettledStays(a, ps, k, m - 1);
      SwapKeepsFront(Shuffled(a, ps, m - 1), m - 1, ps[m - 1], k);
    }
  }

  lemma {:induction false} SwapKeepsFront(s: seq<nat>, i: nat, j: nat, k: nat)
    requires k <= i < |s| && k <= j < |s|
    ensures Swapped(s, i, j)[..k] == s[..k]
  {
  }

  lemma {:induction false} OnlyEarlierPartners(a: seq<nat>, ps: seq<nat>, others: seq<nat>, k: nat)
    requires ArePartners(ps, |a|) && ArePartners(others, |a|) && k <= |a|
    requires forall i | 0 <= i < k :: ps[i] == others[i]
    ensures Shuffled(a, ps, k) == Shuffled(a, others, k)
    decreases k
  {
    if k != 0 {
      OnlyEarlierPartners(a, ps, others, k - 1);
    }
  }

  /** An element that still has to come stands behind the settled places. */
  lemma {:induction false} StillToCome(s: seq<nat>, target: seq<nat>, k: nat) returns (j: nat)
    requires multiset(s) == multiset(target) && k < |target| == |s| && s[..k] == target[..k]
    ensures k <= j < |s| && s[j] == target[k]
  {
    SameRest(s, target, k);
    var rest := s[k..];
    assert target[k..][0] in multiset(rest);
    var i :| 0 <= i < |rest| && rest[i] == target[k];
    j := k + i;
  }

  lemma {:induction false} SameRest(s: seq<nat>, target: seq<nat>, k: nat)
    requires multiset(s) == multiset(target) && k <= |target| == |s| && s[..k] == target[..k]
    ensures multiset(s[k..]) == multiset(target[k..])
  {
    assert s == s[..k] + s[k..] && target == target[..k] + target[k..];
    assert multiset(s[k..]) == multiset(s) - multiset(s[..k]);
    assert multiset(target[k..]) == multiset(target) - multiset(target[..k]);
  }

  lemma {:induction false} NextPlaceSettled(s: seq<nat>, target: seq<nat>, i: nat, j: nat)
    requires i <= j < |s| == |target| && s[..i] == target[..i] && s[j] == target[i]
    ensures Swapped(s, i, j)[..i + 1] == target[..i + 1]
  {
    assert Swapped(s, i, j)[..i + 1] == s[..i] + [target[i]];
    assert target[..i + 1] == target[..i] + [target[i]];
  }

  lemma {:induction false} OrderReached(a: seq<nat>, target: seq<nat>, k: nat) returns (ps: seq<nat>)
    requires multiset(a) == multiset(target) && k <= |a| == |target|
    ensures ArePartners(ps, |a|) && Shuffled(a, ps, k)[..k] == target[..k]
    decreases k
  {
    if k == 0 {
      ps := seq(|a|, i => i);
    } else {
      var before := OrderReached(a, target, k - 1);
      var s := Shuffled(a, before, k - 1);
      ShuffledPermutes(a, before, k - 1);
      var j := StillToCome(s, target, k - 1);
      ps := before[k - 1 := j];
      OnlyEarlierPartners(a, before, ps, k - 1);
      NextPlaceSettled(s, target, k - 1, j);
    }
  }

  /** Every order of the elements is the outcome of some draws. */
  lemma {:induction false} EveryOrderReached(a: seq<nat>, target: seq<nat>) returns (draws: seq<nat>)
    requires multiset(a) == multiset(target)
    ensures |draws| == |a| && Shuffled(a, Partners(|a|, draws), |a|) == target
  {
    var n := |a|;
    assert |multiset(a)| == n && |multiset(target)| == |target|;
    var ps := OrderReached(a, target, n);
    draws := seq(n, i requires 0 <= i < n => if i <= ps[i] then ps[i] - i else 0);
    forall i | 0 <= i < n
      ensures Partners(n, draws)[i] == ps[i]
    {
      DivModUnique(ps[i] - i, n - i, 0, ps[i] - i);
    }
    assert Partners(n, draws) == ps;
    assert target[..n] == target && Shuffled(a, ps, n)[..n] == Shuffled(a, ps, n);
  }
}
