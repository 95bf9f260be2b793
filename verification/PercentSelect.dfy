/**
 Percentage children: a parent's rows are shared out among its children by percentage, and each produced
 row goes to the child whose share the row number falls into.

 The children's row counters are kept in the parent, by child position.
 */
module PercentSelect {
  import opened Options
  import opened Arithmetic
  import opened Cyclic

  const TWO_31: int := 0x8000_0000
  const TWO_32: int := 0x1_0000_0000

  /** Conversion to a signed 32-bit integer. */
  function ToInt32(x: int): int {
    (x + TWO_31) % TWO_32 - TWO_31
  }

  /** Conversion of a non-integer to an integer drops the fraction. */
  function Truncate(x: real): int {
    if x >= 0.0 then x.Floor else -((-x).Floor)
  }

  // ----------------------------------------------------------------- quotas

  /** A child without a percentage keeps the -1 it was built with. */
  function Share(percent: Option<real>, n: nat): int {
    match percent case None => -1 case Some(p) => Truncate(n as real * p / 100.0)
  }

  function Shares(percents: seq<Option<real>>, n: nat): (s: seq<int>)
    ensures |s| == |percents|
  {
    seq(|percents|, i requires 0 <= i < |percents| => Share(percents[i], n))
  }

  /** The rows given to percentage children. */
  function Given(percents: seq<Option<real>>, toCreate: seq<int>): int
    requires |percents| == |toCreate|
  {
    if percents == [] then 0
    else
      var last := |percents| - 1;
      Given(percents[..last], toCreate[..last]) + if percents[last].Some? then toCreate[last] else 0
  }

  /** The last percentage child, or -1. */
  function LastPercent(percents: seq<Option<real>>): (i: int)
    ensures -1 <= i < |percents|
    ensures i >= 0 ==> percents[i].Some?
    ensures forall j | i < j < |percents| :: percents[j].None?
  {
    if percents == [] then -1
    else if percents[|percents| - 1].Some? then |percents| - 1
    else LastPercent(percents[..|percents| - 1])
  }

  /** The first percentage child, or the number of children. */
  function FirstPercent(percents: seq<Option<real>>): (i: nat)
    ensures i <= |percents|
    ensures i < |percents| ==> percents[i].Some?
    ensures forall j | 0 <= j < i :: percents[j].None?
  {
    if percents == [] then 0
    else if percents[0].Some? then 0
    else 1 + FirstPercent(percents[1..])
  }

  /** Every share, the last percentage child also taking what is left. */
  function Quotas(percents: seq<Option<real>>, n: nat): (q: seq<int>)
    ensures |q| == |percents|
  {
    var s, last := Shares(percents, n), LastPercent(percents);
    var left := (n - Given(percents, s)) % TWO_32;
    if left != 0 && last >= 0 then s[last := ToInt32(s[last] + left)] else s
  }

  lemma {:induction false} GivenUpdate(percents: seq<Option<real>>, s: seq<int>, i: nat, v: int)
    requires |percents| == |s| && i < |s| && percents[i].Some?
    ensures Given(percents, s[i := v]) == Given(percents, s) - s[i] + v
    decreases |s|
  {
    var last := |s| - 1;
    if i < last {
      assert s[i := v][..last] == s[..last][i := v];
      GivenUpdate(percents[..last], s[..last], i, v);
    } else {
      assert s[i := v][..last] == s[..last];
    }
  }

  /** The quotas of the percentage children add up to the parent's rows for any percentages at all, as long
      as the last child's quota fits its 32-bit counter: the unsigned remainder wraps back when the shares
      overshoot. */
  lemma {:induction false} QuotasAddUp(percents: seq<Option<real>>, n: nat)
    requires LastPercent(percents) >= 0
    requires var s, last := Shares(percents, n), LastPercent(percents);
             -TWO_31 <= s[last] + n - Given(percents, s) < TWO_31
    requires -TWO_31 <= n - Given(percents, Shares(percents, n)) < TWO_31
    ensures Given(percents, Quotas(percents, n)) == n
  {
    var s, last := Shares(percents, n), LastPercent(percents);
    var d := n - Given(percents, s);
    WrapsBack(s[last], d);
    GivenUpdate(percents, s, last, s[last] + d);
    if d == 0 {
      assert s[last := s[last] + d] == s;
    }
    assert Quotas(percents, n) == s[last := s[last] + d];
  }

  /** Added as an unsigned 32-bit number and read as a signed one, a remainder comes out as itself. */
  lemma {:induction false} WrapsBack(x: int, d: int)
    requires -TWO_31 <= d < TWO_31 && -TWO_31 <= x + d < TWO_31
    ensures ToInt32(x + d % TWO_32) == x + d
    ensures d % TWO_32 == 0 <==> d == 0
  {
    assert d % TWO_32 == if d >= 0 then d else d + TWO_32;
  }

  /** The whole part of a number, on either side of 0. */
  predicate WholePart(x: real, whole: int) {
    if x >= 0.0 then whole as real <= x < (whole + 1) as real else (whole - 1) as real < x <= whole as real
  }

  /** How rows are shared out: a child without a percentage gets -1, every percentage child that another
      follows the whole part of its percentage of the rows, and the last one what the others leave. */
  ghost predicate SharedOut(percents: seq<Option<real>>, n: nat, quotas: seq<int>)
    requires |quotas| == |percents|
  {
    && (forall i | 0 <= i < |percents| && percents[i].None? :: quotas[i] == -1)
    && (forall i | 0 <= i < |percents| && percents[i].Some? && Followed(percents, i) ::
          WholePart(percents[i].value * n as real / 100.0, quotas[i]))
    && ((exists i | 0 <= i < |percents| :: percents[i].Some?) ==> Given(percents, quotas) == n)
  }

  /** Another percentage child follows. */
  ghost predicate Followed(percents: seq<Option<real>>, i: nat) {
    exists j | i < j < |percents| :: percents[j].Some?
  }

  lemma {:induction false} ShareIsWholePart(p: real, n: nat)
    ensures WholePart(p * n as real / 100.0, Share(Some(p), n))
  {
  }

  /** Every quota but the last percentage child's is its share, whatever the percentages. */
  lemma {:induction false} QuotasAreShares(percents: seq<Option<real>>, n: nat, i: nat)
    requires i < |percents| && (percents[i].None? || Followed(percents, i))
    ensures Quotas(percents, n)[i] == Shares(percents, n)[i]
    ensures percents[i].None? ==> Quotas(percents, n)[i] == -1
    ensures percents[i].Some? ==> WholePart(percents[i].value * n as real / 100.0, Quotas(percents, n)[i])
  {
    if percents[i].Some? {
      ShareIsWholePart(percents[i].value, n);
    }
  }

  /** Rows are shared out as configured for any percentages, as long as the remainder and the last quota fit
      in 32 bits. */
  lemma {:induction false} QuotasShareOut(percents: seq<Option<real>>, n: nat)
    requires LastPercent(percents) >= 0 ==>
               var s, last := Shares(percents, n), LastPercent(percents);
               && -TWO_31 <= s[last] + n - Given(percents, s) < TWO_31
               && -TWO_31 <= n - Given(percents, s) < TWO_31
    ensures SharedOut(percents, n, Quotas(percents, n))
  {
    forall i | 0 <= i < |percents| && (percents[i].None? || Followed(percents, i))
      ensures if percents[i].None? then Quotas(percents, n)[i] == -1
              else WholePart(percents[i].value * n as real / 100.0, Quotas(percents, n)[i])
    {
      QuotasAreShares(percents, n, i);
    }
    if LastPercent(percents) >= 0 {
      QuotasAddUp(percents, n);
    }
  }

  lemma {:induction false} ToInt32Wraps(x: int)
    ensures -TWO_31 <= ToInt32(x) < TWO_31 && (ToInt32(x) - x) % TWO_32 == 0
  {
    assert ToInt32(x) - x == TWO_32 * -((x + TWO_31) / TWO_32);
  }

  lemma {:induction false} SumOfMultiples(a: int, b: int)
    requires a % TWO_32 == 0 && b % TWO_32 == 0
    ensures (a + b) % TWO_32 == 0
  {
  }

  lemma {:induction false} RemainderApart(d: int)
    ensures (d % TWO_32 - d) % TWO_32 == 0
  {
    assert d % TWO_32 - d == TWO_32 * -(d / TWO_32);
  }

  /** Without any bound the quotas add up to the rows in 32 bits. */
  lemma {:induction false} QuotasAddUpIn32Bits(percents: seq<Option<real>>, n: nat)
    requires LastPercent(percents) >= 0
    ensures (Given(percents, Quotas(percents, n)) - n) % TWO_32 == 0
  {
    var s, last := Shares(percents, n), LastPercent(percents);
    var d := n - Given(percents, s);
    RemainderApart(d);
    if d % TWO_32 != 0 {
      var quota := s[last] + d % TWO_32;
      ToInt32Wraps(quota);
      GivenUpdate(percents, s, last, ToInt32(quota));
      SumOfMultiples(ToInt32(quota) - quota, d % TWO_32 - d);
    }
  }

  // ----------------------------------------------------------------- the schedule

  function Quota(toCreate: int): nat {
    if toCreate > 0 then toCreate else 0
  }

  /** One period: each child in turn, as often as its quota. */
  function Schedule(toCreate: seq<int>): seq<nat> {
    if toCreate == [] then []
    else
      var last := |toCreate| - 1;
      Schedule(toCreate[..last]) + seq(Quota(toCreate[last]), _ => last)
  }

  /** Where child i's turn starts in the period. */
  function Start(toCreate: seq<int>, i: nat): nat
    requires i <= |toCreate|
  {
    |Schedule(toCreate[..i])|
  }

  lemma {:induction false} StartStep(toCreate: seq<int>, i: nat)
    requires i < |toCreate|
    ensures Start(toCreate, i + 1) == Start(toCreate, i) + Quota(toCreate[i]) <= |Schedule(toCreate)|
    ensures forall r | Start(toCreate, i) <= r < Start(toCreate, i + 1) :: Schedule(toCreate)[r] == i
    ensures Start(toCreate, |toCreate|) == |Schedule(toCreate)|
    decreases |toCreate|
  {
    var last := |toCreate| - 1;
    assert toCreate[..i + 1][..i] == toCreate[..i];
    assert toCreate[..|toCreate|] == toCreate;
    if i < last {
      var init := toCreate[..last];
      StartStep(init, i);
      assert init[..i] == toCreate[..i] && init[..i + 1] == toCreate[..i + 1];
    } else {
      assert toCreate[..i + 1] == toCreate;
    }
  }

  /** A period gives every child exactly its quota. */
  lemma {:induction false} ScheduleMeetsQuotas(toCreate: seq<int>, c: nat)
    requires c < |toCreate|
    ensures multiset(Schedule(toCreate))[c] == Quota(toCreate[c])
    decreases |toCreate|
  {
    var last := |toCreate| - 1;
    OnlyChildren(toCreate[..last]);
    CountCopies(last, Quota(toCreate[last]), c);
    if c < last {
      ScheduleMeetsQuotas(toCreate[..last], c);
    }
  }

  lemma {:induction false} OnlyChildren(toCreate: seq<int>)
    ensures forall k | 0 <= k < |Schedule(toCreate)| :: Schedule(toCreate)[k] < |toCreate|
    decreases |toCreate|
  {
    if toCreate != [] {
      OnlyChildren(toCreate[..|toCreate| - 1]);
    }
  }

  lemma {:induction false} CountCopies(x: nat, n: nat, c: nat)
    ensures multiset(seq(n, _ => x))[c] == if c == x then n else 0
    decreases n
  {
    var s := seq(n, _ => x);
    if n != 0 {
      CountCopies(x, n - 1, c);
      assert s == seq(n - 1, _ => x) + [x];
    }
  }

  /** Over any period of consecutive rows, wherever it starts, every child is picked exactly its quota. */
  lemma {:induction false} EveryPeriodMeetsQuotas(toCreate: seq<int>, s: nat, c: nat)
    requires Schedule(toCreate) != [] && c < |toCreate|
    ensures multiset(Window<nat>(Schedule(toCreate), s))[c] == Quota(toCreate[c])
  {
    ScheduleMeetsQuotas(toCreate, c);
    WindowCount<nat>(Schedule(toCreate), s, c);
  }

  /** The schedule takes the children in their order. */
  lemma {:induction false} ScheduleInOrder(toCreate: seq<int>, a: nat, b: nat)
    requires a <= b < |Schedule(toCreate)|
    ensures Schedule(toCreate)[a] <= Schedule(toCreate)[b] < |toCreate|
    decreases |toCreate|
  {
    var last := |toCreate| - 1;
    var before := Schedule(toCreate[..last]);
    if b < |before| {
      ScheduleInOrder(toCreate[..last], a, b);
    } else if a < |before| {
      ScheduleInOrder(toCreate[..last], a, a);
    }
  }

  // ----------------------------------------------------------------- the parent object

  class PercentParent {
    const percents: seq<Option<real>>
    var toCreate: seq<int>
    var created: seq<int>
    /** percent_it, as a child position. */
    var it: nat

    ghost predicate Valid()
      reads this
    {
      |toCreate| == |created| == |percents|
    }

    /** Between rows: only the current child has produced rows of its turn. */
    ghost predicate InTurn()
      reads this
    {
      && Valid() && it < |percents|
      && (forall i | 0 <= i < |created| && i != it :: created[i] == 0)
      && 0 <= created[it] <= Quota(toCreate[it])
    }

    /** The rows produced in the current period. */
    ghost function Position(): nat
      reads this
      requires InTurn()
    {
      Start(toCreate, it) + created[it]
    }

    constructor (percents: seq<Option<real>>)
      ensures this.percents == percents && Valid()
      ensures forall i | 0 <= i < |percents| :: toCreate[i] == -1 && created[i] == 0
    {
      this.percents := percents;
      toCreate := seq(|percents|, _ => -1);
      created := seq(|percents|, _ => 0);
      it := 0;
    }

    /** The first loop of initPercent: every percentage child's share, and the first of them. */
    method ShareOut(n: nat) returns (sum: int)
      requires Valid()
      requires forall i | 0 <= i < |percents| && percents[i].None? :: toCreate[i] == -1 && created[i] == 0
      modifies this
      ensures Valid() && toCreate == Shares(percents, n) && sum == Given(percents, toCreate)
      ensures created == seq(|percents|, _ => 0)
      ensures it == if FirstPercent(percents) < |percents| then FirstPercent(percents) else old(it)
    {
      var found := false;
      sum := 0;
      ghost var shares := Shares(percents, n);
      for i := 0 to |percents|
        invariant Valid()
        invariant forall j | 0 <= j < i :: toCreate[j] == shares[j] && created[j] == 0
        invariant forall j | i <= j < |percents| && percents[j].None? :: toCreate[j] == -1 && created[j] == 0
        invariant sum == Given(percents[..i], shares[..i])
        invariant if found then it == FirstPercent(percents) < i else it == old(it) && i <= FirstPercent(percents)
      {
        if percents[i].Some? {
          toCreate := toCreate[i := Share(percents[i], n)];
          created := created[i := 0];
          sum := sum + toCreate[i];
          if !found {
            found, it := true, i;
          }
        }
        assert percents[..i + 1][..i] == percents[..i] && shares[..i + 1][..i] == shares[..i];
      }
      assert percents[..|percents|] == percents && shares[..|percents|] == shares;
      assert toCreate == shares;
    }

    /** Shares out n rows, the nearest ancestor's row count; a parent with percentage children begins a new
        period. */
    method InitPercent(n: nat)
      requires Valid()
      requires forall i | 0 <= i < |percents| && percents[i].None? :: toCreate[i] == -1 && created[i] == 0
      modifies this
      ensures Valid() && toCreate == Quotas(percents, n)
      ensures NoNegative(percents) && SumOf(percents) <= 100.0 && n < TWO_31 ==> SharedOut(percents, n, toCreate)
      ensures LastPercent(percents) >= 0 ==> InTurn() && Position() == 0
      ensures LastPercent(percents) < 0 ==> it == old(it)
    {
      var sum := ShareOut(n);
      var left := (n - sum) % TWO_32;
      var last := LastPercent(percents);
      if left != 0 && last >= 0 {
        toCreate := toCreate[last := ToInt32(toCreate[last] + left)];
      }
      if last >= 0 {
        NoTurnsBeforeFirst(percents, toCreate, it);
      }
      if NoNegative(percents) && SumOf(percents) <= 100.0 && n < TWO_31 {
        HundredPercentSharesOut(percents, n);
      }
    }

    /** One pass over a child whose turn is over. */
    method NextChild() returns (wrapped: bool)
      requires InTurn() && created[it] >= toCreate[it]
      modifies this`created, this`it
      ensures InTurn() && created[it] == 0
      ensures wrapped <==> old(it) + 1 == |percents|
      ensures it == if wrapped then 0 else old(it) + 1
      ensures old(Position()) == if wrapped then |Schedule(toCreate)| else Position()
      ensures wrapped ==> Position() == 0
    {
      StartStep(toCreate, it);
      created := created[it := 0];
      it := it + 1;
      wrapped := it == |percents|;
      if wrapped {
        it := 0;
        assert toCreate[..0] == [];
      }
    }

    /** Picks the child that produces the next row. */
    method SelectChild() returns (child: nat)
      requires InTurn() && Schedule(toCreate) != []
      modifies this`created, this`it
      ensures InTurn()
      ensures child < |percents| && child == Schedule(toCreate)[old(Position()) % |Schedule(toCreate)|]
      ensures Position() == old(Position()) % |Schedule(toCreate)| + 1
    {
      ghost var n, p := |Schedule(toCreate)|, Position();
      ghost var wrapped := false;
      while created[it] >= toCreate[it]
        invariant InTurn()
        invariant if wrapped then p == n && Position() == 0 && created[it] == 0 else Position() == p
        decreases !wrapped, |percents| - it
      {
        if wrapped && it + 1 == |percents| {
          StartStep(toCreate, it);
        }
        var w := NextChild();
        wrapped := wrapped || w;
      }
      StartStep(toCreate, it);
      PeriodPosition(p, n);
      child := it;
      created := created[it := created[it] + 1];
    }

    /** From a fresh period on, row k goes to the child at place k, modulo the period, of the schedule. */
    method SelectRows(count: nat) returns (picks: seq<nat>)
      requires InTurn() && Position() == 0 && Schedule(toCreate) != []
      modifies this`created, this`it
      ensures |picks| == count
      ensures forall k | 0 <= k < count :: picks[k] == Schedule(toCreate)[k % |Schedule(toCreate)|]
    {
      picks := [];
      ghost var n := |Schedule(toCreate)|;
      for k := 0 to count
        invariant InTurn() && Position() <= n && Position() % n == k % n
        invariant |picks| == k
        invariant forall j | 0 <= j < k :: picks[j] == Schedule(toCreate)[j % n]
      {
        var child := SelectChild();
        picks := picks + [child];
        ModStep(k, n);
        PeriodPosition(Position(), n);
      }
    }
  }

  lemma {:induction false} PeriodPosition(p: nat, n: nat)
    requires p <= n && n > 0
    ensures p % n == if p == n then 0 else p
  {
    DivModUnique(p, n, if p == n then 1 else 0, if p == n then 0 else p);
  }

  lemma {:induction false} NoTurnsBeforeFirst(percents: seq<Option<real>>, toCreate: seq<int>, i: nat)
    requires |toCreate| == |percents| && i <= |percents|
    requires forall j | 0 <= j < i :: toCreate[j] == -1
    ensures Start(toCreate, i) == 0
    decreases i
  {
    if i > 0 {
      NoTurnsBeforeFirst(percents, toCreate, i - 1);
      StartStep(toCreate, i - 1);
    }
  }

  // ----------------------------------------------------------------- the period is the row count

  /** A schedule gives out at least the rows of the percentage children, and just those when no quota is
      negative. */
  lemma {:induction false} ScheduleLength(percents: seq<Option<real>>, toCreate: seq<int>)
    requires |percents| == |toCreate|
    requires forall i | 0 <= i < |percents| && percents[i].None? :: toCreate[i] <= 0
    ensures |Schedule(toCreate)| >= Given(percents, toCreate)
    ensures |Schedule(toCreate)| == Given(percents, toCreate) <==>
            forall i | 0 <= i < |percents| && percents[i].Some? :: toCreate[i] >= 0
    decreases |percents|
  {
    if percents != [] {
      var last := |percents| - 1;
      var ps, ts := percents[..last], toCreate[..last];
      assert forall i | 0 <= i < last && ps[i].None? :: ts[i] <= 0;
      ScheduleLength(ps, ts);
      assert forall i | 0 <= i < last && ps[i].Some? :: ts[i] == toCreate[i];
      assert forall i | 0 <= i < last && percents[i].Some? :: toCreate[i] == ts[i] && ps[i].Some?;
    }
  }

  function SumOf(percents: seq<Option<real>>): real {
    if percents == [] then 0.0
    else
      var last := |percents| - 1;
      SumOf(percents[..last]) + match percents[last] { case None => 0.0 case Some(p) => p }
  }

  ghost predicate NoNegative(percents: seq<Option<real>>) {
    forall i | 0 <= i < |percents| && percents[i].Some? :: percents[i].value >= 0.0
  }

  /** n times x, by repeated addition. */
  ghost function Times(n: nat, x: real): real {
    if n == 0 then 0.0 else x + Times(n - 1, x)
  }

  lemma {:induction false} TimesLaws(n: nat, x: real, y: real)
    ensures Times(n, x + y) == Times(n, x) + Times(n, y)
    ensures x <= y ==> Times(n, x) <= Times(n, y)
    ensures Times(n, 100.0) == n as real * 100.0
    decreases n
  {
    if n != 0 {
      TimesLaws(n - 1, x, y);
    }
  }

  lemma {:induction false} TimesIsProduct(n: nat, x: real)
    ensures Times(n, x) == n as real * x
    decreases n
  {
    if n != 0 {
      TimesIsProduct(n - 1, x);
      assert n as real * x == (n - 1) as real * x + x;
    }
  }

  lemma {:induction false} ShareBound(p: real, n: nat)
    requires p >= 0.0
    ensures 0 <= Share(Some(p), n) && Share(Some(p), n) as real * 100.0 <= Times(n, p)
  {
    TimesIsProduct(n, p);
    assert n as real * p >= 0.0;
  }

  lemma {:induction false} SharesWithin(percents: seq<Option<real>>, shares: seq<int>, n: nat)
    requires NoNegative(percents) && |shares| == |percents|
    requires forall i | 0 <= i < |percents| && percents[i].Some? ::
               0 <= shares[i] && shares[i] as real * 100.0 <= Times(n, percents[i].value)
    ensures 0 <= Given(percents, shares)
    ensures Given(percents, shares) as real * 100.0 <= Times(n, SumOf(percents))
    decreases |percents|
  {
    TimesLaws(n, 0.0, 0.0);
    if percents != [] {
      var last := |percents| - 1;
      var ps := percents[..last];
      assert forall i | 0 <= i < last && ps[i].Some? :: percents[i].Some?;
      SharesWithin(ps, shares[..last], n);
      match percents[last]
      case None =>
      case Some(p) => TimesLaws(n, SumOf(ps), p);
    }
  }

  lemma {:induction false} GivenAtMostAll(percents: seq<Option<real>>, n: nat)
    requires NoNegative(percents) && SumOf(percents) <= 100.0
    ensures 0 <= Given(percents, Shares(percents, n)) <= n
  {
    var shares := Shares(percents, n);
    forall i | 0 <= i < |percents| && percents[i].Some?
      ensures 0 <= shares[i] && shares[i] as real * 100.0 <= Times(n, percents[i].value)
    {
      ShareBound(percents[i].value, n);
    }
    SharesWithin(percents, shares, n);
    TimesLaws(n, SumOf(percents), 100.0);
  }

  lemma {:induction false} NoShareIsNegative(percents: seq<Option<real>>, n: nat)
    requires NoNegative(percents)
    ensures forall i | 0 <= i < |percents| && percents[i].Some? :: Shares(percents, n)[i] >= 0
  {
    forall i | 0 <= i < |percents| && percents[i].Some?
      ensures Shares(percents, n)[i] >= 0
    {
      ShareBound(percents[i].value, n);
    }
  }

  /** With percentages of at most 100 in all, one period of the schedule is exactly the parent's rows. */
  lemma {:induction false} PeriodIsRowCount(percents: seq<Option<real>>, n: nat)
    requires NoNegative(percents) && SumOf(percents) <= 100.0
    requires LastPercent(percents) >= 0 && n < TWO_31
    ensures Given(percents, Quotas(percents, n)) == |Schedule(Quotas(percents, n))| == n
  {
    GivenAtMostAll(percents, n);
    NoShareIsNegative(percents, n);
    PeriodOfShares(percents, Shares(percents, n), n);
  }

  /** In particular rows are shared out as configured for percentages of at most 100 in all. */
  lemma {:induction false} HundredPercentSharesOut(percents: seq<Option<real>>, n: nat)
    requires NoNegative(percents) && SumOf(percents) <= 100.0 && n < TWO_31
    ensures SharedOut(percents, n, Quotas(percents, n))
  {
    if LastPercent(percents) >= 0 {
      GivenAtMostAll(percents, n);
      NoShareIsNegative(percents, n);
      QuotasNotNegative(percents, Shares(percents, n), n);
    }
    QuotasShareOut(percents, n);
  }

  lemma {:induction false} PeriodOfShares(percents: seq<Option<real>>, s: seq<int>, n: nat)
    requires s == Shares(percents, n) && LastPercent(percents) >= 0
    requires 0 <= Given(percents, s) <= n < TWO_31
    requires forall i | 0 <= i < |s| && percents[i].Some? :: s[i] >= 0
    ensures Given(percents, Quotas(percents, n)) == |Schedule(Quotas(percents, n))| == n
  {
    QuotasNotNegative(percents, s, n);
    QuotasAddUp(percents, n);
    ScheduleLength(percents, Quotas(percents, n));
  }

  lemma {:induction false} QuotasNotNegative(percents: seq<Option<real>>, s: seq<int>, n: nat)
    requires s == Shares(percents, n) && LastPercent(percents) >= 0
    requires 0 <= Given(percents, s) <= n < TWO_31
    requires forall i | 0 <= i < |s| && percents[i].Some? :: s[i] >= 0
    ensures 0 <= s[LastPercent(percents)] + n - Given(percents, s) <= n
    ensures forall i | 0 <= i < |s| ::
              if percents[i].Some? then Quotas(percents, n)[i] >= 0 else Quotas(percents, n)[i] == -1
  {
    EachWithinSum(percents, s, LastPercent(percents));
    var left := n - Given(percents, s);
    assert left % TWO_32 == left;
  }

  lemma {:induction false} EachWithinSum(percents: seq<Option<real>>, s: seq<int>, i: nat)
    requires |percents| == |s| && i < |s| && percents[i].Some?
    requires forall j | 0 <= j < |s| && percents[j].Some? :: s[j] >= 0
    ensures s[i] <= Given(percents, s)
    decreases |s|
  {
    var last := |s| - 1;
    GivenNotNegative(percents[..last], s[..last]);
    if i < last {
      EachWithinSum(percents[..last], s[..last], i);
    }
  }

  lemma {:induction false} GivenNotNegative(percents: seq<Option<real>>, s: seq<int>)
    requires |percents| == |s|
    requires forall j | 0 <= j < |s| && percents[j].Some? :: s[j] >= 0
    ensures Given(percents, s) >= 0
    decreases |s|
  {
    if s != [] {
      GivenNotNegative(percents[..|s| - 1], s[..|s| - 1]);
    }
  }
}
