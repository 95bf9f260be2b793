/**
 The unique-random generator: batches of fresh counter values kept in one pool of values to be used once
 and two pools of values to be used twice, drawn from in an order that random numbers decide.
 */
module UniqueRandom {
  import opened Arithmetic

  const MAX_RAND: nat := 32767
  const TWO_32: nat := 0x1_0000_0000
  const TWO_64: nat := 0x1_0000_0000_0000_0000

  /** The unsigned 32-bit row index, one row on. */
  function NextRow(i: nat): nat {
    if i + 1 < TWO_32 then i + 1 else 0
  }

  datatype Config = Config(lowRange: nat, highRange: nat, isReset: bool, percent: nat,
                           rowsInBatch: nat, percentInBatch: nat)
  {
    /** The field widths, and the batch length the modulo needs. */
    ghost predicate Valid() {
      && lowRange < TWO_64 && highRange < TWO_64
      && percent <= 100 && percentInBatch <= 100 && 1 <= rowsInBatch < TWO_32
    }

    /** uniqRowNum, in unsigned 32-bit arithmetic (the factor is negative below 50 percent). */
    function UniqRows(): nat {
      rowsInBatch * ((2 * percentInBatch - 100) % TWO_32) % TWO_32 / 100
    }

    function DupRows(): nat {
      (rowsInBatch - UniqRows()) % TWO_32 / 2
    }

    function Next(v: nat): nat {
      var n := (v + 1) % TWO_64;
      if n > highRange then lowRange else n
    }

    /** The counter k values on from v. */
    function Advance(v: nat, k: nat): nat {
      if k == 0 then v else Next(Advance(v, k - 1))
    }

    /** k consecutive counter values from v. */
    function Block(v: nat, k: nat): seq<nat> {
      seq(k, i requires i >= 0 => Advance(v, i))
    }
  }

  /** One call's surroundings: the table's filled count and the two random numbers. */
  datatype Input = Input(filled: nat, totalRand: nat, rand: nat)

  /** A value from one of the two kinds of pools; the column holds 0 for the two cases without one. */
  datatype Draw = FromUniq(value: nat) | FromDup(value: nat) | Exhausted | Skipped

  datatype State = State(last: nat, rowIdx: nat, uniq: seq<nat>, dup0: seq<nat>, dup1: seq<nat>) {

    function Restart(c: Config, filled: nat): State {
      if filled == 0 then State(if c.isReset then c.lowRange else last, 0, uniq, dup0, dup1) else this
    }

    function Refill(c: Config): State {
      var dups := c.Block(c.Advance(last, c.UniqRows()), c.DupRows());
      State(c.Advance(last, c.UniqRows() + c.DupRows()), rowIdx,
            uniq + c.Block(last, c.UniqRows()), dup0 + dups, dup1 + dups)
    }

    function PickDup(): (State, Draw) {
      var s := if dup0 == [] && dup1 != [] then this.(dup0 := dup1, dup1 := dup0) else this;
      if s.dup0 != [] then (s.(dup0 := s.dup0[..|s.dup0| - 1]), FromDup(s.dup0[|s.dup0| - 1]))
      else if s.uniq != [] then s.PickUniq()
      else (s, Exhausted)
    }

    function PickUniq(): (State, Draw)
      requires uniq != []
    {
      (this.(uniq := uniq[..|uniq| - 1]), FromUniq(uniq[|uniq| - 1]))
    }

    function Pick(c: Config, rand: nat): (State, Draw) {
      if rand < (MAX_RAND + 1) * c.percentInBatch / 100 && uniq != [] then PickUniq() else PickDup()
    }

    /** Whether a call draws at all. */
    predicate Active(c: Config, i: Input) {
      i.totalRand < (MAX_RAND + 1) * c.percent / 100
    }

    /** Whether a call refills the pools before it draws. */
    predicate Refills(c: Config, i: Input)
      requires c.rowsInBatch > 0
    {
      Active(c, i) && Restart(c, i.filled).rowIdx % c.rowsInBatch == 0
    }

    /** The state a call draws from. */
    function Loaded(c: Config, i: Input): State
      requires c.rowsInBatch > 0
    {
      if Refills(c, i) then Restart(c, i.filled).Refill(c) else Restart(c, i.filled)
    }

    /** One call. */
    function Step(c: Config, i: Input): (State, Draw)
      requires c.rowsInBatch > 0
    {
      if Active(c, i) then
        var (s, d) := Loaded(c, i).Pick(c, i.rand);
        (s.(rowIdx := NextRow(s.rowIdx)), d)
      else
        (Loaded(c, i), Skipped)
    }

    /** Everything still pooled. */
    ghost function Pooled(): multiset<nat> {
      multiset(uniq) + multiset(DupStack())
    }

    /** The two duplicate pools as the one stack that draws see. */
    ghost function DupStack(): seq<nat> {
      dup1 + dup0
    }
  }

  // ----------------------------------------------------------------- the generator object

  class UniqueRandomFunc {
    const config: Config
    var lastNumber: nat
    var rowIdx: nat
    var uniqPool: seq<nat>
    var dupPool0: seq<nat>
    var dupPool1: seq<nat>

    ghost function Abs(): State
      reads this
    {
      State(lastNumber, rowIdx, uniqPool, dupPool0, dupPool1)
    }

    constructor (c: Config)
      requires c.Valid()
      ensures config == c && Abs() == State(c.lowRange, 0, [], [], [])
    {
      config := c;
      lastNumber, rowIdx, uniqPool, dupPool0, dupPool1 := c.lowRange, 0, [], [], [];
    }

    method FillUniqPool(n: nat)
      modifies this`lastNumber, this`uniqPool
      ensures lastNumber == config.Advance(old(lastNumber), n)
      ensures uniqPool == old(uniqPool) + config.Block(old(lastNumber), n)
    {
      ghost var v := lastNumber;
      for j := 0 to n
        invariant lastNumber == config.Advance(v, j)
        invariant uniqPool == old(uniqPool) + config.Block(v, j)
      {
        uniqPool := uniqPool + [lastNumber];
        lastNumber := config.Next(lastNumber);
      }
    }

    method FillDupPools(n: nat)
      modifies this`lastNumber, this`dupPool0, this`dupPool1
      ensures lastNumber == config.Advance(old(lastNumber), n)
      ensures dupPool0 == old(dupPool0) + config.Block(old(lastNumber), n)
      ensures dupPool1 == old(dupPool1) + config.Block(old(lastNumber), n)
    {
      ghost var v := lastNumber;
      for j := 0 to n
        invariant lastNumber == config.Advance(v, j)
        invariant dupPool0 == old(dupPool0) + config.Block(v, j)
        invariant dupPool1 == old(dupPool1) + config.Block(v, j)
      {
        dupPool0 := dupPool0 + [lastNumber];
        dupPool1 := dupPool1 + [lastNumber];
        lastNumber := config.Next(lastNumber);
      }
    }

    method RefillPools()
      requires config.Valid()
      modifies this
      ensures Abs() == old(Abs()).Refill(config)
    {
      var uniqRowNum, dupRowNum := config.UniqRows(), config.DupRows();
      AdvanceAdds(config, lastNumber, uniqRowNum, dupRowNum);
      FillUniqPool(uniqRowNum);
      FillDupPools(dupRowNum);
    }

    method PickValue(rand: nat) returns (d: Draw)
      requires config.Valid()
      modifies this`uniqPool, this`dupPool0, this`dupPool1
      ensures (Abs(), d) == old(Abs()).Pick(config, rand)
    {
      var fromDupPool := false;
      if rand < (MAX_RAND + 1) * config.percentInBatch / 100 {
        if uniqPool != [] {
          d := FromUniq(uniqPool[|uniqPool| - 1]);
          uniqPool := uniqPool[..|uniqPool| - 1];
        } else {
          fromDupPool := true;
        }
      } else {
        fromDupPool := true;
      }
      if fromDupPool {
        if dupPool0 == [] && dupPool1 != [] {
          dupPool0, dupPool1 := dupPool1, dupPool0;
        }
        if dupPool0 != [] {
          d := FromDup(dupPool0[|dupPool0| - 1]);
          dupPool0 := dupPool0[..|dupPool0| - 1];
        } else if uniqPool != [] {
          d := FromUniq(uniqPool[|uniqPool| - 1]);
          uniqPool := uniqPool[..|uniqPool| - 1];
        } else {
          d := Exhausted;
        }
      }
    }

    method Calculate(i: Input) returns (d: Draw)
      requires config.Valid()
      modifies this
      ensures (Abs(), d) == old(Abs()).Step(config, i)
    {
      if i.filled == 0 {
        if config.isReset {
          lastNumber := config.lowRange;
        }
        rowIdx := 0;
      }
      if i.totalRand < (MAX_RAND + 1) * config.percent / 100 {
        if rowIdx % config.rowsInBatch == 0 {
          RefillPools();
        }
        d := PickValue(i.rand);
        rowIdx := NextRow(rowIdx);
      } else {
        d := Skipped;
      }
    }
  }

  // ----------------------------------------------------------------- one call

  /** The pools a drawing call draws from: with the first row of a table or at a batch boundary the next
      blocks lie on top of what earlier batches have left, and at any other call nothing changes. */
  lemma {:induction false} CallLoads(c: Config, s: State, i: Input)
    requires c.Valid() && 100 * (i.totalRand + 1) <= 32768 * c.percent
    ensures var loaded, v, u := s.Loaded(c, i), StartValue(c, s, i.filled), c.UniqRows();
            if i.filled == 0 || s.rowIdx % c.rowsInBatch == 0 then
              var dups := c.Block(c.Advance(v, u), c.DupRows());
              && loaded.uniq == s.uniq + c.Block(v, u)
              && loaded.dup0 == s.dup0 + dups && loaded.dup1 == s.dup1 + dups
              && loaded.last == c.Advance(v, u + c.DupRows())
              && loaded.rowIdx == if i.filled == 0 then 0 else s.rowIdx
            else
              loaded == s
  {
    BelowShare(i.totalRand, MAX_RAND + 1, c.percent);
    DivModUnique(0, c.rowsInBatch, 0, 0);
  }

  /** Which pool a random number names: the unique one for the first share of the random numbers, as long as
      it holds a value and unless the duplicate pools hold none. */
  lemma {:induction false} PoolNamed(c: Config, s: State, i: Input)
    requires c.Valid()
    ensures var d, unique := s.Step(c, i).1, 100 * (i.rand + 1) <= 32768 * c.percentInBatch;
            var uniq, dup := s.Loaded(c, i).uniq != [], s.Loaded(c, i).DupStack() != [];
            && (d.Skipped? <==> 100 * (i.totalRand + 1) > 32768 * c.percent)
            && (!d.Skipped? ==>
                  && (d.FromUniq? <==> uniq && (unique || !dup))
                  && (d.FromDup? <==> dup && (!unique || !uniq))
                  && (d.Exhausted? <==> !uniq && !dup))
  {
    BelowShare(i.rand, MAX_RAND + 1, c.percentInBatch);
    BelowShare(i.totalRand, MAX_RAND + 1, c.percent);
    PickPops(c, s.Loaded(c, i), i.rand);
  }

  /** Of all random numbers exactly the configured share takes a unique value, while both kinds last. */
  lemma {:induction false} UniqueShare(c: Config, s: State, i: Input)
    requires c.Valid() && 100 * (i.totalRand + 1) <= 32768 * c.percent
    requires s.Loaded(c, i).uniq != [] && s.Loaded(c, i).DupStack() != []
    ensures |set r: nat | r < 32768 && s.Step(c, i.(rand := r)).1.FromUniq?| == 32768 * c.percentInBatch / 100
  {
    var hits := set r: nat | r < 32768 && s.Step(c, i.(rand := r)).1.FromUniq?;
    forall r: nat
      ensures r in hits <==> r < 32768 && 100 * (r + 1) <= 32768 * c.percentInBatch
    {
      PoolNamed(c, s, i.(rand := r));
      assert s.Loaded(c, i.(rand := r)) == s.Loaded(c, i);
    }
    SharesCount(hits, 32768, c.percentInBatch);
  }

  /** And exactly the column's share draws at all. */
  lemma {:induction false} DrawingShare(c: Config, s: State, i: Input)
    requires c.Valid()
    ensures |set r: nat | r < 32768 && !s.Step(c, i.(totalRand := r)).1.Skipped?| == 32768 * c.percent / 100
  {
    var hits := set r: nat | r < 32768 && !s.Step(c, i.(totalRand := r)).1.Skipped?;
    forall r: nat
      ensures r in hits <==> r < 32768 && 100 * (r + 1) <= 32768 * c.percent
    {
      PoolNamed(c, s, i.(totalRand := r));
    }
    SharesCount(hits, 32768, c.percent);
  }

  // ----------------------------------------------------------------- the counter

  lemma {:induction false} AdvanceAdds(c: Config, v: nat, j: nat, k: nat)
    ensures c.Advance(v, j + k) == c.Advance(c.Advance(v, j), k)
    decreases k
  {
    if k != 0 {
      AdvanceAdds(c, v, j, k - 1);
    }
  }

  /** Started inside its range, the counter cycles through it. */
  lemma {:induction false} CounterCycles(c: Config, k: nat)
    requires c.lowRange <= c.highRange < TWO_64 - 1
    ensures c.Advance(c.lowRange, k) == c.lowRange + k % (c.highRange - c.lowRange + 1)
    decreases k
  {
    var size := c.highRange - c.lowRange + 1;
    if k == 0 {
      DivModUnique(0, size, 0, 0);
    } else {
      CounterCycles(c, k - 1);
      ModStep(k - 1, size);
      NextInRange(c, c.Advance(c.lowRange, k - 1));
    }
  }

  /** Behind the high end the counter comes back to the low end, if the high end is not the last 64-bit
      number: it wraps to 0 then. */
  lemma {:induction false} CounterComesBack(c: Config)
    requires c.Valid()
    ensures c.Next(c.highRange) == c.lowRange <==> c.highRange != 0xFFFF_FFFF_FFFF_FFFF || c.lowRange == 0
    ensures c.highRange == 0xFFFF_FFFF_FFFF_FFFF ==> c.Next(c.highRange) == 0
  {
  }

  lemma {:induction false} NextInRange(c: Config, v: nat)
    requires c.lowRange <= v <= c.highRange < TWO_64 - 1
    ensures c.Next(v) == if v == c.highRange then c.lowRange else v + 1
  {
  }

  /** Values pushed less than a range apart are different: batches totalling at most the range size share
      no value. */
  lemma {:induction false} FreshValuesDiffer(c: Config, i: nat, j: nat)
    requires c.lowRange <= c.highRange < TWO_64 - 1
    requires i < j < i + (c.highRange - c.lowRange + 1)
    ensures c.Advance(c.lowRange, i) != c.Advance(c.lowRange, j)
  {
    var size := c.highRange - c.lowRange + 1;
    CounterCycles(c, i);
    CounterCycles(c, j);
    ModsDiffer(i, j, size);
  }

  // ----------------------------------------------------------------- runs

  function Run(c: Config, s: State, inputs: seq<Input>): (r: (State, seq<Draw>))
    requires c.rowsInBatch > 0
    ensures |r.1| == |inputs|
    decreases |inputs|
  {
    if inputs == [] then (s, [])
    else
      var (s1, d) := s.Step(c, inputs[0]);
      var (s2, ds) := Run(c, s1, inputs[1..]);
      (s2, [d] + ds)
  }

  ghost function PushedBy(c: Config, s: State, i: Input): multiset<nat>
    requires c.rowsInBatch > 0
  {
    if !s.Refills(c, i) then multiset{}
    else
      var last := s.Restart(c, i.filled).last;
      var dups := c.Block(c.Advance(last, c.UniqRows()), c.DupRows());
      multiset(c.Block(last, c.UniqRows())) + multiset(dups) + multiset(dups)
  }

  ghost function Pushed(c: Config, s: State, inputs: seq<Input>): multiset<nat>
    requires c.rowsInBatch > 0
    decreases |inputs|
  {
    if inputs == [] then multiset{}
    else PushedBy(c, s, inputs[0]) + Pushed(c, s.Step(c, inputs[0]).0, inputs[1..])
  }

  ghost function Drawn(ds: seq<Draw>): multiset<nat> {
    if ds == [] then multiset{}
    else (if ds[0].FromUniq? || ds[0].FromDup? then multiset{ds[0].value} else multiset{}) + Drawn(ds[1..])
  }

  /** A pick pops one of two stacks, and comes back empty only when both are. */
  lemma {:induction false} PickPops(c: Config, s: State, rand: nat)
    ensures var (s', d) := s.Pick(c, rand);
            match d
            case FromUniq(v) => s.uniq == s'.uniq + [v] && s'.DupStack() == s.DupStack()
            case FromDup(v) => s.DupStack() == s'.DupStack() + [v] && s'.uniq == s.uniq
            case Exhausted => s.uniq == [] && s.DupStack() == [] && s' == s
            case Skipped => false
    ensures s.Pick(c, rand).0.last == s.last && s.Pick(c, rand).0.rowIdx == s.rowIdx
  {
    if s.dup0 != [] {
      assert s.dup1 + s.dup0 == (s.dup1 + s.dup0[..|s.dup0| - 1]) + [s.dup0[|s.dup0| - 1]];
    } else if s.dup1 != [] {
      assert s.dup1 + s.dup0 == s.dup1 == s.dup1[..|s.dup1| - 1] + [s.dup1[|s.dup1| - 1]];
    }
  }

  lemma {:induction false} PickConserves(c: Config, s: State, rand: nat)
    ensures s.Pooled() == Drawn([s.Pick(c, rand).1]) + s.Pick(c, rand).0.Pooled()
  {
    PickPops(c, s, rand);
    var (s', d) := s.Pick(c, rand);
    match d
    case FromUniq(v) => assert multiset(s.uniq) == multiset(s'.uniq) + multiset{v};
    case FromDup(v) => assert multiset(s.DupStack()) == multiset(s'.DupStack()) + multiset{v};
    case Exhausted =>
    case Skipped =>
  }

  lemma {:induction false} LoadConserves(c: Config, s: State, i: Input)
    requires c.rowsInBatch > 0
    ensures s.Loaded(c, i).Pooled() == s.Pooled() + PushedBy(c, s, i)
  {
  }

  lemma {:induction false} StepConserves(c: Config, s: State, i: Input)
    requires c.rowsInBatch > 0
    ensures s.Pooled() + PushedBy(c, s, i) == Drawn([s.Step(c, i).1]) + s.Step(c, i).0.Pooled()
  {
    LoadConserves(c, s, i);
    PickConserves(c, s.Loaded(c, i), i.rand);
  }

  lemma {:induction false} Balance(p0: multiset<nat>, in1: multiset<nat>, out1: multiset<nat>, p1: multiset<nat>,
                in2: multiset<nat>, out2: multiset<nat>, p2: multiset<nat>)
    requires p0 + in1 == out1 + p1 && p1 + in2 == out2 + p2
    ensures p0 + (in1 + in2) == (out1 + out2) + p2
  {
    assert p0 + (in1 + in2) == (p0 + in1) + in2 == out1 + (p1 + in2);
  }

  /** Conservation over every run, whatever the random numbers and wherever tables restart: what was
      pooled or pushed is what was drawn or is still pooled. */
  lemma {:induction false} Conservation(c: Config, s: State, inputs: seq<Input>)
    requires c.rowsInBatch > 0
    ensures s.Pooled() + Pushed(c, s, inputs) == Drawn(Run(c, s, inputs).1) + Run(c, s, inputs).0.Pooled()
    decreases |inputs|
  {
    if inputs != [] {
      var (s1, d) := s.Step(c, inputs[0]);
      var (s2, ds) := Run(c, s1, inputs[1..]);
      StepConserves(c, s, inputs[0]);
      Conservation(c, s1, inputs[1..]);
      assert ([d] + ds)[1..] == ds;
      Balance(s.Pooled(), PushedBy(c, s, inputs[0]), Drawn([d]), s1.Pooled(),
              Pushed(c, s1, inputs[1..]), Drawn(ds), s2.Pooled());
    }
  }

  lemma {:induction false} StepCounter(c: Config, s: State, i: Input)
    requires c.rowsInBatch > 0 && !c.isReset
    ensures s.Step(c, i).0.last ==
            if s.Refills(c, i) then c.Advance(s.last, c.UniqRows() + c.DupRows()) else s.last
  {
    PickPops(c, s.Loaded(c, i), i.rand);
  }

  /** How many counter values a run takes. */
  function Fresh(c: Config, s: State, inputs: seq<Input>): nat
    requires c.rowsInBatch > 0
    decreases |inputs|
  {
    if inputs == [] then 0
    else
      var taken := if s.Refills(c, inputs[0]) then c.UniqRows() + c.DupRows() else 0;
      taken + Fresh(c, s.Step(c, inputs[0]).0, inputs[1..])
  }

  /** Over every run of a generator that does not reset, the counter stands at the number of values taken
      from it. */
  lemma {:induction false} CounterFollowsPushes(c: Config, s: State, inputs: seq<Input>)
    requires c.rowsInBatch > 0 && !c.isReset
    ensures Run(c, s, inputs).0.last == c.Advance(s.last, Fresh(c, s, inputs))
    decreases |inputs|
  {
    if inputs != [] {
      var s1 := s.Step(c, inputs[0]).0;
      StepCounter(c, s, inputs[0]);
      CounterFollowsPushes(c, s1, inputs[1..]);
      var taken := if s.Refills(c, inputs[0]) then c.UniqRows() + c.DupRows() else 0;
      AdvanceAdds(c, s.last, taken, Fresh(c, s1, inputs[1..]));
      assert s1.last == c.Advance(s.last, taken);
    }
  }

  /** Inside a table the row counter counts the calls that draw, in 32 bits. */
  lemma {:induction false} RowsCountDraws(c: Config, s: State, inputs: seq<Input>)
    requires c.Valid() && s.rowIdx < 0x1_0000_0000 && forall k | 0 <= k < |inputs| :: inputs[k].filled != 0
    ensures Run(c, s, inputs).0.rowIdx == (s.rowIdx + NotSkippedCount(Run(c, s, inputs).1)) % 0x1_0000_0000
  {
    RunMovesRow(c, s, inputs);
    RowsOnIsSum(s.rowIdx, Run(c, s, inputs).1);
  }

  /** The row counter behind some draws. */
  function RowsOn(row: nat, ds: seq<Draw>): nat
    decreases |ds|
  {
    if ds == [] then row else RowsOn(if ds[0].Skipped? then row else NextRow(row), ds[1..])
  }

  lemma {:induction false} RowsOnFirst(row: nat, d: Draw, ds: seq<Draw>)
    ensures RowsOn(row, [d] + ds) == RowsOn(if d.Skipped? then row else NextRow(row), ds)
  {
    assert ([d] + ds)[1..] == ds;
  }

  lemma {:induction false} RunMovesRow(c: Config, s: State, inputs: seq<Input>)
    requires c.Valid() && forall k | 0 <= k < |inputs| :: inputs[k].filled != 0
    ensures Run(c, s, inputs).0.rowIdx == RowsOn(s.rowIdx, Run(c, s, inputs).1)
    decreases |inputs|
  {
    if inputs != [] {
      var (s1, d) := s.Step(c, inputs[0]);
      NextRowCount(c, s, inputs[0]);
      RunMovesRow(c, s1, inputs[1..]);
      RowsOnFirst(s.rowIdx, d, Run(c, s1, inputs[1..]).1);
    }
  }

  lemma {:induction false} RowsOnIsSum(row: nat, ds: seq<Draw>)
    requires row < TWO_32
    ensures RowsOn(row, ds) == (row + NotSkippedCount(ds)) % TWO_32
    decreases |ds|
  {
    if ds == [] {
      DivModUnique(row, TWO_32, 0, row);
    } else {
      OneMoreIn32Bits(row, NotSkippedCount(ds[1..]));
      RowsOnIsSum(if ds[0].Skipped? then row else NextRow(row), ds[1..]);
    }
  }

  lemma {:induction false} NextRowCount(c: Config, s: State, i: Input)
    requires c.Valid() && i.filled != 0
    ensures s.Step(c, i).0.rowIdx == if s.Step(c, i).1.Skipped? then s.rowIdx else NextRow(s.rowIdx)
  {
    PickPops(c, s.Loaded(c, i), i.rand);
  }

  lemma {:induction false} OneMoreIn32Bits(row: nat, n: nat)
    requires row < TWO_32
    ensures NextRow(row) < TWO_32 && (NextRow(row) + n) % TWO_32 == (row + 1 + n) % TWO_32
  {
  }

  function NotSkippedCount(ds: seq<Draw>): nat {
    if ds == [] then 0 else (if ds[0].Skipped? then 0 else 1) + NotSkippedCount(ds[1..])
  }

  // ----------------------------------------------------------------- one batch

  function Uniques(ds: seq<Draw>): seq<nat> {
    if ds == [] then []
    else (if ds[0].FromUniq? then [ds[0].value] else []) + Uniques(ds[1..])
  }

  function Duplicates(ds: seq<Draw>): seq<nat> {
    if ds == [] then []
    else (if ds[0].FromDup? then [ds[0].value] else []) + Duplicates(ds[1..])
  }

  function Reversed(s: seq<nat>): (r: seq<nat>)
    ensures |r| == |s|
  {
    seq(|s|, i requires 0 <= i < |s| => s[|s| - 1 - i])
  }

  lemma {:induction false} UniquesConcat(d: Draw, ds: seq<Draw>)
    ensures Uniques([d] + ds) == Uniques([d]) + Uniques(ds)
    ensures Uniques([d]) == if d.FromUniq? then [d.value] else []
  {
    var all, own := [d] + ds, if d.FromUniq? then [d.value] else [];
    assert all[0] == d && all[1..] == ds;
    assert [d][0] == d && [d][1..] == [];
    assert own + [] == own;
  }

  lemma {:induction false} DuplicatesConcat(d: Draw, ds: seq<Draw>)
    ensures Duplicates([d] + ds) == Duplicates([d]) + Duplicates(ds)
    ensures Duplicates([d]) == if d.FromDup? then [d.value] else []
  {
    var all, own := [d] + ds, if d.FromDup? then [d.value] else [];
    assert all[0] == d && all[1..] == ds;
    assert [d][0] == d && [d][1..] == [];
    assert own + [] == own;
  }

  lemma {:induction false} Concatenates(d: Draw, ds: seq<Draw>)
    ensures Uniques([d] + ds) == Uniques([d]) + Uniques(ds)
    ensures Duplicates([d] + ds) == Duplicates([d]) + Duplicates(ds)
    ensures |Uniques([d])| + |Duplicates([d])| == if d.FromUniq? || d.FromDup? then 1 else 0
  {
    UniquesConcat(d, ds);
    DuplicatesConcat(d, ds);
  }

  /** What draws leave of a state's stacks: they are read from the top down, and come back empty exactly
      when nothing is left. */
  ghost predicate ReadsStacks(s: State, s': State, ds: seq<Draw>) {
    && Reversed(s.uniq) == Uniques(ds) + Reversed(s'.uniq)
    && Reversed(s.DupStack()) == Duplicates(ds) + Reversed(s'.DupStack())
    && (forall k | 0 <= k < |ds| :: !ds[k].Skipped? && (ds[k].Exhausted? <==> k >= |s.uniq| + |s.DupStack()|))
    && s'.last == s.last
  }

  lemma {:induction false} Chain(r: seq<nat>, a: seq<nat>, r1: seq<nat>, b: seq<nat>, r2: seq<nat>)
    requires r == a + r1 && r1 == b + r2
    ensures r == (a + b) + r2
  {
  }

  lemma {:induction false} ReadsThen(s: State, s1: State, s2: State, d: Draw, ds: seq<Draw>)
    requires ReadsStacks(s, s1, [d]) && ReadsStacks(s1, s2, ds)
    ensures ReadsStacks(s, s2, [d] + ds)
  {
    Concatenates(d, ds);
    Chain(Reversed(s.uniq), Uniques([d]), Reversed(s1.uniq), Uniques(ds), Reversed(s2.uniq));
    Chain(Reversed(s.DupStack()), Duplicates([d]), Reversed(s1.DupStack()), Duplicates(ds), Reversed(s2.DupStack()));
    var n, n1 := |s.uniq| + |s.DupStack()|, |s1.uniq| + |s1.DupStack()|;
    assert n == |Reversed(s.uniq)| + |Reversed(s.DupStack())|;
    assert [d][0] == d;
    assert d.Exhausted? <==> 0 >= n;
    assert n == (if d.Exhausted? then 0 else 1) + n1;
    forall k | 0 <= k < |[d] + ds|
      ensures !([d] + ds)[k].Skipped? && (([d] + ds)[k].Exhausted? <==> k >= n)
    {
      if k > 0 {
        assert ([d] + ds)[k] == ds[k - 1];
      }
    }
  }

  lemma {:induction false} ReversedLast(s: seq<nat>, v: nat)
    ensures Reversed(s + [v]) == [v] + Reversed(s)
  {
    assert (s + [v])[..|s|] == s;
  }

  lemma {:induction false} PickReads(c: Config, s: State, rand: nat)
    ensures ReadsStacks(s, s.Pick(c, rand).0, [s.Pick(c, rand).1])
    ensures s.Pick(c, rand).0.rowIdx == s.rowIdx
  {
    PickPops(c, s, rand);
    var (s', d) := s.Pick(c, rand);
    UniquesConcat(d, []);
    DuplicatesConcat(d, []);
    match d
    case FromUniq(v) => ReversedLast(s'.uniq, v);
    case FromDup(v) => ReversedLast(s'.DupStack(), v);
    case _ =>
  }

  /** The draw and counters of one call that neither restarts nor refills. */
  lemma {:induction false} PlainStep(c: Config, s: State, i: Input)
    requires c.Valid() && c.percent == 100 && i.filled != 0 && i.totalRand <= MAX_RAND
    requires s.rowIdx % c.rowsInBatch != 0
    ensures ReadsStacks(s, s.Step(c, i).0, [s.Step(c, i).1])
    ensures s.Step(c, i).0.rowIdx == NextRow(s.rowIdx)
  {
    assert s.Loaded(c, i) == s && s.Active(c, i);
    PickReads(c, s, i.rand);
  }

  /** The calls of a batch after its first, from its j-th on: whatever the random numbers, they read the
      stacks. `start` is the row index the batch began with. */
  lemma {:induction false} RestOfBatch(c: Config, s: State, inputs: seq<Input>, start: nat, j: nat)
    requires c.Valid() && c.percent == 100
    requires forall k | 0 <= k < |inputs| :: inputs[k].filled != 0 && inputs[k].totalRand <= MAX_RAND
    requires 1 <= j && s.rowIdx == NextRow(start + j - 1) && start % c.rowsInBatch == 0
    requires j + |inputs| == c.rowsInBatch && start + c.rowsInBatch <= TWO_32
    ensures ReadsStacks(s, Run(c, s, inputs).0, Run(c, s, inputs).1)
    ensures Run(c, s, inputs).0.rowIdx == NextRow(start + c.rowsInBatch - 1)
    decreases |inputs|
  {
    if inputs != [] {
      var (s1, d) := s.Step(c, inputs[0]);
      var (s2, ds) := Run(c, s1, inputs[1..]);
      RowInBatch(start, j, c.rowsInBatch);
      PlainStep(c, s, inputs[0]);
      RestOfBatch(c, s1, inputs[1..], start, j + 1);
      ReadsThen(s, s1, s2, d, ds);
    }
  }

  lemma {:induction false} RowInBatch(start: nat, j: nat, n: nat)
    requires 0 < j < n && start % n == 0
    ensures (start + j) % n == j
  {
    var q := start / n;
    assert start == n * q;
    DivModUnique(start + j, n, q, j);
  }

  /** The values drawn are those from the unique pool and those from the duplicate pools. */
  lemma {:induction false} DrawnIsBoth(ds: seq<Draw>)
    ensures Drawn(ds) == multiset(Uniques(ds)) + multiset(Duplicates(ds))
  {
    if ds != [] {
      DrawnIsBoth(ds[1..]);
    }
  }

  lemma {:induction false} ReversedSame(s: seq<nat>)
    ensures multiset(Reversed(s)) == multiset(s)
    decreases |s|
  {
    if s != [] {
      var init, v := s[..|s| - 1], s[|s| - 1];
      ReversedSame(init);
      assert s == init + [v] && Reversed(s) == [v] + Reversed(init);
    }
  }

  /** The conditions under which a batch is a batch: every call draws, none but perhaps the first starts a
      table, the pools are empty, and the row counter neither stands mid-batch nor wraps inside it. */
  ghost predicate WholeBatch(c: Config, s: State, inputs: seq<Input>) {
    && c.Valid() && c.percent == 100 && |inputs| == c.rowsInBatch
    && (forall k | 0 <= k < |inputs| :: inputs[k].totalRand <= MAX_RAND && (k > 0 ==> inputs[k].filled != 0))
    && s.uniq == s.dup0 == s.dup1 == []
    && (inputs[0].filled == 0 || s.rowIdx % c.rowsInBatch == 0)
    && s.rowIdx + c.rowsInBatch <= TWO_32
  }

  lemma {:induction false} CountDraws(ds: seq<Draw>, n: nat)
    requires forall k | 0 <= k < |ds| :: !ds[k].Skipped? && (ds[k].Exhausted? <==> k >= n)
    ensures |Uniques(ds)| + |Duplicates(ds)| == if |ds| < n then |ds| else n
    decreases |ds|
  {
    if ds != [] {
      assert forall k | 0 <= k < |ds[1..]| :: ds[1..][k] == ds[k + 1];
      CountDraws(ds[1..], if n == 0 then 0 else n - 1);
    }
  }

  lemma {:induction false} ReversedTwice(a: seq<nat>)
    ensures Reversed(a + a) == Reversed(a) + Reversed(a)
  {
  }

  /** Enough draws empty both stacks. */
  lemma {:induction false} ReadsAll(s: State, s': State, ds: seq<Draw>)
    requires ReadsStacks(s, s', ds) && |ds| >= |s.uniq| + |s.DupStack()|
    ensures s'.uniq == [] && s'.DupStack() == []
    ensures Uniques(ds) == Reversed(s.uniq) && Duplicates(ds) == Reversed(s.DupStack())
    ensures Drawn(ds) == multiset(s.uniq) + multiset(s.DupStack())
  {
    CountDraws(ds, |s.uniq| + |s.DupStack()|);
    assert |Reversed(s.uniq)| == |Uniques(ds)| + |s'.uniq|;
    assert |Reversed(s.DupStack())| == |Duplicates(ds)| + |s'.DupStack()|;
    DrawnIsBoth(ds);
    ReversedSame(s.uniq);
    ReversedSame(s.DupStack());
  }

  /** A batch's draws fit in it exactly when its unique part does, and then fill it but for at most one. */
  lemma {:induction false} BatchFits(c: Config)
    requires c.Valid()
    ensures c.UniqRows() + 2 * c.DupRows() <= c.rowsInBatch <==> c.UniqRows() <= c.rowsInBatch
    ensures c.UniqRows() <= c.rowsInBatch ==> c.UniqRows() + 2 * c.DupRows() >= c.rowsInBatch - 1
  {
    DupHalf(c.rowsInBatch, c.UniqRows());
  }

  lemma {:induction false} DupHalf(n: nat, u: nat)
    requires n < TWO_32 && u < TWO_32
    ensures u + 2 * ((n - u) % TWO_32 / 2) <= n <==> u <= n
    ensures u <= n ==> u + 2 * ((n - u) % TWO_32 / 2) >= n - 1
  {
    assert (n - u) % TWO_32 == if u <= n then n - u else n - u + TWO_32;
  }

  /** The two numbers of rows, for every percentage: the 32-bit remainders are divided without rounding up. */
  lemma {:induction false} RowNumbers(c: Config)
    requires c.Valid()
    ensures var u, product := c.UniqRows(), c.rowsInBatch * (2 * c.percentInBatch - 100);
            100 * u <= product % 0x1_0000_0000 < 100 * (u + 1)
    ensures var d, rest := c.DupRows(), c.rowsInBatch - c.UniqRows();
            2 * d <= rest % 0x1_0000_0000 < 2 * (d + 1)
  {
    var factor := 2 * c.percentInBatch - 100;
    if factor < 0 {
      assert factor % TWO_32 == factor + TWO_32;
      assert c.rowsInBatch * (factor + TWO_32) == c.rowsInBatch * factor + TWO_32 * c.rowsInBatch;
      ModShift(c.rowsInBatch * factor, TWO_32, c.rowsInBatch);
    } else {
      assert factor % TWO_32 == factor;
    }
  }

  /** Below 50 percent the factor is negative and its product wraps, so that the unique part of a batch of
      fewer than 2^32 / 200 rows is greater than the batch. */
  lemma {:induction false} BelowFiftyNeverFits(c: Config)
    requires c.Valid() && c.percentInBatch < 50 && c.rowsInBatch < 0x1_0000_0000 / 200
    ensures c.UniqRows() > c.rowsInBatch
  {
    var n, missing := c.rowsInBatch, 100 - 2 * c.percentInBatch;
    RowNumbers(c);
    MulMono(n, missing, 100);
    MulMono(n, 1, missing);
    Negated(n, 2 * c.percentInBatch - 100);
    WrappedShare(n, n * missing, c.UniqRows());
  }

  lemma {:induction false} Negated(n: nat, factor: int)
    ensures n * factor == -(n * -factor)
  {
  }

  lemma {:induction false} WrappedShare(n: nat, missing: int, u: nat)
    requires 0 < missing <= 100 * n && n < 0x1_0000_0000 / 200 && -missing % TWO_32 < 100 * (u + 1)
    ensures u > n
  {
    assert -missing % TWO_32 == TWO_32 - missing;
  }

  /** At 50 percent or more and without 32-bit overflow it does fit. */
  lemma {:induction false} FiftyPercentFits(c: Config)
    requires c.Valid() && c.percentInBatch >= 50 && c.rowsInBatch * (2 * c.percentInBatch - 100) < TWO_32
    ensures c.UniqRows() == c.rowsInBatch * (2 * c.percentInBatch - 100) / 100 <= c.rowsInBatch
  {
    var factor, product := 2 * c.percentInBatch - 100, c.rowsInBatch * (2 * c.percentInBatch - 100);
    MulMono(c.rowsInBatch, factor, 100);
    assert factor % TWO_32 == factor && product % TWO_32 == product;
    assert c.UniqRows() == product / 100;
  }

  /** The first call of a batch: a refill, then one draw. */
  lemma {:induction false} FirstStep(c: Config, s: State, i: Input)
    requires c.Valid() && c.percent == 100 && i.totalRand <= MAX_RAND
    requires s.Restart(c, i.filled).rowIdx % c.rowsInBatch == 0
    ensures var first := s.Restart(c, i.filled);
            && ReadsStacks(first.Refill(c), s.Step(c, i).0, [s.Step(c, i).1])
            && s.Step(c, i).0.rowIdx == NextRow(first.rowIdx)
  {
    assert s.Active(c, i) && s.Refills(c, i);
    PickReads(c, s.Restart(c, i.filled).Refill(c), i.rand);
  }

  lemma {:induction false} BatchReads(c: Config, s: State, inputs: seq<Input>)
    requires WholeBatch(c, s, inputs)
    ensures var first := s.Restart(c, inputs[0].filled);
            && ReadsStacks(first.Refill(c), Run(c, s, inputs).0, Run(c, s, inputs).1)
            && Run(c, s, inputs).0.rowIdx == NextRow(first.rowIdx + c.rowsInBatch - 1)
  {
    var first := s.Restart(c, inputs[0].filled);
    var (s1, d) := s.Step(c, inputs[0]);
    var (s2, ds) := Run(c, s1, inputs[1..]);
    FirstStep(c, s, inputs[0]);
    RestOfBatch(c, s1, inputs[1..], first.rowIdx, 1);
    ReadsThen(first.Refill(c), s1, s2, d, ds);
  }

  /** The value a call goes on from: the low end at the beginning of a table whose generator resets. */
  function StartValue(c: Config, s: State, filled: nat): nat {
    if filled == 0 && c.isReset then c.lowRange else s.last
  }

  /** The outcome of a batch that has taken the blocks `uniq` and `dup`. */
  ghost predicate BatchOutcome(uniq: seq<nat>, dup: seq<nat>, s': State, ds: seq<Draw>) {
    && Uniques(ds) == Reversed(uniq)
    && Duplicates(ds) == Reversed(dup) + Reversed(dup)
    && Drawn(ds) == multiset(uniq) + multiset(dup) + multiset(dup)
    && (forall k | 0 <= k < |ds| :: !ds[k].Skipped? && (ds[k].Exhausted? <==> k >= |uniq| + 2 * |dup|))
    && s'.uniq == s'.dup0 == s'.dup1 == []
  }

  lemma {:induction false} StacksGiveOutcome(loaded: State, uniq: seq<nat>, dup: seq<nat>, s': State, ds: seq<Draw>)
    requires loaded.uniq == uniq && loaded.DupStack() == dup + dup
    requires ReadsStacks(loaded, s', ds) && |ds| >= |uniq| + 2 * |dup|
    ensures BatchOutcome(uniq, dup, s', ds) && s'.last == loaded.last
  {
    ReadsAll(loaded, s', ds);
    ReversedTwice(dup);
  }

  lemma {:induction false} RefillFromEmpty(c: Config, s: State)
    requires s.uniq == s.dup0 == s.dup1 == []
    ensures var loaded := s.Refill(c);
            var dup := c.Block(c.Advance(s.last, c.UniqRows()), c.DupRows());
            loaded.uniq == c.Block(s.last, c.UniqRows()) && loaded.DupStack() == dup + dup
  {
  }

  /**
   The batch theorem, for every random stream. With U = UniqRows and D = DupRows fresh values that fit in
   the batch, the draws from the unique pool are the U values in reverse, the draws from the duplicate
   pools are the D values in reverse twice over, exactly the calls past U + 2D come back empty, and the
   pools are empty and the row counter at a batch boundary again.
   */
  lemma {:induction false} BatchDraws(c: Config, s: State, inputs: seq<Input>)
    requires WholeBatch(c, s, inputs)
    requires c.UniqRows() <= c.rowsInBatch
    ensures var v, row := StartValue(c, s, inputs[0].filled), if inputs[0].filled == 0 then 0 else s.rowIdx;
            var (s', ds) := Run(c, s, inputs);
            && BatchOutcome(c.Block(v, c.UniqRows()), c.Block(c.Advance(v, c.UniqRows()), c.DupRows()), s', ds)
            && s'.last == c.Advance(v, c.UniqRows() + c.DupRows())
            && s'.rowIdx == NextRow(row + c.rowsInBatch - 1)
  {
    var first := s.Restart(c, inputs[0].filled);
    var (s', ds) := Run(c, s, inputs);
    BatchFits(c);
    BatchReads(c, s, inputs);
    RefillFromEmpty(c, first);
    var uniq, dup := c.Block(first.last, c.UniqRows()), c.Block(c.Advance(first.last, c.UniqRows()), c.DupRows());
    StacksGiveOutcome(first.Refill(c), uniq, dup, s', ds);
  }

  // ----------------------------------------------------------------- how often a batch draws each value

  /** Consecutive counter values, no more than the range holds, are all different. */
  lemma {:induction false} BlockDistinct(c: Config, k: nat, n: nat, i: nat, j: nat)
    requires c.lowRange <= c.highRange < TWO_64 - 1 && n <= c.highRange - c.lowRange + 1
    requires i < j < n
    ensures c.Advance(c.Advance(c.lowRange, k), i) != c.Advance(c.Advance(c.lowRange, k), j)
  {
    AdvanceAdds(c, c.lowRange, k, i);
    AdvanceAdds(c, c.lowRange, k, j);
    FreshValuesDiffer(c, k + i, k + j);
  }

  lemma {:induction false} CountDistinct(s: seq<nat>, x: nat)
    requires forall i, j | 0 <= i < j < |s| :: s[i] != s[j]
    ensures multiset(s)[x] == if x in s then 1 else 0
    decreases |s|
  {
    if s != [] {
      var init, last := s[..|s| - 1], s[|s| - 1];
      assert s == init + [last];
      CountDistinct(init, x);
    }
  }

  lemma {:induction false} DistinctParts(a: seq<nat>, b: seq<nat>, x: nat)
    requires forall i, j | 0 <= i < j < |a + b| :: (a + b)[i] != (a + b)[j]
    ensures multiset(a)[x] + 2 * multiset(b)[x] == if x in a then 1 else if x in b then 2 else 0
  {
    CountDistinct(a + b, x);
    assert x in a + b <==> x in a || x in b;
    assert x in a <==> multiset(a)[x] > 0;
    assert x in b <==> multiset(b)[x] > 0;
  }

  /** How often a batch that starts at counter value v draws x: a unique value once, a duplicate twice. */
  function TimesDrawn(c: Config, v: nat, x: nat): nat {
    if x in c.Block(v, c.UniqRows()) then 1
    else if x in c.Block(c.Advance(v, c.UniqRows()), c.DupRows()) then 2
    else 0
  }

  /** The counter's values fit in its range without repetition. */
  ghost predicate FitsRange(c: Config, n: nat) {
    c.lowRange <= c.highRange < TWO_64 - 1 && n <= c.highRange - c.lowRange + 1
  }

  lemma {:induction false} BlocksAreOne(c: Config, v: nat)
    ensures c.Block(v, c.UniqRows() + c.DupRows()) ==
            c.Block(v, c.UniqRows()) + c.Block(c.Advance(v, c.UniqRows()), c.DupRows())
  {
    var u, d := c.UniqRows(), c.DupRows();
    forall i | 0 <= i < u + d
      ensures c.Block(v, u + d)[i] == (c.Block(v, u) + c.Block(c.Advance(v, u), d))[i]
    {
      if i >= u {
        AdvanceAdds(c, v, u, i - u);
      }
    }
  }

  lemma {:induction false} BlocksCount(c: Config, k: nat, x: nat)
    requires FitsRange(c, c.UniqRows() + c.DupRows())
    ensures var v := c.Advance(c.lowRange, k);
            var uniq, dup := c.Block(v, c.UniqRows()), c.Block(c.Advance(v, c.UniqRows()), c.DupRows());
            multiset(uniq)[x] + 2 * multiset(dup)[x] == TimesDrawn(c, v, x)
  {
    var v := c.Advance(c.lowRange, k);
    var uniq, dup := c.Block(v, c.UniqRows()), c.Block(c.Advance(v, c.UniqRows()), c.DupRows());
    var all := uniq + dup;
    BlocksAreOne(c, v);
    forall i, j | 0 <= i < j < |all|
      ensures all[i] != all[j]
    {
      BlockDistinct(c, k, |all|, i, j);
    }
    DistinctParts(uniq, dup, x);
  }

  /** A batch whose values fit in the range draws each of its unique values once, each of its duplicate
      values twice, and nothing else. */
  lemma {:induction false} BatchCounts(c: Config, s: State, inputs: seq<Input>, k: nat, x: nat)
    requires WholeBatch(c, s, inputs) && c.UniqRows() <= c.rowsInBatch
    requires FitsRange(c, c.UniqRows() + c.DupRows())
    requires StartValue(c, s, inputs[0].filled) == c.Advance(c.lowRange, k)
    ensures Drawn(Run(c, s, inputs).1)[x] == TimesDrawn(c, c.Advance(c.lowRange, k), x)
  {
    BatchDraws(c, s, inputs);
    BlocksCount(c, k, x);
  }

  // ----------------------------------------------------------------- runs of batches

  /** The draws of batch after batch. */
  function BatchRun(c: Config, s: State, batches: seq<seq<Input>>): (r: seq<seq<Draw>>)
    requires c.rowsInBatch > 0
    ensures |r| == |batches|
    decreases |batches|
  {
    if batches == [] then []
    else
      var (s1, ds) := Run(c, s, batches[0]);
      [ds] + BatchRun(c, s1, batches[1..])
  }

  /** Whole batches one after the other, none but perhaps the first setting the counter back. */
  ghost predicate WholeBatches(c: Config, s: State, batches: seq<seq<Input>>)
    requires c.rowsInBatch > 0
    decreases |batches|
  {
    batches == [] ||
    (WholeBatch(c, s, batches[0]) && WholeBatches(c, Run(c, s, batches[0]).0, batches[1..])
     && (|batches| > 1 && batches[1] != [] && c.isReset ==> batches[1][0].filled != 0))
  }

  /** The values one batch takes from the counter. */
  function Taken(c: Config): nat {
    c.UniqRows() + c.DupRows()
  }

  /** The counter value that batch b starts at, v being the first one's. */
  function BatchStart(c: Config, v: nat, b: nat): nat
    decreases b
  {
    if b == 0 then v else BatchStart(c, c.Advance(v, Taken(c)), b - 1)
  }

  /** The place of the counter that is b strides of n behind place k. */
  function Place(k: nat, n: nat, b: nat): nat
    decreases b
  {
    if b == 0 then k else Place(k + n, n, b - 1)
  }

  lemma {:induction false} PlaceIs(k: nat, n: nat, b: nat)
    ensures Place(k, n, b) == k + n * b
    decreases b
  {
    if b != 0 {
      PlaceIs(k + n, n, b - 1);
      assert n * b == n + n * (b - 1);
    }
  }

  lemma {:induction false} BatchStartIs(c: Config, k: nat, b: nat)
    ensures BatchStart(c, c.Advance(c.lowRange, k), b) == c.Advance(c.lowRange, Place(k, Taken(c), b))
    decreases b
  {
    if b != 0 {
      AdvanceAdds(c, c.lowRange, k, Taken(c));
      BatchStartIs(c, k + Taken(c), b - 1);
    }
  }

  ghost predicate Outcome(c: Config, v: nat, ds: seq<Draw>) {
    Drawn(ds) == multiset(c.Block(v, c.UniqRows())) + multiset(c.Block(c.Advance(v, c.UniqRows()), c.DupRows()))
                 + multiset(c.Block(c.Advance(v, c.UniqRows()), c.DupRows()))
  }

  lemma {:induction false} BatchHasOutcome(c: Config, s: State, inputs: seq<Input>, v: nat)
    requires WholeBatch(c, s, inputs) && c.UniqRows() <= c.rowsInBatch
    requires v == StartValue(c, s, inputs[0].filled)
    ensures Outcome(c, v, Run(c, s, inputs).1)
  {
    BatchDraws(c, s, inputs);
  }

  lemma {:induction false} BatchMovesCounter(c: Config, s: State, inputs: seq<Input>, v: nat)
    requires WholeBatch(c, s, inputs) && c.UniqRows() <= c.rowsInBatch
    requires v == StartValue(c, s, inputs[0].filled)
    ensures Run(c, s, inputs).0.last == c.Advance(v, Taken(c))
  {
    BatchDraws(c, s, inputs);
  }

  /** The counter value a run of batches starts at. */
  function FirstValue(c: Config, s: State, batches: seq<seq<Input>>): nat {
    if batches == [] || batches[0] == [] then s.last else StartValue(c, s, batches[0][0].filled)
  }

  lemma {:induction false} FirstBatch(c: Config, s: State, batches: seq<seq<Input>>)
    requires c.Valid() && c.UniqRows() <= c.rowsInBatch && WholeBatches(c, s, batches) && batches != []
    ensures var s1 := Run(c, s, batches[0]).0;
            && WholeBatches(c, s1, batches[1..])
            && (|batches| > 1 ==> FirstValue(c, s1, batches[1..]) == c.Advance(FirstValue(c, s, batches), Taken(c)))
    ensures Outcome(c, FirstValue(c, s, batches), Run(c, s, batches[0]).1)
  {
    BatchHasOutcome(c, s, batches[0], FirstValue(c, s, batches));
    BatchMovesCounter(c, s, batches[0], FirstValue(c, s, batches));
  }

  /** Each batch's draws are the blocks from its own start on. */
  ghost predicate Outcomes(c: Config, v: nat, draws: seq<seq<Draw>>)
    decreases |draws|
  {
    draws == [] || (Outcome(c, v, draws[0]) && Outcomes(c, c.Advance(v, Taken(c)), draws[1..]))
  }

  lemma {:induction false} BatchOutcomes(c: Config, s: State, batches: seq<seq<Input>>)
    requires c.Valid() && c.UniqRows() <= c.rowsInBatch && WholeBatches(c, s, batches)
    ensures Outcomes(c, FirstValue(c, s, batches), BatchRun(c, s, batches))
    decreases |batches|
  {
    if batches != [] {
      var s1, rest := Run(c, s, batches[0]).0, batches[1..];
      FirstBatch(c, s, batches);
      BatchOutcomes(c, s1, rest);
      assert BatchRun(c, s, batches)[1..] == BatchRun(c, s1, rest);
    }
  }

  lemma {:induction false} OutcomeAt(c: Config, v: nat, draws: seq<seq<Draw>>, b: nat)
    requires Outcomes(c, v, draws) && b < |draws|
    ensures Outcome(c, BatchStart(c, v, b), draws[b])
    decreases b
  {
    if b != 0 {
      OutcomeAt(c, c.Advance(v, Taken(c)), draws[1..], b - 1);
    }
  }

  lemma {:induction false} OutcomeValue(c: Config, k: nat, ds: seq<Draw>, x: nat) returns (i: nat)
    requires Outcome(c, c.Advance(c.lowRange, k), ds) && x in Drawn(ds)
    ensures i < Taken(c) && x == c.Advance(c.lowRange, k + i)
  {
    var v := c.Advance(c.lowRange, k);
    BlocksAreOne(c, v);
    var all := c.Block(v, Taken(c));
    assert x in all;
    i :| 0 <= i < |all| && all[i] == x;
    AdvanceAdds(c, c.lowRange, k, i);
  }

  lemma {:induction false} PlacesApart(k: nat, n: nat, m: nat, a: nat, b: nat)
    requires a < b < m
    ensures Place(k, n, a) + n <= Place(k, n, b) && Place(k, n, b) + n <= Place(k, n, a) + Place(0, n, m)
  {
    PlaceIs(k, n, a);
    PlaceIs(k, n, b);
    PlaceIs(0, n, m);
    MulMono(n, a + 1, b);
    MulMono(n, b + 1, m);
    MulMono(n, 0, a);
    assert n * (a + 1) == n * a + n && n * (b + 1) == n * b + n;
  }

  /** Values of two stretches of the counter that lie within one range of each other. */
  lemma {:induction false} StretchesDiffer(c: Config, ka: nat, kb: nat, size: nat, i: nat, j: nat)
    requires FitsRange(c, size) && ka + Taken(c) <= kb && kb + Taken(c) <= ka + size && i < Taken(c) && j < Taken(c)
    ensures c.Advance(c.lowRange, ka + i) != c.Advance(c.lowRange, kb + j)
  {
    FreshValuesDiffer(c, ka + i, kb + j);
  }

  lemma {:induction false} OutcomesDisjoint(c: Config, ka: nat, kb: nat, size: nat, first: seq<Draw>, second: seq<Draw>)
    requires FitsRange(c, size) && ka + Taken(c) <= kb && kb + Taken(c) <= ka + size
    requires Outcome(c, c.Advance(c.lowRange, ka), first) && Outcome(c, c.Advance(c.lowRange, kb), second)
    ensures Drawn(first) !! Drawn(second)
  {
    forall x | x in Drawn(first) && x in Drawn(second)
      ensures false
    {
      var i := OutcomeValue(c, ka, first, x);
      var j := OutcomeValue(c, kb, second, x);
      StretchesDiffer(c, ka, kb, size, i, j);
    }
  }

  /** Batch b of a run draws the values from its place of the counter on. */
  lemma {:induction false} BatchAt(c: Config, s: State, batches: seq<seq<Input>>, k: nat, b: nat)
    requires c.Valid() && c.UniqRows() <= c.rowsInBatch && WholeBatches(c, s, batches) && b < |batches|
    requires FirstValue(c, s, batches) == c.Advance(c.lowRange, k)
    ensures Outcome(c, c.Advance(c.lowRange, Place(k, Taken(c), b)), BatchRun(c, s, batches)[b])
  {
    BatchOutcomes(c, s, batches);
    OutcomeAt(c, FirstValue(c, s, batches), BatchRun(c, s, batches), b);
    BatchStartIs(c, k, b);
  }

  lemma {:induction false} BatchesApart(c: Config, s: State, batches: seq<seq<Input>>, k: nat, a: nat, b: nat,
                                        size: nat)
    requires c.Valid() && c.UniqRows() <= c.rowsInBatch && WholeBatches(c, s, batches) && a < b < |batches|
    requires FirstValue(c, s, batches) == c.Advance(c.lowRange, k) && FitsRange(c, size)
    requires Place(k, Taken(c), a) + Taken(c) <= Place(k, Taken(c), b)
    requires Place(k, Taken(c), b) + Taken(c) <= Place(k, Taken(c), a) + size
    ensures Drawn(BatchRun(c, s, batches)[a]) !! Drawn(BatchRun(c, s, batches)[b])
  {
    BatchAt(c, s, batches, k, a);
    BatchAt(c, s, batches, k, b);
    OutcomesDisjoint(c, Place(k, Taken(c), a), Place(k, Taken(c), b), size,
                     BatchRun(c, s, batches)[a], BatchRun(c, s, batches)[b]);
  }

  /** Main result over runs: batches that together take no more values than the range holds share none. */
  lemma {:induction false} BatchesShareNoValue(c: Config, s: State, batches: seq<seq<Input>>, k: nat, a: nat, b: nat)
    requires c.Valid() && c.UniqRows() <= c.rowsInBatch && WholeBatches(c, s, batches) && a < b < |batches|
    requires FirstValue(c, s, batches) == c.Advance(c.lowRange, k)
    requires FitsRange(c, Place(0, Taken(c), |batches|))
    ensures Drawn(BatchRun(c, s, batches)[a]) !! Drawn(BatchRun(c, s, batches)[b])
  {
    PlacesApart(k, Taken(c), |batches|, a, b);
    BatchesApart(c, s, batches, k, a, b, Place(0, Taken(c), |batches|));
  }

  function Flatten(batches: seq<seq<Input>>): seq<Input> {
    if batches == [] then [] else batches[0] + Flatten(batches[1..])
  }

  function FlattenDraws(draws: seq<seq<Draw>>): seq<Draw> {
    if draws == [] then [] else draws[0] + FlattenDraws(draws[1..])
  }

  lemma {:induction false} DrawsAssociate(d: Draw, a: seq<Draw>, b: seq<Draw>)
    ensures ([d] + a) + b == [d] + (a + b)
  {
  }

  lemma {:induction false} RunConcat(c: Config, s: State, a: seq<Input>, b: seq<Input>)
    requires c.rowsInBatch > 0
    ensures var (s1, ds1) := Run(c, s, a);
            var (s2, ds2) := Run(c, s1, b);
            Run(c, s, a + b) == (s2, ds1 + ds2)
    decreases |a|
  {
    if a == [] {
      assert a + b == b;
      assert [] + Run(c, s, b).1 == Run(c, s, b).1;
    } else {
      assert (a + b)[0] == a[0] && (a + b)[1..] == a[1..] + b;
      var (s1, d) := s.Step(c, a[0]);
      RunConcat(c, s1, a[1..], b);
      var (s2, ds) := Run(c, s1, a[1..]);
      assert Run(c, s, a) == (s2, [d] + ds);
      DrawsAssociate(d, ds, Run(c, s2, b).1);
    }
  }

  /** The batches' draws are the draws of the run of all their calls. */
  lemma {:induction false} BatchRunIsRun(c: Config, s: State, batches: seq<seq<Input>>)
    requires c.rowsInBatch > 0
    ensures Run(c, s, Flatten(batches)).1 == FlattenDraws(BatchRun(c, s, batches))
    decreases |batches|
  {
    if batches != [] {
      BatchRunIsRun(c, Run(c, s, batches[0]).0, batches[1..]);
      RunConcat(c, s, batches[0], Flatten(batches[1..]));
    }
  }

  // ----------------------------------------------------------------- calls left out by their percentage

  /** The same generator, drawing at every call. */
  function AlwaysDraws(c: Config): Config {
    c.(percent := 100)
  }

  lemma {:induction false} SameAdvance(c: Config, v: nat, k: nat)
    ensures AlwaysDraws(c).Advance(v, k) == c.Advance(v, k)
    decreases k
  {
    if k != 0 {
      SameAdvance(c, v, k - 1);
    }
  }

  lemma {:induction false} SameBlock(c: Config, v: nat, k: nat)
    ensures AlwaysDraws(c).Block(v, k) == c.Block(v, k)
  {
    forall i | 0 <= i < k
      ensures AlwaysDraws(c).Block(v, k)[i] == c.Block(v, k)[i]
    {
      SameAdvance(c, v, i);
    }
  }

  lemma {:induction false} SameRefill(c: Config, s: State)
    ensures s.Refill(AlwaysDraws(c)) == s.Refill(c)
  {
    SameAdvance(c, s.last, c.UniqRows());
    SameAdvance(c, s.last, c.UniqRows() + c.DupRows());
    SameBlock(c, s.last, c.UniqRows());
    SameBlock(c, c.Advance(s.last, c.UniqRows()), c.DupRows());
  }

  /** A drawing call, which begins the table if the calls left out before it have. */
  function Due(pending: bool, i: Input): Input {
    if pending then i.(filled := 0) else i
  }

  /** The calls of a run that draw; `pending` if a table has begun since the last of them. */
  function Drawing(c: Config, inputs: seq<Input>, pending: bool): (r: seq<Input>)
    ensures |r| <= |inputs|
    decreases |inputs|
  {
    if inputs == [] then []
    else if inputs[0].totalRand < (MAX_RAND + 1) * c.percent / 100 then
      [Due(pending, inputs[0])] + Drawing(c, inputs[1..], false)
    else
      Drawing(c, inputs[1..], pending || inputs[0].filled == 0)
  }

  /** Whether a table has begun since the last call that drew. */
  function Pending(c: Config, inputs: seq<Input>, pending: bool): bool
    decreases |inputs|
  {
    if inputs == [] then pending
    else if inputs[0].totalRand < (MAX_RAND + 1) * c.percent / 100 then Pending(c, inputs[1..], false)
    else Pending(c, inputs[1..], pending || inputs[0].filled == 0)
  }

  /** A state with the beginning of a table still to be made up for. */
  function Owing(c: Config, s: State, pending: bool): State {
    if pending then s.Restart(c, 0) else s
  }

  function NotSkipped(ds: seq<Draw>): seq<Draw> {
    if ds == [] then [] else (if ds[0].Skipped? then [] else [ds[0]]) + NotSkipped(ds[1..])
  }

  lemma {:induction false} NotSkippedFirst(d: Draw, ds: seq<Draw>)
    ensures NotSkipped([d] + ds) == (if d.Skipped? then [] else [d]) + NotSkipped(ds)
  {
    assert ([d] + ds)[1..] == ds;
  }

  /** A call that draws does at any percentage what it does at percentage 100. */
  lemma {:induction false} DrawingStep(c: Config, s: State, pending: bool, i: Input)
    requires c.Valid() && s.Active(c, i)
    ensures Owing(c, s, pending).Step(c, i) == s.Step(AlwaysDraws(c), Due(pending, i))
    ensures !s.Step(AlwaysDraws(c), Due(pending, i)).1.Skipped? && i.totalRand <= MAX_RAND
  {
    SameRefill(c, s.Restart(c, Due(pending, i).filled));
  }

  /** A call that is left out hands on the beginning of its table. */
  lemma {:induction false} LeftOutStep(c: Config, s: State, pending: bool, i: Input)
    requires c.Valid() && !s.Active(c, i)
    ensures Owing(c, s, pending).Step(c, i) == (Owing(c, s, pending || i.filled == 0), Skipped)
  {
  }

  /** The calls that draw are, in any run and at any percentage, a run at percentage 100: the calls left out
      only hand on the beginning of a table. */
  lemma {:induction false} DrawingRun(c: Config, s: State, pending: bool, inputs: seq<Input>)
    requires c.Valid()
    ensures var (s', ds) := Run(c, Owing(c, s, pending), inputs);
            var (t', drawn) := Run(AlwaysDraws(c), s, Drawing(c, inputs, pending));
            NotSkipped(ds) == drawn && s' == Owing(c, t', Pending(c, inputs, pending))
    ensures forall i | i in Drawing(c, inputs, pending) :: i.totalRand <= MAX_RAND
    decreases |inputs|
  {
    if inputs != [] {
      var i, rest := inputs[0], inputs[1..];
      var (s1, d) := Owing(c, s, pending).Step(c, i);
      if s.Active(c, i) {
        DrawingStep(c, s, pending, i);
        DrawingRun(c, s1, false, rest);
        NotSkippedFirst(d, Run(c, s1, rest).1);
      } else {
        LeftOutStep(c, s, pending, i);
        DrawingRun(c, s, pending || i.filled == 0, rest);
        NotSkippedFirst(d, Run(c, s1, rest).1);
      }
    }
  }

  lemma {:induction false} DrawnNotSkipped(ds: seq<Draw>)
    ensures Drawn(NotSkipped(ds)) == Drawn(ds)
  {
    if ds != [] {
      var d, rest := ds[0], NotSkipped(ds[1..]);
      DrawnNotSkipped(ds[1..]);
      if d.Skipped? {
        assert [] + rest == rest;
      } else {
        DrawnFirst(d, rest);
      }
    }
  }

  lemma {:induction false} DrawnFirst(d: Draw, ds: seq<Draw>)
    ensures Drawn([d] + ds) == (if d.FromUniq? || d.FromDup? then multiset{d.value} else multiset{}) + Drawn(ds)
  {
    assert ([d] + ds)[1..] == ds;
  }

  /** At any percentage the calls of a batch that do draw give each unique value once, each duplicate value
      twice, and nothing else. */
  lemma {:induction false} DrawnBatchCounts(c: Config, s: State, inputs: seq<Input>, k: nat, x: nat)
    requires var full, drawn := AlwaysDraws(c), Drawing(c, inputs, false);
             && WholeBatch(full, s, drawn) && c.Valid() && full.UniqRows() <= full.rowsInBatch
             && FitsRange(full, full.UniqRows() + full.DupRows())
             && StartValue(full, s, drawn[0].filled) == full.Advance(full.lowRange, k)
    ensures Drawn(Run(c, s, inputs).1)[x] == TimesDrawn(AlwaysDraws(c), AlwaysDraws(c).Advance(c.lowRange, k), x)
  {
    DrawingRun(c, s, false, inputs);
    DrawnNotSkipped(Run(c, s, inputs).1);
    BatchCounts(AlwaysDraws(c), s, Drawing(c, inputs, false), k, x);
  }

  /** At any percentage the draws of a run whose drawing calls are cut into batches are the batches' draws. */
  lemma {:induction false} DrawnRunIsBatchRun(c: Config, s: State, inputs: seq<Input>, batches: seq<seq<Input>>)
    requires c.Valid() && Drawing(c, inputs, false) == Flatten(batches)
    ensures NotSkipped(Run(c, s, inputs).1) == FlattenDraws(BatchRun(AlwaysDraws(c), s, batches))
  {
    DrawingRun(c, s, false, inputs);
    BatchRunIsRun(AlwaysDraws(c), s, batches);
  }
}
