/**
 The accumulating generator: a counter that rises by a step inside a range, optionally holding each value
 for several calls, and optionally stepping back once per batch so that the batch's tail repeats.
 */
module Accumulate {
  import opened Arithmetic

  const MAX_RAND: nat := 32767
  const TWO_32: int := 0x1_0000_0000
  const TWO_64: int := 0x1_0000_0000_0000_0000

  datatype Config = Config(lowRange: nat, highRange: nat, init: nat, step: nat, unit: nat, isReset: bool,
                           percent: nat, rowsInBatch: nat, percentInBatch: nat)
  {
    ghost predicate Valid() {
      && lowRange < TWO_64 && highRange < TWO_64 && init < TWO_64
      && step < TWO_32 && unit < TWO_32 && rowsInBatch < TWO_32
      && percent <= 100 && percentInBatch <= 100
    }

    function Clamp(v: nat): nat {
      var w := if v < lowRange then lowRange else v;
      if w > highRange then lowRange else w
    }

    predicate Batched() {
      rowsInBatch != 0 && percentInBatch != 100
    }

    /** resetRowIdx and the size of the step back, in unsigned 32-bit arithmetic. */
    function ResetRow(): nat {
      rowsInBatch * percentInBatch % TWO_32 / 100
    }

    function StepBack(): nat {
      rowsInBatch * (100 - percentInBatch) % TWO_32 / 100
    }
  }

  datatype State = State(last: nat, dup: nat, rowIdx: nat)

  datatype Input = Input(filled: nat, rand: nat)

  /** A stored value, or the 0 of invalid type for a call its percentage left out. */
  datatype Output = Value(v: nat) | Invalid

  function Restart(c: Config, s: State, filled: nat): State {
    if filled == 0 then State(if c.isReset then c.init else s.last, s.dup, 0) else s
  }

  /** The counter value a drawing call stores. */
  function Stored(c: Config, s: State): nat
    requires c.Valid()
  {
    var v := c.Clamp(s.last);
    if c.Batched() && s.rowIdx % c.rowsInBatch == c.ResetRow() then (v - c.StepBack()) % TWO_64 else v
  }

  function Next(c: Config, s: State, v: nat): State {
    var on := State((v + c.step) % TWO_64, if c.unit > 1 then 1 else s.dup, (s.rowIdx + 1) % TWO_32);
    if c.unit > 1 && c.unit != s.dup then State(v, s.dup + 1, s.rowIdx) else on
  }

  /** Whether a call gives out a value. */
  predicate Draws(c: Config, i: Input) {
    i.rand < (MAX_RAND + 1) * c.percent / 100
  }

  function Step(c: Config, s: State, i: Input): (State, Output)
    requires c.Valid()
  {
    var r := Restart(c, s, i.filled);
    if Draws(c, i) then
      (Next(c, r, Stored(c, r)), Value(Stored(c, r)))
    else
      (r.(last := c.Clamp(r.last)), Invalid)
  }

  class AcculateFunc {
    const config: Config
    var lastNumber: nat
    var duplicatedUnit: nat
    var rowIdx: nat

    ghost function Abs(): State
      reads this
    {
      State(lastNumber, duplicatedUnit, rowIdx)
    }

    constructor (c: Config)
      ensures config == c && Abs() == State(c.init, 1, 0)
    {
      config := c;
      lastNumber, duplicatedUnit, rowIdx := c.init, 1, 0;
    }

    method PutInRange()
      modifies this`lastNumber
      ensures lastNumber == config.Clamp(old(lastNumber))
    {
      if lastNumber < config.lowRange {
        lastNumber := config.lowRange;
      }
      if lastNumber > config.highRange {
        lastNumber := config.lowRange;
      }
    }

    /** Sets the counter back when the batch's new values are used up. */
    method StepBackWhenDue()
      requires config.Valid()
      modifies this`lastNumber
      ensures lastNumber == if config.Batched() && rowIdx % config.rowsInBatch == config.ResetRow()
                            then (old(lastNumber) - config.StepBack()) % TWO_64 else old(lastNumber)
    {
      if config.rowsInBatch != 0 && config.percentInBatch != 100 {
        var resetRowIdx := config.rowsInBatch * config.percentInBatch % TWO_32 / 100;
        if rowIdx % config.rowsInBatch == resetRowIdx {
          lastNumber := (lastNumber - config.rowsInBatch * (100 - config.percentInBatch) % TWO_32 / 100) % TWO_64;
        }
      }
    }

    /** Moves on to the next value, or counts one more call that holds this one. */
    method MoveOn()
      requires config.Valid()
      modifies this
      ensures Abs() == Next(config, old(Abs()), old(lastNumber))
    {
      if config.unit > 1 {
        if config.unit == duplicatedUnit {
          duplicatedUnit := 1;
          lastNumber := (lastNumber + config.step) % TWO_64;
          rowIdx := (rowIdx + 1) % TWO_32;
        } else {
          duplicatedUnit := duplicatedUnit + 1;
        }
      } else {
        lastNumber := (lastNumber + config.step) % TWO_64;
        rowIdx := (rowIdx + 1) % TWO_32;
      }
    }

    method Calculate(i: Input) returns (out: Output)
      requires config.Valid()
      modifies this
      ensures (Abs(), out) == Step(config, old(Abs()), i)
    {
      if i.filled == 0 {
        if config.isReset {
          lastNumber := config.init;
        }
        rowIdx := 0;
      }
      ghost var r := Restart(config, old(Abs()), i.filled);
      assert Abs() == r;
      PutInRange();
      if i.rand < (MAX_RAND + 1) * config.percent / 100 {
        StepBackWhenDue();
        assert lastNumber == Stored(config, r);
        out := Value(lastNumber);
        MoveOn();
      } else {
        out := Invalid;
      }
    }
  }

  // ----------------------------------------------------------------- which calls draw

  /** Which random numbers store a value. */
  lemma {:induction false} StoresIff(c: Config, s: State, i: Input)
    requires c.Valid()
    ensures Step(c, s, i).1.Value? <==> 100 * (i.rand + 1) <= 32768 * c.percent
  {
    BelowShare(i.rand, MAX_RAND + 1, c.percent);
  }

  /** Of all random numbers exactly the column's share stores a value. */
  lemma {:induction false} StoringShare(c: Config, s: State, i: Input)
    requires c.Valid()
    ensures |set r: nat | r < 32768 && Step(c, s, i.(rand := r)).1.Value?| == 32768 * c.percent / 100
  {
    var hits := set r: nat | r < 32768 && Step(c, s, i.(rand := r)).1.Value?;
    forall r: nat
      ensures r in hits <==> r < 32768 && 100 * (r + 1) <= 32768 * c.percent
    {
      StoresIff(c, s, i.(rand := r));
    }
    SharesCount(hits, 32768, c.percent);
  }

  // ----------------------------------------------------------------- runs

  function Run(c: Config, s: State, inputs: seq<Input>): (r: (State, seq<Output>))
    requires c.Valid()
    ensures |r.1| == |inputs|
    decreases |inputs|
  {
    if inputs == [] then (s, [])
    else
      var last := |inputs| - 1;
      var (s1, outs) := Run(c, s, inputs[..last]);
      var (s2, out) := Step(c, s1, inputs[last]);
      (s2, outs + [out])
  }

  /** A run of one more call. */
  lemma {:induction false} RunStep(c: Config, s: State, inputs: seq<Input>)
    requires c.Valid() && inputs != []
    ensures var before := Run(c, s, inputs[..|inputs| - 1]);
            var call := Step(c, before.0, inputs[|inputs| - 1]);
            Run(c, s, inputs) == (call.0, before.1 + [call.1])
  {
    var last := |inputs| - 1;
    var before := Run(c, s, inputs[..last]);
    var call := Step(c, before.0, inputs[last]);
    assert Run(c, s, inputs) == (call.0, before.1 + [call.1]);
  }

  /** Every call draws. */
  ghost predicate AllDraw(c: Config, inputs: seq<Input>) {
    c.Valid() && c.percent == 100 && forall k | 0 <= k < |inputs| :: inputs[k].rand <= MAX_RAND
  }

  /** No call sets the counter back to its start. */
  ghost predicate KeepsOn(c: Config, inputs: seq<Input>) {
    forall k | 0 <= k < |inputs| :: inputs[k].filled != 0 || !c.isReset
  }

  /** One table's rows, or the rest of them: only the first call may begin the table. */
  ghost predicate OneTable(inputs: seq<Input>) {
    inputs != [] && forall k | 1 <= k < |inputs| :: inputs[k].filled != 0
  }

  /** The calls with the beginning of the table already behind them. */
  function Begun(inputs: seq<Input>): (r: seq<Input>)
    requires inputs != []
    ensures |r| == |inputs|
  {
    inputs[0 := inputs[0].(filled := 1)]
  }

  /** A call that begins a table restarts the counter and then goes on like any other. */
  lemma {:induction false} RestartFirst(c: Config, s: State, i: Input)
    requires c.Valid()
    ensures Step(c, s, i) == Step(c, Restart(c, s, i.filled), i.(filled := 1))
  {
  }

  lemma {:induction false} RunRestarts(c: Config, s: State, inputs: seq<Input>)
    requires c.Valid() && inputs != []
    ensures Run(c, s, inputs) == Run(c, Restart(c, s, inputs[0].filled), Begun(inputs))
    decreases |inputs|
  {
    var first, begun := Restart(c, s, inputs[0].filled), Begun(inputs);
    RunStep(c, s, inputs);
    RunStep(c, first, begun);
    if |inputs| == 1 {
      RestartFirst(c, s, inputs[0]);
    } else {
      RunRestarts(c, s, inputs[..|inputs| - 1]);
      assert Begun(inputs[..|inputs| - 1]) == begun[..|inputs| - 1];
    }
  }

  /** How many calls each value is held. */
  function Held(c: Config): nat {
    if c.unit > 1 then c.unit else 1
  }

  /** Which value call n gives out, and how many calls have given it out before. */
  function Number(c: Config, n: nat): nat {
    n / Held(c)
  }

  function Turn(c: Config, n: nat): (d: nat)
    ensures d < Held(c)
  {
    n % Held(c)
  }

  lemma {:induction false} NumberStep(c: Config, n: nat)
    ensures (Number(c, n + 1), Turn(c, n + 1)) ==
            if Turn(c, n) + 1 == Held(c) then (Number(c, n) + 1, 0) else (Number(c, n), Turn(c, n) + 1)
  {
    ModStep(n, Held(c));
  }

  lemma {:induction false} NumbersGrow(c: Config, n: nat, m: nat)
    requires n <= m
    ensures Number(c, n) <= Number(c, m)
    decreases m
  {
    if n < m {
      NumbersGrow(c, n, m - 1);
      NumberStep(c, m - 1);
    }
  }

  /** The j-th different value: each is the one before plus the step, sent back to the low end when it
      leaves the range. */
  function NthValue(c: Config, v: nat, j: nat): nat {
    if j == 0 then c.Clamp(v) else c.Clamp(NthValue(c, v, j - 1) + c.step)
  }

  lemma {:induction false} ClampInRange(c: Config, v: nat)
    requires c.lowRange <= c.highRange
    ensures c.lowRange <= c.Clamp(v) <= c.highRange && c.Clamp(c.Clamp(v)) == c.Clamp(v)
  {
  }

  /** A counter inside its range stays, one outside goes to the low end, whichever side it is on. */
  lemma {:induction false} OutsideGoesToLowEnd(c: Config, v: nat)
    requires c.lowRange <= c.highRange
    ensures c.Clamp(v) == v <==> c.lowRange <= v <= c.highRange
    ensures v < c.lowRange || v > c.highRange ==> c.Clamp(v) == c.lowRange
  {
  }

  /** How many values the range holds from x on, a step apart. */
  function Room(c: Config, x: nat): (n: nat)
    requires c.step > 0 && x <= c.highRange
    ensures n > 0
  {
    (c.highRange - x) / c.step + 1
  }

  /** Value j of a rise from x to the range's end, followed by cycles from its low end: where its rise
      starts, and which value of that rise it is. */
  function RisePlace(c: Config, x: nat, j: nat): (nat, nat)
    requires c.step > 0 && c.lowRange <= x <= c.highRange
  {
    var first := Room(c, x);
    if j < first then (x, j) else (c.lowRange, (j - first) % Room(c, c.lowRange))
  }

  /** The values rise by the step from the clamped start to the range's end, and then cycle from its low
      end. */
  lemma {:induction false} ValuesClosedForm(c: Config, v: nat, j: nat)
    requires c.lowRange <= c.highRange && c.step > 0
    ensures c.lowRange <= c.Clamp(v) <= c.highRange
    ensures var (start, i) := RisePlace(c, c.Clamp(v), j); NthValue(c, v, j) == start + c.step * i
    decreases j
  {
    ClampInRange(c, v);
    if j > 0 {
      ValuesClosedForm(c, v, j - 1);
      RiseStep(c, c.Clamp(v), j - 1);
      var (start, i) := RisePlace(c, c.Clamp(v), j - 1);
      NextValue(c, start, i);
    }
  }

  lemma {:induction false} RiseStep(c: Config, x: nat, j: nat)
    requires c.lowRange <= x <= c.highRange && c.step > 0
    ensures var (start, i) := RisePlace(c, x, j);
            && c.lowRange <= start <= c.highRange && i < Room(c, start)
            && RisePlace(c, x, j + 1) == if i + 1 < Room(c, start) then (start, i + 1) else (c.lowRange, 0)
  {
    if j >= Room(c, x) {
      CycleStep(c, x, j);
    } else {
      ZeroPlace(Room(c, c.lowRange));
    }
  }

  lemma {:induction false} ZeroPlace(n: nat)
    requires n > 0
    ensures 0 % n == 0
  {
  }

  lemma {:induction false} CycleStep(c: Config, x: nat, j: nat)
    requires c.lowRange <= x <= c.highRange && c.step > 0 && j >= Room(c, x)
    ensures var (start, i) := RisePlace(c, x, j);
            && start == c.lowRange && i < Room(c, start)
            && RisePlace(c, x, j + 1) == (c.lowRange, if i + 1 < Room(c, start) then i + 1 else 0)
  {
    ModStep(j - Room(c, x), Room(c, c.lowRange));
  }

  /** One step from the i-th value of a rise: the next, or the low end behind the last. */
  lemma {:induction false} NextValue(c: Config, x: nat, i: nat)
    requires c.lowRange <= x <= c.highRange && c.step > 0 && i < Room(c, x)
    ensures c.Clamp(x + c.step * i + c.step) == if i + 1 < Room(c, x) then x + c.step * (i + 1) else c.lowRange
  {
    var room := c.highRange - x;
    assert room == c.step * (room / c.step) + room % c.step;
    assert c.step * (i + 1) == c.step * i + c.step;
    if i + 1 < Room(c, x) {
      MulMono(c.step, i + 1, room / c.step);
    }
  }

  /** A step of 0 stays at the clamped start. */
  lemma {:induction false} ZeroStepIsConstant(c: Config, v: nat, j: nat)
    requires c.lowRange <= c.highRange && c.step == 0
    ensures NthValue(c, v, j) == c.Clamp(v)
    decreases j
  {
    if j > 0 {
      ZeroStepIsConstant(c, v, j - 1);
      ClampInRange(c, v);
    }
  }

  /** The state after n calls from `v`, when each value is held for Held calls. */
  ghost predicate HoldsAfter(c: Config, v: nat, n: nat, s: State) {
    s.dup == Turn(c, n) + 1 && c.Clamp(s.last) == NthValue(c, v, Number(c, n))
  }

  /** No batches, and a range that is one. */
  ghost predicate Rising(c: Config) {
    (c.rowsInBatch == 0 || c.percentInBatch == 100) && c.lowRange <= c.highRange
  }

  /** Whether the step up from a value of the range is the same in 64 bits: the sum fits, or what it wraps to
      is sent back to the low end as the sum would be. */
  predicate StepKept(c: Config, v: nat) {
    v + c.step < TWO_64 || v + c.step - TWO_64 <= c.lowRange || v + c.step - TWO_64 > c.highRange
  }

  lemma {:induction false} StepKeptIff(c: Config, v: nat)
    requires c.Valid() && c.lowRange <= v <= c.highRange
    ensures c.Clamp((v + c.step) % TWO_64) == c.Clamp(v + c.step) <==> StepKept(c, v)
  {
    if v + c.step >= TWO_64 {
      assert (v + c.step) % TWO_64 == v + c.step - TWO_64;
    }
  }

  /** The steps from value number a up to value number b are the same in 64 bits. */
  ghost predicate StepsKept(c: Config, v: nat, a: nat, b: nat) {
    forall j | a <= j < b :: StepKept(c, NthValue(c, v, j))
  }

  /** With room for a step above the range they all are. */
  lemma {:induction false} RoomKeepsSteps(c: Config, v: nat, a: nat, b: nat)
    requires c.lowRange <= c.highRange && c.highRange + c.step < TWO_64
    ensures StepsKept(c, v, a, b)
  {
    forall j | a <= j < b
      ensures StepKept(c, NthValue(c, v, j))
    {
      NthInRange(c, v, j);
    }
  }

  lemma {:induction false} NthInRange(c: Config, v: nat, j: nat)
    requires c.lowRange <= c.highRange
    ensures c.lowRange <= NthValue(c, v, j) <= c.highRange
  {
    ClampInRange(c, if j == 0 then v else NthValue(c, v, j - 1) + c.step);
  }

  /** One drawing call without batches. */
  lemma {:induction false} HeldStep(c: Config, s: State, i: Input)
    requires AllDraw(c, [i]) && KeepsOn(c, [i]) && Rising(c) && 1 <= s.dup <= Held(c)
    ensures var (s', out) := Step(c, s, i);
            var v := c.Clamp(s.last);
            && out == Value(v)
            && s'.dup == (if s.dup == Held(c) then 1 else s.dup + 1)
            && c.Clamp(s'.last) == if s.dup == Held(c) then c.Clamp((v + c.step) % TWO_64) else v
  {
    assert [i][0] == i;
    ClampInRange(c, s.last);
  }

  /** The state before a call that gives out value number a, d calls having given it out before: the call
      gives out what the counter stands at, and leads on to the next value exactly if its step is kept. */
  lemma {:induction false} HeldCall(c: Config, v: nat, a: nat, d: nat, s: State, i: Input)
    requires AllDraw(c, [i]) && KeepsOn(c, [i]) && Rising(c) && d < Held(c) && s.dup == d + 1
    ensures var (s', out) := Step(c, s, i);
            var (a', d') := if d + 1 == Held(c) then (a + 1, 0) else (a, d + 1);
            && s'.dup == d' + 1
            && (out == Value(NthValue(c, v, a)) <==> c.Clamp(s.last) == NthValue(c, v, a))
            && (c.Clamp(s.last) == NthValue(c, v, a) ==>
                  (c.Clamp(s'.last) == NthValue(c, v, a') <==> StepsKept(c, v, a, a')))
  {
    HeldStep(c, s, i);
    NextNth(c, v, a);
  }

  lemma {:induction false} NextNth(c: Config, v: nat, a: nat)
    requires c.Valid() && c.lowRange <= c.highRange
    ensures StepsKept(c, v, a, a + 1) <==> c.Clamp((NthValue(c, v, a) + c.step) % TWO_64) == NthValue(c, v, a + 1)
    ensures StepsKept(c, v, a, a)
  {
    NthInRange(c, v, a);
    StepKeptIff(c, NthValue(c, v, a));
    assert NthValue(c, v, a + 1) == c.Clamp(NthValue(c, v, a) + c.step);
    assert StepKept(c, NthValue(c, v, a)) ==> StepsKept(c, v, a, a + 1);
  }

  /** The outputs of calls n, n + 1 and so on, each value held for Held calls. */
  ghost predicate HeldOutputs(c: Config, v: nat, n: nat, outs: seq<Output>) {
    forall k | 0 <= k < |outs| :: outs[k] == Value(NthValue(c, v, Number(c, n + k)))
  }

  lemma {:induction false} DrawPrefix(c: Config, inputs: seq<Input>)
    requires AllDraw(c, inputs) && KeepsOn(c, inputs) && inputs != []
    ensures var last := |inputs| - 1;
            AllDraw(c, inputs[..last]) && KeepsOn(c, inputs[..last])
            && AllDraw(c, [inputs[last]]) && KeepsOn(c, [inputs[last]])
  {
  }

  /** Behind calls that started at value number a, the last of them giving out number p: their outputs are
      right exactly if every step up to p is kept; and in that case the state, in which d calls have given
      out number b, is right exactly if the step behind p is kept too. */
  ghost predicate Follows(c: Config, v: nat, a: nat, p: nat, b: nat, d: nat, s: State, right: bool) {
    && s.dup == d + 1
    && (right <==> StepsKept(c, v, a, p))
    && (right ==> (c.Clamp(s.last) == NthValue(c, v, b) <==> StepsKept(c, v, a, b)))
  }

  lemma {:induction false} FollowsStep(c: Config, v: nat, a: nat, p: nat, b: nat, d: nat, s: State, right: bool,
                                       i: Input, e: nat, d': nat, right': bool)
    requires AllDraw(c, [i]) && KeepsOn(c, [i]) && Rising(c) && d < Held(c)
    requires a <= p <= b && Follows(c, v, a, p, b, d, s, right)
    requires (e, d') == if d + 1 == Held(c) then (b + 1, 0) else (b, d + 1)
    requires right' <==> right && Step(c, s, i).1 == Value(NthValue(c, v, b))
    ensures Follows(c, v, a, b, e, d', Step(c, s, i).0, right')
  {
    HeldCall(c, v, b, d, s, i);
    StepsJoin(c, v, a, p, b);
    StepsJoin(c, v, a, b, e);
  }

  /** Calls n to m - 1 follow the values that are held for Held calls each. */
  ghost predicate HeldRun(c: Config, v: nat, n: nat, m: nat, s: State, outs: seq<Output>)
    requires n <= m
  {
    Follows(c, v, Number(c, n), Number(c, if n < m then m - 1 else n), Number(c, m), Turn(c, m), s,
            HeldOutputs(c, v, n, outs))
  }

  lemma {:induction false} OutputsSnoc(c: Config, v: nat, n: nat, outs: seq<Output>, out: Output)
    ensures HeldOutputs(c, v, n, outs + [out]) <==>
            HeldOutputs(c, v, n, outs) && out == Value(NthValue(c, v, Number(c, n + |outs|)))
  {
    var more := outs + [out];
    assert more[..|outs|] == outs && more[|outs|] == out;
    if HeldOutputs(c, v, n, more) {
      forall k | 0 <= k < |outs|
        ensures outs[k] == Value(NthValue(c, v, Number(c, n + k)))
      {
        assert more[k] == outs[k];
      }
    }
  }

  lemma {:induction false} StepsJoin(c: Config, v: nat, a: nat, b: nat, e: nat)
    requires a <= b <= e
    ensures StepsKept(c, v, a, e) <==> StepsKept(c, v, a, b) && StepsKept(c, v, b, e)
  {
  }

  lemma {:induction false} HeldRunStep(c: Config, v: nat, n: nat, m: nat, s: State, outs: seq<Output>, i: Input)
    requires AllDraw(c, [i]) && KeepsOn(c, [i]) && Rising(c)
    requires n <= m && |outs| == m - n && HeldRun(c, v, n, m, s, outs)
    ensures HeldRun(c, v, n, m + 1, Step(c, s, i).0, outs + [Step(c, s, i).1])
  {
    var last := if n < m then m - 1 else n;
    OutputsSnoc(c, v, n, outs, Step(c, s, i).1);
    NumberStep(c, m);
    NumbersGrow(c, n, last);
    NumbersGrow(c, last, m);
    FollowsStep(c, v, Number(c, n), Number(c, last), Number(c, m), Turn(c, m), s, HeldOutputs(c, v, n, outs), i,
                Number(c, m + 1), Turn(c, m + 1), HeldOutputs(c, v, n, outs + [Step(c, s, i).1]));
  }

  lemma {:induction false} CallsFollow(c: Config, v: nat, n: nat, s: State, inputs: seq<Input>)
    requires AllDraw(c, inputs) && KeepsOn(c, inputs) && Rising(c) && HoldsAfter(c, v, n, s)
    ensures HeldRun(c, v, n, n + |inputs|, Run(c, s, inputs).0, Run(c, s, inputs).1)
    decreases |inputs|
  {
    if inputs != [] {
      var last := |inputs| - 1;
      var before := Run(c, s, inputs[..last]);
      DrawPrefix(c, inputs);
      CallsFollow(c, v, n, s, inputs[..last]);
      RunStep(c, s, inputs);
      HeldRunStep(c, v, n, n + last, before.0, before.1, inputs[last]);
    }
  }

  /** Without batches, call k of a run stores value number (n + k) / unit, n calls having gone before, for
      all calls if and only if the steps between these values are kept; tables may begin at any of the
      calls unless that resets the counter. */
  lemma {:induction false} CallsHoldValues(c: Config, v: nat, n: nat, s: State, inputs: seq<Input>)
    requires AllDraw(c, inputs) && KeepsOn(c, inputs) && Rising(c) && HoldsAfter(c, v, n, s) && inputs != []
    ensures HeldOutputs(c, v, n, Run(c, s, inputs).1) <==>
            StepsKept(c, v, Number(c, n), Number(c, n + |inputs| - 1))
    ensures StepsKept(c, v, Number(c, n), Number(c, n + |inputs|)) ==>
              HoldsAfter(c, v, n + |inputs|, Run(c, s, inputs).0)
    ensures Run(c, s, inputs).0.dup == Turn(c, n + |inputs|) + 1
  {
    CallsFollow(c, v, n, s, inputs);
    NumbersGrow(c, n, n + |inputs| - 1);
    NumbersGrow(c, n + |inputs| - 1, n + |inputs|);
    StepsJoin(c, v, Number(c, n), Number(c, n + |inputs| - 1), Number(c, n + |inputs|));
  }

  /** Where a state stands in the values that rise from its own counter. */
  lemma {:induction false} HoldsNow(c: Config, s: State)
    requires 1 <= s.dup <= Held(c)
    ensures HoldsAfter(c, s.last, s.dup - 1, s) && Number(c, s.dup - 1) == 0
  {
    DivModUnique(s.dup - 1, Held(c), 0, s.dup - 1);
  }

  /** A whole table, its first row included: its values rise from the configured start if the generator
      resets, and else from where it stood, a value half given out before being given out to its end, if
      and only if the steps between these values are kept. */
  lemma {:induction false} TableHoldsValues(c: Config, s: State, inputs: seq<Input>)
    requires AllDraw(c, inputs) && OneTable(inputs) && Rising(c) && 1 <= s.dup <= Held(c)
    ensures var v, n := Restart(c, s, inputs[0].filled).last, s.dup - 1;
            && (HeldOutputs(c, v, n, Run(c, s, inputs).1) <==> StepsKept(c, v, 0, Number(c, n + |inputs| - 1)))
            && (StepsKept(c, v, 0, Number(c, n + |inputs|)) ==> HoldsAfter(c, v, n + |inputs|, Run(c, s, inputs).0))
            && Run(c, s, inputs).0.dup == Turn(c, n + |inputs|) + 1
  {
    var first := Restart(c, s, inputs[0].filled);
    RunRestarts(c, s, inputs);
    HoldsNow(c, first);
    CallsHoldValues(c, first.last, s.dup - 1, first, Begun(inputs));
  }

  // ----------------------------------------------------------------- several files

  /** A table's files, one after the other. */
  function RunFiles(c: Config, s: State, files: seq<seq<Input>>): (r: (State, seq<seq<Output>>))
    requires c.Valid()
    ensures |r.1| == |files|
    decreases |files|
  {
    if files == [] then (s, [])
    else
      var (s1, outs) := RunFiles(c, s, files[..|files| - 1]);
      var (s2, out) := Run(c, s1, files[|files| - 1]);
      (s2, outs + [out])
  }

  /** Every file is a table from its first row on. */
  ghost predicate WholeFiles(c: Config, files: seq<seq<Input>>) {
    forall j | 0 <= j < |files| :: AllDraw(c, files[j]) && OneTable(files[j]) && files[j][0].filled == 0
  }

  function CallsOf(files: seq<seq<Input>>): nat {
    if files == [] then 0 else CallsOf(files[..|files| - 1]) + |files[|files| - 1]|
  }

  /** How far a held value has been given out when the file behind `files` begins, d calls having given it
      out before. */
  function Phase(c: Config, d: nat, files: seq<seq<Input>>): nat {
    Turn(c, d + CallsOf(files))
  }

  /** Every file's values rise from the configured start, held from the phase on that it begins with. */
  ghost predicate FilesHeld(c: Config, d: nat, files: seq<seq<Input>>, outs: seq<seq<Output>>)
    requires |outs| == |files|
  {
    files == [] ||
    var last := |files| - 1;
    FilesHeld(c, d, files[..last], outs[..last]) && HeldOutputs(c, c.init, Phase(c, d, files[..last]), outs[last])
  }

  /** In every file the steps up to its last value are kept. */
  ghost predicate FilesKept(c: Config, d: nat, files: seq<seq<Input>>) {
    files == [] ||
    var last := |files| - 1;
    FilesKept(c, d, files[..last]) && StepsKept(c, c.init, 0, LastNumber(c, d, files[..last], |files[last]|))
  }

  /** The number of the last value that a file of n rows behind `files` gives out. */
  function LastNumber(c: Config, d: nat, files: seq<seq<Input>>, n: nat): nat {
    if n == 0 then 0 else Number(c, Phase(c, d, files) + n - 1)
  }

  lemma {:induction false} FilesRunStep(c: Config, s: State, files: seq<seq<Input>>)
    requires c.Valid() && files != []
    ensures var before := RunFiles(c, s, files[..|files| - 1]);
            var file := Run(c, before.0, files[|files| - 1]);
            && RunFiles(c, s, files) == (file.0, before.1 + [file.1])
            && RunFiles(c, s, files).1[..|files| - 1] == before.1 && RunFiles(c, s, files).1[|files| - 1] == file.1
  {
    var last := |files| - 1;
    var before := RunFiles(c, s, files[..last]);
    var file := Run(c, before.0, files[last]);
    assert RunFiles(c, s, files) == (file.0, before.1 + [file.1]);
  }

  /** Over several files of a resetting generator, every file's values rise from the configured start, if and
      only if the steps between them are kept; a value half given out at the end of a file counts its calls
      on in the next. */
  lemma {:induction false} ResettingFilesHoldValues(c: Config, s: State, files: seq<seq<Input>>)
    requires c.Valid() && c.isReset && WholeFiles(c, files) && Rising(c) && 1 <= s.dup <= Held(c)
    ensures RunFiles(c, s, files).0.dup == Phase(c, s.dup - 1, files) + 1
    ensures FilesHeld(c, s.dup - 1, files, RunFiles(c, s, files).1) <==> FilesKept(c, s.dup - 1, files)
    decreases |files|
  {
    if files == [] {
      DivModUnique(s.dup - 1, Held(c), 0, s.dup - 1);
    } else {
      var last := |files| - 1;
      ResettingFilesHoldValues(c, s, files[..last]);
      FilesRunStep(c, s, files);
      var before := RunFiles(c, s, files[..last]);
      ResettingStep(c, s.dup - 1, files, before.0, before.1);
    }
  }

  lemma {:induction false} ResettingStep(c: Config, d: nat, files: seq<seq<Input>>, s: State, outs: seq<seq<Output>>)
    requires c.Valid() && c.isReset && WholeFiles(c, files) && Rising(c) && files != [] && |outs| == |files| - 1
    requires s.dup == Phase(c, d, files[..|files| - 1]) + 1
    requires FilesHeld(c, d, files[..|files| - 1], outs) <==> FilesKept(c, d, files[..|files| - 1])
    ensures var (s', out) := Run(c, s, files[|files| - 1]);
            && s'.dup == Phase(c, d, files) + 1
            && (FilesHeld(c, d, files, outs + [out]) <==> FilesKept(c, d, files))
  {
    var last := |files| - 1;
    var all := outs + [Run(c, s, files[last]).1];
    assert all[..last] == outs;
    NextHeldFile(c, Phase(c, d, files[..last]), s, files[last]);
    PhaseStep(c, d, files);
    FilesHeldStep(c, d, files, all);
  }

  lemma {:induction false} FilesHeldStep(c: Config, d: nat, files: seq<seq<Input>>, outs: seq<seq<Output>>)
    requires |outs| == |files| && files != [] && files[|files| - 1] != []
    ensures var last := |files| - 1;
            var n := Phase(c, d, files[..last]);
            && (FilesHeld(c, d, files, outs) <==>
                FilesHeld(c, d, files[..last], outs[..last]) && HeldOutputs(c, c.init, n, outs[last]))
            && (FilesKept(c, d, files) <==>
                FilesKept(c, d, files[..last]) && StepsKept(c, c.init, 0, Number(c, n + |files[last]| - 1)))
  {
  }

  lemma {:induction false} NextHeldFile(c: Config, n: nat, s: State, file: seq<Input>)
    requires AllDraw(c, file) && OneTable(file) && file[0].filled == 0 && c.isReset && Rising(c)
    requires n < Held(c) && s.dup == n + 1
    ensures Run(c, s, file).0.dup == Turn(c, n + |file|) + 1
    ensures HeldOutputs(c, c.init, n, Run(c, s, file).1) <==> StepsKept(c, c.init, 0, Number(c, n + |file| - 1))
  {
    TableHoldsValues(c, s, file);
  }

  /** A step is not always kept: with the default highest value, the second call stores 4 and not the low
      end. */
  lemma {:induction false} StepWraps(s: State, inputs: seq<Input>)
    requires inputs == [Input(0, 0), Input(1, 0)] && s.dup == 1
    ensures var c := Config(0, TWO_64 - 2, TWO_64 - 6, 10, 1, true, 100, 0, 100);
            && c.Valid() && Run(c, s, inputs).1 == [Value(TWO_64 - 6), Value(4)]
            && NthValue(c, c.init, 1) == 0 && !StepKept(c, NthValue(c, c.init, 0))
  {
    var c := Config(0, TWO_64 - 2, TWO_64 - 6, 10, 1, true, 100, 0, 100);
    assert inputs[..1][..0] == [] && inputs[..1][0] == inputs[0];
    assert (TWO_64 - 6 + c.step) % TWO_64 == 4;
    RunStep(c, s, inputs[..1]);
    RunStep(c, s, inputs);
  }

  lemma {:induction false} PhaseStep(c: Config, d: nat, files: seq<seq<Input>>)
    requires files != []
    ensures Turn(c, Phase(c, d, files[..|files| - 1]) + |files[|files| - 1]|) == Phase(c, d, files)
  {
    var n, h := d + CallsOf(files[..|files| - 1]), Held(c);
    assert n == h * (n / h) + n % h;
    ModShift(n % h + |files[|files| - 1]|, h, n / h);
  }

  // ----------------------------------------------------------------- batch repetition

  /** Place k of the repeating pattern with batches of n calls of which the first f are new: within a
      batch f values rise, then the last n - f of them come again; each batch starts f later. */
  function Repeating(n: nat, f: nat, k: nat): int
    requires n > 0
  {
    var b, r := k / n, k % n;
    b * f + if r < f then r else r - (n - f)
  }

  /** Where the counter stands before call k. */
  function CounterAt(n: nat, f: nat, k: nat): int
    requires n > 0
  {
    var b, r := k / n, k % n;
    b * f + if r <= f then r else r - (n - f)
  }

  /** With at least half of a batch new, the calls behind the new ones give the last of them once more, in
      order, and the next batch starts f values after this one. */
  lemma {:induction false} TailComesAgain(n: nat, f: nat, b: nat, i: nat)
    requires f < n <= 2 * f && i < n - f
    ensures n * b + (2 * f - n) + i < n * b + f
    ensures Repeating(n, f, n * b + f + i) == Repeating(n, f, n * b + (2 * f - n) + i)
    ensures Repeating(n, f, n * (b + 1)) == Repeating(n, f, n * b) + f
  {
    DivModUnique(n * b + f + i, n, b, f + i);
    DivModUnique(n * b + (2 * f - n) + i, n, b, 2 * f - n + i);
    DivModUnique(n * b, n, b, 0);
    DivModUnique(n * (b + 1), n, b + 1, 0);
    assert (b + 1) * f == b * f + f;
  }

  /** A batched configuration without overflow: step 1, no held values, whole numbers of rows. */
  ghost predicate WholeBatches(c: Config, f: nat) {
    && c.Valid() && c.rowsInBatch > 0 && c.percentInBatch != 100 && c.step == 1 && c.unit <= 1
    && c.rowsInBatch * 100 < TWO_32 && c.rowsInBatch * c.percentInBatch == 100 * f
  }

  lemma {:induction false} BatchNumbers(c: Config, f: nat)
    requires WholeBatches(c, f)
    ensures f < c.rowsInBatch && c.ResetRow() == f && c.StepBack() == c.rowsInBatch - f
  {
    BatchShares(c.rowsInBatch, c.percentInBatch, f);
    WholeShare(c.rowsInBatch * c.percentInBatch, f);
    WholeShare(c.rowsInBatch * (100 - c.percentInBatch), c.rowsInBatch - f);
  }

  lemma {:induction false} BatchShares(n: nat, p: nat, f: nat)
    requires n > 0 && p <= 99 && n * p == 100 * f
    ensures f < n && n * (100 - p) == 100 * (n - f)
  {
    MulMono(n, p, 99);
    assert n * (100 - p) == n * 100 - n * p;
  }

  lemma {:induction false} WholeShare(x: nat, f: nat)
    requires x == 100 * f < TWO_32
    ensures x % TWO_32 / 100 == f
  {
  }

  /** The counter's next place. */
  lemma {:induction false} CounterStep(n: nat, f: nat, k: nat)
    requires f < n
    ensures CounterAt(n, f, k + 1) == Repeating(n, f, k) + 1
    ensures Repeating(n, f, k) == CounterAt(n, f, k) - if k % n == f then n - f else 0
  {
    ModStep(k, n);
    var b, r := k / n, k % n;
    if r == n - 1 {
      assert (b + 1) * f == b * f + f;
    }
  }

  /** The values that calls 0 to n - 1 of a batched run store, and every counter place in between, stay in
      the range: checkable from the bounds of the pattern. */
  ghost predicate NoWrap(c: Config, f: nat, v: nat, calls: nat)
    requires c.rowsInBatch > 0
  {
    && c.lowRange + (c.rowsInBatch - f) <= v + f
    && c.lowRange <= v
    && forall k | 0 <= k <= calls :: v + CounterAt(c.rowsInBatch, f, k) <= c.highRange < TWO_64 - 1
  }

  lemma {:induction false} CounterNotBelow(c: Config, f: nat, v: nat, calls: nat, k: nat)
    requires c.rowsInBatch > f && NoWrap(c, f, v, calls)
    ensures v + CounterAt(c.rowsInBatch, f, k) >= c.lowRange
    ensures v + Repeating(c.rowsInBatch, f, k) >= c.lowRange
  {
    var b := k / c.rowsInBatch;
    assert b * f >= 0;
  }

  /** The counter of a batched run before call k. */
  ghost predicate BatchAt(c: Config, f: nat, v: nat, k: nat, s: State)
    requires c.rowsInBatch > 0
  {
    s.rowIdx == k && s.last == v + CounterAt(c.rowsInBatch, f, k)
  }

  lemma {:induction false} StoredInBatch(c: Config, f: nat, v: nat, k: nat, s: State, calls: nat)
    requires WholeBatches(c, f) && c.rowsInBatch > f && NoWrap(c, f, v, calls) && k < calls
    requires BatchAt(c, f, v, k, s)
    ensures Stored(c, s) == v + Repeating(c.rowsInBatch, f, k)
    ensures 0 <= v + Repeating(c.rowsInBatch, f, k) < TWO_64 - 1
  {
    BatchNumbers(c, f);
    CounterNotBelow(c, f, v, calls, k);
    CounterStep(c.rowsInBatch, f, k);
    assert v + CounterAt(c.rowsInBatch, f, k) <= c.highRange;
    assert c.Clamp(s.last) == s.last;
  }

  /** A call that draws in a batched run without held values. */
  lemma {:induction false} StepDraws(c: Config, s: State, i: Input)
    requires c.Valid() && c.percent == 100 && c.unit <= 1 && c.step == 1
    requires i.rand <= MAX_RAND && i.filled != 0 && s.rowIdx < TWO_32 - 1 && Stored(c, s) < TWO_64 - 1
    ensures Step(c, s, i) == (State(Stored(c, s) + 1, s.dup, s.rowIdx + 1), Value(Stored(c, s)))
  {
    assert (Stored(c, s) + 1) % TWO_64 == Stored(c, s) + 1;
    assert (s.rowIdx + 1) % TWO_32 == s.rowIdx + 1;
  }

  /** One drawing call of a batched run. */
  lemma {:induction false} BatchStep(c: Config, f: nat, v: nat, k: nat, s: State, i: Input, calls: nat)
    requires WholeBatches(c, f) && c.rowsInBatch > f && NoWrap(c, f, v, calls) && k < calls < TWO_32
    requires c.percent == 100 && i.rand <= MAX_RAND && i.filled != 0 && BatchAt(c, f, v, k, s)
    ensures 0 <= v + Repeating(c.rowsInBatch, f, k)
    ensures Step(c, s, i).1 == Value(v + Repeating(c.rowsInBatch, f, k))
    ensures BatchAt(c, f, v, k + 1, Step(c, s, i).0)
  {
    StoredInBatch(c, f, v, k, s, calls);
    StepDraws(c, s, i);
    CounterStep(c.rowsInBatch, f, k);
  }

  ghost predicate BatchOutputs(c: Config, f: nat, v: nat, outs: seq<Output>)
    requires c.rowsInBatch > 0
  {
    forall k | 0 <= k < |outs| ::
      0 <= v + Repeating(c.rowsInBatch, f, k) && outs[k] == Value(v + Repeating(c.rowsInBatch, f, k))
  }

  /** Batch repetition inside a table: call k stores the start plus place k of the repeating pattern. */
  lemma {:induction false} CallsRepeatTails(c: Config, f: nat, s: State, inputs: seq<Input>, calls: nat)
    requires WholeBatches(c, f) && AllDraw(c, inputs) && s.rowIdx == 0
    requires forall k | 0 <= k < |inputs| :: inputs[k].filled != 0
    requires NoWrap(c, f, s.last, calls) && |inputs| <= calls < TWO_32
    ensures BatchAt(c, f, s.last, |inputs|, Run(c, s, inputs).0)
    ensures BatchOutputs(c, f, s.last, Run(c, s, inputs).1)
    decreases |inputs|
  {
    BatchNumbers(c, f);
    if inputs == [] {
      DivModUnique(0, c.rowsInBatch, 0, 0);
    } else {
      var last := |inputs| - 1;
      CallsRepeatTails(c, f, s, inputs[..last], calls);
      RunStep(c, s, inputs);
      BatchStep(c, f, s.last, last, Run(c, s, inputs[..last]).0, inputs[last], calls);
    }
  }

  /** Batch repetition over a whole table, its first row included: call k stores the start plus place k of
      the repeating pattern, and the counter is left at its place behind the table's calls. */
  lemma {:induction false} TableRepeatsTails(c: Config, f: nat, s: State, inputs: seq<Input>)
    requires WholeBatches(c, f) && AllDraw(c, inputs) && OneTable(inputs) && |inputs| < TWO_32
    requires inputs[0].filled == 0 || s.rowIdx == 0
    requires NoWrap(c, f, Restart(c, s, inputs[0].filled).last, |inputs|)
    ensures var v := Restart(c, s, inputs[0].filled).last;
            BatchAt(c, f, v, |inputs|, Run(c, s, inputs).0) && BatchOutputs(c, f, v, Run(c, s, inputs).1)
  {
    RunRestarts(c, s, inputs);
    CallsRepeatTails(c, f, Restart(c, s, inputs[0].filled), Begun(inputs), |inputs|);
  }

  // ----------------------------------------------------------------- batches of any step and unit

  /** The batch's reset row and step back, for every percentage: the 32-bit remainders are divided without
      rounding up. */
  lemma {:induction false} BatchRounding(c: Config)
    ensures var f, product := c.ResetRow(), c.rowsInBatch * c.percentInBatch;
            100 * f <= product % 0x1_0000_0000 < 100 * (f + 1)
    ensures c.percentInBatch <= 100 ==>
              var back, product := c.StepBack(), c.rowsInBatch * (100 - c.percentInBatch);
              100 * back <= product % 0x1_0000_0000 < 100 * (back + 1)
  {
  }

  /** How many of the first k calls step back, d calls having given out the first value before: every call
      whose value is a reset row's, held calls included. */
  function TimesBack(c: Config, d: nat, k: nat): nat
    requires c.rowsInBatch > 0
  {
    if k == 0 then 0
    else TimesBack(c, d, k - 1) + if Number(c, d + k - 1) % c.rowsInBatch == c.ResetRow() then 1 else 0
  }

  /** Where the counter stands before call k: a step on for each value begun, back for each step back. */
  function PlaceBefore(c: Config, d: nat, v: nat, k: nat): int
    requires c.rowsInBatch > 0
  {
    v + c.step * Number(c, d + k) - c.StepBack() * TimesBack(c, d, k)
  }

  /** What call k stores: a reset row's calls step back before they store. */
  function PlaceStored(c: Config, d: nat, v: nat, k: nat): int
    requires c.rowsInBatch > 0
  {
    v + c.step * Number(c, d + k) - c.StepBack() * TimesBack(c, d, k + 1)
  }

  /** The counter stays in its range before each of the calls, and in 64 bits. */
  ghost predicate StaysInRange(c: Config, d: nat, v: nat, calls: nat)
    requires c.rowsInBatch > 0
  {
    && calls < TWO_32
    && forall k | 0 <= k < calls ::
         && c.lowRange <= PlaceBefore(c, d, v, k) <= c.highRange
         && 0 <= PlaceStored(c, d, v, k) && PlaceStored(c, d, v, k) + c.step < TWO_64
  }

  ghost predicate BatchedAt(c: Config, d: nat, v: nat, k: nat, s: State)
    requires c.rowsInBatch > 0
  {
    s.dup == Turn(c, d + k) + 1 && s.rowIdx == Number(c, d + k) && s.last == PlaceBefore(c, d, v, k)
  }

  lemma {:induction false} PlacesStep(c: Config, d: nat, v: nat, k: nat)
    requires c.rowsInBatch > 0
    ensures PlaceStored(c, d, v, k) ==
            PlaceBefore(c, d, v, k) - if Number(c, d + k) % c.rowsInBatch == c.ResetRow() then c.StepBack() else 0
    ensures PlaceBefore(c, d, v, k + 1) ==
            PlaceStored(c, d, v, k) + if Turn(c, d + k) + 1 == Held(c) then c.step else 0
  {
    NumberStep(c, d + k);
    var t := TimesBack(c, d, k);
    assert c.StepBack() * (t + 1) == c.StepBack() * t + c.StepBack();
    assert c.step * (Number(c, d + k) + 1) == c.step * Number(c, d + k) + c.step;
  }

  lemma {:induction false} NumberAtMost(c: Config, n: nat)
    ensures Number(c, n) <= n
    decreases n
  {
    if n == 0 {
      DivModUnique(0, Held(c), 0, 0);
    } else {
      NumberAtMost(c, n - 1);
      NumberStep(c, n - 1);
    }
  }

  /** One drawing call of a batched generator whose counter is in its range. */
  lemma {:induction false} BatchedCall(c: Config, s: State, i: Input, stored: nat)
    requires c.Valid() && c.percent == 100 && i.rand <= MAX_RAND && i.filled != 0
    requires c.rowsInBatch > 0 && c.percentInBatch != 100 && c.lowRange <= s.last <= c.highRange
    requires stored == s.last - if s.rowIdx % c.rowsInBatch == c.ResetRow() then c.StepBack() else 0
    requires stored + c.step < TWO_64 && s.rowIdx < TWO_32 - 1 && 1 <= s.dup <= Held(c)
    ensures Step(c, s, i).1 == Value(stored)
    ensures Step(c, s, i).0 ==
            if s.dup == Held(c) then State(stored + c.step, 1, s.rowIdx + 1) else State(stored, s.dup + 1, s.rowIdx)
  {
    assert c.Clamp(s.last) == s.last && stored % TWO_64 == stored;
    assert (stored + c.step) % TWO_64 == stored + c.step && (s.rowIdx + 1) % TWO_32 == s.rowIdx + 1;
  }

  lemma {:induction false} BatchedStep(c: Config, d: nat, v: nat, k: nat, s: State, i: Input, calls: nat)
    requires c.Valid() && c.percent == 100 && i.rand <= MAX_RAND && i.filled != 0
    requires c.rowsInBatch > 0 && c.percentInBatch != 100 && d + calls < TWO_32
    requires k < calls && StaysInRange(c, d, v, calls) && BatchedAt(c, d, v, k, s)
    ensures 0 <= PlaceStored(c, d, v, k) && Step(c, s, i).1 == Value(PlaceStored(c, d, v, k))
    ensures BatchedAt(c, d, v, k + 1, Step(c, s, i).0)
  {
    NumberAtMost(c, d + k);
    NumberStep(c, d + k);
    PlacesStep(c, d, v, k);
    BatchedCall(c, s, i, PlaceStored(c, d, v, k));
  }

  ghost predicate PlacesStored(c: Config, d: nat, v: nat, outs: seq<Output>)
    requires c.rowsInBatch > 0
  {
    forall k | 0 <= k < |outs| :: 0 <= PlaceStored(c, d, v, k) && outs[k] == Value(PlaceStored(c, d, v, k))
  }

  /** The batch theorem for any step, any unit and any number of rows: as long as the counter stays in its
      range, call k stores the start plus a step for each value begun, less the step back for each call on a
      reset row so far, a held value stepping back at each of its calls. */
  lemma {:induction false} BatchedCallsStore(c: Config, d: nat, s: State, inputs: seq<Input>, calls: nat)
    requires c.rowsInBatch > 0 && c.percentInBatch != 100 && AllDraw(c, inputs)
    requires forall k | 0 <= k < |inputs| :: inputs[k].filled != 0
    requires d < Held(c) && s.dup == d + 1 && s.rowIdx == 0
    requires StaysInRange(c, d, s.last, calls) && |inputs| <= calls && d + calls < TWO_32
    ensures BatchedAt(c, d, s.last, |inputs|, Run(c, s, inputs).0)
    ensures PlacesStored(c, d, s.last, Run(c, s, inputs).1)
    decreases |inputs|
  {
    if inputs == [] {
      DivModUnique(d, Held(c), 0, d);
    } else {
      var last := |inputs| - 1;
      BatchedCallsStore(c, d, s, inputs[..last], calls);
      RunStep(c, s, inputs);
      BatchedStep(c, d, s.last, last, Run(c, s, inputs[..last]).0, inputs[last], calls);
    }
  }

  lemma {:induction false} BatchedTableStores(c: Config, s: State, inputs: seq<Input>)
    requires c.rowsInBatch > 0 && c.percentInBatch != 100 && AllDraw(c, inputs) && OneTable(inputs)
    requires inputs[0].filled == 0 && 1 <= s.dup <= Held(c) && s.dup + |inputs| <= TWO_32
    requires StaysInRange(c, s.dup - 1, if c.isReset then c.init else s.last, |inputs|)
    ensures PlacesStored(c, s.dup - 1, if c.isReset then c.init else s.last, Run(c, s, inputs).1)
  {
    RunRestarts(c, s, inputs);
    BatchedCallsStore(c, s.dup - 1, Restart(c, s, 0), Begun(inputs), |inputs|);
  }

  /** Inside a table the row counter counts the values begun, in 32 bits, and held calls count up to the
      duplicated unit. */
  lemma {:induction false} RowsCountValues(c: Config, s: State, inputs: seq<Input>)
    requires AllDraw(c, inputs) && (forall k | 0 <= k < |inputs| :: inputs[k].filled != 0)
    requires 1 <= s.dup <= Held(c) && s.rowIdx < 0x1_0000_0000
    ensures Counted(c, s.rowIdx, s.dup - 1 + |inputs|, Run(c, s, inputs).0)
    decreases |inputs|
  {
    if inputs == [] {
      HoldsNow(c, s);
      DivModUnique(s.rowIdx, TWO_32, 0, s.rowIdx);
    } else {
      var last := |inputs| - 1;
      var before := Run(c, s, inputs[..last]).0;
      RowsCountValues(c, s, inputs[..last]);
      RunStep(c, s, inputs);
      CountStep(c, s.rowIdx, s.dup - 1 + last, before, inputs[last]);
    }
  }

  /** The counters before the n-th call since a value began. */
  ghost predicate Counted(c: Config, row: nat, n: nat, s: State) {
    s.rowIdx == (row + Number(c, n)) % 0x1_0000_0000 && s.dup == Turn(c, n) + 1
  }

  lemma {:induction false} CountStep(c: Config, row: nat, n: nat, s: State, i: Input)
    requires c.Valid() && c.percent == 100 && i.rand <= MAX_RAND && i.filled != 0 && Counted(c, row, n, s)
    ensures Counted(c, row, n + 1, Step(c, s, i).0)
  {
    NumberStep(c, n);
    NextCount(c, s, i);
    OneMoreIn32Bits(row + Number(c, n));
  }

  lemma {:induction false} NextCount(c: Config, s: State, i: Input)
    requires c.Valid() && c.percent == 100 && i.rand <= MAX_RAND && i.filled != 0 && 1 <= s.dup <= Held(c)
    ensures var s' := Step(c, s, i).0;
            if s.dup == Held(c) then s'.dup == 1 && s'.rowIdx == (s.rowIdx + 1) % TWO_32
            else s'.dup == s.dup + 1 && s'.rowIdx == s.rowIdx
  {
  }

  lemma {:induction false} OneMoreIn32Bits(n: nat)
    ensures (n % TWO_32 + 1) % TWO_32 == (n + 1) % TWO_32
  {
  }

  /** A step back below 0 wraps in 64 bits. */
  lemma {:induction false} StepBackWraps(c: Config, s: State, i: Input)
    requires c.Valid() && c.percent == 100 && i.rand <= MAX_RAND && i.filled != 0
    requires c.rowsInBatch > 0 && c.percentInBatch != 100 && s.rowIdx % c.rowsInBatch == c.ResetRow()
    requires c.lowRange <= s.last <= c.highRange && s.last < c.StepBack()
    ensures Step(c, s, i).1 == Value(0x1_0000_0000_0000_0000 + s.last - c.StepBack())
  {
    StepBackIn32Bits(c);
    WrapsIn64Bits(s.last, c.StepBack());
    assert Stored(c, s) == (s.last - c.StepBack()) % TWO_64;
  }

  lemma {:induction false} StepBackIn32Bits(c: Config)
    requires c.Valid()
    ensures c.StepBack() < TWO_32
  {
  }

  lemma {:induction false} WrapsIn64Bits(v: nat, back: nat)
    requires v < back < TWO_32
    ensures (v - back) % TWO_64 == TWO_64 + v - back
  {
  }

  // ----------------------------------------------------------------- batch repetition over files

  /** Where the counter stands behind the files: at the place that the last file's pattern has reached from
      its start. */
  function CounterAfter(c: Config, f: nat, v: nat, files: seq<seq<Input>>): int
    requires c.rowsInBatch > 0
    decreases |files|, 0
  {
    if files == [] then v
    else
      var last := |files| - 1;
      FileStart(c, f, v, files[..last]) + CounterAt(c.rowsInBatch, f, |files[last]|)
  }

  /** Where the file behind `files` starts: at the configured start if the generator resets, and else where
      the files have left the counter. */
  function FileStart(c: Config, f: nat, v: nat, files: seq<seq<Input>>): int
    requires c.rowsInBatch > 0
    decreases |files|, 1
  {
    if c.isReset then c.init else CounterAfter(c, f, v, files)
  }

  ghost predicate FileFits(c: Config, f: nat, start: int, calls: nat)
    requires c.rowsInBatch > 0
  {
    start >= 0 && NoWrap(c, f, start, calls) && calls < TWO_32
  }

  ghost predicate FilesFit(c: Config, f: nat, v: nat, files: seq<seq<Input>>)
    requires c.rowsInBatch > 0
  {
    files == [] ||
    var last := |files| - 1;
    FilesFit(c, f, v, files[..last]) && FileFits(c, f, FileStart(c, f, v, files[..last]), |files[last]|)
  }

  ghost predicate FileOutputs(c: Config, f: nat, start: int, outs: seq<Output>)
    requires c.rowsInBatch > 0
  {
    start >= 0 && BatchOutputs(c, f, start, outs)
  }

  /** Every file gives out the pattern from its own start. */
  ghost predicate FilesOutputs(c: Config, f: nat, v: nat, files: seq<seq<Input>>, outs: seq<seq<Output>>)
    requires c.rowsInBatch > 0 && |outs| == |files|
  {
    files == [] ||
    var last := |files| - 1;
    && FilesOutputs(c, f, v, files[..last], outs[..last])
    && FileOutputs(c, f, FileStart(c, f, v, files[..last]), outs[last])
  }

  lemma {:induction false} NextFile(c: Config, f: nat, start: int, s: State, file: seq<Input>)
    requires WholeBatches(c, f) && AllDraw(c, file) && OneTable(file) && file[0].filled == 0
    requires FileFits(c, f, start, |file|) && Restart(c, s, 0).last == start
    ensures FileOutputs(c, f, start, Run(c, s, file).1)
    ensures Run(c, s, file).0.last == start + CounterAt(c.rowsInBatch, f, |file|)
  {
    TableRepeatsTails(c, f, s, file);
  }

  /** Batch repetition over several files: every file repeats the tails of its batches, from its start. */
  lemma {:induction false} FilesRepeatTails(c: Config, f: nat, s: State, files: seq<seq<Input>>)
    requires WholeBatches(c, f) && WholeFiles(c, files) && FilesFit(c, f, s.last, files)
    ensures RunFiles(c, s, files).0.last == CounterAfter(c, f, s.last, files)
    ensures FilesOutputs(c, f, s.last, files, RunFiles(c, s, files).1)
    decreases |files|
  {
    if files != [] {
      var last := |files| - 1;
      FilesRepeatTails(c, f, s, files[..last]);
      FilesRunStep(c, s, files);
      NextFile(c, f, FileStart(c, f, s.last, files[..last]), RunFiles(c, s, files[..last]).0, files[last]);
    }
  }

  // ----------------------------------------------------------------- calls left out by their percentage

  /** The same generator, giving out a value at every call. */
  function AlwaysDraws(c: Config): Config {
    c.(percent := 100)
  }

  /** Whether a table has begun since the last call that drew. */
  predicate Pending(c: Config, inputs: seq<Input>)
    decreases |inputs|
  {
    inputs != [] &&
    var last := inputs[|inputs| - 1];
    !Draws(c, last) && (last.filled == 0 || Pending(c, inputs[..|inputs| - 1]))
  }

  /** A drawing call, which begins the table if the calls left out before it have. */
  function Due(pending: bool, i: Input): Input {
    if pending then i.(filled := 0) else i
  }

  /** The calls of a run that draw. */
  function Drawing(c: Config, inputs: seq<Input>): (r: seq<Input>)
    ensures |r| <= |inputs|
    decreases |inputs|
  {
    if inputs == [] then []
    else
      var before, last := inputs[..|inputs| - 1], inputs[|inputs| - 1];
      Drawing(c, before) + if Draws(c, last) then [Due(Pending(c, before), last)] else []
  }

  /** The outputs that hold a value. */
  function Values(outs: seq<Output>): seq<Output> {
    if outs == [] then []
    else
      var last := outs[|outs| - 1];
      Values(outs[..|outs| - 1]) + if last.Value? then [last] else []
  }

  /** Two states that no call tells apart. */
  ghost predicate SameCounter(c: Config, s: State, t: State) {
    s.dup == t.dup && s.rowIdx == t.rowIdx && c.Clamp(s.last) == c.Clamp(t.last)
  }

  /** A state with the beginning of a table still to be made up for. */
  function Owing(c: Config, s: State, pending: bool): State {
    if pending then Restart(c, s, 0) else s
  }

  lemma {:induction false} SameDraw(c: Config, s: State, t: State)
    requires c.Valid() && SameCounter(c, s, t)
    ensures Stored(c, s) == Stored(AlwaysDraws(c), t)
    ensures Next(c, s, Stored(c, s)) == Next(AlwaysDraws(c), t, Stored(c, s))
  {
  }

  /** A call that draws does at any percentage what it does at percentage 100. */
  lemma {:induction false} DrawingStep(c: Config, s: State, t: State, pending: bool, i: Input)
    requires c.Valid() && SameCounter(c, s, Owing(c, t, pending)) && Draws(c, i)
    ensures Step(c, s, i).1.Value? && Step(c, s, i) == Step(AlwaysDraws(c), t, Due(pending, i))
  {
    assert i.rand < MAX_RAND + 1;
    SameDraw(c, Restart(c, s, i.filled), Restart(c, t, Due(pending, i).filled));
  }

  /** A call that is left out hands on the beginning of its table. */
  lemma {:induction false} LeftOutStep(c: Config, s: State, t: State, pending: bool, i: Input)
    requires c.Valid() && SameCounter(c, s, Owing(c, t, pending)) && !Draws(c, i)
    ensures Step(c, s, i).1 == Invalid
    ensures SameCounter(c, Step(c, s, i).0, Owing(c, t, pending || i.filled == 0))
  {
  }

  lemma {:induction false} ValuesSnoc(outs: seq<Output>, out: Output)
    ensures Values(outs + [out]) == Values(outs) + if out.Value? then [out] else []
  {
    assert (outs + [out])[..|outs|] == outs;
  }

  /** The calls that draw are, in any run and at any percentage, a run at percentage 100: the calls left out
      only hand on the beginning of a table. */
  lemma {:induction false} DrawingRun(c: Config, s: State, t: State, inputs: seq<Input>)
    requires c.Valid() && SameCounter(c, s, t)
    ensures var (s', outs) := Run(c, s, inputs);
            var (t', drawn) := Run(AlwaysDraws(c), t, Drawing(c, inputs));
            Values(outs) == drawn && SameCounter(c, s', Owing(c, t', Pending(c, inputs)))
    ensures AllDraw(AlwaysDraws(c), Drawing(c, inputs))
    decreases |inputs|
  {
    if inputs != [] {
      var before, last := inputs[..|inputs| - 1], inputs[|inputs| - 1];
      DrawingRun(c, s, t, before);
      RunStep(c, s, inputs);
      var (s1, outs) := Run(c, s, before);
      var t1 := Run(AlwaysDraws(c), t, Drawing(c, before)).0;
      ValuesSnoc(outs, Step(c, s1, last).1);
      if Draws(c, last) {
        DrawingStep(c, s1, t1, Pending(c, before), last);
        assert Drawing(c, inputs)[..|Drawing(c, before)|] == Drawing(c, before);
        RunStep(AlwaysDraws(c), t, Drawing(c, inputs));
      } else {
        LeftOutStep(c, s1, t1, Pending(c, before), last);
        assert Drawing(c, inputs) == Drawing(c, before);
      }
    }
  }

  /** The drawing calls of one table are one table's calls, and begin it if the table's calls do. */
  lemma {:induction false} DrawingOneTable(c: Config, inputs: seq<Input>)
    requires OneTable(inputs)
    ensures var drawn := Drawing(c, inputs);
            if drawn == [] then Pending(c, inputs) == (inputs[0].filled == 0)
            else !Pending(c, inputs) && OneTable(drawn) && (drawn[0].filled == 0 <==> inputs[0].filled == 0)
    decreases |inputs|
  {
    var before := inputs[..|inputs| - 1];
    if before == [] {
      assert Drawing(c, before) == [];
    } else {
      DrawingOneTable(c, before);
    }
  }

  lemma {:induction false} DrawnTable(c: Config, s: State, inputs: seq<Input>)
    requires c.Valid() && OneTable(inputs) && Drawing(c, inputs) != []
    ensures var full, drawn := AlwaysDraws(c), Drawing(c, inputs);
            && Values(Run(c, s, inputs).1) == Run(full, s, drawn).1
            && AllDraw(full, drawn) && OneTable(drawn)
            && Restart(full, s, drawn[0].filled) == Restart(c, s, inputs[0].filled)
            && (drawn[0].filled == 0 <==> inputs[0].filled == 0)
  {
    DrawingRun(c, s, s, inputs);
    DrawingOneTable(c, inputs);
  }

  lemma {:induction false} TableFollows(c: Config, s: State, inputs: seq<Input>, v: nat, outs: seq<Output>)
    requires AllDraw(c, inputs) && OneTable(inputs) && Rising(c) && 1 <= s.dup <= Held(c)
    requires v == Restart(c, s, inputs[0].filled).last && outs == Run(c, s, inputs).1
    ensures HeldOutputs(c, v, s.dup - 1, outs) <==> StepsKept(c, v, 0, Number(c, s.dup - 1 + |inputs| - 1))
  {
    TableHoldsValues(c, s, inputs);
  }

  /** At any percentage the values that a table does get are those of the held counter. */
  lemma {:induction false} DrawnTableHoldsValues(c: Config, s: State, inputs: seq<Input>)
    requires c.Valid() && OneTable(inputs) && Drawing(c, inputs) != [] && Rising(c) && 1 <= s.dup <= Held(c)
    ensures |Values(Run(c, s, inputs).1)| == |Drawing(c, inputs)|
    ensures var full, v, n := AlwaysDraws(c), Restart(c, s, inputs[0].filled).last, s.dup - 1;
            HeldOutputs(full, v, n, Values(Run(c, s, inputs).1)) <==>
            StepsKept(full, v, 0, Number(full, n + |Drawing(c, inputs)| - 1))
  {
    DrawnTable(c, s, inputs);
    TableFollows(AlwaysDraws(c), s, Drawing(c, inputs), Restart(c, s, inputs[0].filled).last,
                 Values(Run(c, s, inputs).1));
  }

  /** At any percentage the values that a table does get repeat the tails of their batches. */
  lemma {:induction false} DrawnTableRepeatsTails(c: Config, f: nat, s: State, inputs: seq<Input>)
    requires WholeBatches(c, f) && OneTable(inputs) && Drawing(c, inputs) != [] && |inputs| < TWO_32
    requires inputs[0].filled == 0 || s.rowIdx == 0
    requires NoWrap(c, f, Restart(c, s, inputs[0].filled).last, |Drawing(c, inputs)|)
    ensures BatchOutputs(c, f, Restart(c, s, inputs[0].filled).last, Values(Run(c, s, inputs).1))
  {
    DrawnTable(c, s, inputs);
    TableRepeatsTails(AlwaysDraws(c), f, s, Drawing(c, inputs));
  }

  function DrawingFiles(c: Config, files: seq<seq<Input>>): (r: seq<seq<Input>>)
    ensures |r| == |files|
  {
    if files == [] then [] else DrawingFiles(c, files[..|files| - 1]) + [Drawing(c, files[|files| - 1])]
  }

  function ValuesOfFiles(outs: seq<seq<Output>>): seq<seq<Output>> {
    if outs == [] then [] else ValuesOfFiles(outs[..|outs| - 1]) + [Values(outs[|outs| - 1])]
  }

  /** Over files that each get a value, the drawing calls are a run of files at percentage 100. */
  lemma {:induction false} DrawingFilesRun(c: Config, s: State, files: seq<seq<Input>>)
    requires c.Valid() && forall j | 0 <= j < |files| :: OneTable(files[j]) && Drawing(c, files[j]) != []
    ensures var (s', outs) := RunFiles(c, s, files);
            var (t', drawn) := RunFiles(AlwaysDraws(c), s, DrawingFiles(c, files));
            ValuesOfFiles(outs) == drawn && SameCounter(c, s', t')
    decreases |files|
  {
    if files != [] {
      var before, last := files[..|files| - 1], files[|files| - 1];
      DrawingFilesRun(c, s, before);
      FilesRunStep(c, s, files);
      assert DrawingFiles(c, files)[..|before|] == DrawingFiles(c, before);
      FilesRunStep(AlwaysDraws(c), s, DrawingFiles(c, files));
      DrawingRun(c, RunFiles(c, s, before).0, RunFiles(AlwaysDraws(c), s, DrawingFiles(c, before)).0, last);
      DrawingOneTable(c, last);
    }
  }
}
