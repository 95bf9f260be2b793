/**
 Redistribution of a total of rows over a number of files: the first files take percentages of the total,
 the files the percentage list does not reach share what is left.
 */
module RedefineRow {
  import opened Arithmetic

  const TWO_32: int := 0x1_0000_0000

  /** Where the percentages come from: a dimension file's rows, the configured list, or neither. */
  datatype Source = FileRandom | DefaultRandom | OtherRandom

  /** `rows` is the number of percentages the source offers. */
  datatype Config = Config(source: Source, rows: nat, fileNumber: nat, total: nat) {

    ghost predicate Valid() {
      rows < TWO_32 && fileNumber < TWO_32
    }

    /** A source that has percentages to read, or a list that may be empty. */
    predicate Spreads() {
      source == DefaultRandom || (source == FileRandom && rows > 0)
    }

    function Start(): State {
      State(0, total % TWO_32)
    }

    /** The files that the percentages do not reach. */
    function Tail(): nat {
      if rows < fileNumber then fileNumber - rows else 0
    }
  }

  datatype State = State(file: nat, left: nat)

  /** The rows of one file; no new value for another source; no answer for an empty dimension file. */
  datatype Emit = Rows(n: nat) | Kept | Failed

  function Taken(e: Emit): nat {
    if e.Rows? then e.n else 0
  }

  /** One call. `share` is what the call's percentage of the total comes to, whatever its rounding. */
  function Step(c: Config, s: State, share: nat): (State, Emit) {
    var file := s.file + 1;
    var taken :=
      if file > c.fileNumber then Rows(0)
      else if c.source == OtherRandom then Kept
      else if !c.Spreads() then Failed
      else if file <= c.rows then Rows(if s.left >= share then share else s.left)
      else Rows(s.left / (c.fileNumber - file + 1));
    (State(file, if Taken(taken) <= s.left then s.left - Taken(taken) else 0), taken)
  }

  class RedefineRowFunc {
    const config: Config
    var currentFileNum: nat
    var leftRecordsNumber: nat

    ghost function Abs(): State
      reads this
    {
      State(currentFileNum, leftRecordsNumber)
    }

    constructor (c: Config)
      ensures config == c && Abs() == c.Start()
    {
      config := c;
      currentFileNum, leftRecordsNumber := 0, c.total % TWO_32;
    }

    method BaseOnPercent(share: nat) returns (n: nat)
      modifies this`leftRecordsNumber
      ensures n == (if share <= old(leftRecordsNumber) then share else old(leftRecordsNumber))
      ensures leftRecordsNumber + n == old(leftRecordsNumber)
    {
      if leftRecordsNumber >= share {
        n := share;
        leftRecordsNumber := leftRecordsNumber - share;
      } else {
        n := leftRecordsNumber;
        leftRecordsNumber := 0;
      }
    }

    method OutOfRowNumber() returns (n: nat)
      requires 1 <= currentFileNum <= config.fileNumber < TWO_32
      modifies this`leftRecordsNumber
      ensures n == old(leftRecordsNumber) / (config.fileNumber - currentFileNum + 1)
      ensures leftRecordsNumber + n == old(leftRecordsNumber)
    {
      if leftRecordsNumber <= 0 {
        n := 0;
        DivModUnique(0, config.fileNumber - currentFileNum + 1, 0, 0);
      } else {
        var leftFileNumber := (config.fileNumber - currentFileNum + 1) % TWO_32;
        n := leftRecordsNumber / leftFileNumber;
        ShareFits(leftRecordsNumber, leftFileNumber);
        leftRecordsNumber := leftRecordsNumber - n;
      }
    }

    method Calculate(share: nat) returns (out: Emit)
      requires config.Valid() && currentFileNum < TWO_32 - 1
      modifies this
      ensures (Abs(), out) == Step(config, old(Abs()), share)
    {
      currentFileNum := (currentFileNum + 1) % TWO_32;
      if currentFileNum > config.fileNumber {
        return Rows(0);
      }
      if config.source == FileRandom && config.rows == 0 {
        return Failed;
      }
      out := Kept;
      if config.source != OtherRandom {
        var n;
        if config.rows >= config.fileNumber {
          n := BaseOnPercent(share);
        } else if currentFileNum <= config.rows {
          n := BaseOnPercent(share);
        } else {
          n := OutOfRowNumber();
        }
        out := Rows(n);
      }
    }
  }

  lemma {:induction false} ShareFits(left: nat, files: nat)
    requires files > 0
    ensures left / files <= left
  {
    var q := left / files;
    assert left == files * q + left % files;
    MulMono(q, 1, files);
  }

  // ----------------------------------------------------------------- conservation

  function Run(c: Config, s: State, shares: seq<nat>): (r: (State, seq<Emit>))
    ensures |r.1| == |shares|
  {
    if shares == [] then (s, [])
    else
      var last := |shares| - 1;
      var (s1, outs) := Run(c, s, shares[..last]);
      var (s2, out) := Step(c, s1, shares[last]);
      (s2, outs + [out])
  }

  function Sum(outs: seq<Emit>): nat {
    if outs == [] then 0 else Sum(outs[..|outs| - 1]) + Taken(outs[|outs| - 1])
  }

  lemma {:induction false} StepConserves(c: Config, s: State, share: nat)
    ensures var (s', out) := Step(c, s, share);
            s'.left + Taken(out) == s.left && s'.file == s.file + 1
  {
    if c.rows < s.file + 1 <= c.fileNumber {
      ShareFits(s.left, c.fileNumber - s.file);
    }
  }

  /** A run of one more call. */
  lemma {:induction false} RunStep(c: Config, s: State, shares: seq<nat>)
    requires shares != []
    ensures var before := Run(c, s, shares[..|shares| - 1]);
            var call := Step(c, before.0, shares[|shares| - 1]);
            Run(c, s, shares) == (call.0, before.1 + [call.1])
            && Sum(Run(c, s, shares).1) == Sum(before.1) + Taken(call.1)
  {
    var outs, last := Run(c, s, shares).1, |shares| - 1;
    assert outs[..last] == Run(c, s, shares[..last]).1;
  }

  /** Rows handed out plus rows left equal the start, after every call, whatever the percentages come to. */
  lemma {:induction false} Conservation(c: Config, s: State, shares: seq<nat>)
    ensures var (s', outs) := Run(c, s, shares);
            Sum(outs) + s'.left == s.left && s'.file == s.file + |shares|
    decreases |shares|
  {
    if shares != [] {
      var last := |shares| - 1;
      Conservation(c, s, shares[..last]);
      RunStep(c, s, shares);
      StepConserves(c, Run(c, s, shares[..last]).0, shares[last]);
    }
  }

  /** What a call answers, source by source: nothing behind the last file, no new value for a source without
      percentages, an error for a dimension file without rows, the percentage up to what is left while there
      are percentages, and else an even part of what is left. */
  lemma {:induction false} StepAnswers(c: Config, s: State, share: nat)
    ensures var (s', out) := Step(c, s, share);
            var inside := s.file < c.fileNumber;
            && (!inside ==> out == Rows(0) && s'.left == s.left)
            && (out == Kept <==> inside && c.source == OtherRandom)
            && (out == Failed <==> inside && c.source == FileRandom && c.rows == 0)
            && (inside && c.source != OtherRandom && s.file < c.rows ==>
                  out.Rows? && out.n <= share && out.n <= s.left && (out.n == share || out.n == s.left))
            && (inside && c.source == DefaultRandom && s.file >= c.rows ==>
                  out.Rows? && var files := c.fileNumber - s.file;
                               files * out.n <= s.left < files * (out.n + 1))
  {
    if c.rows <= s.file < c.fileNumber {
      var files := c.fileNumber - s.file;
      assert s.left == files * (s.left / files) + s.left % files;
      assert files * (s.left / files + 1) == files * (s.left / files) + files;
    }
  }

  // ----------------------------------------------------------------- the tail

  /** What j files get that take q rows each and one more each of the last r. */
  function Remaining(q: nat, r: nat, j: nat): nat {
    j * q + if r < j then r else j
  }

  /** What is left when k of m files have taken their shares of `left`. */
  function LeftAfter(left: nat, m: nat, k: nat): nat
    requires k <= m && m > 0
  {
    Remaining(left / m, left % m, m - k)
  }

  /** File k's even share of `left` over m files: the floor, or one more for the last files. */
  function EvenShare(left: nat, m: nat, k: nat): nat
    requires m > 0
  {
    (left + k) / m
  }

  lemma {:induction false} EvenShareIs(left: nat, m: nat, k: nat)
    requires k < m
    ensures EvenShare(left, m, k) == left / m + if left % m + k < m then 0 else 1
  {
    var q, r := left / m, left % m;
    assert left == m * q + r && m * (q + 1) == m * q + m;
    if r + k < m {
      DivModUnique(left + k, m, q, r + k);
    } else {
      DivModUnique(left + k, m, q + 1, r + k - m);
    }
  }

  lemma {:induction false} FloorShare(q: nat, r: nat, j: nat)
    requires j > 0
    ensures Remaining(q, r, j) / j == if r < j then q else q + 1
    ensures Remaining(q, r, j - 1) == Remaining(q, r, j) - if r < j then q else q + 1
  {
    assert (j - 1) * q == j * q - q;
    if r < j {
      DivModUnique(j * q + r, j, q, r);
    } else {
      assert j * (q + 1) == j * q + j;
      DivModUnique(j * q + j, j, q + 1, 0);
    }
  }

  lemma {:induction false} EvenStep(left: nat, m: nat, k: nat)
    requires k < m
    ensures LeftAfter(left, m, k) / (m - k) == EvenShare(left, m, k)
    ensures LeftAfter(left, m, k + 1) == LeftAfter(left, m, k) - EvenShare(left, m, k)
  {
    EvenShareIs(left, m, k);
    FloorShare(left / m, left % m, m - k);
  }

  lemma {:induction false} EvenBounds(left: nat, m: nat)
    requires m > 0
    ensures LeftAfter(left, m, 0) == left && LeftAfter(left, m, m) == 0
  {
    assert left == m * (left / m) + left % m;
    assert 0 * (left / m) == 0;
  }

  /** The even shares are nondecreasing and differ by at most one. */
  lemma {:induction false} EvenSharesAreEven(left: nat, m: nat, i: nat, j: nat)
    requires i <= j < m
    ensures EvenShare(left, m, i) <= EvenShare(left, m, j) <= EvenShare(left, m, i) + 1
  {
    EvenShareIs(left, m, i);
    EvenShareIs(left, m, j);
  }

  /** The shares of the calls behind the percentages, from what those left over. */
  ghost predicate TailOutputs(c: Config, left: nat, outs: seq<Emit>)
    requires c.rows < c.fileNumber
  {
    forall k | c.rows <= k < |outs| ::
      outs[k] == Rows(if k < c.fileNumber then EvenShare(left, c.Tail(), k - c.rows) else 0)
  }

  ghost predicate TailLeft(c: Config, left: nat, n: nat, now: nat)
    requires c.rows < c.fileNumber && c.rows <= n
  {
    now == if n < c.fileNumber then LeftAfter(left, c.Tail(), n - c.rows) else 0
  }

  lemma {:induction false} TailStep(c: Config, left: nat, s: State, share: nat)
    requires c.Spreads() && c.rows < c.fileNumber && c.rows <= s.file && TailLeft(c, left, s.file, s.left)
    ensures TailLeft(c, left, s.file + 1, Step(c, s, share).0.left)
    ensures Step(c, s, share).1 ==
            Rows(if s.file < c.fileNumber then EvenShare(left, c.Tail(), s.file - c.rows) else 0)
  {
    var k, m := s.file - c.rows, c.Tail();
    StepConserves(c, s, share);
    if k < m {
      assert c.fileNumber - (s.file + 1) + 1 == m - k;
      EvenStep(left, m, k);
      EvenBounds(left, m);
    }
  }

  /** From the first file the percentages do not reach, every file gets its even share of what was left. */
  lemma {:induction false} TailIsEven(c: Config, s: State, shares: seq<nat>)
    requires c.Spreads() && c.rows < c.fileNumber && s.file == 0 && c.rows <= |shares|
    ensures var left := Run(c, s, shares[..c.rows]).0.left;
            && TailLeft(c, left, |shares|, Run(c, s, shares).0.left)
            && TailOutputs(c, left, Run(c, s, shares).1)
    decreases |shares|
  {
    var left := Run(c, s, shares[..c.rows]).0.left;
    if |shares| == c.rows {
      assert shares[..c.rows] == shares;
      EvenBounds(left, c.Tail());
    } else {
      var last := |shares| - 1;
      assert shares[..last][..c.rows] == shares[..c.rows];
      TailIsEven(c, s, shares[..last]);
      TailExtends(c, s, shares, left);
    }
  }

  lemma {:induction false} TailExtends(c: Config, s: State, shares: seq<nat>, left: nat)
    requires c.Spreads() && c.rows < c.fileNumber && s.file == 0 && c.rows < |shares|
    requires var before := Run(c, s, shares[..|shares| - 1]);
             TailLeft(c, left, |shares| - 1, before.0.left) && TailOutputs(c, left, before.1)
    ensures TailLeft(c, left, |shares|, Run(c, s, shares).0.left)
    ensures TailOutputs(c, left, Run(c, s, shares).1)
  {
    var last := |shares| - 1;
    var before := Run(c, s, shares[..last]);
    Conservation(c, s, shares[..last]);
    RunStep(c, s, shares);
    TailStep(c, left, before.0, shares[last]);
    var call := Step(c, before.0, shares[last]);
    TailSnoc(c, left, before.1, call.1, Run(c, s, shares).1);
  }

  lemma {:induction false} TailSnoc(c: Config, left: nat, before: seq<Emit>, out: Emit, outs: seq<Emit>)
    requires c.rows < c.fileNumber && c.rows <= |before| && TailOutputs(c, left, before)
    requires outs == before + [out]
    requires out == Rows(if |before| < c.fileNumber then EvenShare(left, c.Tail(), |before| - c.rows) else 0)
    ensures TailOutputs(c, left, outs)
  {
  }

  // ----------------------------------------------------------------- the whole total

  /** While the percentages last, what is left is the start less what they come to, and never below 0. */
  lemma {:induction false} PercentagesTakeTheirShare(c: Config, s: State, shares: seq<nat>)
    requires c.Spreads() && s.file == 0 && |shares| <= c.rows && |shares| <= c.fileNumber
    ensures Run(c, s, shares).0.left == if SumOfShares(shares) <= s.left then s.left - SumOfShares(shares) else 0
    decreases |shares|
  {
    if shares != [] {
      var last := |shares| - 1;
      PercentagesTakeTheirShare(c, s, shares[..last]);
      Conservation(c, s, shares[..last]);
      RunStep(c, s, shares);
    }
  }

  function SumOfShares(shares: seq<nat>): nat {
    if shares == [] then 0 else SumOfShares(shares[..|shares| - 1]) + shares[|shares| - 1]
  }

  /** Main result: with fewer percentages than files, the files together get the whole total, whatever the
      percentages come to, if and only if the total fits in the 32-bit remainder. */
  lemma {:induction false} WholeTotalGoesOut(c: Config, shares: seq<nat>)
    requires c.Spreads() && c.rows < c.fileNumber <= |shares|
    ensures Sum(Run(c, c.Start(), shares).1) == c.total % TWO_32
    ensures Sum(Run(c, c.Start(), shares).1) == c.total <==> c.total < TWO_32
  {
    Conservation(c, c.Start(), shares);
    TailIsEven(c, c.Start(), shares);
  }

  /** With a percentage for every file, they do so if and only if the percentages come to that much. */
  lemma {:induction false} FullListMayFallShort(c: Config, shares: seq<nat>)
    requires c.Spreads() && c.rows >= c.fileNumber == |shares|
    ensures Sum(Run(c, c.Start(), shares).1) == c.total % TWO_32 <==> SumOfShares(shares) >= c.total % TWO_32
  {
    Conservation(c, c.Start(), shares);
    PercentagesTakeTheirShare(c, c.Start(), shares);
  }

  // ----------------------------------------------------------------- percentages in ten-thousandths

  /** The rows that a percentage in ten-thousandths of the total comes to, in exact arithmetic. */
  function PercentShare(total: nat, percent: nat): nat {
    percent * total / 10000
  }

  function PercentShares(total: nat, percents: seq<nat>): (shares: seq<nat>)
    ensures |shares| == |percents|
  {
    seq(|percents|, i requires 0 <= i < |percents| => PercentShare(total, percents[i]))
  }

  /** Each share drops less than one row. */
  lemma {:induction false} SharesDropLittle(total: nat, percents: seq<nat>)
    ensures var given, all := SumOfShares(PercentShares(total, percents)), SumOfShares(percents);
            10000 * given <= all * total <= 10000 * given + 9999 * |percents|
    decreases |percents|
  {
    if percents != [] {
      var before, last := percents[..|percents| - 1], percents[|percents| - 1];
      SharesDropLittle(total, before);
      assert PercentShares(total, percents)[..|before|] == PercentShares(total, before);
      assert (SumOfShares(before) + last) * total == SumOfShares(before) * total + last * total;
    }
  }

  /** With a percentage for every file that add up to the whole, the files get the total but for fewer rows
      than there are files. */
  lemma {:induction false} HundredPercentHandsOut(c: Config, percents: seq<nat>)
    requires c.source == DefaultRandom && c.rows >= c.fileNumber == |percents| && c.total < TWO_32
    requires SumOfShares(percents) == 10000
    ensures var given := Sum(Run(c, c.Start(), PercentShares(c.total, percents)).1);
            given <= c.total < given + c.fileNumber
  {
    var shares := PercentShares(c.total, percents);
    SharesDropLittle(c.total, percents);
    Conservation(c, c.Start(), shares);
    PercentagesTakeTheirShare(c, c.Start(), shares);
    assert 1 <= |percents|;
  }
}
