/**
 Multi-file random selection: 100 slots filled by percentage and shuffled decide which dimension file a
 row draws from; each file is then read through a window of its rows.
 */
module MultiFile {
  import opened Arithmetic
  import opened Cyclic
  import opened FisherYates
  import opened Options
  import opened PercentSelect

  const RANDOM_ARR_SIZE: nat := 100

  // ----------------------------------------------------------------- the slots

  /** The in-place shuffle, driven by any random numbers. */
  method RandomArray(a: array<nat>, rands: seq<nat>)
    requires |rands| == a.Length
    modifies a
    ensures a[..] == Shuffled(old(a[..]), Partners(a.Length, rands), a.Length)
  {
    var n := a.Length;
    ghost var was := a[..];
    for i := 0 to n
      invariant a[..] == Shuffled(was, Partners(n, rands), i)
    {
      var index := rands[i] % (n - i) + i;
      ghost var before := a[..];
      if index != i && index < n {
        a[i], a[index] := a[index], a[i];
      }
      assert a[..] == Swapped(before, i, Partner(i, n, rands[i]));
    }
  }

  function Total(counts: seq<nat>): nat {
    if counts == [] then 0 else Total(counts[..|counts| - 1]) + counts[|counts| - 1]
  }

  /** Fills the slots file by file and shuffles them; the percentages must make 100. No result for a write
      past the slots. */
  method FillSlots(percentages: seq<nat>, rands: seq<nat>) returns (slots: array<nat>, ok: Option<bool>)
    requires |rands| == RANDOM_ARR_SIZE
    ensures fresh(slots) && slots.Length == RANDOM_ARR_SIZE == 100
    ensures ok.None? <==> Total(percentages) > 100
    ensures ok.Some? ==> (ok.value <==> percentages == [] || Total(percentages) == 100)
    ensures ok == Some(true) && percentages != [] ==>
              && |Schedule(percentages)| == RANDOM_ARR_SIZE
              && slots[..] == Shuffled(Schedule(percentages), Partners(RANDOM_ARR_SIZE, rands), RANDOM_ARR_SIZE)
              && multiset(slots[..]) == multiset(Schedule(percentages))
  {
    slots := new nat[RANDOM_ARR_SIZE](_ => 0);
    var total: nat := 0;
    for fileIdx := 0 to |percentages|
      invariant total == Total(percentages[..fileIdx]) <= Total(percentages) && total <= RANDOM_ARR_SIZE
      invariant slots[..total] == Schedule(percentages[..fileIdx])
    {
      TotalGrows(percentages, fileIdx);
      var p := percentages[fileIdx];
      assert percentages[..fileIdx + 1][..fileIdx] == percentages[..fileIdx];
      ghost var before := slots[..total];
      for i := 0 to p
        invariant total + i <= RANDOM_ARR_SIZE && slots[..total] == before
        invariant forall j | total <= j < total + i :: slots[j] == fileIdx
      {
        if i + total >= RANDOM_ARR_SIZE {
          return slots, None;
        }
        slots[i + total] := fileIdx;
      }
      assert slots[..total + p] == before + seq(p, _ => fileIdx);
      total := total + p;
    }
    assert percentages[..|percentages|] == percentages;
    if total == RANDOM_ARR_SIZE {
      assert slots[..total] == slots[..];
    }
    ShuffledPermutes(slots[..], Partners(RANDOM_ARR_SIZE, rands), RANDOM_ARR_SIZE);
    RandomArray(slots, rands);
    ok := Some(percentages == [] || total == 100);
  }

  lemma {:induction false} TotalGrows(percentages: seq<nat>, i: nat)
    requires i < |percentages|
    ensures Total(percentages[..i + 1]) == Total(percentages[..i]) + percentages[i] <= Total(percentages)
    decreases |percentages|
  {
    var init := percentages[..|percentages| - 1];
    assert percentages[..i + 1][..i] == percentages[..i];
    if i + 1 == |percentages| {
      assert percentages[..i + 1] == percentages;
    } else {
      TotalGrows(init, i);
      assert init[..i + 1] == percentages[..i + 1] && init[..i] == percentages[..i];
    }
  }

  // ----------------------------------------------------------------- one file's window

  /** A file's size and its window fields. */
  datatype FileWindow = FileWindow(size: nat, number: nat, initRow: nat, endRow: nat, last: nat) {

    /** A file may have no rows; otherwise the window lies in it. */
    ghost predicate Valid() {
      size == 0 || (initRow < size && endRow < size && last <= size)
    }

    /** Places the window at a random row. */
    function Fill(rand: nat): (w: FileWindow)
      requires size > 0
      ensures w.Valid() && 1 <= w.number <= size == w.size
    {
      var init := rand % size;
      var n := if number == 0 || number > size then size else number;
      FileWindow(size, n, init, (init + n) % size, init)
    }

    /** The row the next pick reads. */
    function Row(): nat {
      var l := if last == endRow then initRow else last;
      if l == size then 0 else l
    }

    function Picked(): FileWindow {
      this.(last := Row() + 1)
    }

    function Walk(k: nat): FileWindow {
      if k == 0 then this else Walk(k - 1).Picked()
    }
  }

  /** How many rows the walk of a freshly placed window cycles through. */
  function Cycle(w: FileWindow): nat {
    if w.endRow != 0 || w.number == w.size then w.number else w.size
  }

  /** A window placed by Fill. */
  ghost predicate Placed(w: FileWindow) {
    && w.size > 0 && w.Valid() && 1 <= w.number <= w.size
    && w.last == w.initRow && w.endRow == (w.initRow + w.number) % w.size
  }

  lemma {:induction false} ModOnce(x: nat, n: nat)
    requires n > 0 && x < 2 * n
    ensures x % n == if x < n then x else x - n
  {
    DivModUnique(x, n, if x < n then 0 else 1, if x < n then x else x - n);
  }

  /** One pick further on: from place j of the cycle to the next. */
  lemma {:induction false} NextPlace(w: FileWindow, v: FileWindow, j: nat)
    requires Placed(w) && v == w.(last := v.last) && j < Cycle(w) && v.Row() == (w.initRow + j) % w.size
    ensures v.Picked().Row() == (w.initRow + if j == Cycle(w) - 1 then 0 else j + 1) % w.size
    ensures v.Picked() == w.(last := v.Picked().last)
  {
    ModOnce(w.initRow + w.number, w.size);
    ModOnce(w.initRow + j, w.size);
    ModOnce(w.initRow + if j == Cycle(w) - 1 then 0 else j + 1, w.size);
  }

  /** The closed form of the walk: pick k reads row k of the cycle, counted from the window's start. */
  lemma {:induction false} WalkRow(w: FileWindow, k: nat)
    requires Placed(w)
    ensures Cycle(w) > 0
    ensures w.Walk(k).Row() == (w.initRow + k % Cycle(w)) % w.size
    ensures w.Walk(k) == w.(last := w.Walk(k).last)
    decreases k
  {
    if k == 0 {
      ModOnce(w.initRow, w.size);
      ModOnce(w.initRow + w.number, w.size);
      ModOnce(0, Cycle(w));
    } else {
      WalkRow(w, k - 1);
      ModStep(k - 1, Cycle(w));
      NextPlace(w, w.Walk(k - 1), (k - 1) % Cycle(w));
    }
  }

  /** The picks cycle through exactly the window's own rows if and only if the window does not end at the
      end of a file it does not fill: there the end row 0 is never met and the walk goes through the
      whole file. */
  lemma {:induction false} WindowWalkIffEndNotZero(w: FileWindow)
    requires Placed(w)
    ensures (forall k: nat :: w.Walk(k).Row() == (w.initRow + k % w.number) % w.size) <==>
            w.endRow != 0 || w.number == w.size
  {
    if w.endRow != 0 || w.number == w.size {
      forall k: nat
        ensures w.Walk(k).Row() == (w.initRow + k % w.number) % w.size
      {
        WalkRow(w, k);
      }
    } else {
      var k := w.number;
      WalkRow(w, k);
      ModOnce(w.initRow + w.number, w.size);
      ModOnce(k, w.size);
      DivModUnique(k, k, 1, 0);
      ModOnce(w.initRow, w.size);
      assert w.Walk(k).Row() == 0 != (w.initRow + k % w.number) % w.size;
    }
  }

  // ----------------------------------------------------------------- how often each row is picked

  /** How many of the first k picks fall on place j of an n-row cycle. */
  function Visits(k: nat, n: nat, j: nat): nat
    requires n > 0
  {
    if k == 0 then 0 else Visits(k - 1, n, j) + if (k - 1) % n == j then 1 else 0
  }

  /** After k picks, each row of the cycle has been picked k / n times, or once more: the counts differ by
      at most one. */
  lemma {:induction false} VisitsAreEven(k: nat, n: nat, j: nat)
    requires j < n
    ensures Visits(k, n, j) == k / n + if j < k % n then 1 else 0
    decreases k
  {
    if k == 0 {
      DivModUnique(0, n, 0, 0);
    } else {
      VisitsAreEven(k - 1, n, j);
      ModStep(k - 1, n);
    }
  }

  /** Different places of the cycle are different rows. */
  lemma {:induction false} CycleRowsDiffer(w: FileWindow, i: nat, j: nat)
    requires Placed(w) && i < j < Cycle(w)
    ensures (w.initRow + i) % w.size != (w.initRow + j) % w.size
  {
    ModsDiffer(w.initRow + i, w.initRow + j, w.size);
  }

  /** How many of a window's first k picks read row r. */
  function Picks(w: FileWindow, k: nat, r: nat): nat {
    if k == 0 then 0 else Picks(w, k - 1, r) + if w.Walk(k - 1).Row() == r then 1 else 0
  }

  /** The row at place j of a window's cycle. */
  function CycleRow(w: FileWindow, j: nat): nat
    requires w.size > 0
  {
    (w.initRow + j) % w.size
  }

  /** A row of the cycle is picked as often as its place is met. */
  lemma {:induction false} PicksAreVisits(w: FileWindow, k: nat, j: nat)
    requires Placed(w) && j < Cycle(w)
    ensures Picks(w, k, CycleRow(w, j)) == Visits(k, Cycle(w), j)
    decreases k
  {
    if k != 0 {
      var i := (k - 1) % Cycle(w);
      PicksAreVisits(w, k - 1, j);
      WalkRow(w, k - 1);
      if i < j {
        CycleRowsDiffer(w, i, j);
      } else if j < i {
        CycleRowsDiffer(w, j, i);
      }
    }
  }

  /** After any number of picks, two rows of a window's cycle have been picked equally often or one time
      apart. */
  lemma {:induction false} PicksAreEven(w: FileWindow, k: nat, i: nat, j: nat)
    requires Placed(w) && i < Cycle(w) && j < Cycle(w)
    ensures Picks(w, k, CycleRow(w, i)) <= Picks(w, k, CycleRow(w, j)) + 1
    ensures Picks(w, k, CycleRow(w, i)) == k / Cycle(w) + if i < k % Cycle(w) then 1 else 0
  {
    PicksAreVisits(w, k, i);
    PicksAreVisits(w, k, j);
    VisitsAreEven(k, Cycle(w), i);
    VisitsAreEven(k, Cycle(w), j);
  }

  lemma {:induction false} OtherRowsNeverPicked(w: FileWindow, k: nat, r: nat)
    requires Placed(w) && forall j | 0 <= j < Cycle(w) :: CycleRow(w, j) != r
    ensures Picks(w, k, r) == 0
    decreases k
  {
    if k != 0 {
      OtherRowsNeverPicked(w, k - 1, r);
      WalkRow(w, k - 1);
      assert CycleRow(w, (k - 1) % Cycle(w)) != r;
    }
  }

  // ----------------------------------------------------------------- the configured window

  /** How many rows a window cycles through, from its configuration and the random number that places it: as
      many as configured, all if that is none or too many, and all if the window ends with its file. */
  function ConfiguredCycle(size: nat, number: nat, rand: nat): nat
    requires size > 0
  {
    if number == 0 || number >= size || (rand + number) % size == 0 then size else number
  }

  /** The row that pick k of a file reads, from the file's configuration and the random number. */
  function RowRead(w: FileWindow, rand: nat, k: nat): nat
    requires w.size > 0
  {
    (rand + k % ConfiguredCycle(w.size, w.number, rand)) % w.size
  }

  lemma {:induction false} ModSum(a: nat, b: nat, n: nat)
    requires n > 0
    ensures (a % n + b) % n == (a + b) % n
  {
    assert a == n * (a / n) + a % n;
    ModShift(a % n + b, n, a / n);
  }

  /** A placed window starts at the random number's row and has the configured length, unless that is 0 or
      more than the file. */
  lemma {:induction false} PlacedAsConfigured(w: FileWindow, rand: nat)
    requires w.size > 0
    ensures Placed(w.Fill(rand)) && w.Fill(rand).Row() == rand % w.size
    ensures w.Fill(rand).number == if 1 <= w.number <= w.size then w.number else w.size
    ensures Cycle(w.Fill(rand)) == ConfiguredCycle(w.size, w.number, rand)
  {
    var placed := w.Fill(rand);
    assert Placed(placed);
    ModSum(rand, w.number, w.size);
    ModSum(rand, w.size, w.size);
    ModShift(rand, w.size, 1);
    WalkRow(placed, 0);
    WholeCycleStays(placed);
  }

  lemma {:induction false} WholeCycleStays(w: FileWindow)
    requires Placed(w)
    ensures w.Row() == w.initRow
  {
  }

  /** What a placed window reads, in terms of its configuration only. */
  lemma {:induction false} WalkReads(w: FileWindow, rand: nat, k: nat)
    requires w.size > 0
    ensures w.Fill(rand).Walk(k).Row() == RowRead(w, rand, k)
  {
    PlacedAsConfigured(w, rand);
    WalkRow(w.Fill(rand), k);
    ModSum(rand, k % Cycle(w.Fill(rand)), w.size);
  }

  /** Every row of a file is the first one read for some random number. */
  lemma {:induction false} EveryRowMayBeFirst(w: FileWindow, row: nat)
    requires row < w.size
    ensures w.Fill(row).Row() == RowRead(w, row, 0) == row
  {
    WalkReads(w, row, 0);
    DivModUnique(0, ConfiguredCycle(w.size, w.number, row), 0, 0);
    DivModUnique(row, w.size, 0, row);
  }

  // ----------------------------------------------------------------- the selector object

  class MultiFileRandom {
    const slots: array<nat>
    var slotIndex: nat
    var windows: seq<FileWindow>
    var windowsPlaced: bool

    ghost predicate Valid()
      reads this, slots
    {
      && slots.Length == RANDOM_ARR_SIZE && slotIndex < RANDOM_ARR_SIZE
      && (forall i | 0 <= i < slots.Length :: slots[i] < |windows|)
      && (forall f | 0 <= f < |windows| :: windows[f].Valid())
    }

    constructor (slots: array<nat>, windows: seq<FileWindow>)
      requires slots.Length == RANDOM_ARR_SIZE
      requires forall i | 0 <= i < slots.Length :: slots[i] < |windows|
      requires forall f | 0 <= f < |windows| :: windows[f].Valid()
      ensures Valid() && this.slots == slots && this.windows == windows && slotIndex == 0 && !windowsPlaced
    {
      this.slots, this.windows := slots, windows;
      slotIndex, windowsPlaced := 0, false;
    }

    /** Places every file's window up to the first file without rows, which is an error. */
    method FillDimensionInfo(rands: seq<nat>) returns (ok: bool)
      requires Valid() && |rands| == |windows|
      modifies this`windows
      ensures Valid() && windows == PlacedWindows(old(windows), rands)
      ensures ok <==> NoneEmpty(windows, |windows|)
      ensures forall f | 0 <= f < |windows| && NoneEmpty(old(windows), f + 1) ::
                var was, now := old(windows)[f], windows[f];
                && Placed(now) && now.Row() == rands[f] % was.size
                && now.number == if 1 <= was.number <= was.size then was.number else was.size
    {
      ghost var was := windows;
      ok := true;
      for f := 0 to |windows|
        invariant Valid() && |windows| == |was| && NoneEmpty(was, f)
        invariant forall g | 0 <= g < f :: windows[g] == was[g].Fill(rands[g])
        invariant forall g | f <= g < |windows| :: windows[g] == was[g]
      {
        if windows[f].size == 0 {
          PlacedUpTo(was, rands, windows, f);
          return false;
        }
        windows := windows[f := windows[f].Fill(rands[f])];
      }
      PlacedUpTo(was, rands, windows, |windows|);
    }

    /** One row: the slot names the file, and the file's window gives the row read. A file without rows is an
        error, before any window is placed. */
    method Calculate(filled: nat, rands: seq<nat>) returns (ok: bool, file: nat, row: nat)
      requires Valid() && |rands| == |windows|
      modifies this
      ensures Valid() && |windows| == |old(windows)|
      ensures file == slots[old(slotIndex)] && (ok <==> old(windows)[file].size > 0)
      ensures slotIndex == if old(slotIndex) + 1 == RANDOM_ARR_SIZE then 0 else old(slotIndex) + 1
      ensures !ok ==> windows == old(windows) && windowsPlaced == old(windowsPlaced)
      ensures var placing := filled == 0 && !old(windowsPlaced);
              var placed := if placing then PlacedWindows(old(windows), rands) else old(windows);
              ok ==>
                && windowsPlaced == (old(windowsPlaced) || placing)
                && windows == placed[file := placed[file].Picked()] && row == placed[file].Row() < placed[file].size
    {
      file, row := slots[slotIndex], 0;
      slotIndex := slotIndex + 1;
      if slotIndex == RANDOM_ARR_SIZE {
        slotIndex := 0;
      }
      ok := windows[file].size > 0;
      if ok {
        if filled == 0 && !windowsPlaced {
          var all := FillDimensionInfo(rands);
          windowsPlaced := true;
        }
        row := windows[file].Row();
        windows := windows[file := windows[file].Picked()];
      }
    }
  }

  /** The first n files have rows. */
  predicate NoneEmpty(windows: seq<FileWindow>, n: nat)
    requires n <= |windows|
  {
    forall f | 0 <= f < n :: windows[f].size > 0
  }

  /** The windows are placed up to the first file without rows; those from it on stay as they were. */
  function PlacedWindows(start: seq<FileWindow>, rands: seq<nat>): (placed: seq<FileWindow>)
    requires |start| == |rands|
    ensures |placed| == |start|
  {
    seq(|start|, f requires 0 <= f < |start| => if NoneEmpty(start, f + 1) then start[f].Fill(rands[f]) else start[f])
  }

  lemma {:induction false} PlacedUpTo(start: seq<FileWindow>, rands: seq<nat>, placed: seq<FileWindow>, n: nat)
    requires |start| == |rands| == |placed| && n <= |start| && NoneEmpty(start, n)
    requires forall g | 0 <= g < n :: placed[g] == start[g].Fill(rands[g])
    requires forall g | n <= g < |start| :: placed[g] == start[g]
    requires n < |start| ==> start[n].size == 0
    ensures placed == PlacedWindows(start, rands)
    ensures NoneEmpty(placed, |placed|) <==> n == |start|
    ensures forall f | 0 <= f < |start| && NoneEmpty(start, f + 1) ::
              && Placed(placed[f]) && placed[f].Row() == rands[f] % start[f].size
              && placed[f].number == if 1 <= start[f].number <= start[f].size then start[f].number else start[f].size
  {
    forall f | 0 <= f < |start|
      ensures placed[f] == PlacedWindows(start, rands)[f] && (NoneEmpty(start, f + 1) <==> f < n)
    {
      assert f >= n ==> start[n].size == 0;
    }
    forall f | 0 <= f < n
      ensures Placed(placed[f]) && placed[f].Row() == rands[f] % start[f].size
      ensures placed[f].number == if 1 <= start[f].number <= start[f].size then start[f].number else start[f].size
    {
      PlacedAsConfigured(start[f], rands[f]);
    }
  }

  /** The file of row t, counted from the first. */
  function FileOfRow(slots: seq<nat>, t: nat): nat
    requires slots != []
  {
    slots[t % |slots|]
  }

  /** Any 100 consecutive rows use each file exactly its percentage of times. */
  lemma {:induction false} HundredRowsMeetPercentages(percentages: seq<nat>, slots: seq<nat>, t: nat, f: nat)
    requires f < |percentages| && slots != []
    requires multiset(slots) == multiset(Schedule(percentages))
    ensures forall i | 0 <= i < |slots| :: Window<nat>(slots, t)[i] == FileOfRow(slots, t + i)
    ensures multiset(Window<nat>(slots, t))[f] == percentages[f]
  {
    WindowCount<nat>(slots, t, f);
    ScheduleMeetsQuotas(percentages, f);
  }

  // ----------------------------------------------------------------- runs of the selector

  /** How many of the first t rows draw from file f. */
  function Earlier(slots: seq<nat>, t: nat, f: nat): nat
    requires slots != []
  {
    if t == 0 then 0 else Earlier(slots, t - 1, f) + if FileOfRow(slots, t - 1) == f then 1 else 0
  }

  /** The windows after the first t rows: each walked by its file's picks. */
  ghost predicate WindowsAt(placed: seq<FileWindow>, slots: seq<nat>, t: nat, windows: seq<FileWindow>)
    requires slots != []
  {
    && |windows| == |placed|
    && forall f | 0 <= f < |placed| :: windows[f] == placed[f].Walk(Earlier(slots, t, f))
  }

  lemma {:induction false} WindowsStep(placed: seq<FileWindow>, slots: seq<nat>, t: nat,
                                       before: seq<FileWindow>, after: seq<FileWindow>, file: nat)
    requires slots != [] && file == FileOfRow(slots, t)
    requires WindowsAt(placed, slots, t, before) && |after| == |before|
    requires forall f | 0 <= f < |before| :: after[f] == if f == file then before[f].Picked() else before[f]
    ensures WindowsAt(placed, slots, t + 1, after)
  {
  }

  /** The selector before row t of a table, its windows placed by the table's first row. */
  ghost predicate Reached(m: MultiFileRandom, start: seq<FileWindow>, rands: seq<nat>, t: nat)
    reads m, m.slots
  {
    && m.Valid() && |m.windows| == |start| == |rands|
    && m.slotIndex == t % RANDOM_ARR_SIZE && (m.windowsPlaced <==> t > 0)
    && if t == 0 then m.windows == start else WindowsAt(PlacedWindows(start, rands), m.slots[..], t, m.windows)
  }

  /** The row that pick k of file f reads: a placed window's, or that of a window left behind a file without
      rows. */
  function RowOfFile(start: seq<FileWindow>, rands: seq<nat>, f: nat, k: nat): nat
    requires f < |start| == |rands| && start[f].size > 0
  {
    if NoneEmpty(start, f + 1) then RowRead(start[f], rands[f], k) else start[f].Walk(k).Row()
  }

  lemma {:induction false} PlacedReads(start: seq<FileWindow>, rands: seq<nat>, f: nat, k: nat)
    requires f < |start| == |rands| && start[f].size > 0
    ensures PlacedWindows(start, rands)[f].Walk(k).Row() == RowOfFile(start, rands, f, k)
  {
    if NoneEmpty(start, f + 1) {
      WalkReads(start[f], rands[f], k);
    }
  }

  /** A window that has never been placed goes through its whole file from the first row on. */
  lemma {:induction false} UnplacedReadsInOrder(w: FileWindow, k: nat)
    requires w.size > 0 && w.initRow == w.endRow == w.last == 0
    ensures w.Walk(k).Row() == k % w.size && w.Walk(k) == w.(last := w.Walk(k).last)
    decreases k
  {
    if k == 0 {
      DivModUnique(0, w.size, 0, 0);
    } else {
      UnplacedReadsInOrder(w, k - 1);
      ModStep(k - 1, w.size);
    }
  }

  /** What row t picks, from the configured windows and the random numbers that place them. */
  ghost predicate PickOf(slots: seq<nat>, start: seq<FileWindow>, rands: seq<nat>, t: nat, pick: (nat, nat))
    requires slots != [] && |start| == |rands|
  {
    var f := FileOfRow(slots, t);
    f < |start| && start[f].size > 0 && pick == (f, RowOfFile(start, rands, f, Earlier(slots, t, f)))
  }

  /** Row t's file has no rows. */
  ghost predicate Fails(slots: seq<nat>, start: seq<FileWindow>, t: nat)
    requires slots != []
  {
    FileOfRow(slots, t) < |start| && start[FileOfRow(slots, t)].size == 0
  }

  /** What the rows from row t on pick. */
  ghost predicate PicksFrom(slots: seq<nat>, start: seq<FileWindow>, rands: seq<nat>, t: nat, picks: seq<(nat, nat)>)
    requires slots != [] && |start| == |rands|
  {
    forall i | 0 <= i < |picks| :: PickOf(slots, start, rands, t + i, picks[i])
  }

  lemma {:induction false} PicksSnoc(slots: seq<nat>, start: seq<FileWindow>, rands: seq<nat>, t: nat,
                                     picks: seq<(nat, nat)>, pick: (nat, nat))
    requires slots != [] && |start| == |rands| && PicksFrom(slots, start, rands, t, picks)
    requires PickOf(slots, start, rands, t + |picks|, pick)
    ensures PicksFrom(slots, start, rands, t, picks + [pick])
  {
  }

  lemma {:induction false} SizesStay(w: FileWindow, k: nat)
    ensures w.Walk(k).size == w.size
    decreases k
  {
    if k != 0 {
      SizesStay(w, k - 1);
    }
  }

  /** Whatever has been selected, the windows have their own files' sizes. */
  lemma {:induction false} SizesAre(start: seq<FileWindow>, rands: seq<nat>, slots: seq<nat>, t: nat,
                                    windows: seq<FileWindow>, f: nat)
    requires f < |start| == |rands| && slots != []
    requires if t == 0 then windows == start else WindowsAt(PlacedWindows(start, rands), slots, t, windows)
    ensures windows[f].size == start[f].size
  {
    if t > 0 {
      SizesStay(PlacedWindows(start, rands)[f], Earlier(slots, t, f));
    }
  }

  /** One row, `filled` rows into its file and t rows after the selector's first. */
  method NextRow(m: MultiFileRandom, ghost t: nat, filled: nat, rands: seq<nat>, ghost start: seq<FileWindow>)
    returns (ok: bool, pick: (nat, nat))
    requires Reached(m, start, rands, t) && (t == 0 ==> filled == 0)
    modifies m
    ensures !ok ==> Fails(m.slots[..], start, t)
    ensures ok ==> Reached(m, start, rands, t + 1) && PickOf(m.slots[..], start, rands, t, pick)
  {
    ghost var was, slots := m.windows, m.slots[..];
    ghost var placed := PlacedWindows(start, rands);
    ghost var before := if t == 0 then placed else was;
    ModStep(t, RANDOM_ARR_SIZE);
    var file, row;
    ok, file, row := m.Calculate(filled, rands);
    assert file == FileOfRow(slots, t);
    SizesAre(start, rands, slots, t, was, file);
    pick := (file, row);
    if ok {
      assert WindowsAt(placed, slots, t, before);
      WindowsStep(placed, slots, t, before, m.windows, file);
      PlacedReads(start, rands, file, Earlier(slots, t, file));
    }
  }

  /** The rows of one file of the table, t rows having been selected for the files before. Row i draws from
      the file of slot t + i modulo 100, and reads the row that file's configured window is at after all its
      earlier picks; a row whose dimension file has no rows ends the selection. */
  method SelectRows(m: MultiFileRandom, ghost t: nat, count: nat, rands: seq<nat>, ghost start: seq<FileWindow>)
    returns (ok: bool, picks: seq<(nat, nat)>)
    requires Reached(m, start, rands, t)
    modifies m
    ensures PicksFrom(m.slots[..], start, rands, t, picks)
    ensures ok ==> |picks| == count && Reached(m, start, rands, t + count)
    ensures !ok ==> |picks| < count && Fails(m.slots[..], start, t + |picks|)
  {
    ok, picks := true, [];
    for i := 0 to count
      invariant Selected(m, start, rands, t, i, picks)
    {
      ok, picks := SelectOne(m, t, i, rands, start, picks);
      if !ok {
        return;
      }
    }
    ok := true;
  }

  /** The selector i rows into a file that began at row t, and what these rows have picked. */
  ghost predicate Selected(m: MultiFileRandom, start: seq<FileWindow>, rands: seq<nat>, t: nat, i: nat,
                           picks: seq<(nat, nat)>)
    reads m, m.slots
  {
    Reached(m, start, rands, t + i) && |picks| == i && PicksFrom(m.slots[..], start, rands, t, picks)
  }

  method SelectOne(m: MultiFileRandom, ghost t: nat, i: nat, rands: seq<nat>, ghost start: seq<FileWindow>,
                   picks: seq<(nat, nat)>)
    returns (ok: bool, more: seq<(nat, nat)>)
    requires Selected(m, start, rands, t, i, picks)
    modifies m
    ensures ok ==> Selected(m, start, rands, t, i + 1, more)
    ensures !ok ==> more == picks && PicksFrom(m.slots[..], start, rands, t, more) && Fails(m.slots[..], start, t + i)
  {
    var pick;
    ok, pick := NextRow(m, t + i, i, rands, start);
    more := picks;
    if ok {
      PicksSnoc(m.slots[..], start, rands, t, picks, pick);
      more := picks + [pick];
    }
  }

  /** Every file's picks go on where the files before stopped. */
  ghost predicate FilePicks(slots: seq<nat>, start: seq<FileWindow>, rands: seq<nat>, counts: seq<nat>,
                            picks: seq<seq<(nat, nat)>>)
    requires slots != [] && |picks| == |counts| && |start| == |rands|
  {
    counts == [] ||
    var last := |counts| - 1;
    && FilePicks(slots, start, rands, counts[..last], picks[..last])
    && |picks[last]| == counts[last]
    && PicksFrom(slots, start, rands, Total(counts[..last]), picks[last])
  }

  /** All files of a table, from a fresh selector on: the slots and windows are walked on from file to
      file, as long as no row's dimension file is without rows. */
  method SelectFiles(m: MultiFileRandom, counts: seq<nat>, rands: seq<nat>)
    returns (ok: bool, picks: seq<seq<(nat, nat)>>)
    requires m.Valid() && |rands| == |m.windows| && m.slotIndex == 0 && !m.windowsPlaced
    modifies m
    ensures ok ==> |picks| == |counts| && FilePicks(m.slots[..], old(m.windows), rands, counts, picks)
    ensures !ok ==> exists t | 0 <= t < Total(counts) :: Fails(m.slots[..], old(m.windows), t)
  {
    ghost var start := m.windows;
    ok, picks := true, [];
    for j := 0 to |counts|
      invariant Reached(m, start, rands, Total(counts[..j])) && |picks| == j
      invariant FilePicks(m.slots[..], start, rands, counts[..j], picks)
    {
      var file;
      ok, file := SelectRows(m, Total(counts[..j]), counts[j], rands, start);
      TotalGrows(counts, j);
      if !ok {
        assert Fails(m.slots[..], start, Total(counts[..j]) + |file|);
        return;
      }
      FilePicksStep(m.slots[..], start, rands, counts, picks, j, file);
      picks := picks + [file];
    }
    assert counts[..|counts|] == counts;
    ok := true;
  }

  lemma {:induction false} FilePicksStep(slots: seq<nat>, start: seq<FileWindow>, rands: seq<nat>, counts: seq<nat>,
                                         picks: seq<seq<(nat, nat)>>, j: nat, file: seq<(nat, nat)>)
    requires |start| == |rands|
    requires slots != [] && j < |counts| && |picks| == j && FilePicks(slots, start, rands, counts[..j], picks)
    requires |file| == counts[j]
    requires PicksFrom(slots, start, rands, Total(counts[..j]), file)
    ensures FilePicks(slots, start, rands, counts[..j + 1], picks + [file])
    ensures Total(counts[..j + 1]) == Total(counts[..j]) + counts[j]
  {
    assert counts[..j + 1][..j] == counts[..j] && (picks + [file])[..j] == picks;
  }
}
