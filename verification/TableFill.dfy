/**
 Filling a table row by row: column values are written at the fill position plus the column's offset, and
 values drawn from another table's rows come from rows that have been filled.
 */
module TableFill {
  import opened Arithmetic
  import opened ByteText
  import Codec = ExampleCodec
  import opened LayoutTheorems
  import opened Options
  import opened RecordLayout

  const TWO_32: nat := 0x1_0000_0000

  // ----------------------------------------------------------------- writing rows

  /** One column's value in a row. */
  datatype ColumnValue = ColumnValue(offset: nat, bytes: seq<Byte>)

  /** The columns' values, written one after the other over a row. */
  function RowWith(row: seq<Byte>, values: seq<ColumnValue>): (r: seq<Byte>)
    requires forall v | v in values :: v.offset + |v.bytes| <= |row|
    ensures |r| == |row|
  {
    if values == [] then row
    else
      var v := values[|values| - 1];
      Codec.Overlaid(RowWith(row, values[..|values| - 1]), v.offset, v.bytes)
  }

  /** Row r of a buffer of rows. */
  function RowOf(d: seq<Byte>, r: nat, rows: nat, size: nat): (row: seq<Byte>)
    requires r < rows && |d| == rows * size
    ensures |row| == size
  {
    RowInside(r, rows, size);
    d[r * size..r * size + size]
  }

  lemma {:induction false} OverlaidAt(d: seq<Byte>, at: nat, bytes: seq<Byte>, k: nat)
    requires at + |bytes| <= |d| && k < |d|
    ensures Codec.Overlaid(d, at, bytes)[k] == if at <= k < at + |bytes| then bytes[k - at] else d[k]
  {
  }

  lemma {:induction false} OverlaidWithin(d: seq<Byte>, start: nat, size: nat, offset: nat, bytes: seq<Byte>)
    requires start + size <= |d| && offset + |bytes| <= size
    ensures Codec.Overlaid(d, start + offset, bytes)[start..start + size] ==
            Codec.Overlaid(d[start..start + size], offset, bytes)
  {
    var inside, row := Codec.Overlaid(d, start + offset, bytes)[start..start + size], d[start..start + size];
    forall k | 0 <= k < size
      ensures inside[k] == Codec.Overlaid(row, offset, bytes)[k]
    {
      OverlaidAt(d, start + offset, bytes, start + k);
      OverlaidAt(row, offset, bytes, k);
    }
  }

  lemma {:induction false} ColumnWritten(was: seq<Byte>, cur: nat, rows: nat, size: nat, v: ColumnValue)
    requires cur < rows && |was| == rows * size && v.offset + |v.bytes| <= size
    requires cur * size + size <= |was|
    ensures RowOf(Codec.Overlaid(was, cur * size + v.offset, v.bytes), cur, rows, size) ==
            RowWith(RowOf(was, cur, rows, size), [v])
  {
    OneValue(RowOf(was, cur, rows, size), v);
    OverlaidWithin(was, cur * size, size, v.offset, v.bytes);
  }

  lemma {:induction false} OtherRowKept(was: seq<Byte>, now: seq<Byte>, start: nat, other: nat, r: nat, rows: nat,
                                        size: nat, v: ColumnValue)
    requires r < rows && other == r * size && |was| == |now| == rows * size
    requires start + size <= |was| && v.offset + |v.bytes| <= size
    requires other + size <= start || start + size <= other
    requires now == Codec.Overlaid(was, start + v.offset, v.bytes)
    ensures RowOf(now, r, rows, size) == RowOf(was, r, rows, size)
  {
    RowAt(was, r, rows, size, other);
    RowAt(now, r, rows, size, other);
    RangeKept(was, start, other, size, v);
  }

  lemma {:induction false} OtherRowsKept(was: seq<Byte>, now: seq<Byte>, start: nat, cur: nat, rows: nat, size: nat,
                                         v: ColumnValue)
    requires start == cur * size && |was| == |now| == rows * size
    requires start + size <= |was| && v.offset + |v.bytes| <= size
    requires now == Codec.Overlaid(was, start + v.offset, v.bytes)
    ensures forall r | 0 <= r < rows && r != cur :: RowOf(now, r, rows, size) == RowOf(was, r, rows, size)
  {
    forall r | 0 <= r < rows && r != cur
      ensures RowOf(now, r, rows, size) == RowOf(was, r, rows, size)
    {
      OneOtherRowKept(was, now, start, cur, r, rows, size, v);
    }
  }

  lemma {:induction false} OneOtherRowKept(was: seq<Byte>, now: seq<Byte>, start: nat, cur: nat, r: nat, rows: nat,
                                           size: nat, v: ColumnValue)
    requires start == cur * size && |was| == |now| == rows * size && r < rows && r != cur
    requires start + size <= |was| && v.offset + |v.bytes| <= size
    requires now == Codec.Overlaid(was, start + v.offset, v.bytes)
    ensures RowOf(now, r, rows, size) == RowOf(was, r, rows, size)
  {
    RowsApart(r, cur, size);
    RowInside(r, rows, size);
    OtherRowKept(was, now, start, r * size, r, rows, size, v);
  }

  lemma {:induction false} RowAt(d: seq<Byte>, r: nat, rows: nat, size: nat, start: nat)
    requires r < rows && |d| == rows * size && start == r * size
    ensures start + size <= |d| && RowOf(d, r, rows, size) == d[start..start + size]
  {
    RowInside(r, rows, size);
  }

  lemma {:induction false} RangeKept(was: seq<Byte>, start: nat, other: nat, size: nat, v: ColumnValue)
    requires start + size <= |was| && other + size <= |was| && v.offset + |v.bytes| <= size
    requires other + size <= start || start + size <= other
    ensures Codec.Overlaid(was, start + v.offset, v.bytes)[other..other + size] == was[other..other + size]
  {
    OutsideKept(was, ColumnValue(start + v.offset, v.bytes), other, size);
  }

  class TableBuffer {
    const entrySize: nat
    const rowNum: nat
    const data: array<Byte>
    var curFilledCount: nat
    var nextFilledPosition: nat

    /** The fill position is the start of the next row, and the buffer has room for all rows. */
    ghost predicate Valid()
      reads this
    {
      && data.Length == rowNum * entrySize && curFilledCount <= rowNum
      && nextFilledPosition == curFilledCount * entrySize
    }

    constructor (entrySize: nat, rowNum: nat)
      ensures Valid() && fresh(data) && this.entrySize == entrySize && this.rowNum == rowNum
      ensures curFilledCount == 0
    {
      this.entrySize, this.rowNum := entrySize, rowNum;
      data := new Byte[rowNum * entrySize](_ => 0);
      curFilledCount, nextFilledPosition := 0, 0;
    }

    /** Row r of the buffer. */
    ghost function Row(r: nat): (row: seq<Byte>)
      requires r < rowNum && data.Length == rowNum * entrySize
      reads data
      ensures |row| == entrySize
    {
      RowOf(data[..], r, rowNum, entrySize)
    }

    method Store(at: nat, bytes: seq<Byte>)
      requires at + |bytes| <= data.Length
      modifies data
      ensures data[..] == Codec.Overlaid(old(data[..]), at, bytes)
    {
      for i := 0 to |bytes|
        invariant forall k | 0 <= k < data.Length ::
                    data[k] == if at <= k < at + i then bytes[k - at] else old(data[k])
      {
        data[at + i] := bytes[i];
      }
    }

    /** Writes one column of the row being filled: that row changes there, and no other row changes. */
    method WriteColumn(v: ColumnValue)
      requires Valid() && curFilledCount < rowNum && v.offset + |v.bytes| <= entrySize
      modifies data
      ensures Valid() && Row(curFilledCount) == old(RowWith(Row(curFilledCount), [v]))
      ensures forall r | 0 <= r < rowNum && r != curFilledCount :: Row(r) == old(Row(r))
    {
      RowInside(curFilledCount, rowNum, entrySize);
      ghost var was := data[..];
      Store(nextFilledPosition + v.offset, v.bytes);
      ColumnWritten(was, curFilledCount, rowNum, entrySize, v);
      OtherRowsKept(was, data[..], nextFilledPosition, curFilledCount, rowNum, entrySize, v);
    }

    method CreateData()
      requires Valid() && curFilledCount < rowNum
      modifies this`curFilledCount, this`nextFilledPosition
      ensures Valid() && curFilledCount == old(curFilledCount) + 1
    {
      curFilledCount := curFilledCount + 1;
      nextFilledPosition := nextFilledPosition + entrySize;
    }

    /** Produces one row: all columns, then on to the next row. */
    method ProduceRow(values: seq<ColumnValue>)
      requires Valid() && curFilledCount < rowNum
      requires forall v | v in values :: v.offset + |v.bytes| <= entrySize
      modifies this`curFilledCount, this`nextFilledPosition, data
      ensures Valid() && curFilledCount == old(curFilledCount) + 1
      ensures Row(old(curFilledCount)) == old(RowWith(Row(curFilledCount), values))
      ensures forall r | 0 <= r < rowNum && r != old(curFilledCount) :: Row(r) == old(Row(r))
    {
      ghost var start := Row(curFilledCount);
      for i := 0 to |values|
        invariant Valid() && curFilledCount == old(curFilledCount)
        invariant Row(curFilledCount) == RowWith(start, values[..i])
        invariant forall r | 0 <= r < rowNum && r != curFilledCount :: Row(r) == old(Row(r))
      {
        OneMoreValue(start, values, i);
        WriteColumn(values[i]);
      }
      assert values[..|values|] == values;
      CreateData();
    }
  }

  lemma {:induction false} RowInside(r: nat, rows: nat, size: nat)
    requires r < rows
    ensures r * size + size <= rows * size
  {
    MulMono(size, r + 1, rows);
    assert (r + 1) * size == r * size + size;
  }

  lemma {:induction false} RowsApart(r: nat, s: nat, size: nat)
    requires r != s
    ensures r * size + size <= s * size || s * size + size <= r * size
  {
    if r < s {
      RowInside(r, s, size);
    } else {
      RowInside(s, r, size);
    }
  }

  lemma {:induction false} OneValue(row: seq<Byte>, v: ColumnValue)
    requires v.offset + |v.bytes| <= |row|
    ensures RowWith(row, [v]) == Codec.Overlaid(row, v.offset, v.bytes)
  {
    assert [v][..0] == [];
  }

  lemma {:induction false} OneMoreValue(row: seq<Byte>, values: seq<ColumnValue>, i: nat)
    requires i < |values| && forall v | v in values :: v.offset + |v.bytes| <= |row|
    ensures RowWith(row, values[..i + 1]) == RowWith(RowWith(row, values[..i]), [values[i]])
  {
    assert values[..i + 1][..i] == values[..i];
    OneValue(RowWith(row, values[..i]), values[i]);
  }

  /** Two columns share no byte. */
  predicate Apart(v: ColumnValue, w: ColumnValue) {
    v.offset + |v.bytes| <= w.offset || w.offset + |w.bytes| <= v.offset
  }

  /** Columns that share no byte all keep their values, whatever the order they are written in. */
  lemma {:induction false} ColumnsKeepTheirValues(row: seq<Byte>, values: seq<ColumnValue>, i: nat)
    requires forall v | v in values :: v.offset + |v.bytes| <= |row|
    requires forall j, k | 0 <= j < k < |values| :: Apart(values[j], values[k])
    requires i < |values|
    ensures RowWith(row, values)[values[i].offset..values[i].offset + |values[i].bytes|] == values[i].bytes
    decreases |values|
  {
    var last, before := values[|values| - 1], values[..|values| - 1];
    var earlier := RowWith(row, before);
    if i < |before| {
      assert Apart(values[i], last) && before[i] == values[i];
      ColumnsKeepTheirValues(row, before, i);
      ColumnKept(earlier, last, values[i]);
    } else {
      OwnKept(earlier, last);
    }
  }

  lemma {:induction false} ColumnKept(row: seq<Byte>, v: ColumnValue, w: ColumnValue)
    requires v.offset + |v.bytes| <= |row| && w.offset + |w.bytes| <= |row| && Apart(w, v)
    requires row[w.offset..w.offset + |w.bytes|] == w.bytes
    ensures Codec.Overlaid(row, v.offset, v.bytes)[w.offset..w.offset + |w.bytes|] == w.bytes
  {
    OutsideKept(row, v, w.offset, |w.bytes|);
  }

  lemma {:induction false} OutsideKept(row: seq<Byte>, v: ColumnValue, at: nat, len: nat)
    requires v.offset + |v.bytes| <= |row| && at + len <= |row|
    requires at + len <= v.offset || v.offset + |v.bytes| <= at
    ensures Codec.Overlaid(row, v.offset, v.bytes)[at..at + len] == row[at..at + len]
  {
    var now, was := Codec.Overlaid(row, v.offset, v.bytes)[at..at + len], row[at..at + len];
    forall k | 0 <= k < len
      ensures now[k] == was[k]
    {
      OverlaidAt(row, v.offset, v.bytes, at + k);
    }
  }

  lemma {:induction false} OwnKept(row: seq<Byte>, v: ColumnValue)
    requires v.offset + |v.bytes| <= |row|
    ensures Codec.Overlaid(row, v.offset, v.bytes)[v.offset..v.offset + |v.bytes|] == v.bytes
  {
  }

  /** The last column written over a byte; -1 if none is. */
  function LastOver(values: seq<ColumnValue>, k: nat): (i: int)
    ensures -1 <= i < |values|
    ensures i >= 0 ==> values[i].offset <= k < values[i].offset + |values[i].bytes|
    ensures forall j | i < j < |values| :: !(values[j].offset <= k < values[j].offset + |values[j].bytes|)
  {
    if values == [] then -1
    else
      var v := values[|values| - 1];
      if v.offset <= k < v.offset + |v.bytes| then |values| - 1 else LastOver(values[..|values| - 1], k)
  }

  /** Where columns overlap, as the members of a union do, every byte is the last column's that covers it. */
  lemma {:induction false} LastColumnWins(row: seq<Byte>, values: seq<ColumnValue>, k: nat)
    requires forall v | v in values :: v.offset + |v.bytes| <= |row|
    requires k < |row|
    ensures var i := LastOver(values, k);
            RowWith(row, values)[k] == if i < 0 then row[k] else values[i].bytes[k - values[i].offset]
    decreases |values|
  {
    if values != [] {
      var last, before := values[|values| - 1], values[..|values| - 1];
      LastColumnWins(row, before, k);
      OneMoreColumn(row, values, k);
    }
  }

  lemma {:induction false} OneMoreColumn(row: seq<Byte>, values: seq<ColumnValue>, k: nat)
    requires forall v | v in values :: v.offset + |v.bytes| <= |row|
    requires k < |row| && values != []
    ensures var last, before := values[|values| - 1], values[..|values| - 1];
            RowWith(row, values)[k] ==
            if last.offset <= k < last.offset + |last.bytes| then last.bytes[k - last.offset]
            else RowWith(row, before)[k]
  {
    var last, before := values[|values| - 1], values[..|values| - 1];
    OverlaidAt(RowWith(row, before), last.offset, last.bytes, k);
  }

  /** In a table with any tree of columns, a finished row holds every visited column's value at that column's
      offset, which in a faithful tree is the one the layout compiler gives it. */
  lemma {:induction false} CompiledRowHoldsValues(n: Node, r: Regs, row: seq<Byte>, values: seq<ColumnValue>, i: nat)
    requires r.offset == 0 && PlainSize(n) <= |row|
    requires |values| == |Codec.PickFields(n, 0)| && i < |values|
    requires forall k | 0 <= k < |values| :: Carries(Codec.PickFields(n, 0)[k], values[k])
    ensures forall v | v in values :: v.offset + |v.bytes| <= |row|
    ensures RowWith(row, values)[values[i].offset..values[i].offset + |values[i].bytes|] == values[i].bytes
    ensures Height(n) <= MAX_STACK_DEPTH && Faithful(n, MAX_STACK_DEPTH) ==>
              var typ := Codec.PickFields(n, 0)[i].typ;
              typ == Widthless ||
              Placement(values[i].offset, TypeLen(typ)) in Parse(n, r, MAX_STACK_DEPTH).1
  {
    var fields := Codec.PickFields(n, 0);
    Codec.VisitedInOrder(n, 0);
    CarriedApart(fields, values, PlainSize(n));
    ColumnsKeepTheirValues(row, values, i);
    if Height(n) <= MAX_STACK_DEPTH && Faithful(n, MAX_STACK_DEPTH) {
      Codec.FieldsArePlaced(n, 0, MAX_STACK_DEPTH);
      OffsetsRightIffFaithful(n, r, MAX_STACK_DEPTH);
      assert fields[i] in fields;
    }
  }

  /** A value for a column, at its offset and no wider than its type. */
  predicate Carries(f: Codec.Field, v: ColumnValue) {
    v.offset == f.offset && |v.bytes| <= TypeLen(f.typ)
  }

  lemma {:induction false} CarriedApart(fields: seq<Codec.Field>, values: seq<ColumnValue>, size: nat)
    requires Codec.InOrder(fields, 0, size) && |values| == |fields|
    requires forall k | 0 <= k < |values| :: Carries(fields[k], values[k])
    ensures forall v | v in values :: v.offset + |v.bytes| <= size
    ensures forall j, k | 0 <= j < k < |values| :: Apart(values[j], values[k])
  {
    forall v | v in values
      ensures v.offset + |v.bytes| <= size
    {
      var k :| 0 <= k < |values| && values[k] == v;
      assert Carries(fields[k], v) && fields[k] in fields;
    }
  }

  // ----------------------------------------------------------------- drawing a row

  const MAX_UINT64: nat := 0xFFFF_FFFF_FFFF_FFFE
  const RAND_MAX: nat := 0x7FFF_FFFF

  /** A number from low to high, driven by any random number; 0 for an empty range. The highest range is
      cut to the random numbers there are. */
  function RandNumber(low: nat, high: nat, draw: nat): nat {
    var h := if high == MAX_UINT64 then RAND_MAX else high;
    if h == 0 || low > h then 0 else draw % (h - low + 1) + low
  }

  /** The range contract the selectors rely on. */
  lemma {:induction false} RandNumberInRange(low: nat, high: nat, draw: nat)
    requires low <= high < MAX_UINT64
    ensures low <= RandNumber(low, high, draw) <= high
  {
  }

  lemma {:induction false} RandNumberReaches(low: nat, high: nat, x: nat)
    requires low <= x <= high < MAX_UINT64
    ensures RandNumber(low, high, x - low) == x
  {
    if high != 0 {
      DivModUnique(x - low, high - low + 1, 0, x - low);
    }
  }

  /** The ends of the range: nothing is drawn from an empty one, and the highest stands for all the random
      numbers there are. */
  lemma {:induction false} RandNumberEnds(low: nat, high: nat, draw: nat)
    ensures (low > high && high != MAX_UINT64) || high == 0 ==> RandNumber(low, high, draw) == 0
    ensures RandNumber(low, MAX_UINT64, draw) == RandNumber(low, RAND_MAX, draw)
    ensures low <= high < MAX_UINT64 && high > 0 ==>
              RandNumber(low, high, draw + (high - low + 1)) == RandNumber(low, high, draw)
  {
    if low <= high {
      ModShift(draw, high - low + 1, 1);
    }
  }

  /** The row a table-random column reads from a table with `filled` rows, which is the column's own table
      or another; None when the configured low bound lies beyond the rows. The low bound is only checked:
      the draw itself starts at row 0. */
  method TableRandomRow(filled: nat, own: bool, low: nat, high: nat, draw: nat) returns (row: Option<nat>)
    requires filled < TWO_32
    ensures row == DrawnRow(filled, own, low, high, draw)
  {
    var maxIdx := filled;
    if !own {
      maxIdx := (maxIdx - 1) % TWO_32;
    }
    if low > maxIdx {
      return None;
    }
    if high < maxIdx {
      maxIdx := high;
    }
    return Some(RandNumber(0, maxIdx, draw));
  }

  /** The highest row that may be drawn, and with no row at all the highest 32-bit number. */
  function LastRow(filled: nat, own: bool): nat {
    if own then filled else if filled == 0 then TWO_32 - 1 else filled - 1
  }

  function DrawnRow(filled: nat, own: bool, low: nat, high: nat, draw: nat): Option<nat> {
    var last := LastRow(filled, own);
    if low > last then None else Some(RandNumber(0, if high < last then high else last, draw))
  }

  /** A random number draws a row. */
  predicate Draws(filled: nat, own: bool, low: nat, high: nat, draw: nat, row: nat) {
    draw <= RAND_MAX && DrawnRow(filled, own, low, high, draw) == Some(row)
  }

  /** What is refused and what is drawn: the low bound refuses, but rows below it are drawn like any other up
      to the high bound, the last row and the highest random number. */
  lemma {:induction false} LowBoundNotApplied(filled: nat, own: bool, low: nat, high: nat, row: nat)
    requires filled < TWO_32
    ensures LastRow(filled, own) == if own then filled else (filled - 1) % TWO_32
    ensures (exists draw :: Draws(filled, own, low, high, draw, row)) <==>
            low <= LastRow(filled, own) && row <= LastRow(filled, own) && row <= high && row <= 0x7FFF_FFFF
  {
    var last := if high < LastRow(filled, own) then high else LastRow(filled, own);
    if low <= LastRow(filled, own) {
      if row <= last && row <= RAND_MAX {
        RandNumberReaches(0, last, row);
        assert Draws(filled, own, low, high, row, row);
      }
      forall draw | Draws(filled, own, low, high, draw, row)
        ensures row <= last && row <= draw
      {
        RandNumberInRange(0, last, draw);
        RemainderBelow(draw, last + 1);
      }
    }
  }

  lemma {:induction false} RemainderBelow(x: nat, n: nat)
    requires n > 0
    ensures x % n <= x
  {
    assert x == n * (x / n) + x % n;
    MulMono(n, 0, x / n);
  }

  /** Every row that may be drawn has been filled. */
  ghost predicate DrawsFilledRows(filled: nat, own: bool, low: nat, high: nat) {
    forall draw: nat | draw <= RAND_MAX ::
      var row := DrawnRow(filled, own, low, high, draw);
      row.Some? ==> row.value < filled
  }

  /** The draw is any row up to `last`, and no other. */
  lemma {:induction false} DrawsUpTo(filled: nat, own: bool, low: nat, high: nat)
    requires filled < TWO_32 && low <= LastRow(filled, own)
    ensures var last := if high < LastRow(filled, own) then high else LastRow(filled, own);
            DrawsFilledRows(filled, own, low, high) <==> last < filled || filled > RAND_MAX
  {
    var last := if high < LastRow(filled, own) then high else LastRow(filled, own);
    if last < filled {
      forall draw: nat | draw <= RAND_MAX
        ensures DrawnRow(filled, own, low, high, draw).value < filled
      {
        RandNumberInRange(0, last, draw);
      }
    } else if filled == 0 {
      assert DrawnRow(filled, own, low, high, 0).value >= 0;
    } else if filled <= RAND_MAX {
      RandNumberReaches(0, last, last);
      assert DrawnRow(filled, own, low, high, last) == Some(last);
    } else {
      forall draw: nat | draw <= RAND_MAX
        ensures DrawnRow(filled, own, low, high, draw).value < filled
      {
        DivModUnique(draw, last + 1, 0, draw);
      }
    }
  }

  /** Another table's draws stay inside its filled rows if and only if it has a row, or its low bound is
      beyond every 32-bit row number. */
  lemma {:induction false} OtherTableDrawsFilledRows(filled: nat, low: nat, high: nat)
    requires filled < TWO_32
    ensures DrawsFilledRows(filled, false, low, high) <==> filled >= 1 || low >= TWO_32
  {
    if low <= LastRow(filled, false) {
      DrawsUpTo(filled, false, low, high);
    } else {
      assert forall draw: nat :: DrawnRow(filled, false, low, high, draw) == None;
    }
  }

  /** The column's own table may draw the row that is still being filled: its draws stay inside the filled
      rows if and only if the high bound is below that row, or the low bound beyond it, or the row's number
      beyond all random numbers. */
  lemma {:induction false} OwnTableMayDrawCurrentRow(filled: nat, low: nat, high: nat)
    requires filled < TWO_32
    ensures DrawsFilledRows(filled, true, low, high) <==> high < filled || low > filled || filled > RAND_MAX
  {
    if low <= LastRow(filled, true) {
      DrawsUpTo(filled, true, low, high);
    }
  }
}
