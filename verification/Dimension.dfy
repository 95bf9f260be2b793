/**
 The dimension column index: which columns of each dimension file are loaded, at which place of a loaded
 row each of them is kept, and the place every registered column object is told to read.
 */
module Dimension {
  import opened Options

  const NOT_MAPPED: nat := 0xFF

  /** What the loader makes of a column's text. */
  datatype Kind = Number | Chars | NotLoaded

  datatype Cell = Cell(kind: Kind, text: string)

  /** A column's number in its file: an 8-bit number. */
  type ColumnNumber = n: nat | n < 256

  class DimensionFileColumn {
    /** The name of the dimension file the column belongs to. */
    const file: string
    /** The column's number in the file, from 1. */
    const colidx: ColumnNumber
    const kind: Kind
    var mappingidx: nat

    constructor (file: string, colidx: ColumnNumber, kind: Kind)
      ensures this.file == file && this.colidx == colidx && this.kind == kind && mappingidx == NOT_MAPPED
    {
      this.file, this.colidx, this.kind := file, colidx, kind;
      mappingidx := NOT_MAPPED;
    }
  }

  /** The first place of `cols` that holds column number idx, or its length. */
  function Position(cols: seq<DimensionFileColumn>, idx: nat): (pos: nat)
    ensures pos <= |cols|
    ensures pos < |cols| ==> cols[pos].colidx == idx
    ensures forall k | 0 <= k < pos :: cols[k].colidx != idx
  {
    if cols == [] || cols[0].colidx == idx then 0 else 1 + Position(cols[1..], idx)
  }

  ghost predicate NoRepeat(cols: seq<DimensionFileColumn>) {
    forall i, j | 0 <= i < j < |cols| :: cols[i].colidx != cols[j].colidx
  }

  lemma {:induction false} PositionUnique(cols: seq<DimensionFileColumn>, idx: nat, k: nat)
    requires k < |cols| && cols[k].colidx == idx && forall i | 0 <= i < k :: cols[i].colidx != idx
    ensures Position(cols, idx) == k
    decreases k
  {
    if k != 0 {
      PositionUnique(cols[1..], idx, k - 1);
    }
  }

  /** Looks for a column number. */
  method FindColumn(cols: seq<DimensionFileColumn>, idx: nat) returns (pos: nat)
    ensures pos == Position(cols, idx)
  {
    pos := 0;
    while pos < |cols| && cols[pos].colidx != idx
      invariant pos <= Position(cols, idx)
    {
      pos := pos + 1;
    }
  }

  /** The columns of a file that have been registered. */
  function ColumnsOf(info: map<string, seq<DimensionFileColumn>>, file: string): seq<DimensionFileColumn> {
    if file in info then info[file] else []
  }

  /** The columns with `col` registered: a column number its file already has is not entered again. */
  function WithColumn(info: map<string, seq<DimensionFileColumn>>, col: DimensionFileColumn)
    : map<string, seq<DimensionFileColumn>>
  {
    var cols := ColumnsOf(info, col.file);
    if Position(cols, col.colidx) < |cols| then info else info[col.file := cols + [col]]
  }

  ghost predicate NoRepeats(info: map<string, seq<DimensionFileColumn>>) {
    forall f | f in info :: NoRepeat(info[f])
  }

  /** The place of a column's number among its file's registered columns. */
  function PlaceOf(info: map<string, seq<DimensionFileColumn>>, col: DimensionFileColumn): nat {
    Position(ColumnsOf(info, col.file), col.colidx)
  }

  predicate HasPlace(info: map<string, seq<DimensionFileColumn>>, col: DimensionFileColumn) {
    PlaceOf(info, col) < |ColumnsOf(info, col.file)|
  }

  lemma {:induction false} WithColumnKeepsDistinct(info: map<string, seq<DimensionFileColumn>>,
                                                   col: DimensionFileColumn)
    requires NoRepeats(info)
    ensures NoRepeats(WithColumn(info, col))
  {
  }

  /** A new column number gets the next place. */
  lemma {:induction false} NewPlace(info: map<string, seq<DimensionFileColumn>>, col: DimensionFileColumn)
    ensures HasPlace(WithColumn(info, col), col) && PlaceOf(WithColumn(info, col), col) == PlaceOf(info, col)
  {
    var cols := ColumnsOf(info, col.file);
    if !HasPlace(info, col) {
      PositionUnique(cols + [col], col.colidx, |cols|);
    }
  }

  /** Registering a column moves no other. */
  lemma {:induction false} PlacesStay(info: map<string, seq<DimensionFileColumn>>, col: DimensionFileColumn,
                                      c: DimensionFileColumn)
    requires HasPlace(info, c)
    ensures HasPlace(WithColumn(info, col), c) && PlaceOf(WithColumn(info, col), c) == PlaceOf(info, c)
  {
    var cols := ColumnsOf(info, c.file);
    if !HasPlace(info, col) && c.file == col.file {
      PositionUnique(cols + [col], c.colidx, PlaceOf(info, c));
    }
  }

  /** What is registered first stays: the columns a file has keep their places, and a column is added behind
      them exactly if its number is new. */
  lemma {:induction false} FirstRegistrationStays(info: map<string, seq<DimensionFileColumn>>,
                                                  col: DimensionFileColumn, file: string)
    ensures var was, now := ColumnsOf(info, file), ColumnsOf(WithColumn(info, col), file);
            now == if file == col.file && (forall k | 0 <= k < |was| :: was[k].colidx != col.colidx)
                   then was + [col] else was
  {
  }

  /** A column's mapping index names the place after its own column number's place. */
  ghost predicate Mapped(info: map<string, seq<DimensionFileColumn>>, c: DimensionFileColumn)
    reads c
  {
    HasPlace(info, c) && c.mappingidx == (PlaceOf(info, c) + 1) % 256
  }

  ghost predicate AllMapped(info: map<string, seq<DimensionFileColumn>>, cs: set<DimensionFileColumn>)
    reads cs
  {
    forall c | c in cs :: Mapped(info, c)
  }

  lemma {:induction false} AllStayMapped(info: map<string, seq<DimensionFileColumn>>, cs: set<DimensionFileColumn>,
                                         col: DimensionFileColumn)
    requires AllMapped(info, cs)
    ensures AllMapped(WithColumn(info, col), cs - {col})
  {
    forall c | c in cs - {col}
      ensures Mapped(WithColumn(info, col), c)
    {
      assert Mapped(info, c);
      PlacesStay(info, col, c);
    }
  }

  class DimensionIndex {
    var info: map<string, seq<DimensionFileColumn>>
    ghost var registered: set<DimensionFileColumn>

    ghost predicate Valid()
      reads this, registered
    {
      NoRepeats(info) && AllMapped(info, registered)
    }

    constructor ()
      ensures Valid() && registered == {} && info == map[]
    {
      info, registered := map[], {};
    }

    /** Enters a column's number, unless its file already has it, and answers its place plus one. */
    method Enter(col: DimensionFileColumn) returns (pos: nat)
      modifies this`info
      ensures info == WithColumn(old(info), col) && pos == (PlaceOf(old(info), col) + 1) % 256
    {
      if col.file in info {
        var cols := info[col.file];
        var at := FindColumn(cols, col.colidx);
        if at < |cols| {
          pos := (at + 1) % 256;
        } else {
          info := info[col.file := cols + [col]];
          pos := |cols + [col]| % 256;
        }
      } else {
        info := info[col.file := [] + [col]];
        pos := 1;
      }
    }

    /** Registers a column: a column number its file already has keeps its place, a new one is appended. */
    method AddDimensionInfo(col: DimensionFileColumn) returns (pos: nat)
      requires Valid()
      modifies this, col`mappingidx
      ensures Valid() && registered == old(registered) + {col} && info == WithColumn(old(info), col)
      ensures pos == col.mappingidx
    {
      ghost var was, others := info, registered - {col};
      WithColumnKeepsDistinct(was, col);
      NewPlace(was, col);
      AllStayMapped(was, registered, col);
      pos := Enter(col);
      col.mappingidx := pos;
      assert Mapped(info, col) && AllMapped(info, others);
      registered := others + {col};
    }

    /** The place a registered column reads from a loaded row is its own column number's place, if that is
        not the 256th: its mapping index is an 8-bit number, and the place's number is one less. */
    lemma {:induction false} ReadsOwnPlaceIffBelow256(c: DimensionFileColumn)
      requires Valid() && c in registered
      ensures c.mappingidx - 1 == PlaceOf(info, c) <==> PlaceOf(info, c) < 255
    {
      assert Mapped(info, c);
    }
  }

  // ----------------------------------------------------------------- loading a row

  /** The last of the first n texts that is counted as number idx; the count has 8 bits. */
  function LastCounted(n: nat, idx: nat): Option<nat> {
    if n == 0 then None else if n % 256 == idx then Some(n) else LastCounted(n - 1, idx)
  }

  /** The value of column number idx among the first n texts of a CSV row. */
  function ValueOf(texts: seq<string>, n: nat, idx: nat): Option<string>
    requires n <= |texts|
  {
    LastCountedWithin(n, idx);
    match LastCounted(n, idx)
    case Some(k) => Some(texts[k - 1])
    case None => None
  }

  lemma {:induction false} LastCountedWithin(n: nat, idx: nat)
    ensures LastCounted(n, idx).Some? ==> 1 <= LastCounted(n, idx).value <= n
    decreases n
  {
    if n != 0 {
      LastCountedWithin(n - 1, idx);
    }
  }

  /** What the loader leaves at place pos of a row after n texts. */
  function Loaded(cols: seq<DimensionFileColumn>, texts: seq<string>, n: nat, pos: nat): Option<Cell>
    requires n <= |texts| && pos < |cols|
  {
    match ValueOf(texts, n, cols[pos].colidx)
    case Some(text) => if cols[pos].kind == NotLoaded then None else Some(Cell(cols[pos].kind, text))
    case None => None
  }

  /** A text counted as number idx has a cell in the row, whose cells are counted in 8 bits, or is skipped. */
  predicate HasCell(cols: seq<DimensionFileColumn>, idx: nat) {
    var pos := Position(cols, idx);
    pos < |cols| && cols[pos].kind != NotLoaded ==> pos < |cols| % 256
  }

  /** Loads one CSV row: each text goes to the place of its column number, and is skipped without one. No row
      for a text that would be stored behind it. */
  method LoadRow(cols: seq<DimensionFileColumn>, texts: seq<string>) returns (ok: bool, row: seq<Option<Cell>>)
    requires NoRepeat(cols)
    ensures ok <==> AllHaveCells(cols, |texts|)
    ensures |cols| < 256 ==> ok && |row| == |cols|
    ensures ok ==> LoadedTo(cols, texts, |texts|, row)
  {
    ok, row := true, seq(|cols| % 256, _ => None);
    var colidx := 0;
    for n := 0 to |texts|
      invariant ok && colidx == n % 256 && AllHaveCells(cols, n) && LoadedTo(cols, texts, n, row)
    {
      colidx := (colidx + 1) % 256;
      ghost var before := row;
      ok, row := StoreText(cols, colidx, texts[n], row);
      if !ok {
        assert !HasCell(cols, (n + 1) % 256);
        return;
      }
      NextText(cols, texts, n, colidx, before);
    }
    if |cols| < 256 {
      FewHaveCells(cols, |texts|);
    }
  }

  /** The first n texts all have cells. */
  ghost predicate AllHaveCells(cols: seq<DimensionFileColumn>, n: nat) {
    forall k | 1 <= k <= n :: HasCell(cols, k % 256)
  }

  lemma {:induction false} FewHaveCells(cols: seq<DimensionFileColumn>, n: nat)
    requires |cols| < 256
    ensures AllHaveCells(cols, n)
  {
  }

  /** A row after the first n texts. */
  ghost predicate LoadedTo(cols: seq<DimensionFileColumn>, texts: seq<string>, n: nat, row: seq<Option<Cell>>)
    requires n <= |texts|
  {
    && |row| == |cols| % 256
    && (|cols| < 256 ==> forall p | 0 <= p < |cols| :: row[p] == Loaded(cols, texts, n, p))
  }

  /** Stores one text at its column number's place. */
  method StoreText(cols: seq<DimensionFileColumn>, idx: nat, text: string, row: seq<Option<Cell>>)
    returns (ok: bool, stored: seq<Option<Cell>>)
    requires |row| == |cols| % 256
    ensures ok <==> HasCell(cols, idx)
    ensures ok ==> stored == WithText(cols, idx, text, row)
  {
    var pos := FindColumn(cols, idx);
    ok, stored := true, row;
    if pos < |cols| && cols[pos].kind != NotLoaded {
      if pos >= |row| {
        return false, row;
      }
      stored := row[pos := Some(Cell(cols[pos].kind, text))];
    }
  }

  function WithText(cols: seq<DimensionFileColumn>, idx: nat, text: string, row: seq<Option<Cell>>)
    : (r: seq<Option<Cell>>)
    requires |row| == |cols| % 256 && HasCell(cols, idx)
    ensures |r| == |row|
  {
    var pos := Position(cols, idx);
    if pos < |cols| && cols[pos].kind != NotLoaded then row[pos := Some(Cell(cols[pos].kind, text))] else row
  }

  lemma {:induction false} NextText(cols: seq<DimensionFileColumn>, texts: seq<string>, n: nat, idx: nat,
                                    row: seq<Option<Cell>>)
    requires NoRepeat(cols) && n < |texts| && idx == (n + 1) % 256
    requires LoadedTo(cols, texts, n, row) && HasCell(cols, idx)
    ensures LoadedTo(cols, texts, n + 1, WithText(cols, idx, texts[n], row))
  {
    if |cols| < 256 {
      forall p | 0 <= p < |cols|
        ensures WithText(cols, idx, texts[n], row)[p] == Loaded(cols, texts, n + 1, p)
      {
        NextCell(cols, texts, n, idx, row, p);
      }
    }
  }

  lemma {:induction false} NextCell(cols: seq<DimensionFileColumn>, texts: seq<string>, n: nat, idx: nat,
                                    row: seq<Option<Cell>>, p: nat)
    requires NoRepeat(cols) && |row| == |cols| < 256 && n < |texts| && idx == (n + 1) % 256
    requires HasCell(cols, idx) && p < |cols| && row[p] == Loaded(cols, texts, n, p)
    ensures WithText(cols, idx, texts[n], row)[p] == Loaded(cols, texts, n + 1, p)
  {
    var own := cols[p].colidx;
    LastCountedWithin(n, own);
    LastCountedWithin(n + 1, own);
    assert LastCounted(n + 1, own) == if idx == own then Some(n + 1) else LastCounted(n, own);
    if own == idx {
      assert Position(cols, idx) == p;
    } else {
      assert Position(cols, idx) != p;
    }
  }

  /** The first text that is counted as number idx: its own, and for number 0 the 256th. */
  function OwnText(idx: nat): nat {
    if idx == 0 then 256 else idx
  }

  /** Which text a column number gets: none in a row too short for it, its own in a row of fewer than 256
      texts more, and beyond that the last text a multiple of 256 further on. */
  lemma {:induction false} LastCountedIs(n: nat, idx: nat)
    requires idx < 256
    ensures var own := OwnText(idx);
            && LastCounted(n, idx) == (if n < own then None else Some(n - (n - own) % 256))
            && (LastCounted(n, idx) == Some(own) <==> own <= n < own + 256)
    decreases n
  {
    if n != 0 {
      LastCountedIs(n - 1, idx);
      if n >= OwnText(idx) {
        CountedAt(n, idx);
      }
    }
  }

  lemma {:induction false} CountedAt(n: nat, idx: nat)
    requires idx < 256 && n >= OwnText(idx)
    ensures var d := n - OwnText(idx);
            && (n % 256 == idx <==> d % 256 == 0)
            && (d % 256 != 0 ==> d >= 1 && d % 256 == (d - 1) % 256 + 1)
            && (d < 256 ==> d % 256 == d)
  {
  }

  /**
   Main result: after any registrations and for rows of any length, reading a loaded row at a registered
   column's mapping index gives the text that its own column number is counted for: nothing if the row is
   shorter, the text at that number exactly if fewer than 256 texts follow it, and else a later one.
   */
  lemma {:induction false} LookupReturnsOwnColumn(index: DimensionIndex, c: DimensionFileColumn,
                                                  texts: seq<string>, row: seq<Option<Cell>>)
    requires index.Valid() && c in index.registered
    requires var cols := ColumnsOf(index.info, c.file);
             && |cols| < 256 && |row| == |cols|
             && forall p | 0 <= p < |cols| :: row[p] == Loaded(cols, texts, |texts|, p)
    ensures 0 <= c.mappingidx - 1 < |row|
    ensures var kind, n, own := ColumnsOf(index.info, c.file)[c.mappingidx - 1].kind, |texts|, OwnText(c.colidx);
            row[c.mappingidx - 1] ==
            if n < own || kind == NotLoaded then None
            else if n < own + 256 then Some(Cell(kind, texts[own - 1]))
            else Some(Cell(kind, texts[n - (n - own) % 256 - 1]))
    ensures var n, own := |texts|, OwnText(c.colidx);
            LastCounted(n, c.colidx) == Some(own) <==> own <= n < own + 256
  {
    assert Mapped(index.info, c);
    index.ReadsOwnPlaceIffBelow256(c);
    LastCountedIs(|texts|, c.colidx);
  }
}
