/**
 Filling a table's buffer from a seed file: in chunks of the whole seed, or with its first row only. Rows
 are the buffer's units; a row is the bytes of one table entry.
 */
module SeedTiling {
  import opened Arithmetic
  import opened ByteText
  import opened Options

  type Row = seq<Byte>

  /** The read-line-or-whole attribute's text. */
  datatype Mode = FirstRow | Whole | Unknown

  /** n rows of the seed, over and over. */
  function Tiled(body: seq<Row>, seedRows: nat, n: nat): (rows: seq<Row>)
    requires 1 <= seedRows <= |body|
    ensures |rows| == n
  {
    seq(n, i requires 0 <= i < n => body[i % seedRows])
  }

  /** What the table holds after filling n rows. */
  function SeedRows(body: seq<Row>, seedRows: nat, mode: Option<Mode>, n: nat, blank: Row): (rows: seq<Row>)
    requires 1 <= seedRows <= |body|
    ensures |rows| == n
  {
    match mode
    case Some(Whole) => Tiled(body, seedRows, n)
    case Some(FirstRow) => seq(n, _ => body[0])
    case _ => seq(n, _ => blank)
  }

  class SeededTable {
    const rowNum: nat
    const entrySize: nat
    const body: seq<Row>
    const data: array<Row>
    var numEntries: nat
    var seedFileNum: nat

    /** The seed rows are in the seed file. */
    ghost predicate Valid()
      reads this
    {
      data.Length == rowNum && numEntries <= |body| && (seedFileNum == 0 || seedFileNum == numEntries)
    }

    /** The buffer has room for the seed, or nothing is copied. */
    ghost predicate SeedFits()
      reads this
    {
      rowNum == 0 || seedFileNum <= rowNum
    }

    constructor (rowNum: nat, entrySize: nat, body: seq<Row>)
      ensures Valid() && fresh(data) && this.rowNum == rowNum && this.entrySize == entrySize && this.body == body
      ensures numEntries == |body| && seedFileNum == 0 && SeedFits()
    {
      this.rowNum, this.entrySize, this.body := rowNum, entrySize, body;
      data := new Row[rowNum](_ => []);
      numEntries, seedFileNum := |body|, 0;
    }

    /** Limits the seed to the configured row number, so that it fits if that is the table's own. */
    method SetAlignSeedFileNum(configured: Option<nat>)
      requires Valid()
      modifies this`numEntries, this`seedFileNum
      ensures Valid()
      ensures configured.Some? ==> seedFileNum == numEntries == Least(old(numEntries), configured.value)
      ensures configured.None? ==> seedFileNum == old(seedFileNum) && numEntries == old(numEntries)
      ensures configured == Some(rowNum) ==> SeedFits()
    {
      if configured.Some? {
        if numEntries > configured.value {
          numEntries := configured.value;
        }
        seedFileNum := numEntries;
      }
    }

    /** Copies `count` rows from the seed's start into the buffer, which must have room for them. */
    method CopyRows(at: nat, count: nat)
      requires count <= |body| && at + count <= data.Length
      modifies data
      ensures data[..] == old(data[..at]) + body[..count] + old(data[at + count..])
    {
      for i := 0 to count
        invariant forall k | 0 <= k < data.Length ::
                    data[k] == if at <= k < at + i then body[k - at] else old(data[k])
      {
        data[at + i] := body[i];
      }
    }

    /** The whole seed, chunk after chunk, until the table is full; false if the first chunk, which is not cut,
        would not fit. */
    method CopyChunks(seedRows: nat) returns (ok: bool)
      requires 1 <= seedRows <= |body| && rowNum == data.Length
      modifies data
      ensures ok <==> rowNum == 0 || seedRows <= rowNum
      ensures ok ==> data[..] == Tiled(body, seedRows, rowNum)
    {
      if 0 < rowNum < seedRows {
        return false;
      }
      ok := true;
      var rowsCopied, chunk := 0, seedRows;
      ghost var chunks := 0;
      while rowsCopied < rowNum
        invariant rowsCopied <= rowNum && (rowsCopied < rowNum ==> chunk == Least(rowNum - rowsCopied, seedRows))
        invariant rowsCopied == rowNum || rowsCopied == seedRows * chunks
        invariant data[..rowsCopied] == Tiled(body, seedRows, rowsCopied)
      {
        ghost var before := data[..rowsCopied];
        CopyRows(rowsCopied, chunk);
        assert data[..rowsCopied + chunk] == before + body[..chunk];
        ChunkContinues(body, seedRows, chunks, chunk);
        rowsCopied := rowsCopied + chunk;
        chunks := chunks + 1;
        chunk := rowNum - rowsCopied;
        if chunk > seedRows {
          chunk := seedRows;
        }
      }
      assert data[..rowsCopied] == data[..];
    }

    method CopyFirstRow()
      requires |body| >= 1 && rowNum == data.Length
      modifies data
      ensures data[..] == SeedRows(body, 1, Some(FirstRow), rowNum, [])
    {
      for r := 0 to rowNum
        invariant forall k | 0 <= k < r :: data[k] == body[0]
      {
        ghost var was := data[..];
        CopyRows(r, 1);
        assert data[..] == was[..r] + body[..1] + was[r + 1..];
      }
    }

    /** Fills the table; false if a chunk would be copied past the buffer. */
    method FillAllTheTableData(mode: Option<Mode>) returns (ok: bool)
      requires Valid()
      modifies data
      ensures ok <==> seedFileNum == 0 || mode != Some(Whole) || SeedFits()
      ensures ok ==> data[..] == if seedFileNum == 0 then old(data[..])
                                 else SeedRows(body, seedFileNum, mode, rowNum, Zeros(entrySize))
    {
      ok := true;
      if seedFileNum != 0 {
        var rowNumber := seedFileNum;
        if seedFileNum > numEntries {
          rowNumber := numEntries;
        }
        for r := 0 to rowNum
          invariant forall k | 0 <= k < r :: data[k] == Zeros(entrySize)
        {
          data[r] := Zeros(entrySize);
        }
        if mode == Some(FirstRow) {
          CopyFirstRow();
        } else if mode == Some(Whole) {
          ok := CopyChunks(rowNumber);
        }
      }
    }
  }

  function Least(a: nat, b: nat): nat {
    if a <= b then a else b
  }

  /** A chunk copied behind whole chunks continues the tiling. */
  lemma {:induction false} ChunkContinues(body: seq<Row>, seedRows: nat, chunks: nat, count: nat)
    requires 1 <= seedRows <= |body| && count <= seedRows
    ensures seedRows * (chunks + 1) == seedRows * chunks + seedRows
    ensures Tiled(body, seedRows, seedRows * chunks + count) ==
            Tiled(body, seedRows, seedRows * chunks) + body[..count]
  {
    var done := seedRows * chunks;
    var all := Tiled(body, seedRows, done + count);
    forall k | done <= k < done + count
      ensures all[k] == body[k - done]
    {
      DivModUnique(k, seedRows, chunks, k - done);
    }
    assert all[..done] == Tiled(body, seedRows, done);
    assert all == all[..done] + all[done..];
    assert all[done..] == body[..count];
  }

  /** The first-row mode is the whole-seed mode of a seed of one row, and any other text leaves the rows blank. */
  lemma {:induction false} ModesCompare(body: seq<Row>, seedRows: nat, mode: Option<Mode>, n: nat, blank: Row)
    requires 1 <= seedRows <= |body|
    ensures SeedRows(body, seedRows, Some(FirstRow), n, blank) == SeedRows(body, 1, Some(Whole), n, blank)
    ensures mode != Some(FirstRow) && mode != Some(Whole) ==>
              forall i | 0 <= i < n :: SeedRows(body, seedRows, mode, n, blank)[i] == blank
  {
    forall i | 0 <= i < n
      ensures Tiled(body, 1, n)[i] == body[0]
    {
      DivModUnique(i, 1, i, 0);
    }
  }

  /** The tiling starts with the seed and repeats with the seed's length. */
  lemma {:induction false} TilingRepeats(body: seq<Row>, seedRows: nat, n: nat, i: nat)
    requires 1 <= seedRows <= |body| && i < n
    ensures Tiled(body, seedRows, n)[i] == if i < seedRows then body[i] else Tiled(body, seedRows, n)[i - seedRows]
  {
    if i < seedRows {
      DivModUnique(i, seedRows, 0, i);
    } else {
      ModShift(i - seedRows, seedRows, 1);
    }
  }
}
