/** Whole files of the example format: rows written one line each, and the seed file reader. */
module ExampleFile {
  import opened ByteText
  import opened Options
  import opened RecordLayout
  import opened ExampleCodec

  /** The encoder returns its length in 16 bits, and that many bytes are written. */
  const TWO_16: nat := 0x1_0000

  // ----------------------------------------------------------------- reading

  /** The lines the reading loop parses: it stops at the first empty one. */
  function Lines(file: seq<Byte>): seq<seq<Byte>>
    decreases |file|
  {
    var n := Find(file, NEWLINE, 0);
    if n == 0 then []
    else if n == |file| then [file]
    else [file[..n]] + Lines(file[n + 1..])
  }

  /** The line count of the same file, empty lines included. */
  function CountLines(file: seq<Byte>): nat
    decreases |file|
  {
    var n := Find(file, NEWLINE, 0);
    if n == |file| then (if file == [] then 0 else 1) else 1 + CountLines(file[n + 1..])
  }

  function EnterLines(types: seq<AutoType>, lines: seq<seq<Byte>>): Entry
    decreases |lines|
  {
    if lines == [] then Entered([], 0)
    else
      match EnterAll(types, lines[0], 0)
      case Entered(bytes, _) => Prefixed(bytes, EnterLines(types, lines[1..]))
      case other => other
  }

  /** The reader's result: the rows' memory, a line count that differs from the one announced, or an
      error inside a line. */
  datatype Load = Loaded(data: seq<Byte>) | WrongCount | Failed(e: Entry)

  function ReadFile(types: seq<AutoType>, file: seq<Byte>): Load {
    var e := EnterLines(types, Lines(file));
    if !e.Entered? then Failed(e)
    else if |Lines(file)| != CountLines(file) then WrongCount
    else Loaded(e.bytes)
  }

  lemma {:induction false} FewerLines(file: seq<Byte>)
    ensures |Lines(file)| <= CountLines(file)
    decreases |file|
  {
    var n := Find(file, NEWLINE, 0);
    if 0 < n < |file| {
      FewerLines(file[n + 1..]);
    }
  }

  lemma {:induction false} NextRow(done: seq<Byte>, row: seq<Byte>, n: nat)
    requires |done| + |row| <= n
    ensures Overlaid(done + Zeros(n - |done|), |done|, row) == (done + row) + Zeros(n - |done| - |row|)
  {
  }

  /** total_size: the bytes of that many rows. */
  function RowBytes(rows: nat, entrySize: nat): nat {
    if rows == 0 then 0 else entrySize + RowBytes(rows - 1, entrySize)
  }

  /** What follows the first line of a file. */
  function AfterLine(file: seq<Byte>): seq<Byte> {
    var n := Find(file, NEWLINE, 0);
    if n < |file| then file[n + 1..] else []
  }

  /** i lines are entered as `done`, and `rest` is what is left to read. */
  ghost predicate ReadSoFar(types: seq<AutoType>, file: seq<Byte>, rest: seq<Byte>, i: nat, done: seq<Byte>) {
    && i + |Lines(rest)| == |Lines(file)|
    && EnterLines(types, Lines(file)) == Prefixed(done, EnterLines(types, Lines(rest)))
  }

  /** The memory left is that of the counted lines not yet entered. */
  ghost predicate Accounted(types: seq<AutoType>, file: seq<Byte>, i: nat, done: seq<Byte>, size: nat) {
    i <= CountLines(file) && |done| + RowBytes(CountLines(file) - i, AdvanceAll(types)) == size
  }

  lemma {:induction false} ReadStep(types: seq<AutoType>, file: seq<Byte>, rest: seq<Byte>, i: nat,
                                    done: seq<Byte>, size: nat)
    requires ReadSoFar(types, file, rest, i, done) && Find(rest, NEWLINE, 0) > 0
    requires Accounted(types, file, i, done, size)
    ensures |AfterLine(rest)| < |rest| && |done| + AdvanceAll(types) <= size
    ensures match EnterAll(types, rest[..Find(rest, NEWLINE, 0)], 0)
            case Entered(bytes, _) =>
              && ReadSoFar(types, file, AfterLine(rest), i + 1, done + bytes)
              && Accounted(types, file, i + 1, done + bytes, size)
            case other => ReadFile(types, file) == Failed(other)
  {
    EnteredLength(types, rest[..Find(rest, NEWLINE, 0)], 0);
    var lines := Lines(rest);
    assert lines[0] == rest[..Find(rest, NEWLINE, 0)] && lines[1..] == Lines(AfterLine(rest));
    FewerLines(file);
    match EnterAll(types, lines[0], 0)
    case Entered(bytes, _) => PrefixedTwice(done, bytes, EnterLines(types, lines[1..]));
    case _ =>
  }

  lemma {:induction false} ReadStarts(types: seq<AutoType>, file: seq<Byte>)
    ensures ReadSoFar(types, file, file, 0, [])
  {
    var e := EnterLines(types, Lines(file));
    assert e.Entered? ==> [] + e.bytes == e.bytes;
  }

  lemma {:induction false} ReadEnds(types: seq<AutoType>, file: seq<Byte>, rest: seq<Byte>, i: nat, done: seq<Byte>)
    requires ReadSoFar(types, file, rest, i, done) && Find(rest, NEWLINE, 0) == 0
    ensures ReadFile(types, file) == if i != CountLines(file) then WrongCount else Loaded(done)
  {
    assert done + [] == done;
  }

  /** The memory holds the rows read so far and zeros behind them. */
  ghost predicate Filled(data: array<Byte>, done: seq<Byte>)
    reads data
  {
    |done| <= data.Length && data[..] == done + Zeros(data.Length - |done|)
  }

  /** Enters one line behind the rows already read. */
  method EnterRow(types: seq<AutoType>, line: seq<Byte>, data: array<Byte>, pos: nat, ghost done: seq<Byte>)
    returns (e: Entry)
    requires |done| == pos && pos + AdvanceAll(types) <= data.Length
    requires Filled(data, done)
    modifies data
    ensures e == EnterAll(types, line, 0)
    ensures e.Entered? ==> |e.bytes| == AdvanceAll(types)
    ensures e.Entered? ==> Filled(data, done + e.bytes)
  {
    e := ParseOneLine(types, line, data, pos);
    if e.Entered? {
      NextRow(done, e.bytes, data.Length);
    }
  }

  /** The reading loop, up to the first empty line or the end of the file: the error of the line that
      stopped it, or the number of lines entered. */
  method ReadLines(types: seq<AutoType>, file: seq<Byte>, data: array<Byte>)
    returns (err: Option<Entry>, i: nat, ghost done: seq<Byte>)
    requires data.Length == RowBytes(CountLines(file), AdvanceAll(types)) && Filled(data, [])
    modifies data
    ensures err.Some? ==> ReadFile(types, file) == Failed(err.value)
    ensures err.None? ==> Filled(data, done) && Accounted(types, file, i, done, data.Length)
    ensures err.None? ==> ReadFile(types, file) == if i != CountLines(file) then WrongCount else Loaded(done)
  {
    var rest, pos := file, 0;
    i, done := 0, [];
    ReadStarts(types, file);
    while Find(rest, NEWLINE, 0) > 0
      invariant ReadSoFar(types, file, rest, i, done)
      invariant pos == |done| && Accounted(types, file, i, done, data.Length)
      invariant Filled(data, done)
      decreases |rest|
    {
      ReadStep(types, file, rest, i, done, data.Length);
      var e := EnterRow(types, rest[..Find(rest, NEWLINE, 0)], data, pos, done);
      if !e.Entered? {
        return Some(e), i, done;
      }
      rest, pos, i, done := AfterLine(rest), pos + |e.bytes|, i + 1, done + e.bytes;
    }
    ReadEnds(types, file, rest, i, done);
    err := None;
  }

  /** The seed reader: zeroed memory for every counted line, then the lines entered one row after another. */
  method ReadData(types: seq<AutoType>, file: seq<Byte>) returns (r: Load, data: array<Byte>)
    ensures r == ReadFile(types, file)
    ensures r.Loaded? ==> data[..] == r.data
  {
    var numEntries := CountLines(file);
    data := new Byte[RowBytes(numEntries, AdvanceAll(types))](_ => NUL);
    assert data[..] == [] + Zeros(data.Length);
    var err, i, done := ReadLines(types, file, data);
    if err.Some? {
      return Failed(err.value), data;
    }
    if i != numEntries {
      return WrongCount, data;
    }
    assert data[..] == done;
    r := Loaded(data[..]);
  }

  // ----------------------------------------------------------------- writing, and there and back

  /** The bytes a row adds to the output file: its text, cut to the length's low 16 bits. */
  function WrittenRow(types: seq<AutoType>, row: seq<Byte>): seq<Byte>
    requires types != [] && |row| == AdvanceAll(types)
  {
    var text := LineOf(types, row) + [NEWLINE];
    text[..|text| % TWO_16]
  }

  ghost predicate RowsOf(types: seq<AutoType>, rows: seq<seq<Byte>>) {
    forall i | 0 <= i < |rows| :: |rows[i]| == AdvanceAll(types)
  }

  function WrittenFile(types: seq<AutoType>, rows: seq<seq<Byte>>): seq<Byte>
    requires types != [] && RowsOf(types, rows)
  {
    if rows == [] then [] else WrittenRow(types, rows[0]) + WrittenFile(types, rows[1..])
  }

  function Memory(rows: seq<seq<Byte>>): seq<Byte> {
    if rows == [] then [] else rows[0] + Memory(rows[1..])
  }

  lemma {:induction false} RowAppended(types: seq<AutoType>, rows: seq<seq<Byte>>, row: seq<Byte>)
    requires types != [] && RowsOf(types, rows) && |row| == AdvanceAll(types)
    ensures WrittenFile(types, rows + [row]) == WrittenFile(types, rows) + WrittenRow(types, row)
    decreases |rows|
  {
    if rows == [] {
      assert rows + [row] == [row];
      assert [row][1..] == [];
    } else {
      assert (rows + [row])[1..] == rows[1..] + [row];
      RowAppended(types, rows[1..], row);
    }
  }

  /** A row with no text at all is an exception. */
  predicate Prints(fields: seq<Field>, row: seq<Byte>)
    requires FieldsFit(fields, |row|)
  {
    RowText(fields, row).Some?
  }

  /** The bytes that printing a row adds to the file. */
  function PrintedRow(fields: seq<Field>, row: seq<Byte>): seq<Byte>
    requires FieldsFit(fields, |row|)
  {
    if Prints(fields, row) then
      var text := RowText(fields, row).value;
      text[..|text| % TWO_16]
    else []
  }

  ghost predicate RowsFit(fields: seq<Field>, rows: seq<seq<Byte>>) {
    forall i | 0 <= i < |rows| :: FieldsFit(fields, |rows[i]|)
  }

  function PrintedFile(fields: seq<Field>, rows: seq<seq<Byte>>): seq<Byte>
    requires RowsFit(fields, rows)
  {
    if rows == [] then []
    else PrintedFile(fields, rows[..|rows| - 1]) + PrintedRow(fields, rows[|rows| - 1])
  }

  predicate AllPrint(fields: seq<Field>, rows: seq<seq<Byte>>)
    requires RowsFit(fields, rows)
  {
    rows == [] || (AllPrint(fields, rows[..|rows| - 1]) && Prints(fields, rows[|rows| - 1]))
  }

  /** One row of the table's memory, printed. */
  method WriteRow(fields: seq<Field>, table: array<Byte>, pos: nat, entrySize: nat)
    returns (ok: bool, bytes: seq<Byte>)
    requires FieldsFit(fields, entrySize) && pos + entrySize <= table.Length
    ensures var row := table[pos..pos + entrySize]; ok == Prints(fields, row) && bytes == PrintedRow(fields, row)
  {
    var row := new Byte[entrySize](i requires 0 <= i < entrySize reads table => table[pos + i]);
    assert row[..] == table[pos..pos + entrySize];
    var text := EncodeData(row, fields);
    if text.None? {
      return false, [];
    }
    ok, bytes := true, text.value[..|text.value| % TWO_16];
  }

  /** A table's memory cut into its rows. */
  function CutRows(t: seq<Byte>, rowNum: nat, entrySize: nat): (rows: seq<seq<Byte>>)
    requires |t| == RowBytes(rowNum, entrySize)
    ensures |rows| == rowNum && forall i | 0 <= i < rowNum :: |rows[i]| == entrySize
    decreases rowNum
  {
    if rowNum == 0 then []
    else CutRows(t[..|t| - entrySize], rowNum - 1, entrySize) + [t[|t| - entrySize..]]
  }

  lemma {:induction false} MemoryAppended(rows: seq<seq<Byte>>, row: seq<Byte>)
    ensures Memory(rows + [row]) == Memory(rows) + row
    decreases |rows|
  {
    if rows == [] {
      assert rows + [row] == [row];
      assert [row][1..] == [];
    } else {
      assert (rows + [row])[1..] == rows[1..] + [row];
      MemoryAppended(rows[1..], row);
    }
  }

  lemma {:induction false} CutsRejoin(t: seq<Byte>, rowNum: nat, entrySize: nat)
    requires |t| == RowBytes(rowNum, entrySize)
    ensures Memory(CutRows(t, rowNum, entrySize)) == t
    decreases rowNum
  {
    if rowNum != 0 {
      var before, last := t[..|t| - entrySize], t[|t| - entrySize..];
      CutsRejoin(before, rowNum - 1, entrySize);
      MemoryAppended(CutRows(before, rowNum - 1, entrySize), last);
      assert t == before + last;
    }
  }

  lemma {:induction false} RoomForRow(i: nat, rowNum: nat, entrySize: nat)
    requires i < rowNum
    ensures RowBytes(i, entrySize) + entrySize == RowBytes(i + 1, entrySize) <= RowBytes(rowNum, entrySize)
    decreases rowNum
  {
    if i + 1 < rowNum {
      RoomForRow(i, rowNum - 1, entrySize);
    }
  }

  /** Row i of a table's memory. */
  lemma {:induction false} CutAt(t: seq<Byte>, rowNum: nat, entrySize: nat, i: nat)
    requires |t| == RowBytes(rowNum, entrySize) && i < rowNum
    ensures RowBytes(i, entrySize) + entrySize == RowBytes(i + 1, entrySize) <= |t|
    ensures CutRows(t, rowNum, entrySize)[i] == t[RowBytes(i, entrySize)..RowBytes(i, entrySize) + entrySize]
    decreases rowNum
  {
    RoomForRow(i, rowNum, entrySize);
    if i + 1 < rowNum {
      CutAt(t[..|t| - entrySize], rowNum - 1, entrySize, i);
    }
  }

  lemma {:induction false} PrintedNext(fields: seq<Field>, rows: seq<seq<Byte>>, i: nat)
    requires RowsFit(fields, rows) && i < |rows|
    ensures PrintedFile(fields, rows[..i + 1]) == PrintedFile(fields, rows[..i]) + PrintedRow(fields, rows[i])
    ensures AllPrint(fields, rows[..i + 1]) <==> AllPrint(fields, rows[..i]) && Prints(fields, rows[i])
  {
    assert rows[..i + 1][..i] == rows[..i];
  }

  lemma {:induction false} FirstRowsPrint(fields: seq<Field>, rows: seq<seq<Byte>>, i: nat)
    requires RowsFit(fields, rows) && i <= |rows| && AllPrint(fields, rows)
    ensures AllPrint(fields, rows[..i])
    decreases |rows|
  {
    if i == |rows| {
      assert rows[..i] == rows;
    } else {
      FirstRowsPrint(fields, rows[..|rows| - 1], i);
      assert rows[..|rows| - 1][..i] == rows[..i];
    }
  }

  /** Row i stands at position `pos` of the table's memory. */
  ghost predicate RowAt(t: seq<Byte>, rows: seq<seq<Byte>>, entrySize: nat, i: nat, pos: nat) {
    i < |rows| && pos + entrySize <= |t| && t[pos..pos + entrySize] == rows[i]
  }

  /** Prints row i behind the rows before it. */
  method AppendRow(fields: seq<Field>, table: array<Byte>, pos: nat, entrySize: nat, file: seq<Byte>,
                   ghost rows: seq<seq<Byte>>, ghost i: nat)
    returns (ok: bool, longer: seq<Byte>)
    requires FieldsFit(fields, entrySize) && RowsFit(fields, rows) && RowAt(table[..], rows, entrySize, i, pos)
    requires file == PrintedFile(fields, rows[..i])
    ensures ok == Prints(fields, rows[i])
    ensures ok ==> longer == PrintedFile(fields, rows[..i + 1])
  {
    PrintedNext(fields, rows, i);
    assert table[pos..pos + entrySize] == rows[i];
    var bytes;
    ok, bytes := WriteRow(fields, table, pos, entrySize);
    longer := file + bytes;
  }

  lemma {:induction false} AllPrintStep(fields: seq<Field>, rows: seq<seq<Byte>>, i: nat)
    requires RowsFit(fields, rows) && i < |rows| && AllPrint(fields, rows[..i])
    ensures Prints(fields, rows[i]) ==> AllPrint(fields, rows[..i + 1])
    ensures !Prints(fields, rows[i]) ==> !AllPrint(fields, rows)
  {
    assert rows[..i + 1][..i] == rows[..i];
    if AllPrint(fields, rows) {
      FirstRowsPrint(fields, rows, i + 1);
    }
  }

  /** Prints all rows of a table's memory, each `entrySize` bytes behind the one before. */
  method PrintRows(fields: seq<Field>, table: array<Byte>, rowNum: nat, entrySize: nat, ghost rows: seq<seq<Byte>>)
    returns (ok: bool, file: seq<Byte>)
    requires FieldsFit(fields, entrySize) && RowsFit(fields, rows) && |rows| == rowNum
    requires forall i: nat | i < rowNum :: RowAt(table[..], rows, entrySize, i, RowBytes(i, entrySize))
    ensures ok <==> AllPrint(fields, rows)
    ensures ok ==> file == PrintedFile(fields, rows)
  {
    var pos: nat := 0;
    file := [];
    for i := 0 to rowNum
      invariant pos == RowBytes(i, entrySize)
      invariant file == PrintedFile(fields, rows[..i]) && AllPrint(fields, rows[..i])
    {
      assert RowAt(table[..], rows, entrySize, i, pos);
      AllPrintStep(fields, rows, i);
      ok, file := AppendRow(fields, table, pos, entrySize, file, rows, i);
      if !ok {
        return;
      }
      RoomForRow(i, i + 1, entrySize);
      pos := pos + entrySize;
    }
    assert rows[..rowNum] == rows;
    ok := true;
  }

  /** Production of a table's file from the table's memory, row after row, whatever its columns; a row
      without text stops it. */
  method TableGeneratedData(fields: seq<Field>, table: array<Byte>, rowNum: nat, entrySize: nat)
    returns (ok: bool, file: seq<Byte>)
    requires FieldsFit(fields, entrySize) && table.Length == RowBytes(rowNum, entrySize)
    ensures var rows := CutRows(table[..], rowNum, entrySize);
            && (ok <==> AllPrint(fields, rows))
            && (ok ==> file == PrintedFile(fields, rows))
  {
    ghost var t := table[..];
    ghost var rows := CutRows(t, rowNum, entrySize);
    forall i: nat | i < rowNum
      ensures RowAt(t, rows, entrySize, i, RowBytes(i, entrySize))
    {
      CutAt(t, rowNum, entrySize, i);
    }
    ok, file := PrintRows(fields, table, rowNum, entrySize, rows);
  }

  lemma {:induction false} PrintedRowIsWritten(types: seq<AutoType>, fields: seq<Field>, row: seq<Byte>)
    requires fields != [] && Sequential(fields, 0) && types == TypesOf(fields) && Supported(types)
    requires |row| == AdvanceAll(types)
    ensures FieldsFit(fields, |row|) && Prints(fields, row) && PrintedRow(fields, row) == WrittenRow(types, row)
  {
    SequentialFits(fields, 0);
    RowTextIsLine(fields, row);
  }

  /** For sequential columns of the entered types the printed file is the rows' lines. */
  lemma {:induction false} PrintedIsWritten(types: seq<AutoType>, fields: seq<Field>, rows: seq<seq<Byte>>)
    requires fields != [] && Sequential(fields, 0) && types == TypesOf(fields) && Supported(types)
    requires RowsOf(types, rows)
    ensures RowsFit(fields, rows) && PrintedFile(fields, rows) == WrittenFile(types, rows)
    ensures AllPrint(fields, rows)
    decreases |rows|
  {
    SequentialFits(fields, 0);
    if rows != [] {
      var before, last := rows[..|rows| - 1], rows[|rows| - 1];
      assert rows == before + [last];
      RowAppended(types, before, last);
      PrintedIsWritten(types, fields, before);
      PrintedRowIsWritten(types, fields, last);
    }
  }

  /** Rows that print whole and on one line each: the printed length fits 16 bits and no string holds a
      newline. */
  ghost predicate Printable(types: seq<AutoType>, row: seq<Byte>)
    requires types != [] && |row| == AdvanceAll(types)
  {
    |LineOf(types, row)| + 1 < 0x1_0000 && NEWLINE !in LineOf(types, row)
  }

  lemma {:induction false} WrittenLine(types: seq<AutoType>, rows: seq<seq<Byte>>)
    requires types != [] && RowsOf(types, rows) && rows != [] && Printable(types, rows[0])
    ensures var line, file := LineOf(types, rows[0]), WrittenFile(types, rows);
            && Find(file, NEWLINE, 0) == |line| < |file|
            && file[..|line|] == line && file[|line| + 1..] == WrittenFile(types, rows[1..])
  {
    var line, later := LineOf(types, rows[0]), WrittenFile(types, rows[1..]);
    var file := WrittenFile(types, rows);
    assert WrittenRow(types, rows[0]) == line + [NEWLINE];
    assert file == line + ([NEWLINE] + later);
    assert file[..|line|] == line && file[|line|..] == [NEWLINE] + later;
    assert forall i | 0 <= i < |line| :: file[i] == line[i];
    FindIs(file, NEWLINE, 0, |line|);
  }

  function RowLines(types: seq<AutoType>, rows: seq<seq<Byte>>): (lines: seq<seq<Byte>>)
    requires types != [] && RowsOf(types, rows)
    ensures |lines| == |rows|
  {
    seq(|rows|, i requires 0 <= i < |rows| => LineOf(types, rows[i]))
  }

  function UpToBlank(lines: seq<seq<Byte>>): seq<seq<Byte>> {
    if lines == [] || lines[0] == [] then [] else [lines[0]] + UpToBlank(lines[1..])
  }

  lemma {:induction false} NoBlankNoCut(lines: seq<seq<Byte>>)
    ensures |UpToBlank(lines)| == |lines| <==> [] !in lines
    ensures |UpToBlank(lines)| <= |lines|
    ensures [] !in lines ==> UpToBlank(lines) == lines
    decreases |lines|
  {
    if lines != [] {
      assert lines == [lines[0]] + lines[1..];
      NoBlankNoCut(lines[1..]);
    }
  }

  /** The reader counts every written row, and parses those before the first that prints as nothing. */
  lemma {:induction false} WrittenLines(types: seq<AutoType>, rows: seq<seq<Byte>>)
    requires types != [] && RowsOf(types, rows)
    requires forall i | 0 <= i < |rows| :: Printable(types, rows[i])
    ensures CountLines(WrittenFile(types, rows)) == |rows|
    ensures Lines(WrittenFile(types, rows)) == UpToBlank(RowLines(types, rows))
    decreases |rows|
  {
    if rows != [] {
      WrittenLine(types, rows);
      WrittenLines(types, rows[1..]);
      FirstOfLines(WrittenFile(types, rows), LineOf(types, rows[0]), WrittenFile(types, rows[1..]));
      RowLinesFront(types, rows);
      assert ([LineOf(types, rows[0])] + RowLines(types, rows[1..]))[1..] == RowLines(types, rows[1..]);
    }
  }

  lemma {:induction false} FirstOfLines(file: seq<Byte>, line: seq<Byte>, rest: seq<Byte>)
    requires Find(file, NEWLINE, 0) == |line| < |file| && file[..|line|] == line && file[|line| + 1..] == rest
    ensures Lines(file) == if line == [] then [] else [line] + Lines(rest)
    ensures CountLines(file) == 1 + CountLines(rest)
  {
  }

  lemma {:induction false} RowLinesFront(types: seq<AutoType>, rows: seq<seq<Byte>>)
    requires types != [] && RowsOf(types, rows) && rows != []
    ensures RowLines(types, rows) == [LineOf(types, rows[0])] + RowLines(types, rows[1..])
  {
  }

  lemma {:induction false} EnterFirst(types: seq<AutoType>, line: seq<Byte>, lines: seq<seq<Byte>>,
                                      row: seq<Byte>, memory: seq<Byte>)
    requires EntersAs(EnterAll(types, line, 0), row) && EntersAs(EnterLines(types, lines), memory)
    ensures EntersAs(EnterLines(types, [line] + lines), row + memory)
  {
    assert ([line] + lines)[1..] == lines;
  }

  lemma {:induction false} RowEnters(types: seq<AutoType>, row: seq<Byte>)
    requires types != [] && Supported(types) && |row| == AdvanceAll(types)
    ensures EntersAs(EnterAll(types, LineOf(types, row), 0), row) <==> Canonical(types, row)
  {
    var line := LineOf(types, row);
    assert line[0..] == line;
    LineThereAndBack(types, row, line, 0);
  }

  /** Rows all of whose fields are canonical parse back one by one. */
  lemma {:induction false} LinesEnterAsRows(types: seq<AutoType>, rows: seq<seq<Byte>>)
    requires types != [] && Supported(types) && RowsOf(types, rows)
    requires forall i | 0 <= i < |rows| :: Canonical(types, rows[i])
    ensures EntersAs(EnterLines(types, RowLines(types, rows)), Memory(rows))
    decreases |rows|
  {
    if rows != [] {
      RowEnters(types, rows[0]);
      LinesEnterAsRows(types, rows[1..]);
      RowLinesFront(types, rows);
      EnterFirst(types, LineOf(types, rows[0]), RowLines(types, rows[1..]), rows[0], Memory(rows[1..]));
    }
  }

  /**
   A whole table there and back. For rows that are canonical and print on one short line each, reading
   the written file gives the table's memory back exactly when no row prints as an empty line, which only
   a single empty string column does; otherwise the reader reports a wrong count.
   */
  lemma {:induction false} FileThereAndBack(types: seq<AutoType>, rows: seq<seq<Byte>>)
    requires types != [] && Supported(types) && RowsOf(types, rows)
    requires forall i | 0 <= i < |rows| :: Canonical(types, rows[i]) && Printable(types, rows[i])
    ensures ReadFile(types, WrittenFile(types, rows)) ==
            if [] !in RowLines(types, rows) then Loaded(Memory(rows)) else WrongCount
  {
    WrittenLines(types, rows);
    NoBlankNoCut(RowLines(types, rows));
    if [] !in RowLines(types, rows) {
      LinesEnterAsRows(types, rows);
    } else {
      PrefixEnters(types, rows);
    }
  }

  lemma {:induction false} PrefixEnters(types: seq<AutoType>, rows: seq<seq<Byte>>)
    requires types != [] && Supported(types) && RowsOf(types, rows)
    requires forall i | 0 <= i < |rows| :: Canonical(types, rows[i])
    ensures EnterLines(types, UpToBlank(RowLines(types, rows))).Entered?
    decreases |rows|
  {
    if rows != [] && LineOf(types, rows[0]) != [] {
      var line := LineOf(types, rows[0]);
      assert line[0..] == line;
      LineThereAndBack(types, rows[0], line, 0);
      PrefixEnters(types, rows[1..]);
      RowLinesFront(types, rows);
      BlankBehind(line, RowLines(types, rows[1..]));
      LineEntersFirst(types, line, UpToBlank(RowLines(types, rows[1..])));
    }
  }

  lemma {:induction false} BlankBehind(line: seq<Byte>, lines: seq<seq<Byte>>)
    requires line != []
    ensures UpToBlank([line] + lines) == [line] + UpToBlank(lines)
  {
    assert ([line] + lines)[1..] == lines;
  }

  lemma {:induction false} LineEntersFirst(types: seq<AutoType>, line: seq<Byte>, lines: seq<seq<Byte>>)
    requires EnterAll(types, line, 0).Entered? && EnterLines(types, lines).Entered?
    ensures EnterLines(types, [line] + lines).Entered?
  {
    assert ([line] + lines)[1..] == lines;
  }

  // ----------------------------------------------------------------- exactly which tables come back

  /** Strings without newlines and commas. */
  predicate Clean(types: seq<AutoType>, row: seq<Byte>)
    requires |row| == AdvanceAll(types)
    decreases |types|
  {
    types == [] ||
    var a := Advance(types[0]);
    && (IsText(types[0]) ==> NEWLINE !in CString(row[..a]) && COMMA !in CString(row[..a]))
    && Clean(types[1..], row[a..])
  }

  lemma {:induction false} FieldClean(typ: AutoType, line: seq<Byte>, m: nat)
    requires NEWLINE !in line && IsText(typ) && EnterField(typ, line, m).Entered?
    ensures var s := CString(EnterField(typ, line, m).bytes); NEWLINE !in s && COMMA !in s
  {
    var token := line[m..Find(line, COMMA, m)];
    var s := CString(token);
    var bytes := s + Zeros(STR_LEN - |s|);
    assert COMMA !in token && NEWLINE !in token;
    CStringIs(bytes, |s|);
  }

  lemma {:induction false} CStringIs(t: seq<Byte>, n: nat)
    requires n <= |t| && NUL !in t[..n] && (n < |t| ==> t[n] == NUL)
    ensures CString(t) == t[..n]
  {
    assert forall i | 0 <= i < n :: t[i] == t[..n][i];
    FindIs(t, NUL, 0, n);
  }

  /** Whatever a line without newlines enters is clean. */
  lemma {:induction false} EnteredIsClean(types: seq<AutoType>, line: seq<Byte>, m: nat)
    requires NEWLINE !in line && EnterAll(types, line, m).Entered?
    ensures |EnterAll(types, line, m).bytes| == AdvanceAll(types) && Clean(types, EnterAll(types, line, m).bytes)
    decreases |types|
  {
    EnteredLength(types, line, m);
    if types != [] {
      var f := EnterField(types[0], line, m);
      EnteredIsClean(types[1..], line, f.next);
      EnteredLength(types[1..], line, f.next);
      var rest := EnterAll(types[1..], line, f.next).bytes;
      assert (f.bytes + rest)[..|f.bytes|] == f.bytes && (f.bytes + rest)[|f.bytes|..] == rest;
      if IsText(types[0]) {
        FieldClean(types[0], line, m);
      }
    }
  }

  lemma {:induction false} ChunkTextClean(typ: AutoType, chunk: seq<Byte>)
    requires IsNumber(typ) || (IsText(typ) && NEWLINE !in CString(chunk) && COMMA !in CString(chunk))
    ensures NEWLINE !in ChunkText(typ, chunk) && COMMA !in ChunkText(typ, chunk)
  {
  }

  lemma {:induction false} CleanLine(types: seq<AutoType>, row: seq<Byte>)
    requires types != [] && Supported(types) && |row| == AdvanceAll(types) && Clean(types, row)
    ensures NEWLINE !in LineOf(types, row)
    decreases |types|
  {
    var a := Advance(types[0]);
    ChunkTextClean(types[0], row[..a]);
    if |types| > 1 {
      CleanLine(types[1..], row[a..]);
    }
  }

  lemma {:induction false} LinesHoldNoNewline(file: seq<Byte>)
    ensures forall i | 0 <= i < |Lines(file)| :: Lines(file)[i] != [] && NEWLINE !in Lines(file)[i]
    decreases |file|
  {
    var n := Find(file, NEWLINE, 0);
    if 0 < n < |file| {
      LinesHoldNoNewline(file[n + 1..]);
    }
  }

  lemma {:induction false} SomeBytes(types: seq<AutoType>)
    requires types != [] && Supported(types)
    ensures AdvanceAll(types) > 0
  {
  }

  /** Lines that enter as the memory of rows enter as the rows, one by one. */
  lemma {:induction false} LinesAreRows(types: seq<AutoType>, lines: seq<seq<Byte>>, rows: seq<seq<Byte>>)
    requires types != [] && Supported(types) && RowsOf(types, rows)
    requires EntersAs(EnterLines(types, lines), Memory(rows))
    ensures |lines| == |rows|
    ensures forall i | 0 <= i < |rows| :: EntersAs(EnterAll(types, lines[i], 0), rows[i])
    decreases |lines|
  {
    SomeBytes(types);
    if lines != [] {
      var first, rest := EnterAll(types, lines[0], 0).bytes, EnterLines(types, lines[1..]).bytes;
      EnteredLength(types, lines[0], 0);
      assert rows != [] && first + rest == rows[0] + Memory(rows[1..]);
      SplitEqual(first, rest, rows[0], Memory(rows[1..]));
      LinesAreRows(types, lines[1..], rows[1..]);
      forall i | 1 <= i < |rows|
        ensures EntersAs(EnterAll(types, lines[i], 0), rows[i])
      {
        assert lines[i] == lines[1..][i - 1] && rows[i] == rows[1..][i - 1];
      }
    }
  }

  /** Rows that print without a newline inside. */
  ghost predicate OneLiners(types: seq<AutoType>, rows: seq<seq<Byte>>)
    requires types != [] && RowsOf(types, rows)
  {
    forall i | 0 <= i < |rows| :: NEWLINE !in LineOf(types, rows[i])
  }

  ghost predicate PrintableUpTo(types: seq<AutoType>, rows: seq<seq<Byte>>, n: nat)
    requires types != [] && RowsOf(types, rows) && n <= |rows|
  {
    forall i | 0 <= i < n :: Printable(types, rows[i])
  }

  lemma {:induction false} CountFirst(p: seq<Byte>, rest: seq<Byte>)
    requires NEWLINE !in p
    ensures CountLines(p + [NEWLINE] + rest) == 1 + CountLines(rest)
    ensures CountLines(p) <= 1
  {
    var file := p + [NEWLINE] + rest;
    assert forall i | 0 <= i < |p| :: file[i] == p[i];
    FindIs(file, NEWLINE, 0, |p|);
    assert file[|p| + 1..] == rest;
    FindIs(p, NEWLINE, 0, |p|);
  }

  lemma {:induction false} CountWhole(p: seq<Byte>, line: seq<Byte>, later: seq<Byte>)
    requires NEWLINE !in p && NEWLINE !in line
    ensures CountLines(p + ((line + [NEWLINE]) + later)) == 1 + CountLines(later)
  {
    assert p + ((line + [NEWLINE]) + later) == (p + line) + [NEWLINE] + later;
    CountFirst(p + line, later);
  }

  /** A row cut to 16 bits has lost its newline. */
  lemma {:induction false} CutRowHasNoNewline(types: seq<AutoType>, row: seq<Byte>)
    requires types != [] && |row| == AdvanceAll(types) && NEWLINE !in LineOf(types, row)
    ensures Printable(types, row) ==> WrittenRow(types, row) == LineOf(types, row) + [NEWLINE]
    ensures !Printable(types, row) ==> NEWLINE !in WrittenRow(types, row)
  {
    var text := LineOf(types, row) + [NEWLINE];
    var bytes := WrittenRow(types, row);
    assert !Printable(types, row) ==> |bytes| < |text| && bytes == LineOf(types, row)[..|bytes|];
  }

  /** A row cut to 16 bits costs the count a line, unless it is the last. */
  lemma {:induction false} CutRowsLoseLines(types: seq<AutoType>, p: seq<Byte>, rows: seq<seq<Byte>>)
    requires types != [] && RowsOf(types, rows) && OneLiners(types, rows) && NEWLINE !in p && rows != []
    ensures CountLines(p + WrittenFile(types, rows)) <= |rows|
    ensures CountLines(p + WrittenFile(types, rows)) == |rows| ==> PrintableUpTo(types, rows, |rows| - 1)
    decreases |rows|
  {
    var bytes := WrittenRow(types, rows[0]);
    var rest, later := rows[1..], WrittenFile(types, rows[1..]);
    CutRowHasNoNewline(types, rows[0]);
    assert WrittenFile(types, rows) == bytes + later;
    if Printable(types, rows[0]) {
      CountWhole(p, LineOf(types, rows[0]), later);
      if rest != [] {
        CutRowsLoseLines(types, [], rest);
        assert [] + later == later;
        PrintableFront(types, rows);
      }
    } else {
      assert p + (bytes + later) == (p + bytes) + later;
      if rest == [] {
        assert (p + bytes) + later == p + bytes;
        CountFirst(p + bytes, []);
      } else {
        CutRowsLoseLines(types, p + bytes, rest);
      }
    }
  }

  lemma {:induction false} PrintableFront(types: seq<AutoType>, rows: seq<seq<Byte>>)
    requires types != [] && RowsOf(types, rows) && rows != [] && Printable(types, rows[0])
    ensures RowsOf(types, rows[1..])
    ensures PrintableUpTo(types, rows, |rows| - 1) <==>
            |rows| == 1 || PrintableUpTo(types, rows[1..], |rows| - 2)
  {
    var rest := rows[1..];
    assert forall i | 0 <= i < |rest| :: rest[i] == rows[i + 1];
    if |rows| > 1 && PrintableUpTo(types, rest, |rows| - 2) {
      forall i: nat | i < |rows| - 1
        ensures Printable(types, rows[i])
      {
        assert i > 0 ==> rows[i] == rest[i - 1];
      }
    }
  }

  /** The lines of a file whose first row prints whole and not as an empty line. */
  lemma {:induction false} FirstLine(types: seq<AutoType>, rows: seq<seq<Byte>>)
    requires types != [] && RowsOf(types, rows) && rows != [] && Printable(types, rows[0])
    requires Lines(WrittenFile(types, rows)) != []
    ensures Lines(WrittenFile(types, rows)) == [LineOf(types, rows[0])] + Lines(WrittenFile(types, rows[1..]))
  {
    WrittenLine(types, rows);
  }

  /** The lines of a file of one cut row. */
  lemma {:induction false} CutLine(types: seq<AutoType>, rows: seq<seq<Byte>>)
    requires types != [] && RowsOf(types, rows) && |rows| == 1 && OneLiners(types, rows)
    requires !Printable(types, rows[0]) && Lines(WrittenFile(types, rows)) != []
    ensures Lines(WrittenFile(types, rows)) == [WrittenRow(types, rows[0])]
  {
    assert WrittenFile(types, rows[1..]) == [];
    var bytes := WrittenRow(types, rows[0]);
    CutRowHasNoNewline(types, rows[0]);
    assert WrittenFile(types, rows) == bytes;
    FindIs(bytes, NEWLINE, 0, |bytes|);
  }

  /** The line a row is read from: its own, or what the 16-bit length has left of it. */
  function LineRead(types: seq<AutoType>, row: seq<Byte>): seq<Byte>
    requires types != [] && |row| == AdvanceAll(types)
  {
    if |LineOf(types, row)| + 1 < TWO_16 then LineOf(types, row) else WrittenRow(types, row)
  }

  /** With all rows but the last printable, and no line blank, the file's lines are the rows' lines; the
      last may be cut. */
  lemma {:induction false} LinesOfRows(types: seq<AutoType>, rows: seq<seq<Byte>>, i: nat)
    requires types != [] && RowsOf(types, rows) && i < |rows| && OneLiners(types, rows)
    requires PrintableUpTo(types, rows, |rows| - 1) && |Lines(WrittenFile(types, rows))| == |rows|
    ensures Lines(WrittenFile(types, rows))[i] == LineRead(types, rows[i])
    decreases |rows|
  {
    if Printable(types, rows[0]) {
      FirstLine(types, rows);
      if i > 0 {
        var rest := rows[1..];
        PrintableFront(types, rows);
        assert OneLiners(types, rest) by {
          assert forall j | 0 <= j < |rest| :: rest[j] == rows[j + 1];
        }
        LinesOfRows(types, rest, i - 1);
        LaterLine(LineOf(types, rows[0]), Lines(WrittenFile(types, rest)), i);
      }
    } else {
      CutLine(types, rows);
    }
  }

  lemma {:induction false} LaterLine(line: seq<Byte>, lines: seq<seq<Byte>>, i: nat)
    requires 0 < i <= |lines|
    ensures ([line] + lines)[i] == lines[i - 1]
  {
  }

  lemma {:induction false} DigitsShort(v: nat, k: nat)
    requires k > 0 && v < Pow10(k)
    ensures |Digits(v)| <= k
    decreases k
  {
    if v >= 10 {
      DigitsShort(v / 10, k - 1);
    }
  }

  lemma {:induction false} ThreeDigitsAByte(k: nat)
    ensures Pow256(k) <= Pow10(3 * k)
    decreases k
  {
    if k != 0 {
      ThreeDigitsAByte(k - 1);
      assert Pow10(3 * k) == 10 * Pow10(3 * k - 1) == 100 * Pow10(3 * k - 2) == 1000 * Pow10(3 * (k - 1));
    }
  }

  lemma {:induction false} ChunkTextShort(typ: AutoType, chunk: seq<Byte>)
    requires (IsNumber(typ) || IsText(typ)) && |chunk| == Advance(typ)
    ensures |ChunkText(typ, chunk)| <= STR_LEN
  {
    if IsNumber(typ) {
      ToFromWord(chunk);
      ThreeDigitsAByte(8);
      DigitsShort(FromWord(chunk), 24);
    }
  }

  /** Where the token at the start of a prefix of a text, a comma and more ends. */
  lemma {:induction false} FirstToken(text: seq<Byte>, more: seq<Byte>, q: seq<Byte>, m: nat)
    requires COMMA !in text && m <= |q| && q[m..] <= text + [COMMA] + more
    ensures |q| - m <= |text| ==> Find(q, COMMA, m) == |q|
    ensures |q| - m > |text| ==> Find(q, COMMA, m) == m + |text| && q[m + |text| + 1..] <= more
  {
    var line := text + [COMMA] + more;
    var n := if |q| - m <= |text| then |q| else m + |text|;
    forall i | m <= i < n
      ensures q[i] != COMMA
    {
      assert q[i] == q[m..][i - m] == line[i - m] == text[i - m];
    }
    if n < |q| {
      assert q[n] == q[m..][|text|] == line[|text|];
      assert q[n + 1..] == q[m..][|text| + 1..] && more == line[|text| + 1..];
    }
    FindIs(q, COMMA, m, n);
  }

  /** A clean row's line that lacks more than one field's text at its end does not parse. */
  lemma {:induction false} CutLineTooShort(types: seq<AutoType>, row: seq<Byte>, q: seq<Byte>, m: nat)
    requires types != [] && Supported(types) && |row| == AdvanceAll(types) && Clean(types, row)
    requires m <= |q| && q[m..] <= LineOf(types, row) && EnterAll(types, q, m).Entered?
    ensures |LineOf(types, row)| <= |q| - m + STR_LEN
    decreases |types|
  {
    var a := Advance(types[0]);
    var text := ChunkText(types[0], row[..a]);
    ChunkTextShort(types[0], row[..a]);
    ChunkTextClean(types[0], row[..a]);
    if |types| > 1 {
      var more := LineOf(types[1..], row[a..]);
      FirstToken(text, more, q, m);
      var f := EnterField(types[0], q, m);
      assert f.Entered? && EnterAll(types[1..], q, f.next).Entered?;
      StartsInside(types[1..], q, f.next);
      CutLineTooShort(types[1..], row[a..], q, f.next);
    }
  }

  lemma {:induction false} StartsInside(types: seq<AutoType>, q: seq<Byte>, m: nat)
    requires types != [] && EnterAll(types, q, m).Entered?
    ensures m <= |q|
  {
  }

  lemma {:induction false} CutRowDoesNotEnter(types: seq<AutoType>, row: seq<Byte>)
    requires types != [] && Supported(types) && |row| == AdvanceAll(types) && Clean(types, row)
    requires !Printable(types, row) && NEWLINE !in LineOf(types, row)
    ensures !EnterAll(types, WrittenRow(types, row), 0).Entered?
  {
    var line, bytes := LineOf(types, row), WrittenRow(types, row);
    assert bytes == line[..|bytes|] && |bytes| + STR_LEN < |line|;
    assert bytes[0..] == bytes;
    if EnterAll(types, bytes, 0).Entered? {
      CutLineTooShort(types, row, bytes, 0);
    }
  }

  /** A table that comes back has entered line by line, from lines without newlines. */
  lemma {:induction false} RestoredRowsEnter(types: seq<AutoType>, rows: seq<seq<Byte>>)
    requires types != [] && Supported(types) && RowsOf(types, rows)
    requires ReadFile(types, WrittenFile(types, rows)) == Loaded(Memory(rows))
    ensures var lines := Lines(WrittenFile(types, rows));
            && |lines| == |rows| == CountLines(WrittenFile(types, rows))
            && forall i | 0 <= i < |rows| :: EntersAs(EnterAll(types, lines[i], 0), rows[i]) && lines[i] != []
    ensures forall i | 0 <= i < |rows| :: Clean(types, rows[i])
    ensures OneLiners(types, rows)
  {
    var lines := Lines(WrittenFile(types, rows));
    LinesAreRows(types, lines, rows);
    LinesHoldNoNewline(WrittenFile(types, rows));
    forall i | 0 <= i < |rows|
      ensures Clean(types, rows[i]) && NEWLINE !in LineOf(types, rows[i])
    {
      EnteredIsClean(types, lines[i], 0);
      CleanLine(types, rows[i]);
    }
  }

  lemma {:induction false} RestoredRowsPrint(types: seq<AutoType>, rows: seq<seq<Byte>>)
    requires types != [] && Supported(types) && RowsOf(types, rows)
    requires ReadFile(types, WrittenFile(types, rows)) == Loaded(Memory(rows))
    ensures forall i | 0 <= i < |rows| :: Printable(types, rows[i]) && Canonical(types, rows[i])
    ensures [] !in RowLines(types, rows)
  {
    RestoredRowsEnter(types, rows);
    if rows != [] {
      var lines := Lines(WrittenFile(types, rows));
      CutRowsLoseLines(types, [], rows);
      assert [] + WrittenFile(types, rows) == WrittenFile(types, rows);
      forall i | 0 <= i < |rows|
        ensures Printable(types, rows[i]) && Canonical(types, rows[i]) && LineOf(types, rows[i]) != []
      {
        LinesOfRows(types, rows, i);
        if !Printable(types, rows[i]) {
          CutRowDoesNotEnter(types, rows[i]);
        }
        assert lines[i][0..] == lines[i];
        LineThereAndBack(types, rows[i], lines[i], 0);
      }
    }
  }

  /** Main result: writing a table and reading the file restores the table's memory if and only if every row
      is canonical, prints whole and on one line, and none prints as an empty line. */
  lemma {:induction false} FileRestoredIff(types: seq<AutoType>, rows: seq<seq<Byte>>)
    requires types != [] && Supported(types) && RowsOf(types, rows)
    ensures ReadFile(types, WrittenFile(types, rows)) == Loaded(Memory(rows)) <==>
            (forall i | 0 <= i < |rows| :: Canonical(types, rows[i]) && Printable(types, rows[i]))
            && [] !in RowLines(types, rows)
  {
    if ReadFile(types, WrittenFile(types, rows)) == Loaded(Memory(rows)) {
      RestoredRowsPrint(types, rows);
    } else if forall i | 0 <= i < |rows| :: Canonical(types, rows[i]) && Printable(types, rows[i]) {
      FileThereAndBack(types, rows);
    }
  }

  /** A row prints as an empty line exactly when its only column is a string and that string is empty. */
  lemma {:induction false} BlankRow(types: seq<AutoType>, row: seq<Byte>)
    requires types != [] && Supported(types) && |row| == AdvanceAll(types)
    ensures LineOf(types, row) == [] <==> |types| == 1 && IsText(types[0]) && CString(row) == []
  {
    if |types| == 1 {
      assert types[1..] == [];
      assert row[..Advance(types[0])] == row;
    }
  }

  /** A file whose last line is unfinished reads as if that line were finished. */
  lemma {:induction false} UnfinishedLineCounts(types: seq<AutoType>, file: seq<Byte>, line: seq<Byte>)
    requires line != [] && NEWLINE !in line && (file == [] || file[|file| - 1] == NEWLINE)
    ensures Lines(file + line) == Lines(file + (line + [NEWLINE]))
    ensures CountLines(file + line) == CountLines(file + (line + [NEWLINE]))
    ensures ReadFile(types, file + line) == ReadFile(types, file + (line + [NEWLINE]))
    decreases |file|
  {
    if file == [] {
      assert [] + line == line && [] + (line + [NEWLINE]) == line + [NEWLINE];
      LastLine(line, line);
      FirstLineOf(line + [NEWLINE], |line|, []);
    } else {
      var n := Find(file, NEWLINE, 0);
      UnfinishedLineCounts(types, file[n + 1..], line);
      FirstLineKept(file, n, file[n + 1..], line);
      FirstLineKept(file, n, file[n + 1..], line + [NEWLINE]);
    }
  }

  lemma {:induction false} FirstLineKept(file: seq<Byte>, n: nat, rest: seq<Byte>, tail: seq<Byte>)
    requires n < |file| && n == Find(file, NEWLINE, 0) && rest == file[n + 1..]
    ensures Lines(file + tail) == if n == 0 then [] else [file[..n]] + Lines(rest + tail)
    ensures CountLines(file + tail) == 1 + CountLines(rest + tail)
  {
    var whole := file + tail;
    assert whole[..n] == file[..n] && whole[n + 1..] == rest + tail;
    FirstLineOf(whole, n, rest + tail);
  }

  lemma {:induction false} LastLine(file: seq<Byte>, line: seq<Byte>)
    requires file == line != [] && NEWLINE !in line
    ensures Lines(file) == [line] && CountLines(file) == 1
  {
    FindIs(file, NEWLINE, 0, |file|);
  }

  lemma {:induction false} FirstLineOf(file: seq<Byte>, n: nat, rest: seq<Byte>)
    requires n < |file| && file[n] == NEWLINE && (forall i | 0 <= i < n :: file[i] != NEWLINE)
    requires file[n + 1..] == rest
    ensures Lines(file) == if n == 0 then [] else [file[..n]] + Lines(rest)
    ensures CountLines(file) == 1 + CountLines(rest)
  {
    FindIs(file, NEWLINE, 0, n);
  }

  /** A first line that does not parse is an error whatever follows, blank lines and wrong counts included. */
  lemma {:induction false} FirstErrorFails(types: seq<AutoType>, line: seq<Byte>, rest: seq<Byte>)
    requires line != [] && NEWLINE !in line && !EnterAll(types, line, 0).Entered?
    ensures ReadFile(types, line + ([NEWLINE] + rest)) == Failed(EnterAll(types, line, 0))
  {
    var file := line + ([NEWLINE] + rest);
    assert file[..|line|] == line && file[|line| + 1..] == rest;
    FirstLineOf(file, |line|, rest);
    assert ([line] + Lines(rest))[0] == line;
  }
}
