/**
 The example file format: a table row in memory printed as one comma-separated line, and a line parsed
 back into memory. Columns are visited in tree order; a union without a selector column stands for its
 first member.
 */
module ExampleCodec {
  import opened Arithmetic
  import opened ByteText
  import opened Options
  import opened RecordLayout
  import opened LayoutTheorems

  const STR_LEN: nat := 256

  predicate IsNumber(typ: AutoType) {
    typ == UInt64 || typ == RealTime || typ == RealTimeMs
  }

  predicate IsText(typ: AutoType) {
    typ == Text || typ == ByteArray
  }

  /** How far the parser moves past a column: nothing for a type it does not know. */
  function Advance(typ: AutoType): nat {
    if IsNumber(typ) then 8 else if IsText(typ) then STR_LEN else 0
  }

  function AdvanceAll(types: seq<AutoType>): nat {
    if types == [] then 0 else Advance(types[0]) + AdvanceAll(types[1..])
  }

  // ----------------------------------------------------------------- printing

  /** A visited column: its type and the offset the layout compiler gave it. */
  datatype Field = Field(typ: AutoType, offset: nat)

  ghost predicate FieldsFit(fields: seq<Field>, size: nat) {
    forall i | 0 <= i < |fields| :: fields[i].offset + Advance(fields[i].typ) <= size
  }

  function FieldText(f: Field, row: seq<Byte>): seq<Byte>
    requires f.offset + Advance(f.typ) <= |row|
  {
    if IsNumber(f.typ) then Digits(FromWord(row[f.offset..f.offset + 8])) + [COMMA]
    else if IsText(f.typ) then CString(row[f.offset..f.offset + STR_LEN]) + [COMMA]
    else []
  }

  function FieldTexts(fields: seq<Field>, row: seq<Byte>): seq<Byte>
    requires FieldsFit(fields, |row|)
  {
    if fields == [] then []
    else FieldTexts(fields[..|fields| - 1], row) + FieldText(fields[|fields| - 1], row)
  }

  method WriteColumn(row: array<Byte>, f: Field, encoded: seq<Byte>) returns (text: seq<Byte>)
    requires f.offset + Advance(f.typ) <= row.Length
    ensures text == encoded + FieldText(f, row[..])
  {
    if IsNumber(f.typ) {
      var value := FromWord(row[f.offset..f.offset + 8]);
      text := encoded + Digits(value) + [COMMA];
      assert row[..][f.offset..f.offset + 8] == row[f.offset..f.offset + 8];
    } else if IsText(f.typ) {
      text := encoded + CString(row[f.offset..f.offset + STR_LEN]) + [COMMA];
      assert row[..][f.offset..f.offset + STR_LEN] == row[f.offset..f.offset + STR_LEN];
    } else {
      text := encoded;
    }
  }

  /** One row as text, its last comma turned into a newline; no text at all is an exception. */
  method EncodeData(row: array<Byte>, fields: seq<Field>) returns (text: Option<seq<Byte>>)
    requires FieldsFit(fields, row.Length)
    ensures text == RowText(fields, row[..])
  {
    var encoded: seq<Byte> := [];
    for i := 0 to |fields|
      invariant TextsTo(fields, i, row[..], encoded)
    {
      encoded := WriteColumn(row, fields[i], encoded);
      NextText(fields, i, row[..]);
    }
    AllTexts(fields, row[..], encoded);
    if encoded == [] {
      return None;
    }
    text := Some(encoded[..|encoded| - 1] + [NEWLINE]);
  }

  /** The texts of the first i columns. */
  ghost predicate TextsTo(fields: seq<Field>, i: nat, row: seq<Byte>, text: seq<Byte>) {
    i <= |fields| && FieldsFit(fields[..i], |row|) && text == FieldTexts(fields[..i], row)
  }

  lemma {:induction false} AllTexts(fields: seq<Field>, row: seq<Byte>, text: seq<Byte>)
    requires TextsTo(fields, |fields|, row, text) && FieldsFit(fields, |row|)
    ensures text == FieldTexts(fields, row)
  {
    assert fields[..|fields|] == fields;
  }

  lemma {:induction false} NextText(fields: seq<Field>, i: nat, row: seq<Byte>)
    requires FieldsFit(fields, |row|) && i < |fields|
    ensures FieldsFit(fields[..i], |row|) && FieldsFit(fields[..i + 1], |row|)
    ensures FieldTexts(fields[..i + 1], row) == FieldTexts(fields[..i], row) + FieldText(fields[i], row)
  {
    assert fields[..i + 1][..i] == fields[..i];
  }

  function RowText(fields: seq<Field>, row: seq<Byte>): Option<seq<Byte>>
    requires FieldsFit(fields, |row|)
  {
    var texts := FieldTexts(fields, row);
    if texts == [] then None else Some(texts[..|texts| - 1] + [NEWLINE])
  }

  // ----------------------------------------------------------------- parsing

  /** The outcome of parsing: bytes entered and the next read position, the exception of a line that runs
      out of fields, or a string too long for its field. */
  datatype Entry = Entered(bytes: seq<Byte>, next: nat) | Thrown | Overrun

  function Store64(v: int): seq<Byte> {
    ToWord(v % TWO_64, 8)
  }

  /** What one column makes of its zeroed memory and the line from position m on. */
  function EnterField(typ: AutoType, line: seq<Byte>, m: nat): Entry {
    if m > |line| then Thrown
    else
      var n := Find(line, COMMA, m);
      var token := line[m..n];
      if IsNumber(typ) then Entered(Store64(Atoll(token)), n + 1)
      else if IsText(typ) then
        var s := CString(token);
        if |s| >= STR_LEN then Overrun else Entered(s + Zeros(STR_LEN - |s|), n + 1)
      else Entered([], n + 1)
  }

  function Prefixed(done: seq<Byte>, rest: Entry): Entry {
    match rest case Entered(bytes, next) => Entered(done + bytes, next) case other => other
  }

  function EnterAll(types: seq<AutoType>, line: seq<Byte>, m: nat): Entry
    decreases |types|
  {
    if types == [] then Entered([], m)
    else
      match EnterField(types[0], line, m)
      case Entered(bytes, next) => Prefixed(bytes, EnterAll(types[1..], line, next))
      case other => other
  }

  lemma {:induction false} EnteredLength(types: seq<AutoType>, line: seq<Byte>, m: nat)
    ensures var e := EnterAll(types, line, m); e.Entered? ==> |e.bytes| == AdvanceAll(types)
    decreases |types|
  {
    if types != [] && EnterField(types[0], line, m).Entered? {
      EnteredLength(types[1..], line, EnterField(types[0], line, m).next);
    }
  }

  /** `o` with `done` written over it from `start` on. */
  function Overlaid(o: seq<Byte>, start: nat, done: seq<Byte>): (r: seq<Byte>)
    requires start + |done| <= |o|
    ensures |r| == |o|
  {
    o[..start] + done + o[start + |done|..]
  }

  method WriteAt(buf: array<Byte>, pos: nat, s: seq<Byte>)
    requires pos + |s| <= buf.Length
    modifies buf
    ensures buf[..] == Overlaid(old(buf[..]), pos, s)
  {
    forall i | 0 <= i < |s| {
      buf[pos + i] := s[i];
    }
  }

  /** Over zeroed memory a terminated string leaves the string and zeros. */
  lemma {:induction false} TerminatedString(o: seq<Byte>, pos: nat, str: seq<Byte>)
    requires |str| < STR_LEN && pos + STR_LEN <= |o|
    requires forall k | pos <= k < pos + STR_LEN :: o[k] == NUL
    ensures Overlaid(o, pos, str + [NUL]) == Overlaid(o, pos, str + Zeros(STR_LEN - |str|))
  {
  }

  /** The bytes a column writes from its own position on: a string only up to its NUL. */
  function Stored(typ: AutoType, line: seq<Byte>, m: nat): (s: seq<Byte>)
    requires EnterField(typ, line, m).Entered?
    ensures |s| <= Advance(typ)
  {
    var token := line[m..Find(line, COMMA, m)];
    if IsNumber(typ) then Store64(Atoll(token)) else if IsText(typ) then CString(token) + [NUL] else []
  }

  ghost predicate Zeroed(o: seq<Byte>, pos: nat, size: nat) {
    pos + size <= |o| && forall k | pos <= k < pos + size :: o[k] == NUL
  }

  /** Over zeroed memory what is stored is the whole field. */
  lemma {:induction false} StoredOverZeros(typ: AutoType, line: seq<Byte>, m: nat, o: seq<Byte>, pos: nat)
    requires Zeroed(o, pos, Advance(typ)) && EnterField(typ, line, m).Entered?
    ensures var e := EnterField(typ, line, m);
            |e.bytes| == Advance(typ) && Overlaid(o, pos, Stored(typ, line, m)) == Overlaid(o, pos, e.bytes)
  {
    if IsText(typ) {
      TerminatedString(o, pos, CString(line[m..Find(line, COMMA, m)]));
    }
  }

  /** Enters one column, whatever the memory held before; a line that has run out or a string that is too
      long changes nothing. */
  method EntryColumn(typ: AutoType, line: seq<Byte>, buf: array<Byte>, pos: nat, m: nat) returns (e: Entry)
    requires pos + Advance(typ) <= buf.Length
    modifies buf
    ensures e == EnterField(typ, line, m)
    ensures buf[..] == if e.Entered? then Overlaid(old(buf[..]), pos, Stored(typ, line, m)) else old(buf[..])
  {
    if m > |line| {
      return Thrown;
    }
    var n := Find(line, COMMA, m);
    var token := line[m..n];
    if IsNumber(typ) {
      e := Entered(Store64(Atoll(token)), n + 1);
      WriteAt(buf, pos, e.bytes);
    } else if IsText(typ) {
      var str := CString(token);
      if |str| >= STR_LEN {
        return Overrun;
      }
      WriteAt(buf, pos, str + [NUL]);
      e := Entered(str + Zeros(STR_LEN - |str|), n + 1);
    } else {
      e := Entered([], n + 1);
      assert buf[..] == Overlaid(buf[..], pos, []);
    }
  }

  lemma {:induction false} Uncovered(o: seq<Byte>, start: nat, done: seq<Byte>, size: nat)
    requires |done| <= size && Zeroed(o, start, size)
    ensures Zeroed(Overlaid(o, start, done), start + |done|, size - |done|)
  {
  }

  lemma {:induction false} Covered(o: seq<Byte>, start: nat, done: seq<Byte>, more: seq<Byte>)
    requires start + |done| + |more| <= |o|
    ensures Overlaid(Overlaid(o, start, done), start + |done|, more) == Overlaid(o, start, done + more)
  {
  }

  lemma {:induction false} SuffixStep(types: seq<AutoType>, line: seq<Byte>, i: nat, m: nat, done: seq<Byte>)
    requires i < |types|
    ensures AdvanceAll(types[i..]) == Advance(types[i]) + AdvanceAll(types[i + 1..])
    ensures Prefixed(done, EnterAll(types[i..], line, m)) ==
            match EnterField(types[i], line, m)
            case Entered(bytes, next) => Prefixed(done + bytes, EnterAll(types[i + 1..], line, next))
            case other => other
  {
    assert types[i..][0] == types[i] && types[i..][1..] == types[i + 1..];
    match EnterField(types[i], line, m)
    case Entered(bytes, next) => PrefixedTwice(done, bytes, EnterAll(types[i + 1..], line, next));
    case _ =>
  }

  lemma {:induction false} PrefixedTwice(done: seq<Byte>, bytes: seq<Byte>, e: Entry)
    ensures Prefixed(done, Prefixed(bytes, e)) == Prefixed(done + bytes, e)
  {
    if e.Entered? {
      assert done + (bytes + e.bytes) == (done + bytes) + e.bytes;
    }
  }

  /** Memory outside a row that is being entered. */
  ghost predicate KeptOutside(o: seq<Byte>, now: seq<Byte>, start: nat, size: nat) {
    && |now| == |o| && start + size <= |o|
    && now[..start] == o[..start] && now[start + size..] == o[start + size..]
  }

  lemma {:induction false} OverlaidInside(o: seq<Byte>, start: nat, done: seq<Byte>, size: nat)
    requires |done| <= size && start + size <= |o|
    ensures KeptOutside(o, Overlaid(o, start, done), start, size)
  {
  }

  lemma {:induction false} NextOverlaid(typ: AutoType, line: seq<Byte>, m: nat,
                                        o: seq<Byte>, start: nat, bytes: seq<Byte>)
    requires EnterField(typ, line, m).Entered? && start + |bytes| + Advance(typ) <= |o|
    requires Zeroed(Overlaid(o, start, bytes), start + |bytes|, Advance(typ))
    ensures var e := EnterField(typ, line, m);
            && |e.bytes| == Advance(typ)
            && Overlaid(Overlaid(o, start, bytes), start + |bytes|, Stored(typ, line, m)) ==
               Overlaid(o, start, bytes + e.bytes)
  {
    StoredOverZeros(typ, line, m, Overlaid(o, start, bytes), start + |bytes|);
    Covered(o, start, bytes, EnterField(typ, line, m).bytes);
  }

  /** Enters column i behind the bytes that are done. */
  method EnterNext(types: seq<AutoType>, line: seq<Byte>, buf: array<Byte>, start: nat, i: nat, m: nat,
                   done: nat, ghost o: seq<Byte>, ghost bytes: seq<Byte>)
    returns (f: Entry)
    requires i < |types| && |bytes| == done && start + done + Advance(types[i]) <= buf.Length == |o|
    requires buf[..] == Overlaid(o, start, bytes) && Zeroed(buf[..], start + done, Advance(types[i]))
    modifies buf
    ensures f == EnterField(types[i], line, m)
    ensures f.Entered? ==> |f.bytes| == Advance(types[i]) && buf[..] == Overlaid(o, start, bytes + f.bytes)
    ensures !f.Entered? ==> buf[..] == Overlaid(o, start, bytes)
  {
    if EnterField(types[i], line, m).Entered? {
      NextOverlaid(types[i], line, m, o, start, bytes);
    }
    f := EntryColumn(types[i], line, buf, start + done, m);
  }

  /** Parses one line into zeroed memory from `start` on. Nothing outside the row changes, even when the
      line is in error. */
  method ParseOneLine(types: seq<AutoType>, line: seq<Byte>, buf: array<Byte>, start: nat) returns (e: Entry)
    requires start + AdvanceAll(types) <= buf.Length && Zeroed(buf[..], start, AdvanceAll(types))
    modifies buf
    ensures e == EnterAll(types, line, 0)
    ensures e.Entered? ==> |e.bytes| == AdvanceAll(types)
    ensures e.Entered? ==> buf[..] == Overlaid(old(buf[..]), start, e.bytes)
    ensures KeptOutside(old(buf[..]), buf[..], start, AdvanceAll(types))
  {
    var done: seq<Byte>, m := [], 0;
    ghost var o := buf[..];
    for i := 0 to |types|
      invariant |done| + AdvanceAll(types[i..]) == AdvanceAll(types)
      invariant EnterAll(types, line, 0) == Prefixed(done, EnterAll(types[i..], line, m))
      invariant buf[..] == Overlaid(o, start, done)
    {
      SuffixStep(types, line, i, m, done);
      Uncovered(o, start, done, AdvanceAll(types));
      var f := EnterNext(types, line, buf, start, i, m, |done|, o, done);
      if !f.Entered? {
        OverlaidInside(o, start, done, AdvanceAll(types));
        return f;
      }
      done, m := done + f.bytes, f.next;
    }
    OverlaidInside(o, start, done, AdvanceAll(types));
    e := Entered(done, m);
  }

  // ----------------------------------------------------------------- one row there and back

  predicate Supported(types: seq<AutoType>) {
    forall i | 0 <= i < |types| :: IsNumber(types[i]) || IsText(types[i])
  }

  function ChunkText(typ: AutoType, chunk: seq<Byte>): seq<Byte> {
    if IsNumber(typ) then Digits(FromWord(chunk)) else CString(chunk)
  }

  /** The line of a row without its newline: the texts of its chunks between commas. */
  function LineOf(types: seq<AutoType>, row: seq<Byte>): seq<Byte>
    requires types != [] && |row| == AdvanceAll(types)
    decreases |types|
  {
    var a := Advance(types[0]);
    if |types| == 1 then ChunkText(types[0], row[..a])
    else ChunkText(types[0], row[..a]) + [COMMA] + LineOf(types[1..], row[a..])
  }

  /** A field that survives printing and parsing: a number below 2^63, or a string of at most 255 bytes
      without a comma, in memory that is zero behind it. */
  predicate CanonicalField(typ: AutoType, chunk: seq<Byte>) {
    if IsNumber(typ) then FromWord(chunk) < TWO_63
    else
      var s := CString(chunk);
      |s| < |chunk| && COMMA !in s && chunk == s + Zeros(|chunk| - |s|)
  }

  predicate Canonical(types: seq<AutoType>, row: seq<Byte>)
    requires |row| == AdvanceAll(types)
    decreases |types|
  {
    types == [] ||
    var a := Advance(types[0]);
    CanonicalField(types[0], row[..a]) && Canonical(types[1..], row[a..])
  }

  /** A printed number is the whole token, and reading it back is exact below 2^63 only. */
  lemma {:induction false} NumberThereAndBack(chunk: seq<Byte>, line: seq<Byte>, m: nat)
    requires |chunk| == 8 && TextAt(Digits(FromWord(chunk)), line, m)
    ensures Find(line, COMMA, m) == m + |Digits(FromWord(chunk))|
    ensures Store64(Atoll(Digits(FromWord(chunk)))) == chunk <==> FromWord(chunk) < TWO_63
  {
    var v := FromWord(chunk);
    var text := Digits(v);
    forall i | m <= i < m + |text|
      ensures line[i] != COMMA
    {
      assert line[i] == line[m..m + |text|][i - m] && IsDigit(text[i - m]);
    }
    FindIs(line, COMMA, m, m + |text|);
    WordThereAndBack(chunk);
  }

  lemma {:induction false} WordThereAndBack(chunk: seq<Byte>)
    requires |chunk| == 8
    ensures Store64(Atoll(Digits(FromWord(chunk)))) == chunk <==> FromWord(chunk) < TWO_63
  {
    var v := FromWord(chunk);
    var w := if v < TWO_63 then v else TWO_63 - 1;
    StoredSaturated(v, w);
    EightBytes();
    WordOf(w, chunk);
  }

  lemma {:induction false} StoredSaturated(v: nat, w: nat)
    requires w == if v < TWO_63 then v else TWO_63 - 1
    ensures Store64(Atoll(Digits(v))) == ToWord(w, 8)
  {
    AtollOfDigits(v);
    assert w % TWO_64 == w;
  }

  /** Position m of the line starts with the field's text, and a comma or the line's end follows. */
  ghost predicate TextAt(text: seq<Byte>, line: seq<Byte>, m: nat) {
    && m + |text| <= |line| && line[m..m + |text|] == text
    && (m + |text| < |line| ==> line[m + |text|] == COMMA)
  }

  /** A text without commas is the whole token; one with a comma is cut there. */
  lemma {:induction false} TextToken(text: seq<Byte>, line: seq<Byte>, m: nat)
    requires TextAt(text, line, m) && NUL !in text
    ensures var n := Find(line, COMMA, m);
            && m <= n <= m + |text| && line[m..n] == text[..n - m] && CString(line[m..n]) == text[..n - m]
            && (COMMA !in text <==> n == m + |text|)
            && (n < m + |text| ==> text[n - m] == COMMA)
  {
    var n := Find(line, COMMA, m);
    forall i | m <= i < m + |text|
      ensures line[i] == text[i - m]
    {
      assert line[i] == line[m..m + |text|][i - m];
    }
    if COMMA in text {
      var c :| 0 <= c < |text| && text[c] == COMMA;
      assert line[m + c] == COMMA;
    } else {
      FindIs(line, COMMA, m, m + |text|);
    }
    CStringOfPlain(text[..n - m]);
  }

  lemma {:induction false} TextThereAndBack(typ: AutoType, chunk: seq<Byte>, line: seq<Byte>, m: nat)
    requires IsText(typ) && |chunk| == STR_LEN && TextAt(CString(chunk), line, m)
    ensures EntersAs(EnterField(typ, line, m), chunk) <==> CanonicalField(typ, chunk)
    ensures CanonicalField(typ, chunk) ==> EnterField(typ, line, m).next == m + |CString(chunk)| + 1
  {
    var text := CString(chunk);
    TextToken(text, line, m);
    var k := Find(line, COMMA, m) - m;
    if k < |text| {
      assert chunk[k] == COMMA;
      assert (text[..k] + Zeros(STR_LEN - k))[k] == NUL;
    } else {
      assert text[..k] == text;
    }
  }

  /** Parsing a field's own text gives its memory back exactly when the field is canonical. */
  lemma {:induction false} FieldThereAndBack(typ: AutoType, chunk: seq<Byte>, line: seq<Byte>, m: nat)
    requires (IsNumber(typ) || IsText(typ)) && |chunk| == Advance(typ) && TextAt(ChunkText(typ, chunk), line, m)
    ensures EntersAs(EnterField(typ, line, m), chunk) <==> CanonicalField(typ, chunk)
    ensures CanonicalField(typ, chunk) ==> EnterField(typ, line, m).next == m + |ChunkText(typ, chunk)| + 1
  {
    if IsNumber(typ) {
      NumberFieldThereAndBack(typ, chunk, line, m);
    } else {
      TextThereAndBack(typ, chunk, line, m);
    }
  }

  lemma {:induction false} NumberFieldThereAndBack(typ: AutoType, chunk: seq<Byte>, line: seq<Byte>, m: nat)
    requires IsNumber(typ) && |chunk| == 8 && TextAt(Digits(FromWord(chunk)), line, m)
    ensures EntersAs(EnterField(typ, line, m), chunk) <==> CanonicalField(typ, chunk)
    ensures EnterField(typ, line, m).Entered?
    ensures EnterField(typ, line, m).next == m + |Digits(FromWord(chunk))| + 1
  {
    NumberThereAndBack(chunk, line, m);
    assert line[m..Find(line, COMMA, m)] == Digits(FromWord(chunk));
  }

  ghost predicate EntersAs(e: Entry, bytes: seq<Byte>) {
    e.Entered? && e.bytes == bytes
  }

  lemma {:induction false} CStringOfPlain(s: seq<Byte>)
    requires NUL !in s
    ensures CString(s) == s
  {
    FindIs(s, NUL, 0, |s|);
  }

  /** How a line that has a row's text from position m on starts, and where its next field does. */
  lemma {:induction false} LineStart(types: seq<AutoType>, row: seq<Byte>, line: seq<Byte>, m: nat)
    requires |types| > 1 && |row| == AdvanceAll(types)
    requires m <= |line| && line[m..] == LineOf(types, row)
    ensures var text := ChunkText(types[0], row[..Advance(types[0])]);
            && TextAt(text, line, m)
            && m + |text| < |line| && line[m + |text| + 1..] == LineOf(types[1..], row[Advance(types[0])..])
  {
    var a := Advance(types[0]);
    TextBeforeMore(line, m, ChunkText(types[0], row[..a]), LineOf(types[1..], row[a..]));
  }

  lemma {:induction false} LineOfOne(typ: AutoType, row: seq<Byte>, line: seq<Byte>, m: nat)
    requires |row| == AdvanceAll([typ]) && m <= |line| && line[m..] == LineOf([typ], row)
    ensures |row| == Advance(typ) && TextAt(ChunkText(typ, row), line, m)
  {
    assert row[..Advance(typ)] == row && [typ][1..] == [];
    assert line[m..][..|ChunkText(typ, row)|] == ChunkText(typ, row);
  }

  lemma {:induction false} TextBeforeMore(line: seq<Byte>, m: nat, text: seq<Byte>, more: seq<Byte>)
    requires m <= |line| && line[m..] == text + [COMMA] + more
    ensures TextAt(text, line, m) && m + |text| < |line| && line[m + |text| + 1..] == more
  {
    var tail := line[m..];
    assert tail[..|text|] == text && tail[|text|] == COMMA && tail[|text| + 1..] == more;
  }

  lemma {:induction false} SplitEqual(a: seq<Byte>, b: seq<Byte>, c: seq<Byte>, d: seq<Byte>)
    requires |a| == |c|
    ensures a + b == c + d <==> a == c && b == d
  {
    assert (a + b)[..|a|] == a && (a + b)[|a|..] == b;
    assert (c + d)[..|c|] == c && (c + d)[|c|..] == d;
  }

  lemma {:induction false} CanonicalFront(types: seq<AutoType>, row: seq<Byte>)
    requires types != [] && |row| == AdvanceAll(types)
    ensures var a := Advance(types[0]);
            Canonical(types, row) <==> CanonicalField(types[0], row[..a]) && Canonical(types[1..], row[a..])
  {
  }

  /** Behind the last column nothing is left to enter. */
  lemma {:induction false} NothingLeft(types: seq<AutoType>, row: seq<Byte>, line: seq<Byte>, m: nat)
    requires types == [] && |row| == AdvanceAll(types)
    ensures EntersAs(EnterAll(types, line, m), row) && Canonical(types, row)
  {
  }

  /** One column and the columns behind it: the row comes back exactly when the column does and they do. */
  lemma {:induction false} ColumnThenRest(types: seq<AutoType>, line: seq<Byte>, m: nat, row: seq<Byte>)
    requires types != [] && |row| == AdvanceAll(types)
    ensures var a := Advance(types[0]);
            var f := EnterField(types[0], line, m);
            EntersAs(EnterAll(types, line, m), row) <==>
            EntersAs(f, row[..a]) && EntersAs(EnterAll(types[1..], line, f.next), row[a..])
  {
    var a := Advance(types[0]);
    assert row[..a] + row[a..] == row;
    FieldThenRest(types, line, m, row[..a], row[a..]);
  }

  /** A row's line parses back to the row exactly when every field is canonical. */
  lemma {:induction false} LineThereAndBack(types: seq<AutoType>, row: seq<Byte>, line: seq<Byte>, m: nat)
    requires types != [] && Supported(types) && |row| == AdvanceAll(types)
    requires m <= |line| && line[m..] == LineOf(types, row)
    ensures EntersAs(EnterAll(types, line, m), row) <==> Canonical(types, row)
    decreases |types|
  {
    var a := Advance(types[0]);
    var chunk, rest, next := row[..a], row[a..], EnterField(types[0], line, m);
    if |types| > 1 {
      LineStart(types, row, line, m);
    } else {
      assert types == [types[0]] && types[1..] == [] && chunk == row;
      LineOfOne(types[0], row, line, m);
    }
    FieldThereAndBack(types[0], chunk, line, m);
    ColumnThenRest(types, line, m, row);
    CanonicalFront(types, row);
    if CanonicalField(types[0], chunk) {
      if |types| > 1 {
        LineThereAndBack(types[1..], rest, line, next.next);
      } else {
        NothingLeft(types[1..], rest, line, next.next);
      }
    }
  }

  /** A line enters as a row when its first field does as the first chunk and the remainder as the rest. */
  lemma {:induction false} FieldThenRest(types: seq<AutoType>, line: seq<Byte>, m: nat,
                                         chunk: seq<Byte>, rest: seq<Byte>)
    requires types != [] && |chunk| == Advance(types[0])
    ensures var f := EnterField(types[0], line, m);
            EntersAs(EnterAll(types, line, m), chunk + rest) <==>
            EntersAs(f, chunk) && EntersAs(EnterAll(types[1..], line, f.next), rest)
  {
    var f := EnterField(types[0], line, m);
    if f.Entered? {
      FirstThenRest(f.bytes, EnterAll(types[1..], line, f.next), chunk, rest);
    }
  }

  lemma {:induction false} FirstThenRest(bytes: seq<Byte>, e: Entry, chunk: seq<Byte>, rest: seq<Byte>)
    requires |bytes| == |chunk|
    ensures EntersAs(Prefixed(bytes, e), chunk + rest) <==> bytes == chunk && EntersAs(e, rest)
  {
    if e.Entered? {
      SplitEqual(bytes, e.bytes, chunk, rest);
    }
  }

  // ----------------------------------------------------------------- printing along the layout

  function TypesOf(fields: seq<Field>): (types: seq<AutoType>)
    ensures |types| == |fields|
  {
    seq(|fields|, i requires 0 <= i < |fields| => fields[i].typ)
  }

  /** Each field starts where the parser stands after the ones before it. */
  predicate Sequential(fields: seq<Field>, from: nat)
    decreases |fields|
  {
    fields == [] ||
    (fields[0].offset == from && Sequential(fields[1..], from + Advance(fields[0].typ)))
  }

  lemma {:induction false} SequentialFits(fields: seq<Field>, from: nat)
    requires Sequential(fields, from)
    ensures FieldsFit(fields, from + AdvanceAll(TypesOf(fields)))
    decreases |fields|
  {
    if fields != [] {
      SequentialFits(fields[1..], from + Advance(fields[0].typ));
      TypesOfFront(fields);
      assert forall i | 0 < i < |fields| :: fields[i] == fields[1..][i - 1];
    }
  }

  lemma {:induction false} TypesOfFront(fields: seq<Field>)
    requires fields != []
    ensures TypesOf(fields)[0] == fields[0].typ && TypesOf(fields)[1..] == TypesOf(fields[1..])
  {
  }

  lemma {:induction false} FieldTextsLast(fields: seq<Field>, row: seq<Byte>)
    requires FieldsFit(fields, |row|) && fields != []
    ensures FieldsFit(fields[..|fields| - 1], |row|) && FieldsFit(fields[1..], |row|)
    ensures FieldTexts(fields, row) ==
            FieldTexts(fields[..|fields| - 1], row) + FieldText(fields[|fields| - 1], row)
  {
  }

  lemma {:induction false} FieldTextsFront(fields: seq<Field>, row: seq<Byte>)
    requires FieldsFit(fields, |row|) && fields != []
    ensures FieldTexts(fields, row) == FieldText(fields[0], row) + FieldTexts(fields[1..], row)
    decreases |fields|
  {
    var init, rest := fields[..|fields| - 1], fields[1..];
    if |fields| > 1 {
      var first, mid, last := fields[0], init[1..], fields[|fields| - 1];
      assert mid == rest[..|rest| - 1] && rest[|rest| - 1] == last;
      FieldTextsLast(fields, row);
      FieldTextsLast(rest, row);
      FieldTextsFront(init, row);
      Associates(FieldText(first, row), FieldTexts(mid, row), FieldText(last, row));
    } else {
      assert init == rest == [];
      assert FieldTexts(init, row) == FieldTexts(rest, row) == [];
    }
  }

  lemma {:induction false} Associates(a: seq<Byte>, b: seq<Byte>, c: seq<Byte>)
    ensures (a + b) + c == a + (b + c)
  {
  }

  /** Along sequential fields the printer prints the row's line, with a last comma. */
  lemma {:induction false} TextsAreLine(fields: seq<Field>, row: seq<Byte>, from: nat)
    requires fields != [] && Sequential(fields, from) && Supported(TypesOf(fields))
    requires |row| == from + AdvanceAll(TypesOf(fields)) && FieldsFit(fields, |row|)
    ensures FieldTexts(fields, row) == LineOf(TypesOf(fields), row[from..]) + [COMMA]
    decreases |fields|
  {
    if |fields| > 1 {
      assert FieldsFit(fields[1..], |row|) by {
        assert forall i | 0 <= i < |fields| - 1 :: fields[1..][i] == fields[i + 1];
      }
      TypesOfFront(fields);
      TextsAreLine(fields[1..], row, from + Advance(fields[0].typ));
    }
    TextsStep(fields, row, from);
  }

  lemma {:induction false} FieldTextIsChunk(f: Field, row: seq<Byte>)
    requires f.offset + Advance(f.typ) <= |row| && (IsNumber(f.typ) || IsText(f.typ))
    ensures FieldText(f, row) == ChunkText(f.typ, row[f.offset..f.offset + Advance(f.typ)]) + [COMMA]
  {
  }

  lemma {:induction false} LineFront(types: seq<AutoType>, row: seq<Byte>)
    requires types != [] && |row| == AdvanceAll(types)
    ensures var a := Advance(types[0]);
            LineOf(types, row) ==
            if |types| == 1 then ChunkText(types[0], row[..a])
            else ChunkText(types[0], row[..a]) + [COMMA] + LineOf(types[1..], row[a..])
  {
  }

  /** The text of the first field, and what is printed behind it. */
  lemma {:induction false} TextsStep(fields: seq<Field>, row: seq<Byte>, from: nat)
    requires fields != [] && fields[0].offset == from && (IsNumber(fields[0].typ) || IsText(fields[0].typ))
    requires |row| == from + AdvanceAll(TypesOf(fields)) && FieldsFit(fields, |row|)
    requires var next := from + Advance(fields[0].typ);
             |fields| > 1 ==>
               && FieldsFit(fields[1..], |row|) && next + AdvanceAll(TypesOf(fields[1..])) == |row|
               && FieldTexts(fields[1..], row) == LineOf(TypesOf(fields[1..]), row[next..]) + [COMMA]
    ensures FieldTexts(fields, row) == LineOf(TypesOf(fields), row[from..]) + [COMMA]
  {
    var types, a, own := TypesOf(fields), Advance(fields[0].typ), row[from..];
    TypesOfFront(fields);
    var text := ChunkText(types[0], own[..a]);
    assert own[..a] == row[from..from + a] && own[a..] == row[from + a..];
    FieldTextsFront(fields, row);
    FieldTextIsChunk(fields[0], row);
    LineFront(types, own);
    if |fields| == 1 {
      assert FieldTexts(fields[1..], row) == [];
    } else {
      Associates(text + [COMMA], LineOf(types[1..], own[a..]), [COMMA]);
    }
  }

  /** The row text: the row's line and a newline. */
  lemma {:induction false} RowTextIsLine(fields: seq<Field>, row: seq<Byte>)
    requires fields != [] && Sequential(fields, 0) && Supported(TypesOf(fields))
    requires |row| == AdvanceAll(TypesOf(fields))
    ensures FieldsFit(fields, |row|)
    ensures RowText(fields, row) == Some(LineOf(TypesOf(fields), row) + [NEWLINE])
  {
    SequentialFits(fields, 0);
    TextsAreLine(fields, row, 0);
    assert row[0..] == row;
  }

  /** Printing a row and parsing the line gives the row back exactly when every field is canonical. */
  lemma {:induction false} RowThereAndBack(fields: seq<Field>, row: seq<Byte>)
    requires fields != [] && Sequential(fields, 0) && Supported(TypesOf(fields))
    requires |row| == AdvanceAll(TypesOf(fields)) && FieldsFit(fields, |row|)
    ensures RowText(fields, row).Some?
    ensures var text := RowText(fields, row).value;
            EntersAs(EnterAll(TypesOf(fields), text[..|text| - 1], 0), row) <==> Canonical(TypesOf(fields), row)
  {
    RowTextIsLine(fields, row);
    var line := LineOf(TypesOf(fields), row);
    assert (line + [NEWLINE])[..|line|] == line;
    assert line[0..] == line;
    LineThereAndBack(TypesOf(fields), row, line, 0);
  }

  // ----------------------------------------------------------------- which columns a tree visits

  function PickFields(n: Node, at: nat): seq<Field>
    decreases n, 1
  {
    match n
    case Column(Some(t)) => [Field(t, at)]
    case Column(None) => [Field(Widthless, at)]
    case Struct(children) => PickAll(children, at)
    case Union(children) => if children == [] then [] else PickFields(children[0], at)
    case Unsupported => []
  }

  function PickAll(ns: seq<Node>, at: nat): seq<Field>
    decreases ns, 0
  {
    if ns == [] then []
    else
      var before := ns[..|ns| - 1];
      PickAll(before, at) + PickFields(ns[|ns| - 1], at + SumOf(PlainSizes(before)))
  }

  /** Every visited column with a width sits where the intended layout puts it. */
  lemma {:induction false} FieldsArePlaced(n: Node, at: nat, room: nat)
    requires Height(n) <= room
    ensures forall f | f in PickFields(n, at) ::
              f.typ == Widthless || Placement(f.offset, TypeLen(f.typ)) in Layout(n, at, room)
    decreases n, 1
  {
    match n
    case Struct(children) => AllFieldsArePlaced(children, at, room - 1);
    case Union(children) =>
      if children != [] {
        FirstMember(children, at, room - 1);
        FieldsArePlaced(children[0], at, room - 1);
      }
    case _ =>
  }

  lemma {:induction false} AllFieldsArePlaced(ns: seq<Node>, at: nat, room: nat)
    requires HeightAll(ns) <= room
    ensures forall f | f in PickAll(ns, at) ::
              f.typ == Widthless || Placement(f.offset, TypeLen(f.typ)) in LayoutMembers(ns, at, room, false)
    decreases ns, 0
  {
    if ns != [] {
      var before := ns[..|ns| - 1];
      AllFieldsArePlaced(before, at, room);
      SizesArePlain(before, room);
      FieldsArePlaced(ns[|ns| - 1], at + SumOf(PlainSizes(before)), room);
    }
  }

  lemma {:induction false} FirstMember(ns: seq<Node>, at: nat, room: nat)
    requires ns != [] && HeightAll(ns) <= room
    ensures Height(ns[0]) <= room
    ensures forall p | p in Layout(ns[0], at, room) :: p in LayoutMembers(ns, at, room, true)
    decreases |ns|
  {
    if |ns| > 1 {
      FirstMember(ns[..|ns| - 1], at, room);
    } else {
      assert ns[..0] == [];
    }
  }

  /** The trees whose parse position keeps up with the layout: every visited column either is of a type
      the parser enters or has no width, and every visited union's first member is its largest. */
  predicate Aligned(n: Node)
    decreases n, 1
  {
    match n
    case Column(Some(t)) => Advance(t) == TypeLen(t)
    case Struct(children) => AlignedAll(children)
    case Union(children) => children != [] && Aligned(children[0]) && PlainSize(children[0]) == PlainSize(n)
    case _ => true
  }

  predicate AlignedAll(ns: seq<Node>)
    decreases ns, 0
  {
    ns == [] || (AlignedAll(ns[..|ns| - 1]) && Aligned(ns[|ns| - 1]))
  }

  /** Where the fields end if each starts where the one before it ends; -1 otherwise. */
  function EndOf(fields: seq<Field>, from: nat): int {
    if fields == [] then from
    else if fields[0].offset != from then -1
    else EndOf(fields[1..], from + Advance(fields[0].typ))
  }

  lemma {:induction false} EndIs(fields: seq<Field>, from: nat, end: nat)
    requires EndOf(fields, from) == end
    ensures Sequential(fields, from) && from + AdvanceAll(TypesOf(fields)) == end
    decreases |fields|
  {
    if fields != [] {
      EndIs(fields[1..], from + Advance(fields[0].typ), end);
      TypesOfFront(fields);
    }
  }

  lemma {:induction false} EndFront(f: Field, rest: seq<Field>, from: nat)
    ensures EndOf([f] + rest, from) == if f.offset == from then EndOf(rest, from + Advance(f.typ)) else -1
  {
    assert ([f] + rest)[1..] == rest;
  }

  lemma {:induction false} EndConcat(a: seq<Field>, b: seq<Field>, from: nat, mid: nat)
    requires EndOf(a, from) == mid
    ensures EndOf(a + b, from) == EndOf(b, mid)
    decreases |a|
  {
    if a == [] {
      assert a + b == b;
    } else {
      var f, rest := a[0], a[1..];
      assert a == [f] + rest && a + b == [f] + (rest + b);
      EndFront(f, rest, from);
      EndFront(f, rest + b, from);
      EndConcat(rest, b, from + Advance(f.typ), mid);
    }
  }

  lemma {:induction false} EndParts(all: seq<Field>, a: seq<Field>, b: seq<Field>, from: nat, mid: nat)
    requires all == a + b && EndOf(a, from) == mid
    ensures EndOf(all, from) == EndOf(b, mid)
  {
    EndConcat(a, b, from, mid);
  }

  lemma {:induction false} ColumnEnd(f: Field)
    ensures EndOf([f], f.offset) == f.offset + Advance(f.typ)
  {
    assert [f][1..] == [];
  }

  lemma {:induction false} AlignedEnd(n: Node, at: nat)
    requires Aligned(n)
    ensures EndOf(PickFields(n, at), at) == at + PlainSize(n)
    decreases n, 1
  {
    match n
    case Column(Some(t)) => ColumnEnd(Field(t, at));
    case Column(None) => ColumnEnd(Field(Widthless, at));
    case Struct(children) => AllAlignedEnd(children, at);
    case Union(children) => AlignedEnd(children[0], at);
    case Unsupported =>
  }

  lemma {:induction false} AllAlignedEnd(ns: seq<Node>, at: nat)
    requires AlignedAll(ns)
    ensures EndOf(PickAll(ns, at), at) == at + SumOf(PlainSizes(ns))
    decreases ns, 0
  {
    if ns != [] {
      var before, n := ns[..|ns| - 1], ns[|ns| - 1];
      var mid := at + SumOf(PlainSizes(before));
      AllAlignedEnd(before, at);
      AlignedEnd(n, mid);
      PickedStep(ns, before, n, at, mid);
      EndParts(PickAll(ns, at), PickAll(before, at), PickFields(n, mid), at, mid);
    }
  }

  /** In an aligned tree the visited columns are sequential and the bytes they take are the tree's size. */
  lemma {:induction false} AlignedIsSequential(n: Node, at: nat)
    requires Aligned(n)
    ensures Sequential(PickFields(n, at), at) && AdvanceAll(TypesOf(PickFields(n, at))) == PlainSize(n)
  {
    AlignedEnd(n, at);
    EndIs(PickFields(n, at), at, at + PlainSize(n));
  }

  lemma {:induction false} PickedStep(ns: seq<Node>, before: seq<Node>, n: Node, at: nat, mid: nat)
    requires ns != [] && before == ns[..|ns| - 1] && n == ns[|ns| - 1] && mid == at + SumOf(PlainSizes(before))
    ensures PickAll(ns, at) == PickAll(before, at) + PickFields(n, mid)
    ensures at + SumOf(PlainSizes(ns)) == mid + PlainSize(n)
  {
    SizesStep(ns, before, n);
  }

  lemma {:induction false} SizesStep(ns: seq<Node>, before: seq<Node>, n: Node)
    requires ns != [] && before == ns[..|ns| - 1] && n == ns[|ns| - 1]
    ensures SumOf(PlainSizes(ns)) == SumOf(PlainSizes(before)) + PlainSize(n)
  {
    Snoc(PlainSizes(before), PlainSize(n));
  }

  // ----------------------------------------------------------------- visited columns share no byte

  /** Columns inside a range, each ending before the later ones begin. */
  ghost predicate InOrder(fields: seq<Field>, from: nat, to: nat) {
    && (forall f | f in fields :: from <= f.offset && f.offset + TypeLen(f.typ) <= to)
    && forall j, k | 0 <= j < k < |fields| :: fields[j].offset + TypeLen(fields[j].typ) <= fields[k].offset
  }

  lemma {:induction false} InOrderConcat(all: seq<Field>, a: seq<Field>, b: seq<Field>, from: nat, mid: nat, to: nat)
    requires all == a + b && from <= mid <= to && InOrder(a, from, mid) && InOrder(b, mid, to)
    ensures InOrder(all, from, to)
  {
    forall j, k | 0 <= j < k < |all|
      ensures all[j].offset + TypeLen(all[j].typ) <= all[k].offset
    {
      if j < |a| <= k {
        assert a[j] in a && b[k - |a|] in b;
      }
    }
  }

  lemma {:induction false} FirstSize(ns: seq<Node>)
    requires ns != []
    ensures PlainSize(ns[0]) <= MaxOf(PlainSizes(ns))
    decreases |ns|
  {
    var before, n := ns[..|ns| - 1], ns[|ns| - 1];
    Snoc(PlainSizes(before), PlainSize(n));
    if |ns| > 1 {
      FirstSize(before);
    }
  }

  /** For every tree, unions included, the visited columns lie inside it and share no byte, whatever their
      types. */
  lemma {:induction false} VisitedInOrder(n: Node, at: nat)
    ensures InOrder(PickFields(n, at), at, at + PlainSize(n))
    decreases n, 1
  {
    match n
    case Struct(children) => AllVisitedInOrder(children, at);
    case Union(children) =>
      if children != [] {
        FirstSize(children);
        VisitedInOrder(children[0], at);
      }
    case _ =>
  }

  lemma {:induction false} AllVisitedInOrder(ns: seq<Node>, at: nat)
    ensures InOrder(PickAll(ns, at), at, at + SumOf(PlainSizes(ns)))
    decreases ns, 0
  {
    if ns != [] {
      var before, n := ns[..|ns| - 1], ns[|ns| - 1];
      var mid := at + SumOf(PlainSizes(before));
      AllVisitedInOrder(before, at);
      VisitedInOrder(n, mid);
      PickedStep(ns, before, n, at, mid);
      InOrderConcat(PickAll(ns, at), PickAll(before, at), PickFields(n, mid), at, mid, mid + PlainSize(n));
    }
  }

  /**
   From configuration to codec: a body tree within the stack that is faithful and aligned is compiled to
   an entry size equal to the bytes the parser consumes, with its visited columns sequential and each at
   its compiled offset.
   */
  lemma {:induction false} CompiledRecord(n: Node, r: Regs)
    requires Height(n) <= MAX_STACK_DEPTH && Faithful(n, MAX_STACK_DEPTH) && Aligned(n) && r.offset == 0
    ensures var fields := PickFields(n, 0);
            var (r', placed) := Parse(n, r, MAX_STACK_DEPTH);
            && r'.offset == AdvanceAll(TypesOf(fields)) == PlainSize(n)
            && Sequential(fields, 0)
            && forall f | f in fields :: f.typ == Widthless || Placement(f.offset, TypeLen(f.typ)) in placed
  {
    FaithfulIsRight(n, r, MAX_STACK_DEPTH);
    SizeIsPlainSize(n, MAX_STACK_DEPTH);
    AlignedIsSequential(n, 0);
    FieldsArePlaced(n, 0, MAX_STACK_DEPTH);
  }

  lemma {:induction false} AdvanceAllConcat(a: seq<Field>, b: seq<Field>)
    ensures AdvanceAll(TypesOf(a + b)) == AdvanceAll(TypesOf(a)) + AdvanceAll(TypesOf(b))
    decreases |a|
  {
    if a == [] {
      assert a + b == b;
    } else {
      assert (a + b)[1..] == a[1..] + b;
      TypesOfFront(a);
      TypesOfFront(a + b);
      AdvanceAllConcat(a[1..], b);
    }
  }

  /** The fields take at most `size` bytes, and exactly `size` when `aligned`. */
  ghost predicate Fills(fields: seq<Field>, size: nat, aligned: bool) {
    AdvanceAll(TypesOf(fields)) <= size && (AdvanceAll(TypesOf(fields)) == size <==> aligned)
  }

  lemma {:induction false} FillsConcat(a: seq<Field>, b: seq<Field>, sizeA: nat, sizeB: nat,
                                       alignedA: bool, alignedB: bool)
    requires Fills(a, sizeA, alignedA) && Fills(b, sizeB, alignedB)
    ensures Fills(a + b, sizeA + sizeB, alignedA && alignedB)
  {
    AdvanceAllConcat(a, b);
  }

  /** The parser's own length check, over a union-free tree: it enters as many bytes as the tree's length
      exactly when the tree is aligned, and otherwise fewer. */
  lemma {:induction false} LengthCheckIffAligned(n: Node, at: nat)
    requires UnionFree(n)
    ensures Fills(PickFields(n, at), PlainSize(n), Aligned(n))
    decreases n, 1
  {
    match n
    case Column(o) => TypesOfFront(PickFields(n, at));
    case Struct(children) => LengthChecksIffAligned(children, at);
    case _ =>
  }

  /** From configuration to codec, over a union-free body within the stack: the compiled entry size is the
      number of bytes the parser consumes exactly if the body is faithful and aligned; else it is greater. */
  lemma {:induction false} EntrySizeIsParsedIff(n: Node, r: Regs)
    requires UnionFree(n) && Height(n) <= MAX_STACK_DEPTH && r.offset == 0
    ensures var size, parsed := Parse(n, r, MAX_STACK_DEPTH).0.offset, AdvanceAll(TypesOf(PickFields(n, 0)));
            parsed <= size && (parsed == size <==> Faithful(n, MAX_STACK_DEPTH) && Aligned(n))
  {
    WalkIsLate(n, r, 0, MAX_STACK_DEPTH);
    EndRightIffFaithful(n, r, MAX_STACK_DEPTH);
    SizeIsPlainSize(n, MAX_STACK_DEPTH);
    LengthCheckIffAligned(n, 0);
  }

  lemma {:induction false} LengthChecksIffAligned(ns: seq<Node>, at: nat)
    requires UnionFreeAll(ns)
    ensures Fills(PickAll(ns, at), SumOf(PlainSizes(ns)), AlignedAll(ns))
    decreases ns, 0
  {
    if ns != [] {
      var before, n := ns[..|ns| - 1], ns[|ns| - 1];
      var size := SumOf(PlainSizes(before));
      LengthChecksIffAligned(before, at);
      LengthCheckIffAligned(n, at + size);
      PickedStep(ns, before, n, at, at + size);
      FillsParts(PickAll(ns, at), PickAll(before, at), PickFields(n, at + size), SumOf(PlainSizes(ns)),
                 size, PlainSize(n), AlignedAll(ns), AlignedAll(before), Aligned(n));
    }
  }

  lemma {:induction false} FillsParts(all: seq<Field>, a: seq<Field>, b: seq<Field>, total: nat,
                                      sizeA: nat, sizeB: nat, aligned: bool, alignedA: bool, alignedB: bool)
    requires all == a + b && total == sizeA + sizeB && aligned == (alignedA && alignedB)
    requires Fills(a, sizeA, alignedA) && Fills(b, sizeB, alignedB)
    ensures Fills(all, total, aligned)
  {
    FillsConcat(a, b, sizeA, sizeB, alignedA, alignedB);
  }

  // ----------------------------------------------------------------- what the types hold

  /** One more than the greatest number an unsigned type is for. */
  function Capacity(typ: AutoType): Option<nat> {
    match typ
    case UInt64 | RealTime | RealTimeMs => Some(0x1_0000_0000_0000_0000)
    case UInt32 => Some(0x1_0000_0000)
    case UInt16 => Some(0x1_0000)
    case UInt8 => Some(0x100)
    case _ => None
  }

  lemma {:induction false} PowersOf256()
    ensures Pow256(1) == 0x100 && Pow256(2) == 0x1_0000 && Pow256(4) == 0x1_0000_0000
    ensures Pow256(8) == 0x1_0000_0000_0000_0000
  {
    EightBytes();
  }

  /** An unsigned column is as wide as its numbers need, and no wider; a signed one is as wide as its unsigned
      twin; text columns have room for the 256 bytes the codec copies. */
  lemma {:induction false} ColumnHolds(typ: AutoType, v: nat)
    ensures Capacity(typ).Some? ==> (FromWord(ToWord(v, TypeLen(typ))) == v <==> v < Capacity(typ).value)
    ensures TypeLen(Int64) == TypeLen(UInt64) && TypeLen(Int32) == TypeLen(UInt32)
    ensures TypeLen(Int16) == TypeLen(UInt16) && TypeLen(Int8) == TypeLen(UInt8)
    ensures TypeLen(Text) == TypeLen(ByteArray) == |CString(seq(256, _ => COMMA))| && TypeLen(Widthless) == 0
  {
    PowersOf256();
    WordCuts(v, TypeLen(typ));
    FindIs(seq(256, _ => COMMA), NUL, 0, 256);
    if Capacity(typ).Some? {
      assert Pow256(TypeLen(typ)) == Capacity(typ).value;
      RemainderIs(v, Capacity(typ).value);
    }
  }

  lemma {:induction false} RemainderIs(v: nat, n: nat)
    requires n > 0
    ensures v % n == v <==> v < n
  {
    if v < n {
      DivModUnique(v, n, 0, v);
    }
  }

  /** What a row of one column prints: the decimal number for the three 8-byte types, the string for the two
      text types, and nothing at all for any other type, which is an exception. */
  lemma {:induction false} OneColumnPrints(typ: AutoType, row: seq<Byte>)
    requires |row| >= 256
    ensures FieldsFit([Field(typ, 0)], |row|)
    ensures RowText([Field(typ, 0)], row) ==
            match typ
            case UInt64 | RealTime | RealTimeMs => Some(Digits(FromWord(row[..8])) + [NEWLINE])
            case Text | ByteArray => Some(CString(row[..256]) + [NEWLINE])
            case _ => None
  {
    var fields := [Field(typ, 0)];
    assert fields[..0] == [];
    var text := FieldText(fields[0], row);
    assert FieldTexts(fields, row) == [] + text == text;
    if text != [] {
      assert text[..|text| - 1] == if IsNumber(typ) then Digits(FromWord(row[..8])) else CString(row[..256]);
    }
  }

  /** What a column of any type takes from a line: the token up to the next comma, with the bytes of its kind;
      behind the line's end there is none. */
  lemma {:induction false} TokenTaken(typ: AutoType, line: seq<Byte>, m: nat)
    ensures m > |line| <==> EnterField(typ, line, m) == Thrown
    ensures m <= |line| ==>
            var n := Find(line, COMMA, m);
            match EnterField(typ, line, m)
            case Entered(bytes, next) =>
              && next == n + 1
              && match typ {
                   case UInt64 | RealTime | RealTimeMs => bytes == ToWord(Atoll(line[m..n]) % TWO_64, 8)
                   case Text | ByteArray => |bytes| == 256 && CString(bytes) == CString(line[m..n])
                   case _ => bytes == []
                 }
            case Overrun => (typ == Text || typ == ByteArray) && |CString(line[m..n])| >= 256
            case Thrown => false
  {
    if m <= |line| && IsText(typ) && EnterField(typ, line, m).Entered? {
      var s := CString(line[m..Find(line, COMMA, m)]);
      FindIs(s + Zeros(STR_LEN - |s|), NUL, 0, |s|);
    }
  }

  /** A column that is not printed is still parsed for: the line of such a column and a number behind it throws. */
  lemma {:induction false} UnprintedColumnThrows(typ: AutoType, v: nat)
    requires typ !in {UInt64, RealTime, RealTimeMs, Text, ByteArray}
    ensures EnterAll([typ, UInt64], Digits(v), 0) == Thrown
  {
    FindIs(Digits(v), COMMA, 0, |Digits(v)|);
    TokenTaken(typ, Digits(v), 0);
    assert [typ, UInt64][1..] == [UInt64];
  }
}
