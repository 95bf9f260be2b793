/**
 The line shuffler for files up to its size limit: the newline-terminated lines before the first NUL are
 indexed, the index array is shuffled in place by xor swaps, and each line is written out as soon as its
 position is settled.
 */
module Shuffle {
  import opened FisherYates

  /** Room for line records: 16 MiB of 16-byte records. */
  const MAX_LINES: nat := 0x10_0000

  const NUL: char := '\0'
  const NEWLINE: char := '\n'

  datatype LineData = LineData(start: nat, len: nat)

  // ----------------------------------------------------------------- the lines of a text

  /** The bytes the scan reads: those before the first NUL. */
  function Scanned(text: string): (s: string)
    ensures s <= text && NUL !in s
    ensures s == text || text[|s|] == NUL
  {
    if text == [] || text[0] == NUL then [] else [text[0]] + Scanned(text[1..])
  }

  /** The complete lines of a scanned text, newlines included, and the unfinished line behind them. */
  function Split(s: string): (seq<string>, string) {
    if s == [] then ([], [])
    else
      var (lines, rest) := Split(s[..|s| - 1]);
      var c := s[|s| - 1];
      if c == NEWLINE then (lines + [rest + [c]], []) else (lines, rest + [c])
  }

  function Lines(text: string): seq<string> {
    Split(Scanned(text)).0
  }

  function Flatten(lines: seq<string>): string {
    if lines == [] then [] else Flatten(lines[..|lines| - 1]) + lines[|lines| - 1]
  }

  lemma {:induction false} FlattenSnoc(lines: seq<string>, line: string)
    ensures Flatten(lines + [line]) == Flatten(lines) + line
  {
    assert (lines + [line])[..|lines|] == lines;
  }

  /** Splitting loses nothing. */
  lemma {:induction false} SplitRejoins(s: string)
    ensures Flatten(Split(s).0) + Split(s).1 == s
    decreases |s|
  {
    if s != [] {
      SplitRejoins(s[..|s| - 1]);
      var (lines, rest) := Split(s[..|s| - 1]);
      var c := s[|s| - 1];
      assert s == Flatten(lines) + (rest + [c]);
      FlattenSnoc(lines, rest + [c]);
    }
  }

  /** Every line holds exactly one newline, its last character, and the unfinished line holds none. */
  lemma {:induction false} LinesEndInNewline(s: string)
    ensures forall k | 0 <= k < |Split(s).0| ::
              var line := Split(s).0[k]; line != [] && line[|line| - 1] == NEWLINE && NEWLINE !in line[..|line| - 1]
    ensures NEWLINE !in Split(s).1
    decreases |s|
  {
    if s != [] {
      LinesEndInNewline(s[..|s| - 1]);
      var rest := Split(s[..|s| - 1]).1;
      assert (rest + [NEWLINE])[..|rest|] == rest;
    }
  }

  // ----------------------------------------------------------------- the xor swap

  /** Bitwise exclusive or of two unsigned numbers. */
  function Xor(x: nat, y: nat): nat
    decreases x + y
  {
    if x == 0 && y == 0 then 0 else 2 * Xor(x / 2, y / 2) + if x % 2 == y % 2 then 0 else 1
  }

  lemma {:induction false} XorTwice(x: nat, y: nat)
    ensures Xor(Xor(y, x), x) == y && Xor(Xor(y, x), y) == x
    decreases x + y
  {
    if x != 0 || y != 0 {
      XorTwice(x / 2, y / 2);
      var z := Xor(y, x);
      assert z / 2 == Xor(y / 2, x / 2) && z % 2 == if x % 2 == y % 2 then 0 else 1;
    }
  }

  /** Three xors exchange two different cells. */
  method XorSwap(a: array<nat>, i: nat, j: nat)
    requires i < a.Length && j < a.Length && i != j
    modifies a
    ensures a[..] == Swapped(old(a[..]), i, j)
  {
    XorTwice(a[i], a[j]);
    a[j] := Xor(a[j], a[i]);
    a[i] := Xor(a[j], a[i]);
    a[j] := Xor(a[j], a[i]);
  }

  // ----------------------------------------------------------------- scanning

  function Cut(text: string, d: LineData): string
    requires d.start + d.len <= |text|
  {
    text[d.start..d.start + d.len]
  }

  /** The first |lines| records delimit the lines, and the index array counts them. */
  ghost predicate Recorded(text: string, lines: seq<string>, records: seq<LineData>) {
    && |lines| <= |records|
    && forall k | 0 <= k < |lines| ::
         records[k].start + records[k].len <= |text| && Cut(text, records[k]) == lines[k]
  }

  ghost predicate Counts(index: seq<nat>, n: nat) {
    n <= |index| && n <= MAX_LINES && forall k | 0 <= k < n :: index[k] == k
  }

  /** Enters one more line. */
  method AddLine(text: string, records: array<LineData>, index: array<nat>, ghost lines: seq<string>,
                 lineCount: nat, d: LineData)
    requires lineCount == |lines| < MAX_LINES <= records.Length && MAX_LINES <= index.Length
    requires d.start + d.len <= |text|
    requires Recorded(text, lines, records[..]) && Counts(index[..], lineCount)
    modifies records, index
    ensures Recorded(text, lines + [Cut(text, d)], records[..]) && Counts(index[..], lineCount + 1)
  {
    records[lineCount] := d;
    index[lineCount] := lineCount;
    ghost var more := lines + [Cut(text, d)];
    forall k | 0 <= k < |more|
      ensures records[..][k].start + records[..][k].len <= |text| && Cut(text, records[..][k]) == more[k]
    {
      if k < lineCount {
        assert records[k] == old(records[..])[k];
      }
    }
  }

  /** The scan of one more character. */
  lemma {:induction false} SplitStep(text: string, scanned: string, point: nat, ptr: nat)
    requires scanned <= text && point <= ptr < |scanned| && Split(scanned[..ptr]).1 == text[point..ptr]
    ensures var (lines, rest) := Split(scanned[..ptr]);
            Split(scanned[..ptr + 1]) ==
            if text[ptr] == NEWLINE then (lines + [text[point..ptr + 1]], []) else (lines, text[point..ptr + 1])
    ensures |Split(scanned[..ptr + 1]).0| <= |Split(scanned).0|
  {
    assert scanned[..ptr + 1][..ptr] == scanned[..ptr];
    assert text[point..ptr] + [text[ptr]] == text[point..ptr + 1];
    SplitGrows(scanned, ptr + 1);
  }

  /** The scan before character ptr, with the current line begun at `point`. */
  ghost predicate Progress(text: string, ptr: nat, point: nat, lineCount: nat,
                           records: seq<LineData>, index: seq<nat>)
  {
    && point <= ptr <= |Scanned(text)| && lineCount <= MAX_LINES
    && var (lines, rest) := Split(Scanned(text)[..ptr]);
    && rest == text[point..ptr] && lineCount == |lines|
    && Recorded(text, lines, records) && Counts(index, lineCount)
  }

  lemma {:induction false} SameLine(text: string, ptr: nat, point: nat, lineCount: nat,
                                    records: seq<LineData>, index: seq<nat>)
    requires Progress(text, ptr, point, lineCount, records, index)
    requires ptr < |Scanned(text)| && text[ptr] != NEWLINE
    ensures Progress(text, ptr + 1, point, lineCount, records, index)
  {
    SplitStep(text, Scanned(text), point, ptr);
  }

  method EndLine(text: string, ptr: nat, point: nat, count: nat, lineCount: nat,
                 records: array<LineData>, index: array<nat>)
    requires records.Length == MAX_LINES && index.Length == 2 * MAX_LINES
    requires Progress(text, ptr, point, lineCount, records[..], index[..])
    requires ptr < |Scanned(text)| && text[ptr] == NEWLINE && point + count == ptr + 1
    requires lineCount < MAX_LINES
    modifies records, index
    ensures Progress(text, ptr + 1, ptr + 1, lineCount + 1, records[..], index[..])
  {
    SplitStep(text, Scanned(text), point, ptr);
    AddLine(text, records, index, Split(Scanned(text)[..ptr]).0, lineCount, LineData(point, count));
  }

  /** Records the complete lines, unless there are more than the records have room for. */
  method ScanLines(text: string, records: array<LineData>, index: array<nat>) returns (ok: bool, lineCount: nat)
    requires records.Length == MAX_LINES && index.Length == 2 * MAX_LINES
    modifies records, index
    ensures ok <==> |Lines(text)| <= 1024 * 1024
    ensures ok ==> lineCount == |Lines(text)|
    ensures ok ==> Recorded(text, Lines(text), records[..]) && Counts(index[..], lineCount)
  {
    ok, lineCount := true, 0;
    var point: nat, count: nat, ptr: nat := 0, 0, 0;
    while ptr < |text| && text[ptr] != NUL
      invariant point + count == ptr
      invariant Progress(text, ptr, point, lineCount, records[..], index[..])
    {
      StillScanning(text, ptr);
      count := count + 1;
      if text[ptr] == NEWLINE {
        OneMoreLine(text, ptr, point, lineCount, records[..], index[..]);
        if lineCount >= MAX_LINES {
          return false, lineCount;
        }
        EndLine(text, ptr, point, count, lineCount, records, index);
        count := 0;
        lineCount := lineCount + 1;
        point := ptr + 1;
      } else {
        SameLine(text, ptr, point, lineCount, records[..], index[..]);
      }
      ptr := ptr + 1;
    }
    AllScanned(text, ptr, point, lineCount, records[..], index[..]);
  }

  lemma {:induction false} AllScanned(text: string, ptr: nat, point: nat, lineCount: nat,
                                      records: seq<LineData>, index: seq<nat>)
    requires Progress(text, ptr, point, lineCount, records, index)
    requires ptr >= |text| || text[ptr] == NUL
    ensures lineCount == |Lines(text)| && Recorded(text, Lines(text), records) && Counts(index, lineCount)
  {
    assert Scanned(text)[..ptr] == Scanned(text);
  }

  lemma {:induction false} OneMoreLine(text: string, ptr: nat, point: nat, lineCount: nat,
                                       records: seq<LineData>, index: seq<nat>)
    requires Progress(text, ptr, point, lineCount, records, index)
    requires ptr < |Scanned(text)| && text[ptr] == NEWLINE
    ensures lineCount < |Lines(text)|
  {
    SplitStep(text, Scanned(text), point, ptr);
  }

  /** Before the first NUL the scan goes on. */
  lemma {:induction false} StillScanning(text: string, ptr: nat)
    requires ptr <= |Scanned(text)| && ptr < |text| && text[ptr] != NUL
    ensures ptr < |Scanned(text)|
  {
  }

  /** A prefix has no more lines than the whole. */
  lemma {:induction false} SplitGrows(s: string, k: nat)
    requires k <= |s|
    ensures |Split(s[..k]).0| <= |Split(s).0|
    decreases |s|
  {
    if k == |s| {
      assert s[..k] == s;
    } else {
      SplitGrows(s[..|s| - 1], k);
      assert s[..|s| - 1][..k] == s[..k];
    }
  }

  // ----------------------------------------------------------------- permuted lines

  function Identity(n: nat): seq<nat> {
    seq(n, i => i)
  }

  /** The numbers below n, each once, in some order. */
  ghost predicate Permutes(order: seq<nat>, n: nat) {
    multiset(order) == multiset(Identity(n))
  }

  lemma {:induction false} PermutedBelow(order: seq<nat>, n: nat)
    requires Permutes(order, n)
    ensures |order| == n && Below(order, n)
  {
    assert |multiset(order)| == |order| && |multiset(Identity(n))| == n;
    forall k | 0 <= k < |order|
      ensures order[k] < n
    {
      assert order[k] in multiset(order);
      assert order[k] in Identity(n);
    }
  }

  predicate Below(order: seq<nat>, n: nat) {
    forall k | 0 <= k < |order| :: order[k] < n
  }

  function Arranged(lines: seq<string>, order: seq<nat>): (a: seq<string>)
    requires Below(order, |lines|)
  {
    seq(|order|, k requires 0 <= k < |order| => lines[order[k]])
  }

  lemma {:induction false} RemoveOne<T>(s: seq<T>, j: nat)
    requires j < |s|
    ensures multiset(s[..j] + s[j + 1..]) == multiset(s) - multiset{s[j]}
  {
    assert s == s[..j] + [s[j]] + s[j + 1..];
  }

  /** The characters of all the lines. */
  function Chars(lines: seq<string>): multiset<char> {
    if lines == [] then multiset{} else Chars(lines[..|lines| - 1]) + multiset(lines[|lines| - 1])
  }

  lemma {:induction false} CharsOfFlatten(lines: seq<string>)
    ensures multiset(Flatten(lines)) == Chars(lines)
    decreases |lines|
  {
    if lines != [] {
      CharsOfFlatten(lines[..|lines| - 1]);
    }
  }

  lemma {:induction false} CharsRemove(lines: seq<string>, j: nat)
    requires j < |lines|
    ensures Chars(lines) == Chars(lines[..j] + lines[j + 1..]) + multiset(lines[j])
    decreases |lines|
  {
    var before, last := lines[..|lines| - 1], lines[|lines| - 1];
    if j == |lines| - 1 {
      assert lines[..j] + lines[j + 1..] == before;
    } else {
      CharsRemove(before, j);
      var fewer := before[..j] + before[j + 1..];
      assert lines[..j] + lines[j + 1..] == fewer + [last];
      assert (fewer + [last])[..|fewer|] == fewer;
    }
  }

  lemma {:induction false} WrittenWithout(lines: seq<string>, order: seq<nat>, j: nat)
    requires Below(order, |lines|) && j < |order|
    ensures Below(order[..j] + order[j + 1..], |lines|)
    ensures Chars(Arranged(lines, order)) ==
            Chars(Arranged(lines, order[..j] + order[j + 1..])) + multiset(lines[order[j]])
  {
    var written := Arranged(lines, order);
    assert written[..j] + written[j + 1..] == Arranged(lines, order[..j] + order[j + 1..]);
    CharsRemove(written, j);
  }

  lemma {:induction false} PlaceOf(a: seq<nat>, b: seq<nat>) returns (j: nat)
    requires a != [] && multiset(a) == multiset(b)
    ensures j < |b| && b[j] == a[0]
    ensures multiset(a[..0] + a[1..]) == multiset(b[..j] + b[j + 1..])
  {
    assert a[0] in multiset(a);
    j :| 0 <= j < |b| && b[j] == a[0];
    RemoveOne<nat>(a, 0);
    RemoveOne<nat>(b, j);
  }

  /** The characters written depend only on which lines are written. */
  lemma {:induction false} OrderDoesNotMatter(lines: seq<string>, a: seq<nat>, b: seq<nat>)
    requires Below(a, |lines|) && Below(b, |lines|) && multiset(a) == multiset(b)
    ensures Chars(Arranged(lines, a)) == Chars(Arranged(lines, b))
    decreases |a|
  {
    if a == [] {
      assert |multiset(b)| == 0;
    } else {
      var j := PlaceOf(a, b);
      WrittenWithout(lines, a, 0);
      WrittenWithout(lines, b, j);
      OrderDoesNotMatter(lines, a[..0] + a[1..], b[..j] + b[j + 1..]);
    }
  }

  lemma {:induction false} PermutedText(lines: seq<string>, order: seq<nat>)
    requires Permutes(order, |lines|) && Below(order, |lines|)
    ensures multiset(Flatten(Arranged(lines, order))) == multiset(Flatten(lines))
    ensures |Flatten(Arranged(lines, order))| == |Flatten(lines)|
  {
    OrderDoesNotMatter(lines, order, Identity(|lines|));
    assert Arranged(lines, Identity(|lines|)) == lines;
    CharsOfFlatten(lines);
    CharsOfFlatten(Arranged(lines, order));
    assert |multiset(Flatten(lines))| == |Flatten(lines)|;
    assert |multiset(Flatten(Arranged(lines, order)))| == |Flatten(Arranged(lines, order))|;
  }

  lemma {:induction false} FlattenPrefix(lines: seq<string>, k: nat)
    requires k <= |lines|
    ensures |Flatten(lines[..k])| <= |Flatten(lines)|
    decreases |lines|
  {
    if k == |lines| {
      assert lines[..k] == lines;
    } else {
      FlattenPrefix(lines[..|lines| - 1], k);
      assert lines[..|lines| - 1][..k] == lines[..k];
    }
  }

  // ----------------------------------------------------------------- shuffling and writing

  /** Settles position i: a position from i on is swapped into it. */
  method Settle(index: array<nat>, i: nat, lineCount: nat, draw: nat)
    requires i < lineCount <= index.Length
    modifies index
    ensures index[..lineCount] == Swapped(old(index[..lineCount]), i, Partner(i, lineCount, draw))
  {
    var j := draw % (lineCount - i) + i;
    if j != i && j < lineCount {
      XorSwap(index, i, j);
    }
  }

  function Zeros(n: nat): string {
    seq(n, _ => NUL)
  }

  /** The output file when `written` has been written to it: the rest is still zero. */
  ghost predicate Written(out: string, written: string, size: nat) {
    |written| <= size && out == written + Zeros(size - |written|)
  }

  method CopyLine(text: string, d: LineData, out: array<char>, at: nat, ghost written: string)
    requires d.start + d.len <= |text| && at == |written| && at + d.len <= out.Length
    requires Written(out[..], written, out.Length)
    modifies out
    ensures Written(out[..], written + Cut(text, d), out.Length)
  {
    for i := 0 to d.len
      invariant forall k | 0 <= k < at :: out[k] == written[k]
      invariant forall k | at <= k < at + i :: out[k] == text[d.start + k - at]
      invariant forall k | at + i <= k < out.Length :: out[k] == NUL
    {
      out[at + i] := text[d.start + i];
    }
    assert out[..] == written + Cut(text, d) + Zeros(out.Length - at - d.len);
  }

  lemma {:induction false} RoomForLine(text: string, order: seq<nat>, i: nat)
    requires Permutes(order, |Lines(text)|) && Below(order, |Lines(text)|) && i < |order|
    ensures Flatten(Arranged(Lines(text), order[..i + 1])) ==
            Flatten(Arranged(Lines(text), order[..i])) + Lines(text)[order[i]]
    ensures |Flatten(Arranged(Lines(text), order[..i + 1]))| <= |text|
  {
    var lines := Lines(text);
    assert Arranged(lines, order[..i + 1]) == Arranged(lines, order[..i]) + [lines[order[i]]];
    FlattenSnoc(Arranged(lines, order[..i]), lines[order[i]]);
    assert Arranged(lines, order)[..i + 1] == Arranged(lines, order[..i + 1]);
    FlattenPrefix(Arranged(lines, order), i + 1);
    PermutedText(lines, order);
    SplitRejoins(Scanned(text));
  }

  /** The order the draws give the lines, after the first i steps. */
  function Order(text: string, draws: seq<nat>, i: nat): seq<nat>
    requires i <= |Lines(text)| <= |draws|
  {
    Shuffled(Identity(|Lines(text)|), Partners(|Lines(text)|, draws), i)
  }

  lemma {:induction false} OrderPermutes(text: string, draws: seq<nat>, i: nat)
    requires i <= |Lines(text)| <= |draws|
    ensures Permutes(Order(text, draws, i), |Lines(text)|) && Below(Order(text, draws, i), |Lines(text)|)
    ensures |Order(text, draws, i)| == |Lines(text)|
  {
    ShuffledPermutes(Identity(|Lines(text)|), Partners(|Lines(text)|, draws), i);
    PermutedBelow(Order(text, draws, i), |Lines(text)|);
  }

  /** The output after i steps: the first i lines of the order. */
  ghost predicate Emitted(text: string, draws: seq<nat>, i: nat, index: seq<nat>, out: string, at: nat)
    requires |Lines(text)| <= |draws|
  {
    && i <= |Lines(text)| <= |index| && index[..|Lines(text)|] == Order(text, draws, i)
    && Below(Order(text, draws, i)[..i], |Lines(text)|)
    && at == |Flatten(Arranged(Lines(text), Order(text, draws, i)[..i]))|
    && Written(out, Flatten(Arranged(Lines(text), Order(text, draws, i)[..i])), |text|)
  }

  /** The next position is settled, and the lines written stay the first of the order. */
  lemma {:induction false} NextOrder(text: string, draws: seq<nat>, i: nat)
    requires i < |Lines(text)| <= |draws|
    ensures var order, next := Order(text, draws, i), Order(text, draws, i + 1);
            && next == Swapped(order, i, Partner(i, |Lines(text)|, draws[i])) && next[..i] == order[..i]
            && Permutes(next, |Lines(text)|) && Below(next, |Lines(text)|)
  {
    SettledStays(Identity(|Lines(text)|), Partners(|Lines(text)|, draws), i, i + 1);
    OrderPermutes(text, draws, i);
    OrderPermutes(text, draws, i + 1);
  }

  /** One line of the output. */
  method EmitLine(text: string, records: array<LineData>, index: array<nat>, i: nat, lineCount: nat,
                  draws: seq<nat>, out: array<char>, at: nat)
    returns (next: nat)
    requires lineCount == |Lines(text)| <= |draws| && i < lineCount
    requires Recorded(text, Lines(text), records[..]) && out.Length == |text|
    requires Emitted(text, draws, i, index[..], out[..], at)
    modifies index, out
    ensures Emitted(text, draws, i + 1, index[..], out[..], next)
  {
    Settle(index, i, lineCount, draws[i]);
    NextOrder(text, draws, i);
    ghost var order := Order(text, draws, i + 1);
    assert index[..lineCount] == order;
    RoomForLine(text, order, i);
    var d := records[index[i]];
    CopyLine(text, d, out, at, Flatten(Arranged(Lines(text), order[..i])));
    next := at + d.len;
  }

  /** The whole shuffle: the output has the input's size and holds the input's complete lines, in the
      order the draws give, with zeros behind them. No output if there are more lines than records. */
  method SwapFileLines(text: string, draws: seq<nat>) returns (ok: bool, out: array<char>)
    requires |draws| >= |Lines(text)|
    ensures ok <==> |Lines(text)| <= 1024 * 1024
    ensures ok ==> fresh(out) && Below(Order(text, draws, |Lines(text)|), |Lines(text)|)
    ensures ok ==> out[..] == Output(text, Order(text, draws, |Lines(text)|))
  {
    var records := new LineData[MAX_LINES](_ => LineData(0, 0));
    var index := new nat[2 * MAX_LINES](_ => 0);
    var lineCount;
    ok, lineCount := ScanLines(text, records, index);
    out := new char[|text|](_ => NUL);
    if ok {
      WriteLines(text, draws, lineCount, records, index, out);
    }
  }

  /** Writes all lines in the order the draws give. */
  method WriteLines(text: string, draws: seq<nat>, lineCount: nat, records: array<LineData>, index: array<nat>,
                    out: array<char>)
    requires lineCount == |Lines(text)| <= |draws|
    requires Recorded(text, Lines(text), records[..]) && Counts(index[..], lineCount)
    requires out[..] == Zeros(|text|)
    modifies index, out
    ensures Below(Order(text, draws, lineCount), lineCount)
    ensures out[..] == Output(text, Order(text, draws, lineCount))
  {
    var at := 0;
    assert index[..lineCount] == Identity(lineCount);
    for i := 0 to lineCount
      invariant Emitted(text, draws, i, index[..], out[..], at)
      invariant Recorded(text, Lines(text), records[..])
    {
      at := EmitLine(text, records, index, i, lineCount, draws, out, at);
    }
    ghost var order := Order(text, draws, lineCount);
    OrderPermutes(text, draws, lineCount);
    assert order[..lineCount] == order;
  }

  function Output(text: string, order: seq<nat>): string
    requires Below(order, |Lines(text)|)
  {
    var written := Flatten(Arranged(Lines(text), order));
    written + if |written| <= |text| then Zeros(|text| - |written|) else []
  }

  /** What the scan leaves out: an unfinished last line, and everything from the first NUL on. */
  function Dropped(text: string): string
    requires |Flatten(Lines(text))| <= |text|
  {
    text[|Flatten(Lines(text))|..]
  }

  lemma {:induction false} OnlyZeros(rest: string)
    requires multiset(rest) == multiset(Zeros(|rest|))
    ensures rest == Zeros(|rest|)
  {
    forall k | 0 <= k < |rest|
      ensures rest[k] == NUL
    {
      assert rest[k] in multiset(rest);
      assert rest[k] in Zeros(|rest|);
    }
  }

  /** Two texts of which one ends in zeros and whose beginnings hold the same characters. */
  lemma {:induction false} SameCharacters(out: string, text: string, moved: string, kept: string, rest: string)
    requires multiset(moved) == multiset(kept) && |moved| == |kept|
    requires out == moved + Zeros(|rest|) && text == kept + rest
    ensures |out| == |text|
    ensures multiset(out) == multiset(text) <==> rest == Zeros(|rest|)
  {
    assert multiset(out) - multiset(moved) == multiset(Zeros(|rest|));
    assert multiset(text) - multiset(kept) == multiset(rest);
    if multiset(out) == multiset(text) {
      OnlyZeros(rest);
    }
  }

  lemma {:induction false} LinesComeFirst(text: string)
    ensures |Flatten(Lines(text))| <= |text| && text == Flatten(Lines(text)) + Dropped(text)
  {
    SplitRejoins(Scanned(text));
  }

  /** Whatever the draws, the output has the input's size, and it holds the same characters if and only if
      nothing but NULs follows the last complete line. */
  lemma {:induction false} NothingLostIffNewlineTerminated(text: string, draws: seq<nat>)
    requires |Lines(text)| <= |draws|
    ensures var order := Order(text, draws, |Lines(text)|);
            && Permutes(order, |Lines(text)|) && Below(order, |Lines(text)|)
            && |Output(text, order)| == |text| && |Flatten(Lines(text))| <= |text|
            && (multiset(Output(text, order)) == multiset(text) <==> Dropped(text) == Zeros(|Dropped(text)|))
  {
    var order := Order(text, draws, |Lines(text)|);
    OrderPermutes(text, draws, |Lines(text)|);
    LinesComeFirst(text);
    PermutedText(Lines(text), order);
    SameCharacters(Output(text, order), text, Flatten(Arranged(Lines(text), order)), Flatten(Lines(text)),
                   Dropped(text));
  }

  /** Every order of the lines is the outcome of some draws. */
  lemma {:induction false} AnyOrderIsPossible(text: string, order: seq<nat>) returns (draws: seq<nat>)
    requires Permutes(order, |Lines(text)|)
    ensures |draws| == |Lines(text)| && Order(text, draws, |Lines(text)|) == order
  {
    draws := EveryOrderReached(Identity(|Lines(text)|), order);
  }
}
