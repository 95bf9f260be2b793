/**
 The merging generator: sub-values are packed into one 64-bit word, each shifted behind the bits of those
 before it and or-ed in.
 */
module Merge {
  import opened Arithmetic
  import opened Options

  const WORD_BITS: nat := 64
  const TWO_64: nat := 0x1_0000_0000_0000_0000

  /** A sub-column's value and its configured width, an 8-bit number. */
  datatype SubValue = SubValue(value: nat, bitLen: nat) {
    predicate Valid() {
      value < TWO_64 && bitLen < 256
    }
  }

  function Pow2(k: nat): (p: nat)
    ensures p >= 1
  {
    if k == 0 then 1 else 2 * Pow2(k - 1)
  }

  /** Bitwise or of two unsigned numbers. */
  function Or(x: nat, y: nat): nat
    decreases x + y
  {
    if x == 0 && y == 0 then 0 else 2 * Or(x / 2, y / 2) + if x % 2 == 0 && y % 2 == 0 then 0 else 1
  }

  /** A 64-bit left shift. */
  function Shl(v: nat, k: nat): nat {
    v * Pow2(k) % TWO_64
  }

  /** Bits offset to offset + width - 1 of a word. */
  function Extract(word: nat, offset: nat, width: nat): nat {
    word / Pow2(offset) % Pow2(width)
  }

  /** The shift counter behind the fields: an 8-bit number. */
  function LeftBit(fields: seq<SubValue>): nat {
    if fields == [] then 0 else (LeftBit(fields[..|fields| - 1]) + fields[|fields| - 1].bitLen) % 256
  }

  /** The packed word; nothing when a shift of 64 or more bits leaves it undefined. */
  function Merged(fields: seq<SubValue>): Option<nat> {
    if fields == [] then Some(0)
    else
      var before, last := fields[..|fields| - 1], fields[|fields| - 1];
      match Merged(before)
      case Some(word) =>
        if LeftBit(before) < WORD_BITS then Some(Or(word, Shl(last.value, LeftBit(before)))) else None
      case None => None
  }

  method Calculate(fields: seq<SubValue>) returns (merged: Option<nat>)
    requires forall i | 0 <= i < |fields| :: fields[i].Valid()
    ensures merged == Merged(fields)
  {
    var value := 0;
    var leftBit := 0;
    for i := 0 to |fields|
      invariant Merged(fields[..i]) == Some(value) && leftBit == LeftBit(fields[..i])
    {
      assert fields[..i + 1][..i] == fields[..i];
      if leftBit >= WORD_BITS {
        StaysUndefined(fields, i + 1);
        return None;
      }
      value := Or(value, Shl(fields[i].value, leftBit));
      leftBit := (leftBit + fields[i].bitLen) % 256;
    }
    assert fields[..|fields|] == fields;
    return Some(value);
  }

  lemma {:induction false} StaysUndefined(fields: seq<SubValue>, i: nat)
    requires i <= |fields| && Merged(fields[..i]) == None
    ensures Merged(fields) == None
    decreases |fields| - i
  {
    if i == |fields| {
      assert fields[..i] == fields;
    } else {
      assert fields[..i + 1][..i] == fields[..i];
      StaysUndefined(fields, i + 1);
    }
  }

  // ----------------------------------------------------------------- the weighted sum

  /** The fields' widths, without wrap-around. */
  function Width(fields: seq<SubValue>): nat {
    if fields == [] then 0 else Width(fields[..|fields| - 1]) + fields[|fields| - 1].bitLen
  }

  /** Each value times the weight of its first bit. */
  function WeightedSum(fields: seq<SubValue>): nat {
    if fields == [] then 0
    else
      var before := fields[..|fields| - 1];
      WeightedSum(before) + fields[|fields| - 1].value * Pow2(Width(before))
  }

  predicate Fits(f: SubValue) {
    f.value < Pow2(f.bitLen)
  }

  predicate AllFit(fields: seq<SubValue>) {
    forall i | 0 <= i < |fields| :: Fits(fields[i])
  }

  /** Every field starts inside the word, and together they do not leave it. */
  predicate Packable(fields: seq<SubValue>) {
    Width(fields) <= WORD_BITS && forall i | 0 <= i < |fields| :: Width(fields[..i]) < WORD_BITS
  }

  lemma {:induction false} PackableInit(fields: seq<SubValue>)
    requires Packable(fields) && fields != []
    ensures var before := fields[..|fields| - 1];
            Packable(before) && Width(before) < WORD_BITS
            && Width(before) + fields[|fields| - 1].bitLen <= WORD_BITS
  {
    var before := fields[..|fields| - 1];
    forall i | 0 <= i < |before|
      ensures Width(before[..i]) < WORD_BITS
    {
      assert before[..i] == fields[..i];
    }
  }

  lemma {:induction false} PowAdd(a: nat, b: nat)
    ensures Pow2(a + b) == Pow2(a) * Pow2(b)
    decreases a
  {
    if a != 0 {
      PowAdd(a - 1, b);
      assert Pow2(a + b) == 2 * Pow2(a - 1 + b);
      assert 2 * (Pow2(a - 1) * Pow2(b)) == (2 * Pow2(a - 1)) * Pow2(b);
    }
  }

  lemma {:induction false} PowMono(a: nat, b: nat)
    requires a <= b
    ensures Pow2(a) <= Pow2(b)
    decreases b
  {
    if a < b {
      PowMono(a, b - 1);
    }
  }

  lemma {:induction false} OrZero(y: nat)
    ensures Or(0, y) == y
    decreases y
  {
    if y != 0 {
      OrZero(y / 2);
    }
  }

  lemma {:induction false} OrEven(x: nat, half: nat)
    ensures Or(x, 2 * half) == 2 * Or(x / 2, half) + x % 2
  {
    if x == 0 && half == 0 {
    } else {
      assert (2 * half) / 2 == half && (2 * half) % 2 == 0;
    }
  }

  lemma {:induction false} DoubleWeight(v: nat, k: nat)
    requires k > 0
    ensures v * Pow2(k) == 2 * (v * Pow2(k - 1))
  {
    assert v * (2 * Pow2(k - 1)) == 2 * (v * Pow2(k - 1));
  }

  /** Or-ing bits above k into a number below 2^k adds them. */
  lemma {:induction false} OrAbove(x: nat, v: nat, k: nat)
    requires x < Pow2(k)
    ensures Or(x, v * Pow2(k)) == x + v * Pow2(k)
    decreases k
  {
    if k == 0 {
      OrZero(v);
    } else {
      DoubleWeight(v, k);
      OrAbove(x / 2, v, k - 1);
      OrEven(x, v * Pow2(k - 1));
    }
  }

  /** A value that fits stays below the next field's first bit. */
  lemma {:induction false} FieldBelow(v: nat, offset: nat, width: nat, word: nat)
    requires v < Pow2(width) && word < Pow2(offset)
    ensures word + v * Pow2(offset) < Pow2(offset + width)
  {
    PowAdd(offset, width);
    MulMono(Pow2(offset), v + 1, Pow2(width));
    assert Pow2(offset) * (v + 1) == v * Pow2(offset) + Pow2(offset);
  }

  lemma {:induction false} PowSquare(k: nat, n: nat, p: nat)
    requires Pow2(k) == p && n == k + k
    ensures Pow2(n) == p * p
  {
    PowAdd(k, k);
  }

  lemma {:induction false} WordSize(n: nat)
    requires n == WORD_BITS
    ensures Pow2(n) == TWO_64
  {
    PowSquare(4, 8, 0x10);
    PowSquare(8, 16, 0x100);
    PowSquare(16, 32, 0x1_0000);
    PowSquare(32, n, 0x1_0000_0000);
  }

  lemma {:induction false} ShiftFits(v: nat, offset: nat, width: nat)
    requires v < Pow2(width) && offset + width <= WORD_BITS
    ensures Shl(v, offset) == v * Pow2(offset)
  {
    FieldBelow(v, offset, width, 0);
    PowMono(offset + width, WORD_BITS);
    WordSize(WORD_BITS);
  }

  lemma {:induction false} OneMoreField(fields: seq<SubValue>, word: nat)
    requires fields != []
    requires var before := fields[..|fields| - 1];
             Merged(before) == Some(word) && LeftBit(before) < WORD_BITS
    ensures var before, last := fields[..|fields| - 1], fields[|fields| - 1];
            && Merged(fields) == Some(Or(word, Shl(last.value, LeftBit(before))))
            && LeftBit(fields) == (LeftBit(before) + last.bitLen) % 256
  {
  }

  lemma {:induction false} OrField(word: nat, f: SubValue, offset: nat)
    requires word < Pow2(offset) && Fits(f) && offset + f.bitLen <= WORD_BITS
    ensures Or(word, Shl(f.value, offset)) == word + f.value * Pow2(offset) < Pow2(offset + f.bitLen)
  {
    ShiftFits(f.value, offset, f.bitLen);
    OrAbove(word, f.value, offset);
    FieldBelow(f.value, offset, f.bitLen, word);
  }

  lemma {:induction false} SumStep(fields: seq<SubValue>)
    requires fields != []
    ensures var before, last := fields[..|fields| - 1], fields[|fields| - 1];
            && WeightedSum(fields) == WeightedSum(before) + last.value * Pow2(Width(before))
            && Width(fields) == Width(before) + last.bitLen
  {
  }

  lemma {:induction false} MergedNext(fields: seq<SubValue>, word: nat, offset: nat)
    requires fields != [] && Fits(fields[|fields| - 1])
    requires var before := fields[..|fields| - 1];
             Merged(before) == Some(word) && LeftBit(before) == offset < WORD_BITS
    requires offset + fields[|fields| - 1].bitLen <= WORD_BITS && word < Pow2(offset)
    ensures var last := fields[|fields| - 1];
            && Merged(fields) == Some(word + last.value * Pow2(offset))
            && LeftBit(fields) == offset + last.bitLen
            && word + last.value * Pow2(offset) < Pow2(offset + last.bitLen)
  {
    OneMoreField(fields, word);
    OrField(word, fields[|fields| - 1], offset);
  }

  /** The or-and-shift loop computes the weighted sum when every value fits its width. */
  lemma {:induction false} MergedIsWeightedSum(fields: seq<SubValue>)
    requires Packable(fields) && AllFit(fields)
    ensures Merged(fields) == Some(WeightedSum(fields)) && LeftBit(fields) == Width(fields)
    ensures WeightedSum(fields) < Pow2(Width(fields))
    decreases |fields|
  {
    if fields != [] {
      var before := fields[..|fields| - 1];
      PackableInit(fields);
      MergedIsWeightedSum(before);
      SumStep(fields);
      MergedNext(fields, WeightedSum(before), Width(before));
    }
  }

  // ----------------------------------------------------------------- taking it apart again

  /** Bits added above a field do not change it. */
  lemma {:induction false} ExtractBelow(word: nat, v: nat, offset: nat, width: nat, above: nat)
    requires offset + width <= above
    ensures Extract(word + v * Pow2(above), offset, width) == Extract(word, offset, width)
  {
    var gap := above - offset - width;
    PowAdd(offset, width + gap);
    PowAdd(width, gap);
    assert offset + (width + gap) == above;
    var m := v * Pow2(gap);
    assert v * Pow2(above) == Pow2(offset) * (Pow2(width) * m) by {
      Regroup(v, Pow2(offset), Pow2(width), Pow2(gap));
    }
    ModShift(word, Pow2(offset), Pow2(width) * m);
    ModShift(word / Pow2(offset), Pow2(width), m);
  }

  lemma {:induction false} Regroup(v: nat, a: nat, b: nat, c: nat)
    ensures v * (a * (b * c)) == a * (b * (v * c))
  {
    assert v * (a * (b * c)) == a * (v * (b * c));
    assert v * (b * c) == b * (v * c);
  }

  lemma {:induction false} ExtractTop(word: nat, v: nat, offset: nat, width: nat)
    requires word < Pow2(offset) && v < Pow2(width)
    ensures Extract(word + v * Pow2(offset), offset, width) == v
  {
    DivModUnique(word + v * Pow2(offset), Pow2(offset), v, word);
    DivModUnique(v, Pow2(width), 0, v);
  }

  lemma {:induction false} WidthPrefix(fields: seq<SubValue>, i: nat)
    requires i < |fields|
    ensures Width(fields[..i]) + fields[i].bitLen <= Width(fields)
    decreases |fields|
  {
    if i + 1 < |fields| {
      var before := fields[..|fields| - 1];
      WidthPrefix(before, i);
      assert before[..i] == fields[..i];
    }
  }

  lemma {:induction false} SumComesApart(fields: seq<SubValue>, i: nat)
    requires Packable(fields) && AllFit(fields) && i < |fields|
    ensures Extract(WeightedSum(fields), Width(fields[..i]), fields[i].bitLen) == fields[i].value
    decreases |fields|
  {
    var before, last := fields[..|fields| - 1], fields[|fields| - 1];
    PackableInit(fields);
    SumStep(fields);
    if i == |before| {
      MergedIsWeightedSum(before);
      assert Fits(last);
      ExtractTop(WeightedSum(before), last.value, Width(before), last.bitLen);
    } else {
      SumComesApart(before, i);
      assert before[..i] == fields[..i] && before[i] == fields[i];
      WidthPrefix(before, i);
      ExtractBelow(WeightedSum(before), last.value, Width(fields[..i]), fields[i].bitLen, Width(before));
    }
  }

  predicate Recoverable(fields: seq<SubValue>, word: nat) {
    forall i | 0 <= i < |fields| :: Extract(word, Width(fields[..i]), fields[i].bitLen) == fields[i].value
  }

  /** Main result: the packed word gives every field back if and only if every value fits its width. */
  lemma {:induction false} RecoverableIffAllFit(fields: seq<SubValue>)
    requires Packable(fields)
    ensures Merged(fields).Some?
    ensures Recoverable(fields, Merged(fields).value) <==> AllFit(fields)
  {
    PackableIsDefined(fields);
    if AllFit(fields) {
      MergedIsWeightedSum(fields);
      forall i | 0 <= i < |fields|
        ensures Extract(WeightedSum(fields), Width(fields[..i]), fields[i].bitLen) == fields[i].value
      {
        SumComesApart(fields, i);
      }
    }
    if Recoverable(fields, Merged(fields).value) {
      forall i | 0 <= i < |fields|
        ensures Fits(fields[i])
      {
        assert Extract(Merged(fields).value, Width(fields[..i]), fields[i].bitLen) == fields[i].value;
      }
    }
  }

  lemma {:induction false} PackableIsDefined(fields: seq<SubValue>)
    requires Packable(fields)
    ensures Merged(fields).Some? && LeftBit(fields) == Width(fields)
    decreases |fields|
  {
    if fields != [] {
      PackableInit(fields);
      PackableIsDefined(fields[..|fields| - 1]);
    }
  }

  // ----------------------------------------------------------------- the word bit by bit

  /** Bit k of a number. */
  predicate Bit(v: nat, k: nat)
    decreases k
  {
    if k == 0 then v % 2 == 1 else Bit(v / 2, k - 1)
  }

  lemma {:induction false} ZeroBit(k: nat)
    ensures !Bit(0, k)
    decreases k
  {
    if k != 0 {
      ZeroBit(k - 1);
    }
  }

  /** Or sets the bits that either number has. */
  lemma {:induction false} OrBit(x: nat, y: nat, k: nat)
    ensures Bit(Or(x, y), k) <==> Bit(x, k) || Bit(y, k)
    decreases k
  {
    var low := if x % 2 == 0 && y % 2 == 0 then 0 else 1;
    if x == 0 && y == 0 {
      ZeroBit(k);
    } else {
      assert Or(x, y) == 2 * Or(x / 2, y / 2) + low;
      if k != 0 {
        OrBit(x / 2, y / 2, k - 1);
      }
    }
  }

  lemma {:induction false} ShiftedBit(v: nat, k: nat, j: nat)
    ensures Bit(v * Pow2(k), j) <==> j >= k && Bit(v, j - k)
    decreases k
  {
    if k != 0 {
      DoubleWeight(v, k);
      if j != 0 {
        ShiftedBit(v, k - 1, j - 1);
      }
    }
  }

  lemma {:induction false} HalfRemainder(x: nat, n: nat)
    requires n > 0
    ensures x % (2 * n) % 2 == x % 2 && x % (2 * n) / 2 == x / 2 % n
  {
    var q, r := x / 2 / n, x / 2 % n;
    assert x / 2 == n * q + r && x == 2 * (x / 2) + x % 2;
    assert x == 2 * n * q + (2 * r + x % 2);
    DivModUnique(x, 2 * n, q, 2 * r + x % 2);
  }

  lemma {:induction false} CutBit(x: nat, n: nat, j: nat)
    ensures Bit(x % Pow2(n), j) <==> j < n && Bit(x, j)
    decreases n
  {
    if n == 0 {
      ZeroBit(j);
    } else {
      HalfRemainder(x, Pow2(n - 1));
      if j != 0 {
        CutBit(x / 2, n - 1, j - 1);
      }
    }
  }

  /** A 64-bit shift moves the bits up and drops those that leave the word. */
  lemma {:induction false} ShlBit(v: nat, k: nat, j: nat)
    ensures Bit(Shl(v, k), j) <==> k <= j < 64 && Bit(v, j - k)
  {
    WordSize(WORD_BITS);
    CutBit(v * Pow2(k), WORD_BITS, j);
    ShiftedBit(v, k, j);
  }

  /** Field i puts a bit at place j of the word: the fields' places are counted in 8 bits. */
  ghost predicate PutsBit(fields: seq<SubValue>, i: nat, j: nat)
    requires i < |fields|
  {
    var place := Width(fields[..i]) % 256;
    place <= j < 64 && Bit(fields[i].value, j - place)
  }

  lemma {:induction false} LeftBitIsWidth(fields: seq<SubValue>)
    ensures LeftBit(fields) == Width(fields) % 256
    decreases |fields|
  {
    if fields != [] {
      var before, len := fields[..|fields| - 1], fields[|fields| - 1].bitLen;
      LeftBitIsWidth(before);
      AddIn8Bits(Width(before), len);
    }
  }

  lemma {:induction false} AddIn8Bits(x: nat, y: nat)
    ensures (x % 256 + y) % 256 == (x + y) % 256
  {
  }

  /** There is a word if and only if every field's place, counted in 8 bits, is inside it. */
  lemma {:induction false} MergedIff(fields: seq<SubValue>)
    ensures Merged(fields).Some? <==> forall i | 0 <= i < |fields| :: Width(fields[..i]) % 256 < 64
    decreases |fields|
  {
    if fields != [] {
      var before := fields[..|fields| - 1];
      MergedIff(before);
      LeftBitIsWidth(before);
      assert forall i | 0 <= i < |before| :: before[..i] == fields[..i];
    }
  }

  /** Main result for any values, overlapping or not: a bit of the word is set exactly if some field puts one
      there. */
  lemma {:induction false} MergedBit(fields: seq<SubValue>, j: nat)
    requires Merged(fields).Some?
    ensures Bit(Merged(fields).value, j) <==> exists i | 0 <= i < |fields| :: PutsBit(fields, i, j)
    decreases |fields|
  {
    if fields == [] {
      ZeroBit(j);
    } else {
      var last := |fields| - 1;
      var before := fields[..last];
      MergedBit(before, j);
      LeftBitIsWidth(before);
      OneMoreField(fields, Merged(before).value);
      OrBit(Merged(before).value, Shl(fields[last].value, LeftBit(before)), j);
      ShlBit(fields[last].value, LeftBit(before), j);
      BitsBefore(fields, j);
    }
  }

  lemma {:induction false} BitsBefore(fields: seq<SubValue>, j: nat)
    requires fields != []
    ensures var last := |fields| - 1;
            (exists i | 0 <= i < |fields| :: PutsBit(fields, i, j)) <==>
            (exists i | 0 <= i < last :: PutsBit(fields[..last], i, j)) || PutsBit(fields, last, j)
  {
    var last := |fields| - 1;
    var before := fields[..last];
    forall i | 0 <= i < last
      ensures PutsBit(before, i, j) <==> PutsBit(fields, i, j)
    {
      assert before[..i] == fields[..i];
    }
    if i :| 0 <= i < |fields| && PutsBit(fields, i, j) {
      assert i < last ==> PutsBit(before, i, j);
    }
    if i :| 0 <= i < last && PutsBit(before, i, j) {
      assert PutsBit(fields, i, j);
    }
  }
}
