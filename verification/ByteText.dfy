/** Bytes, little-endian words, decimal text and C strings, as the example file format uses them. */
module ByteText {
  import opened Arithmetic

  type Byte = b: int | 0 <= b < 256

  const NUL: Byte := 0
  const NEWLINE: Byte := 10
  const PLUS: Byte := 43
  const COMMA: Byte := 44
  const MINUS: Byte := 45
  const ZERO: Byte := 48
  const TWO_63: int := 0x8000_0000_0000_0000
  const TWO_64: int := 0x1_0000_0000_0000_0000

  // ----------------------------------------------------------------- words in memory

  function Pow256(k: nat): (p: nat)
    ensures p > 0
  {
    if k == 0 then 1 else 256 * Pow256(k - 1)
  }

  function ToWord(v: nat, k: nat): (s: seq<Byte>)
    ensures |s| == k
  {
    if k == 0 then [] else [v % 256] + ToWord(v / 256, k - 1)
  }

  function FromWord(s: seq<Byte>): nat {
    if s == [] then 0 else s[0] + 256 * FromWord(s[1..])
  }

  lemma {:induction false} FromToWord(v: nat, k: nat)
    requires v < Pow256(k)
    ensures FromWord(ToWord(v, k)) == v
    decreases k
  {
    if k != 0 {
      FromToWord(v / 256, k - 1);
    }
  }

  lemma {:induction false} ToFromWord(s: seq<Byte>)
    ensures FromWord(s) < Pow256(|s|)
    ensures ToWord(FromWord(s), |s|) == s
    decreases |s|
  {
    if s != [] {
      ToFromWord(s[1..]);
      assert FromWord(s) % 256 == s[0] && FromWord(s) / 256 == FromWord(s[1..]);
    }
  }

  /** A number that is too great for the word is cut to it. */
  lemma {:induction false} WordCuts(v: nat, k: nat)
    ensures FromWord(ToWord(v, k)) == v % Pow256(k)
    decreases k
  {
    if k != 0 {
      WordCuts(v / 256, k - 1);
      DivTwice(v, 256, Pow256(k - 1));
    } else {
      DivModUnique(v, 1, v, 0);
    }
  }

  /** The lowest byte comes first. */
  lemma {:induction false} WordByte(v: nat, k: nat, i: nat)
    requires i < k
    ensures ToWord(v, k)[i] == v / Pow256(i) % 256
    decreases k
  {
    if i != 0 {
      WordByte(v / 256, k - 1, i - 1);
      DivTwice(v, 256, Pow256(i - 1));
    }
  }

  /** Only the word's own value is stored as the word. */
  lemma {:induction false} WordOf(v: nat, s: seq<Byte>)
    requires v < Pow256(|s|)
    ensures ToWord(v, |s|) == s <==> v == FromWord(s)
  {
    ToFromWord(s);
    FromToWord(v, |s|);
  }

  lemma {:induction false} EightBytes()
    ensures Pow256(8) == TWO_64
  {
    assert Pow256(4) == 0x1_0000_0000;
    assert Pow256(8) == 256 * (256 * (256 * (256 * Pow256(4))));
  }

  // ----------------------------------------------------------------- decimal numbers

  predicate IsDigit(b: Byte) {
    ZERO <= b <= ZERO + 9
  }

  predicate IsSpace(b: Byte) {
    b == 32 || 9 <= b <= 13
  }

  function Digits(v: nat): (s: seq<Byte>)
    ensures |s| > 0
    ensures forall i | 0 <= i < |s| :: IsDigit(s[i])
  {
    if v < 10 then [ZERO + v] else Digits(v / 10) + [ZERO + v % 10]
  }

  function DigitsValue(s: seq<Byte>, acc: nat): nat
    decreases |s|
  {
    if s == [] || !IsDigit(s[0]) then acc else DigitsValue(s[1..], acc * 10 + (s[0] - ZERO))
  }

  function SkipSpace(s: seq<Byte>): seq<Byte>
    decreases |s|
  {
    if s == [] || !IsSpace(s[0]) then s else SkipSpace(s[1..])
  }

  /** atoll: leading space, a sign, digits up to the first other byte, saturating at the 64-bit ends. */
  function Atoll(s: seq<Byte>): (v: int)
    ensures -TWO_63 <= v < TWO_63
  {
    var t := SkipSpace(s);
    if t != [] && t[0] == MINUS then
      var v: int := DigitsValue(t[1..], 0); if v > TWO_63 then -TWO_63 else -v
    else
      var v: int := DigitsValue(if t != [] && t[0] == PLUS then t[1..] else t, 0);
      if v >= TWO_63 then TWO_63 - 1 else v
  }

  lemma {:induction false} DigitsValueAppend(a: seq<Byte>, b: seq<Byte>, acc: nat)
    requires forall i | 0 <= i < |a| :: IsDigit(a[i])
    ensures DigitsValue(a + b, acc) == DigitsValue(b, DigitsValue(a, acc))
    decreases |a|
  {
    if a == [] {
      assert a + b == b;
    } else {
      assert (a + b)[1..] == a[1..] + b;
      DigitsValueAppend(a[1..], b, acc * 10 + (a[0] - ZERO));
    }
  }

  lemma {:induction false} DigitsValueOfDigits(v: nat)
    ensures DigitsValue(Digits(v), 0) == v
    decreases v
  {
    if v >= 10 {
      DigitsValueOfDigits(v / 10);
      var last: seq<Byte> := [ZERO + v % 10];
      DigitsValueAppend(Digits(v / 10), last, 0);
      assert last[1..] == [];
      assert DigitsValue(last, v / 10) == DigitsValue([], v / 10 * 10 + v % 10);
    }
  }

  /** Reading back a printed number: exact up to 2^63 - 1, stuck there above. */
  lemma {:induction false} AtollOfDigits(v: nat)
    ensures Atoll(Digits(v)) == if v < TWO_63 then v else TWO_63 - 1
  {
    DigitsValueOfDigits(v);
    assert IsDigit(Digits(v)[0]);
  }

  function Pow10(k: nat): (p: nat)
    ensures p > 0
  {
    if k == 0 then 1 else 10 * Pow10(k - 1)
  }

  /** The digits of a number by place, from the right, and no zero in front. */
  lemma {:induction false} DigitAt(v: nat, i: nat)
    requires i < |Digits(v)|
    ensures Digits(v)[|Digits(v)| - 1 - i] == ZERO + v / Pow10(i) % 10
    ensures v > 0 ==> Digits(v)[0] != ZERO
    decreases v
  {
    if v >= 10 {
      var rest := Digits(v / 10);
      assert Digits(v) == rest + [ZERO + v % 10];
      if i == 0 {
        DigitAt(v / 10, |rest| - 1);
      } else {
        DigitAt(v / 10, i - 1);
        DivTwice(v, 10, Pow10(i - 1));
      }
    }
  }

  lemma {:induction false} SpacesSkipped(spaces: seq<Byte>, rest: seq<Byte>)
    requires forall i | 0 <= i < |spaces| :: spaces[i] == 32 || 9 <= spaces[i] <= 13
    requires rest == [] || !(rest[0] == 32 || 9 <= rest[0] <= 13)
    ensures SkipSpace(spaces + rest) == rest
    decreases |spaces|
  {
    if spaces == [] {
      assert spaces + rest == rest;
    } else {
      assert (spaces + rest)[1..] == spaces[1..] + rest;
      SpacesSkipped(spaces[1..], rest);
    }
  }

  lemma {:induction false} DigitsStop(v: nat, junk: seq<Byte>)
    requires junk == [] || !(48 <= junk[0] <= 57)
    ensures DigitsValue(Digits(v) + junk, 0) == v
  {
    DigitsValueOfDigits(v);
    DigitsValueAppend(Digits(v), junk, 0);
  }

  /** Reading a number behind space and a sign, up to the first byte that is no digit: saturated at the ends of
      64 bits. */
  lemma {:induction false} AtollReads(spaces: seq<Byte>, sign: seq<Byte>, v: nat, junk: seq<Byte>)
    requires forall i | 0 <= i < |spaces| :: spaces[i] == 32 || 9 <= spaces[i] <= 13
    requires sign == [] || sign == [PLUS] || sign == [MINUS]
    requires junk == [] || !(48 <= junk[0] <= 57)
    ensures var read := Atoll(spaces + (sign + (Digits(v) + junk)));
            if sign == [MINUS] then read == if v <= 0x8000_0000_0000_0000 then 0 - v else -0x8000_0000_0000_0000
            else read == if v <= 0x7FFF_FFFF_FFFF_FFFF then v else 0x7FFF_FFFF_FFFF_FFFF
  {
    var number := Digits(v) + junk;
    assert number[0] == Digits(v)[0] && IsDigit(number[0]);
    assert sign == [] ==> sign + number == number;
    assert sign != [] ==> (sign + number)[1..] == number;
    SpacesSkipped(spaces, sign + number);
    DigitsStop(v, junk);
  }

  /** A text without a number reads as 0. */
  lemma {:induction false} AtollOfNoNumber(text: seq<Byte>)
    requires text == [] || !(text[0] == 32 || 9 <= text[0] <= 13 || 48 <= text[0] <= 57)
    requires |text| > 1 && (text[0] == PLUS || text[0] == MINUS) ==> !(48 <= text[1] <= 57)
    ensures Atoll(text) == 0
  {
  }

  // ----------------------------------------------------------------- strings and separators

  /** The position of the first b at or after `from`, or the length if there is none. */
  function Find(s: seq<Byte>, b: Byte, from: nat): (n: nat)
    requires from <= |s|
    ensures from <= n <= |s|
    ensures forall i | from <= i < n :: s[i] != b
    ensures n < |s| ==> s[n] == b
    decreases |s| - from
  {
    if from == |s| || s[from] == b then from else Find(s, b, from + 1)
  }

  /** What a pointer into s means as a C string. */
  function CString(s: seq<Byte>): (t: seq<Byte>)
    ensures |t| <= |s| && t == s[..|t|]
    ensures NUL !in t
    ensures |t| < |s| ==> s[|t|] == NUL
  {
    var n := Find(s, NUL, 0);
    assert forall i | 0 <= i < n :: s[..n][i] != NUL;
    s[..n]
  }

  function Zeros(n: nat): (s: seq<Byte>)
    ensures |s| == n && forall i | 0 <= i < n :: s[i] == NUL
  {
    seq(n, _ => NUL)
  }

  lemma {:induction false} FindIs(s: seq<Byte>, b: Byte, from: nat, n: nat)
    requires from <= n <= |s|
    requires forall i | from <= i < n :: s[i] != b
    requires n < |s| ==> s[n] == b
    ensures Find(s, b, from) == n
  {
  }
}
