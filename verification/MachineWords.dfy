/** Fixed-width integers as the C code computes with them.

    The model fixes the 32-bit little-endian layout, in which an `enum`, a `long` and a
    union of a `long` and a byte all take one 32-bit word. */
module MachineWords {

  type Byte = x: int | 0 <= x < 256

  /** A C `long` of 32 bits. */
  type Long = x: int | LONG_MIN <= x <= LONG_MAX

  const LONG_MIN: int := -0x8000_0000
  const LONG_MAX: int := 0x7fff_ffff
  const WORD_RANGE: int := 0x1_0000_0000

  type Word = x: int | 0 <= x < WORD_RANGE

  /** Reduces a mathematical integer to the `long` with the same low 32 bits. */
  function WrapLong(x: int): Long {
    var low := x % WORD_RANGE;
    if low <= LONG_MAX then low else low - WORD_RANGE
  }

  /** C division: truncates toward zero. */
  function TruncatedDivision(a: int, b: int): int
    requires b != 0
  {
    if a >= 0 then (if b > 0 then a / b else -(a / -b))
    else (if b > 0 then -(-a / b) else -a / -b)
  }

  function LongToWord(x: Long): Word {
    if x < 0 then x + WORD_RANGE else x
  }

  function WordToLong(w: Word): Long {
    if w > LONG_MAX then w - WORD_RANGE else w
  }

  function Magnitude(x: int): nat { if x < 0 then -x else x }

  /** Division of magnitudes: what is left is smaller than the divisor, and the quotient no more than the
      dividend, or half of it unless the divisor is 1. */
  lemma Quotient(m: nat, d: nat)
    requires d > 0
    ensures 0 <= m - m / d * d < d && 0 <= m / d <= m
    ensures d > 1 ==> m / d * 2 <= m
  {
    var q := m / d;
    assert m == q * d + m % d;
    Grows(q, 1, d);
    if d > 1 {
      Grows(q, 2, d);
    }
  }

  lemma Grows(q: int, x: int, y: int)
    requires q >= 0 && x <= y
    ensures q * x <= q * y
  {
  }

  lemma Signs(x: int, y: int)
    ensures (-x) * y == -(x * y) == x * (-y) && (-x) * (-y) == x * y
  {
  }

  lemma SignOfQuotient(a: int, b: int)
    requires b != 0
    ensures var q := Magnitude(a) / Magnitude(b);
            TruncatedDivision(a, b) == if (a >= 0) == (b > 0) then q else -q
  {
  }

  /** The quotient of C: what is left over is smaller than the divisor, and has the sign of the dividend. */
  lemma DivisionTruncates(a: int, b: int)
    requires b != 0
    ensures var left := a - TruncatedDivision(a, b) * b;
            Magnitude(left) < Magnitude(b) && (left > 0 ==> a > 0) && (left < 0 ==> a < 0)
  {
    var m, d := Magnitude(a), Magnitude(b);
    Quotient(m, d);
    SignOfQuotient(a, b);
    var q: int := m / d;
    var product: int := q * d;
    Signs(q, d);
    hide TruncatedDivision;
    assert TruncatedDivision(a, b) * b == if a >= 0 then product else -product;
  }

  /** Apart from the one quotient that has no room, quotients of `long` values are such values. */
  lemma QuotientFits(a: Long, b: Long)
    requires b != 0 && !(a == LONG_MIN && b == -1)
    ensures WrapLong(TruncatedDivision(a, b)) == TruncatedDivision(a, b)
  {
    Quotient(Magnitude(a), Magnitude(b));
    SignOfQuotient(a, b);
    hide TruncatedDivision;
    var q := Magnitude(a) / Magnitude(b);
    assert Magnitude(b) > 1 ==> q <= 0x4000_0000;
  }

  /** Reduction keeps the low 32 bits, and both ways of reading a word agree. */
  lemma WordsKeepLowBits(x: int, v: Long)
    ensures (WrapLong(x) - x) % WORD_RANGE == 0
    ensures (LongToWord(v) - v) % WORD_RANGE == 0 && WordToLong(LongToWord(v)) == v
  {
  }

  /** `words` lies at position `at` of `code`. */
  predicate LiesAt(code: seq<Word>, at: nat, words: seq<Word>) {
    at + |words| <= |code| && forall i :: 0 <= i < |words| ==> words[i] == code[at + i]
  }

  lemma LiesAtSplit(code: seq<Word>, at: nat, left: seq<Word>, right: seq<Word>)
    requires LiesAt(code, at, left + right)
    ensures LiesAt(code, at, left) && LiesAt(code, at + |left|, right)
    ensures at + |left| + |right| <= |code|
  {
    forall i | 0 <= i < |left|
      ensures left[i] == code[at + i]
    {
      assert (left + right)[i] == left[i];
    }
    forall i | 0 <= i < |right|
      ensures right[i] == code[at + |left| + i]
    {
      assert (left + right)[|left| + i] == right[i];
    }
  }
}
