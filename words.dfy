/** 16-bit machine words and bytes as bounded integers, with the operations src/main.cc performs
    on `uint16_t`: wrap-around, bit fields, sign extension (`sign_extend`), the byte swap
    (`swap16`), byte access, bitwise AND and complement. */
module Words {

  /** 2^16: the number of values of a `uint16_t`. */
  const WORD_MODULUS: int := 0x1_0000

  type Word = x: int | 0 <= x < 0x1_0000
  type Byte = x: int | 0 <= x < 0x100

  function Pow2(n: nat): (r: nat)
    ensures r >= 1
  {
    if n == 0 then 1 else 2 * Pow2(n - 1)
  }

  lemma {:induction false} Pow2Monotone(m: nat, n: nat)
    requires m <= n
    ensures Pow2(m) <= Pow2(n)
    decreases n
  {
    if m < n {
      Pow2Monotone(m, n - 1);
    }
  }

  /** Storing an integer in a `uint16_t`: the value modulo 2^16. */
  function Wrap(x: int): (w: Word)
    ensures 0 <= x < WORD_MODULUS ==> w == x
    ensures (x - w) % WORD_MODULUS == 0
  {
    x % WORD_MODULUS
  }

  lemma Pow2Sixteen()
    ensures Pow2(16) == WORD_MODULUS
  {
    assert Pow2(8) == 0x100;
  }

  /** The value of a word read as a 16-bit two's-complement number. */
  function Signed(w: Word): int
  {
    if w < 0x8000 then w else w - WORD_MODULUS
  }

  /** The value of an `n`-bit field read as an `n`-bit two's-complement number. */
  function FieldValue(x: nat, n: nat): int
    requires 1 <= n
  {
    if x < Pow2(n - 1) then x else x - Pow2(n)
  }

  /** sign_extend, applied to a field already masked to its `bitCount` bits (as every caller
      does): when bit `bitCount - 1` is set, every bit from `bitCount` upwards is set as well
      (`x |= 0xFFFF << bitCount`, kept to 16 bits); otherwise `x` is returned as it is. */
  function SignExtend(x: Word, bitCount: nat): (r: Word)
    requires 1 <= bitCount <= 16 && x < Pow2(bitCount)
  {
    Pow2Monotone(bitCount, 16);
    Pow2Sixteen();
    if x < Pow2(bitCount - 1) then x else x + (WORD_MODULUS - Pow2(bitCount))
  }

  /** A sign-extended `n`-bit field, read as a signed word, has the value of the field read as
      an `n`-bit two's-complement number. */
  lemma SignExtendValue(x: Word, n: nat)
    requires 1 <= n <= 16 && x < Pow2(n)
    ensures Signed(SignExtend(x, n)) == FieldValue(x, n)
  {
    Pow2Monotone(n - 1, 15);
    assert Pow2(15) == 0x8000 by {
      assert Pow2(8) == 0x100;
    }
  }

  /** swap16: exchanges the two bytes of a word. */
  function Swap16(x: Word): (r: Word)
    ensures LowByte(r) == HighByte(x) && HighByte(r) == LowByte(x)
  {
    (x % 0x100) * 0x100 + x / 0x100
  }

  /** The character `(char)w` that `putc` writes: the low byte of a word. */
  function LowByte(w: Word): Byte
  {
    w % 0x100
  }

  function HighByte(w: Word): Byte
  {
    w / 0x100
  }

  /** `a & b` on `uint16_t`, bit by bit from the lowest: a bit of the result is set exactly
      when it is set in both operands. */
  function BitAnd(a: Word, b: Word): (r: Word)
    ensures r <= a && r <= b
    decreases a
  {
    if a == 0 || b == 0 then 0
    else 2 * BitAnd(a / 2, b / 2) + (if a % 2 == 1 && b % 2 == 1 then 1 else 0)
  }

  /** Bit `k` of `a & b` is set exactly when bit `k` is set in both `a` and `b`. */
  lemma {:induction false} BitAndBit(a: Word, b: Word, k: nat)
    ensures (BitAnd(a, b) / Pow2(k)) % 2 ==
      if (a / Pow2(k)) % 2 == 1 && (b / Pow2(k)) % 2 == 1 then 1 else 0
    decreases k
  {
    if k > 0 {
      BitAndBit(a / 2, b / 2, k - 1);
      DivHalf(BitAnd(a, b), Pow2(k - 1));
      DivHalf(a, Pow2(k - 1));
      DivHalf(b, Pow2(k - 1));
      assert BitAnd(a, b) / 2 == BitAnd(a / 2, b / 2);
    }
  }

  /** Dividing by `2 * m` is halving and then dividing by `m`. */
  lemma DivHalf(x: nat, m: nat)
    requires m > 0
    ensures x / (2 * m) == (x / 2) / m
  {
    var q := (x / 2) / m;
    var r := (x / 2) % m;
    assert x == (2 * m) * q + (2 * r + x % 2);
    DivUnique(x, 2 * m, q, 2 * r + x % 2);
  }

  /** The quotient is the only `q` with `x == d * q + r` and `0 <= r < d`. */
  lemma DivUnique(x: nat, d: nat, q: nat, r: nat)
    requires d > 0 && x == d * q + r && r < d
    ensures x / d == q
  {
    var q' := x / d;
    if q' < q {
      MulStep(d, q', q);
    } else if q' > q {
      MulStep(d, q, q');
    }
  }

  /** A larger multiplier adds at least one more `d`. */
  lemma MulStep(d: nat, m: nat, n: nat)
    requires m < n
    ensures d * m + d <= d * n
  {
    var e := n - m - 1;
    assert d * n == d * m + d + d * e;
  }

  /** `~a` on `uint16_t`. */
  function BitNot(a: Word): Word
  {
    0xFFFF - a
  }
}
