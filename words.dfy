/**
 * The machine word of include/bitter.h (the 64-bit configuration: WORD_T is
 * uint64_t) and the C operators the codec applies to it. An unsigned value of
 * n bits is held as its n bits, most significant first, so index 0 is the bit
 * the codec numbers 0 inside a word and << moves bits towards index 0.
 */
module Words {
  import opened Tools

  const WORD_BIT_LEN: nat := 64
  const WORD_BYTE_LEN: nat := 8

  /** WORD_T: an unsigned WORD_BIT_LEN-bit value. */
  type Word = w: seq<bool> | |w| == WORD_BIT_LEN witness seq(WORD_BIT_LEN, _ => false)

  function Zeros(n: nat): seq<bool>
  {
    seq(n, _ => false)
  }

  function Ones(n: nat): seq<bool>
  {
    seq(n, _ => true)
  }

  /**
   * x << s on an unsigned value of |x| bits: zeros enter at the least
   * significant end. C leaves a shift by the width or more undefined.
   */
  function Shl(x: seq<bool>, s: nat): seq<bool>
    requires s < |x|
  {
    seq(|x|, i requires 0 <= i < |x| => i + s < |x| && x[i + s])
  }

  /** x >> s on an unsigned value: zeros enter at the most significant end. */
  function Shr(x: seq<bool>, s: nat): seq<bool>
    requires s < |x|
  {
    seq(|x|, i requires 0 <= i < |x| => s <= i && x[i - s])
  }

  function And(x: seq<bool>, y: seq<bool>): seq<bool>
    requires |x| == |y|
  {
    seq(|x|, i requires 0 <= i < |x| => x[i] && y[i])
  }

  function Or(x: seq<bool>, y: seq<bool>): seq<bool>
    requires |x| == |y|
  {
    seq(|x|, i requires 0 <= i < |x| => x[i] || y[i])
  }

  function Not(x: seq<bool>): seq<bool>
  {
    seq(|x|, i requires 0 <= i < |x| => !x[i])
  }

  /** (WORD_T)(2^n - 1): the word whose n least significant bits are set. */
  function LowOnes(n: nat): Word
    requires n <= WORD_BIT_LEN
  {
    Zeros(WORD_BIT_LEN - n) + Ones(n)
  }

  /**
   * The mask (WORD_T)(pow_i(2, n) - 1) << (WORD_BIT_LEN - n) of src/bitter.c:
   * exactly the n most significant bits are set.
   */
  function FieldMask(n: nat): (r: Word)
    requires 1 <= n <= WORD_BIT_LEN
    ensures forall k :: 0 <= k < WORD_BIT_LEN ==> (r[k] <==> k < n)
  {
    Shl(LowOnes(n), WORD_BIT_LEN - n)
  }

  /** The unsigned number a bit sequence denotes, most significant bit first. */
  function Value(s: seq<bool>): nat
  {
    if s == [] then 0 else 2 * Value(s[..|s| - 1]) + (if s[|s| - 1] then 1 else 0)
  }

  /** Appending bits shifts the number left by their count and adds theirs. */
  lemma {:induction false} ValueAppend(a: seq<bool>, b: seq<bool>)
    ensures Value(a + b) == Value(a) * Power(2, |b|) + Value(b)
    decreases |b|
  {
    if b == [] {
      assert a + b == a;
    } else {
      var b' := b[..|b| - 1];
      assert (a + b)[..|a + b| - 1] == a + b';
      ValueAppend(a, b');
      var t := if b[|b| - 1] then 1 else 0;
      assert Value(a + b) == 2 * Value(a + b') + t;
      assert Value(b) == 2 * Value(b') + t;
      ShiftStep(Value(a), Power(2, |b'|), Value(b'), t);
    }
  }

  lemma ShiftStep(va: int, p: int, vb: int, t: int)
    ensures 2 * (va * p + vb) + t == va * (p * 2) + (2 * vb + t)
  {
  }

  /** Leading zeros do not change the number. */
  lemma {:induction false} ValueLeadingZeros(k: nat, s: seq<bool>)
    ensures Value(Zeros(k) + s) == Value(s)
  {
    ValueAppend(Zeros(k), s);
    ValueZeros(k);
  }

  lemma {:induction false} ValueZeros(k: nat)
    ensures Value(Zeros(k)) == 0
  {
    if k > 0 {
      assert Zeros(k)[..k - 1] == Zeros(k - 1);
      ValueZeros(k - 1);
    }
  }

  lemma {:induction false} ValueOnes(n: nat)
    ensures Value(Ones(n)) == Power(2, n) - 1
  {
    if n > 0 {
      assert Ones(n)[..n - 1] == Ones(n - 1);
      ValueOnes(n - 1);
    }
  }

  /**
   * The word LowOnes(n) denotes pow_i(2, n) - 1, the number src/bitter.c
   * shifts into place to build its masks.
   */
  lemma LowOnesValue(n: nat)
    requires n <= WORD_BIT_LEN
    ensures Value(LowOnes(n)) == Power(2, n) - 1
  {
    ValueLeadingZeros(WORD_BIT_LEN - n, Ones(n));
    ValueOnes(n);
  }

  /** The n-bit representation of v, most significant bit first (v mod 2^n). */
  function Bits(v: nat, n: nat): (r: seq<bool>)
    ensures |r| == n
  {
    if n == 0 then [] else Bits(v / 2, n - 1) + [v % 2 == 1]
  }

  /** n bits denote a number below 2^n. */
  lemma {:induction false} ValueBound(s: seq<bool>)
    ensures Value(s) < Power(2, |s|)
  {
    if s != [] {
      ValueBound(s[..|s| - 1]);
    }
  }

  /** A number below 2^n is what its n-bit representation denotes. */
  lemma {:induction false} BitsValue(v: nat, n: nat)
    requires v < Power(2, n)
    ensures Value(Bits(v, n)) == v
  {
    if n > 0 {
      BitsValue(v / 2, n - 1);
      var s := Bits(v, n);
      assert s[..n - 1] == Bits(v / 2, n - 1);
    }
  }

  /** Bits read as a number and written back with as many bits are unchanged. */
  lemma {:induction false} ValueBits(s: seq<bool>)
    ensures Bits(Value(s), |s|) == s
  {
    if s != [] {
      var init := s[..|s| - 1];
      ValueBits(init);
      assert init + [s[|s| - 1]] == s;
    }
  }

  /**
   * C's integer division on int: truncates towards zero, so b * q lies between
   * zero and a, less than b away from a.
   */
  function CDiv(a: int, b: int): (q: int)
    requires b > 0
    ensures a >= 0 ==> 0 <= a - b * q < b
    ensures a < 0 ==> -b < a - b * q <= 0
  {
    assert a == b * (a / b) + a % b;
    assert -a == b * ((-a) / b) + (-a) % b;
    if a >= 0 then a / b else -((-a) / b)
  }

  /** C's % on int: the remainder takes the sign of the dividend. */
  function CMod(a: int, b: int): (m: int)
    requires b > 0
    ensures a == b * CDiv(a, b) + m
    ensures a >= 0 ==> 0 <= m < b
    ensures a < 0 ==> -b < m <= 0
  {
    a - b * CDiv(a, b)
  }

  /** The mask with exactly the n most significant bits set, as a sequence. */
  lemma FieldMaskOnes(n: nat)
    requires 1 <= n <= WORD_BIT_LEN
    ensures FieldMask(n) == Ones(n) + Zeros(WORD_BIT_LEN - n)
  {
  }

  /** x << s keeps the bits from position s on and fills s zeros behind them. */
  lemma ShlSlice(x: seq<bool>, s: nat)
    requires s < |x|
    ensures Shl(x, s) == x[s..] + Zeros(s)
  {
  }

  /** x >> s puts s zeros in front of all but the last s bits. */
  lemma ShrSlice(x: seq<bool>, s: nat)
    requires s < |x|
    ensures Shr(x, s) == Zeros(s) + x[..|x| - s]
  {
  }

  /** Masking with FieldMask(n) keeps the n most significant bits. */
  lemma AndFieldMask(x: Word, n: nat)
    requires 1 <= n <= WORD_BIT_LEN
    ensures And(x, FieldMask(n)) == x[..n] + Zeros(WORD_BIT_LEN - n)
  {
  }
}
