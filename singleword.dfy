/**
 * set_message_bits and get_message_bits of src/bitter.c: write or read a field
 * of 1 to WORD_BIT_LEN bits at any bit position of a message, crossing at most
 * one word boundary.
 */
module SingleWord {
  import opened Tools
  import opened Words
  import opened ByteOrder
  import opened Message

  function Min(a: int, b: int): int
  {
    if a <= b then a else b
  }

  /**
   * The error checks at the head of set_message_bits: -1 when start lies outside
   * the message of len words, -2 when the field is wider than a word, -3 when the
   * field runs past the end of the message, 0 when they all pass.
   */
  function SetGuard(len: int, start: int, bitLen: int): (e: int)
    ensures e == 0 || e == -1 || e == -2 || e == -3
    ensures e == -1 <==> start < 0 || start >= WORD_BIT_LEN * len
    ensures e == -2 <==> 0 <= start < WORD_BIT_LEN * len && bitLen > WORD_BIT_LEN
    ensures e == -3 <==>
      0 <= start < WORD_BIT_LEN * len && bitLen <= WORD_BIT_LEN && start + bitLen > WORD_BIT_LEN * len
  {
    var mbi, mo := CDiv(start, WORD_BIT_LEN), CMod(start, WORD_BIT_LEN);
    if start < 0 || mbi >= len then -1
    else if bitLen > WORD_BIT_LEN then -2
    else if mbi == len - 1 && mo + bitLen > WORD_BIT_LEN then -3
    else 0
  }

  /**
   * The error checks at the head of get_message_bits, which has no start < 0
   * test: on a non-negative start they are those of set_message_bits.
   */
  function GetGuard(len: int, start: int, bitLen: int): (e: int)
    ensures e == 0 || e == -1 || e == -2 || e == -3
    ensures start >= 0 ==> e == SetGuard(len, start, bitLen)
  {
    var mbi, mo := CDiv(start, WORD_BIT_LEN), CMod(start, WORD_BIT_LEN);
    if mbi >= len then -1
    else if bitLen > WORD_BIT_LEN then -2
    else if mbi == len - 1 && mo + bitLen > WORD_BIT_LEN then -3
    else 0
  }

  /**
   * The checks of get_message_bits let a negative start through on a message
   * of one word: get_message_bits(message, 1, -10, 8, &v, false) goes on to
   * shift by a negative offset, which C leaves undefined.
   */
  lemma GetGuardAdmitsNegativeStart()
    ensures GetGuard(1, -10, 8) == 0
    ensures SetGuard(1, -10, 8) == -1
  {
  }

  /**
   * The check set_message_bits makes and get_message_bits evidently intended:
   * once it passes, the field lies inside the message.
   */
  lemma SetGuardPassed(len: int, start: int, bitLen: int)
    requires SetGuard(len, start, bitLen) == 0
    ensures 0 <= start && bitLen <= WORD_BIT_LEN && start + bitLen <= WORD_BIT_LEN * len
  {
  }

  /**
   * Where a field that passed SetGuard lies: at offset mo of word mbi, and
   * when it crosses the word boundary the next word is in the message.
   */
  lemma SetPositions(len: int, start: int, bitLen: int)
    requires SetGuard(len, start, bitLen) == 0 && 1 <= bitLen
    ensures var mbi, mo := CDiv(start, WORD_BIT_LEN), CMod(start, WORD_BIT_LEN);
      0 <= mbi < len && 0 <= mo < WORD_BIT_LEN && start == WORD_BIT_LEN * mbi + mo &&
      bitLen <= WORD_BIT_LEN && (mo + bitLen > WORD_BIT_LEN ==> mbi + 1 < len)
  {
  }

  /**
   * The field set_message_bits takes from value: its bitLen least significant
   * bits when startLow, its bitLen most significant bits otherwise.
   */
  function FieldOf(value: Word, bitLen: nat, startLow: bool): (f: seq<bool>)
    requires 1 <= bitLen <= WORD_BIT_LEN
    ensures |f| == bitLen
  {
    if startLow then value[WORD_BIT_LEN - bitLen..] else value[..bitLen]
  }

  /**
   * With startLow the field is the number value mod 2^bitLen: value is a
   * multiple of 2^bitLen plus the field, and the field is below 2^bitLen.
   */
  lemma FieldOfLowValue(value: Word, bitLen: nat)
    requires 1 <= bitLen <= WORD_BIT_LEN
    ensures Value(value) ==
      Value(value[..WORD_BIT_LEN - bitLen]) * Power(2, bitLen) + Value(FieldOf(value, bitLen, true))
    ensures Value(FieldOf(value, bitLen, true)) < Power(2, bitLen)
  {
    var hi, lo := value[..WORD_BIT_LEN - bitLen], value[WORD_BIT_LEN - bitLen..];
    assert value == hi + lo;
    ValueAppend(hi, lo);
    ValueBound(lo);
  }

  /**
   * Without startLow the field is the number value div 2^(64 - bitLen): value
   * is the field times 2^(64 - bitLen) plus a number below 2^(64 - bitLen).
   */
  lemma FieldOfHighValue(value: Word, bitLen: nat)
    requires 1 <= bitLen <= WORD_BIT_LEN
    ensures Value(value) ==
      Value(FieldOf(value, bitLen, false)) * Power(2, WORD_BIT_LEN - bitLen) + Value(value[bitLen..])
    ensures Value(value[bitLen..]) < Power(2, WORD_BIT_LEN - bitLen)
  {
    var hi, lo := value[..bitLen], value[bitLen..];
    assert value == hi + lo;
    ValueAppend(hi, lo);
    ValueBound(lo);
  }

  /** (f + zeros)[..n] keeps what of f fits and pads with zeros. */
  lemma PaddedPrefix(f: seq<bool>, p: nat, n: nat)
    requires n <= |f| + p
    ensures (f + Zeros(p))[..n] == f[..Min(|f|, n)] + Zeros(n - Min(|f|, n))
  {
  }

  /**
   * The first word written by set_message_bits: v1 >> mo places the part of the
   * field that fits in front of the word boundary at offset mo, and the erase
   * mask covers exactly that part.
   */
  lemma FirstWordValue(value: Word, bitLen: nat, startLow: bool, mo: nat)
    requires 1 <= bitLen <= WORD_BIT_LEN && mo < WORD_BIT_LEN
    ensures var w0 := Min(bitLen, WORD_BIT_LEN - mo);
      Shr(if startLow then Shl(value, WORD_BIT_LEN - bitLen) else And(value, FieldMask(bitLen)), mo)
        == Zeros(mo) + FieldOf(value, bitLen, startLow)[..w0] + Zeros(WORD_BIT_LEN - mo - w0)
    ensures var w0 := Min(bitLen, WORD_BIT_LEN - mo);
      Shr(FieldMask(bitLen), mo) == Zeros(mo) + Ones(w0) + Zeros(WORD_BIT_LEN - mo - w0)
  {
    var f := FieldOf(value, bitLen, startLow);
    var a := if startLow then Shl(value, WORD_BIT_LEN - bitLen) else And(value, FieldMask(bitLen));
    assert a == f + Zeros(WORD_BIT_LEN - bitLen) by {
      if startLow {
        ShlSlice(value, WORD_BIT_LEN - bitLen);
      } else {
        AndFieldMask(value, bitLen);
      }
    }
    ShiftedPadded(f, WORD_BIT_LEN - bitLen, mo);
    FieldMaskOnes(bitLen);
    ShiftedPadded(Ones(bitLen), WORD_BIT_LEN - bitLen, mo);
  }

  /** (f + zeros) >> mo, for a word's worth of bits. */
  lemma ShiftedPadded(f: seq<bool>, p: nat, mo: nat)
    requires |f| + p == WORD_BIT_LEN && mo < WORD_BIT_LEN
    ensures var w0 := Min(|f|, WORD_BIT_LEN - mo);
      Shr(f + Zeros(p), mo) == Zeros(mo) + f[..w0] + Zeros(WORD_BIT_LEN - mo - w0)
  {
    ShrSlice(f + Zeros(p), mo);
    PaddedPrefix(f, p, WORD_BIT_LEN - mo);
  }

  /**
   * The second word written by set_message_bits when the field crosses the
   * word boundary: v1 holds the rest of the field at offset 0, and the erase
   * mask covers exactly that rest.
   */
  lemma SecondWordValue(value: Word, bitLen: nat, startLow: bool, mo: nat)
    requires 1 <= bitLen <= WORD_BIT_LEN && 0 < mo < WORD_BIT_LEN && bitLen > WORD_BIT_LEN - mo
    ensures var left := bitLen - (WORD_BIT_LEN - mo);
      (if startLow then Shl(value, WORD_BIT_LEN - left)
       else And(Shl(value, WORD_BIT_LEN - mo), FieldMask(left)))
        == Zeros(0) + FieldOf(value, bitLen, startLow)[WORD_BIT_LEN - mo..] + Zeros(WORD_BIT_LEN - left)
    ensures var left := bitLen - (WORD_BIT_LEN - mo);
      FieldMask(left) == Zeros(0) + Ones(left) + Zeros(WORD_BIT_LEN - left)
  {
    var left := bitLen - (WORD_BIT_LEN - mo);
    var f := FieldOf(value, bitLen, startLow);
    if startLow {
      ShlSlice(value, WORD_BIT_LEN - left);
      assert f[WORD_BIT_LEN - mo..] == value[WORD_BIT_LEN - left..];
    } else {
      var s := Shl(value, WORD_BIT_LEN - mo);
      ShlSlice(value, WORD_BIT_LEN - mo);
      AndFieldMask(s, left);
      assert s[..left] == f[WORD_BIT_LEN - mo..];
    }
    FieldMaskOnes(left);
  }

  /**
   * The first word of set_message_bits: the erase mask applied to the word m
   * when erase, and v1 = (aligned value) >> mo OR-ed in, writes the part of
   * the field in front of the word boundary into m at offset mo.
   */
  lemma FirstWordMerge(m: Word, mo: nat, value: Word, bitLen: nat, erase: bool, startLow: bool,
                       v1: Word, m': Word)
    requires mo < WORD_BIT_LEN && 1 <= bitLen <= WORD_BIT_LEN
    requires v1 == Shr(if startLow then Shl(value, WORD_BIT_LEN - bitLen)
                       else And(value, FieldMask(bitLen)), mo)
    requires m' == Or(if erase then And(m, Not(Shr(FieldMask(bitLen), mo))) else m, v1)
    ensures m' == Splice(m, mo, FieldOf(value, bitLen, startLow)[..Min(bitLen, WORD_BIT_LEN - mo)], erase)
  {
    var f := FieldOf(value, bitLen, startLow)[..Min(bitLen, WORD_BIT_LEN - mo)];
    FirstWordValue(value, bitLen, startLow, mo);
    WordUpdate(m, mo, f, erase, v1, Shr(FieldMask(bitLen), mo));
  }

  /**
   * The second word of set_message_bits, when the field crosses the word
   * boundary: the erase mask applied to m and v1 OR-ed in writes the rest of
   * the field, its last left bits, at the start of m.
   */
  lemma SecondWordMerge(m: Word, mo: nat, value: Word, bitLen: nat, erase: bool, startLow: bool,
                        left: nat, v1: Word, m': Word)
    requires 0 < mo < WORD_BIT_LEN && bitLen <= WORD_BIT_LEN
    requires left == bitLen - (WORD_BIT_LEN - mo) > 0
    requires v1 == if startLow then Shl(value, WORD_BIT_LEN - left)
                   else And(Shl(value, WORD_BIT_LEN - mo), FieldMask(left))
    requires m' == Or(if erase then And(m, Not(FieldMask(left))) else m, v1)
    ensures m' == Splice(m, 0, FieldOf(value, bitLen, startLow)[WORD_BIT_LEN - mo..], erase)
  {
    var f := FieldOf(value, bitLen, startLow)[WORD_BIT_LEN - mo..];
    SecondWordValue(value, bitLen, startLow, mo);
    WordUpdate(m, 0, f, erase, v1, FieldMask(left));
  }

  /**
   * The store message[mbi] = WORD_HTON(m) of a word m that is the host-order
   * word at mbi with f spliced in at offset at: the message's bits get f
   * spliced in at bit 64 * mbi + at.
   */
  method StoreMessageWord(host: Endian, message: array<Word>, mbi: nat, at: nat, ghost f: seq<bool>,
                          ghost erase: bool, m: Word)
    requires mbi < message.Length && at + |f| <= WORD_BIT_LEN
    requires m == Splice(Ntohll(host, message[mbi]), at, f, erase)
    modifies message
    ensures MessageBits(host, message[..]) ==
      Splice(MessageBits(host, old(message[..])), WORD_BIT_LEN * mbi + at, f, erase)
  {
    ghost var msg0 := message[..];
    message[mbi] := Htonll(host, m);
    assert message[..] == msg0[mbi := Htonll(host, m)];
    StoreSplicedWord(host, msg0, mbi, at, f, erase, m);
  }

  /**
   * The first half of set_message_bits: aligns the field of value at offset
   * mo, erases the field's place in word mbi when erase, ORs the field in and
   * stores the word back in network order.
   */
  method StoreFirstWord(host: Endian, message: array<Word>, mbi: nat, mo: nat,
                        value: Word, bitLen: nat, erase: bool, startLow: bool)
    requires mbi < message.Length && mo < WORD_BIT_LEN && 1 <= bitLen <= WORD_BIT_LEN
    modifies message
    ensures MessageBits(host, message[..]) ==
      Splice(MessageBits(host, old(message[..])), WORD_BIT_LEN * mbi + mo,
             FieldOf(value, bitLen, startLow)[..Min(bitLen, WORD_BIT_LEN - mo)], erase)
  {
    var v := value;
    var m := Ntohll(host, message[mbi]);
    ghost var read := m;
    var v1 := v;
    var mask: Word;
    if startLow {
      v1 := Shl(v, WORD_BIT_LEN - bitLen);
    } else {
      mask := FieldMask(bitLen);
      v1 := And(v1, mask);
    }
    v1 := Shr(v1, mo);
    if erase {
      mask := Not(Shr(FieldMask(bitLen), mo));
      m := And(m, mask);
    }
    m := Or(m, v1);
    ghost var f := FieldOf(value, bitLen, startLow)[..Min(bitLen, WORD_BIT_LEN - mo)];
    FirstWordMerge(read, mo, value, bitLen, erase, startLow, v1, m);
    StoreMessageWord(host, message, mbi, mo, f, erase, m);
  }

  /**
   * The second half of set_message_bits, for a field that crosses into word
   * mbi: writes the bits of the field that did not fit in the previous word
   * at the start of word mbi.
   */
  method StoreSecondWord(host: Endian, message: array<Word>, mbi: nat, mo: nat,
                         value: Word, bitLen: nat, erase: bool, startLow: bool)
    requires mbi < message.Length && 0 < mo < WORD_BIT_LEN && bitLen <= WORD_BIT_LEN
    requires bitLen > WORD_BIT_LEN - mo
    modifies message
    ensures MessageBits(host, message[..]) ==
      Splice(MessageBits(host, old(message[..])), WORD_BIT_LEN * mbi,
             FieldOf(value, bitLen, startLow)[WORD_BIT_LEN - mo..], erase)
  {
    var v := value;
    var bitsInM0 := WORD_BIT_LEN - mo;
    var bitsLeft := bitLen - bitsInM0;
    var m := Ntohll(host, message[mbi]);
    ghost var read := m;
    var v1: Word;
    var mask: Word;
    if startLow {
      v1 := Shl(v, WORD_BIT_LEN - bitsLeft);
    } else {
      mask := FieldMask(bitsLeft);
      v1 := And(Shl(v, bitsInM0), mask);
    }
    if erase {
      mask := Not(FieldMask(bitsLeft));
      m := And(m, mask);
    }
    m := Or(m, v1);
    ghost var f := FieldOf(value, bitLen, startLow)[WORD_BIT_LEN - mo..];
    SecondWordMerge(read, mo, value, bitLen, erase, startLow, bitsLeft, v1, m);
    StoreMessageWord(host, message, mbi, 0, f, erase, m);
  }

  /** The first store writes the whole field when the field fits in the word. */
  lemma WholeFieldStored(bits: seq<bool>, bits1: seq<bool>, start: nat, f: seq<bool>, w0: nat, erase: bool)
    requires w0 == |f| && start + |f| <= |bits|
    requires bits1 == Splice(bits, start, f[..w0], erase)
    ensures bits1 == Splice(bits, start, f, erase)
  {
    assert f[..w0] == f;
  }

  /** The two stores of a crossing field write the whole field. */
  lemma CrossingStores(bits: seq<bool>, bits1: seq<bool>, bits2: seq<bool>, start: nat,
                       mbi: nat, mo: nat, f: seq<bool>, erase: bool)
    requires start == WORD_BIT_LEN * mbi + mo && mo < WORD_BIT_LEN
    requires |f| > WORD_BIT_LEN - mo && start + |f| <= |bits|
    requires bits1 == Splice(bits, start, f[..WORD_BIT_LEN - mo], erase)
    requires bits2 == Splice(bits1, WORD_BIT_LEN * (mbi + 1), f[WORD_BIT_LEN - mo..], erase)
    ensures bits2 == Splice(bits, start, f, erase)
  {
    SpliceSplitAt(bits, start, f, WORD_BIT_LEN - mo, erase);
  }

  /**
   * set_message_bits: writes the field of value into the message at startBit,
   * OR-ing it over the bits there or, with erase, replacing them. Returns the
   * position after the field, or the error code of SetGuard and leaves the
   * message alone. A field of no bits is a shift by the word width, which C
   * leaves undefined.
   */
  method SetMessageBits(host: Endian, message: array<Word>, startBit: int, bitLen: int,
                        value: Word, erase: bool, startLow: bool) returns (r: int)
    requires SetGuard(message.Length, startBit, bitLen) == 0 ==> 1 <= bitLen
    modifies message
    ensures SetGuard(message.Length, startBit, bitLen) != 0 ==>
      r == SetGuard(message.Length, startBit, bitLen) && message[..] == old(message[..])
    ensures SetGuard(message.Length, startBit, bitLen) == 0 ==>
      r == startBit + bitLen &&
      MessageBits(host, message[..]) ==
        Splice(MessageBits(host, old(message[..])), startBit, FieldOf(value, bitLen, startLow), erase)
  {
    var mbi := CDiv(startBit, WORD_BIT_LEN);
    var mo := CMod(startBit, WORD_BIT_LEN);
    if startBit < 0 || mbi >= message.Length {
      return -1;
    }
    if bitLen > WORD_BIT_LEN {
      return -2;
    }
    if mbi == message.Length - 1 && mo + bitLen > WORD_BIT_LEN {
      return -3;
    }
    SetPositions(message.Length, startBit, bitLen);
    ghost var bits := MessageBits(host, message[..]);
    ghost var f := FieldOf(value, bitLen, startLow);
    ghost var w0 := Min(bitLen, WORD_BIT_LEN - mo);
    var bitsInM0 := WORD_BIT_LEN - mo;
    var bitsLeft := bitLen - bitsInM0;
    StoreFirstWord(host, message, mbi, mo, value, bitLen, erase, startLow);
    ghost var bits1 := MessageBits(host, message[..]);
    if bitsLeft > 0 {
      StoreSecondWord(host, message, mbi + 1, mo, value, bitLen, erase, startLow);
      CrossingStores(bits, bits1, MessageBits(host, message[..]), startBit, mbi, mo, f, erase);
    } else {
      WholeFieldStored(bits, bits1, startBit, f, w0, erase);
    }
    r := startBit + bitLen;
  }

  /**
   * What get_message_bits delivers for the field of bitLen bits at start of the
   * bit string bits: with startLow the field in the least significant bits;
   * otherwise the field in the most significant bits, followed by zeros when the
   * field lies inside one word, but by the bits that follow it up to start + 64
   * when it crosses a word boundary, because the bits of the second word are
   * OR-ed in unmasked.
   */
  function ReadAsWritten(bits: seq<bool>, start: nat, bitLen: nat, startLow: bool): Word
    requires 1 <= bitLen <= WORD_BIT_LEN && start + bitLen <= |bits|
    requires |bits| % WORD_BIT_LEN == 0
  {
    if startLow then Zeros(WORD_BIT_LEN - bitLen) + bits[start..start + bitLen]
    else if start % WORD_BIT_LEN + bitLen > WORD_BIT_LEN then
      assert start + WORD_BIT_LEN <= |bits| by {
        DivMod64(start / WORD_BIT_LEN, start % WORD_BIT_LEN);
        DivMod64(|bits| / WORD_BIT_LEN, 0);
      }
      bits[start..start + WORD_BIT_LEN]
    else bits[start..start + bitLen] + Zeros(WORD_BIT_LEN - bitLen)
  }

  /**
   * The value the tests of get_message_bits expect: the field, starting at the
   * most significant bit of the value or, with startLow, ending at its least
   * significant bit, and zeros elsewhere.
   */
  function IntendedRead(bits: seq<bool>, start: nat, bitLen: nat, startLow: bool): (v: Word)
    requires 1 <= bitLen <= WORD_BIT_LEN && start + bitLen <= |bits|
    ensures startLow ==> v[WORD_BIT_LEN - bitLen..] == bits[start..start + bitLen]
    ensures !startLow ==> v[..bitLen] == bits[start..start + bitLen]
    ensures Value(v) == Value(bits[start..start + bitLen]) * (if startLow then 1 else Power(2, WORD_BIT_LEN - bitLen))
  {
    var field := bits[start..start + bitLen];
    if startLow then
      ValueLeadingZeros(WORD_BIT_LEN - bitLen, field);
      Zeros(WORD_BIT_LEN - bitLen) + field
    else
      ValueAppend(field, Zeros(WORD_BIT_LEN - bitLen));
      ValueZeros(WORD_BIT_LEN - bitLen);
      field + Zeros(WORD_BIT_LEN - bitLen)
  }

  /**
   * get_message_bits delivers the expected value exactly when it reads with
   * startLow, or the field lies inside one word, or the bits that follow a
   * crossing field up to start + 64 are all zero.
   */
  lemma ReadAsWrittenIsIntended(bits: seq<bool>, start: nat, bitLen: nat, startLow: bool)
    requires 1 <= bitLen <= WORD_BIT_LEN && start + bitLen <= |bits|
    requires |bits| % WORD_BIT_LEN == 0
    ensures ReadAsWritten(bits, start, bitLen, startLow) == IntendedRead(bits, start, bitLen, startLow)
      <==> startLow || start % WORD_BIT_LEN + bitLen <= WORD_BIT_LEN
           || bits[start + bitLen..start + WORD_BIT_LEN] == Zeros(WORD_BIT_LEN - bitLen)
  {
    if !startLow && start % WORD_BIT_LEN + bitLen > WORD_BIT_LEN {
      var rd := ReadAsWritten(bits, start, bitLen, startLow);
      var tail := bits[start + bitLen..start + WORD_BIT_LEN];
      assert rd == bits[start..start + bitLen] + tail;
      if rd == IntendedRead(bits, start, bitLen, startLow) {
        assert tail == rd[bitLen..];
      }
    }
  }

  /**
   * A concrete leak: in a two-word message whose second word is all ones, the
   * 8 bits at 60 read without startLow come back with bits 8 to 63 set, where
   * the expected value has zeros.
   */
  lemma CrossingReadLeaks()
    ensures var bits := Zeros(WORD_BIT_LEN) + Ones(WORD_BIT_LEN);
      ReadAsWritten(bits, 60, 8, false)[8] && !IntendedRead(bits, 60, 8, false)[8]
  {
    var bits := Zeros(WORD_BIT_LEN) + Ones(WORD_BIT_LEN);
    assert ReadAsWritten(bits, 60, 8, false) == bits[60..124];
  }

  /**
   * Writing a field with erase and reading it back with the same orientation
   * returns it: right-aligned under zeros with startLow, and otherwise in the
   * top bitLen bits, followed by zeros when the field lies inside one word.
   */
  lemma SingleRoundTrip(bits: seq<bool>, start: nat, value: Word, bitLen: nat, startLow: bool)
    requires 1 <= bitLen <= WORD_BIT_LEN && start + bitLen <= |bits| && |bits| % WORD_BIT_LEN == 0
    ensures var f, after := FieldOf(value, bitLen, startLow), Splice(bits, start, FieldOf(value, bitLen, startLow), true);
      (startLow || start % WORD_BIT_LEN + bitLen <= WORD_BIT_LEN) ==>
        ReadAsWritten(after, start, bitLen, startLow) ==
          (if startLow then Zeros(WORD_BIT_LEN - bitLen) + f else f + Zeros(WORD_BIT_LEN - bitLen))
    ensures var f, after := FieldOf(value, bitLen, startLow), Splice(bits, start, FieldOf(value, bitLen, startLow), true);
      !startLow ==> ReadAsWritten(after, start, bitLen, startLow)[..bitLen] == f
  {
    var f := FieldOf(value, bitLen, startLow);
    var after := Splice(bits, start, f, true);
    SpliceErased(bits, start, f);
    if !startLow && start % WORD_BIT_LEN + bitLen > WORD_BIT_LEN {
      var v := ReadAsWritten(after, start, bitLen, startLow);
      assert v == after[start..start + WORD_BIT_LEN];
      assert v[..bitLen] == after[start..start + bitLen];
    }
  }

  /** The window of the message's bits from 64w + mo on, inside word w. */
  lemma WindowInWord(host: Endian, msg: seq<Word>, w: nat, mo: nat, n: nat)
    requires w < |msg| && mo + n <= WORD_BIT_LEN
    ensures MessageBits(host, msg)[WORD_BIT_LEN * w + mo..WORD_BIT_LEN * w + mo + n]
      == Ntohll(host, msg[w])[mo..mo + n]
  {
    MessageBitsWord(host, msg, w);
    SliceOfWord(MessageBits(host, msg), WORD_BIT_LEN * w, Ntohll(host, msg[w]), mo, n);
  }

  /** Bits mo..mo + n of a word that sits at base in b sit at base + mo in b. */
  lemma SliceOfWord(b: seq<bool>, base: nat, x: Word, mo: nat, n: nat)
    requires base + WORD_BIT_LEN <= |b| && mo + n <= WORD_BIT_LEN
    requires b[base..base + WORD_BIT_LEN] == x
    ensures b[base + mo..base + mo + n] == x[mo..mo + n]
  {
    var window, part := b[base + mo..base + mo + n], x[mo..mo + n];
    forall k | 0 <= k < n
      ensures window[k] == part[k]
    {
      assert b[base + mo + k] == b[base..base + WORD_BIT_LEN][mo + k];
    }
  }

  /** The 64 bits of the message from 64w + mo on, across words w and w + 1. */
  lemma WindowAcross(host: Endian, msg: seq<Word>, w: nat, mo: nat)
    requires w + 1 < |msg| && mo < WORD_BIT_LEN
    ensures MessageBits(host, msg)[WORD_BIT_LEN * w + mo..WORD_BIT_LEN * w + mo + WORD_BIT_LEN]
      == Ntohll(host, msg[w])[mo..] + Ntohll(host, msg[w + 1])[..mo]
  {
    MessageBitsWord(host, msg, w);
    MessageBitsWord(host, msg, w + 1);
    WindowOfWords(MessageBits(host, msg), w, mo, Ntohll(host, msg[w]), Ntohll(host, msg[w + 1]));
  }

  /** The 64 bits from 64w + mo on of a bit string holding words x and y at w and w + 1. */
  lemma WindowOfWords(b: seq<bool>, w: nat, mo: nat, x: Word, y: Word)
    requires mo < WORD_BIT_LEN && WORD_BIT_LEN * (w + 1) + WORD_BIT_LEN <= |b|
    requires b[WORD_BIT_LEN * w..WORD_BIT_LEN * w + WORD_BIT_LEN] == x
    requires b[WORD_BIT_LEN * (w + 1)..WORD_BIT_LEN * (w + 1) + WORD_BIT_LEN] == y
    ensures b[WORD_BIT_LEN * w + mo..WORD_BIT_LEN * w + mo + WORD_BIT_LEN] == x[mo..] + y[..mo]
  {
    var base := WORD_BIT_LEN * w;
    var next := WORD_BIT_LEN * (w + 1);
    assert next == base + WORD_BIT_LEN;
    SliceOfWord(b, base, x, mo, WORD_BIT_LEN - mo);
    SliceOfWord(b, next, y, 0, mo);
    JoinWindows(b, base + mo, mo, x, y);
  }

  /** A window of 64 bits made of the tail of word x from mo on and the head of word y. */
  lemma JoinWindows(b: seq<bool>, base: nat, mo: nat, x: Word, y: Word)
    requires mo < WORD_BIT_LEN && base + WORD_BIT_LEN <= |b|
    requires b[base..base + (WORD_BIT_LEN - mo)] == x[mo..mo + (WORD_BIT_LEN - mo)]
    requires b[base + (WORD_BIT_LEN - mo)..base + (WORD_BIT_LEN - mo) + mo] == y[0..0 + mo]
    ensures b[base..base + WORD_BIT_LEN] == x[mo..] + y[..mo]
  {
    var mid := base + (WORD_BIT_LEN - mo);
    assert b[base..base + WORD_BIT_LEN] == b[base..mid] + b[mid..mid + mo];
  }

  /** m << mo masked to n bits, as get_message_bits computes it. */
  lemma ShiftMaskWord(m: Word, mo: nat, n: nat)
    requires mo < WORD_BIT_LEN && 1 <= n <= WORD_BIT_LEN
    ensures n <= WORD_BIT_LEN - mo ==>
      And(Shl(m, mo), FieldMask(n)) == m[mo..mo + n] + Zeros(WORD_BIT_LEN - n)
    ensures n > WORD_BIT_LEN - mo ==> And(Shl(m, mo), FieldMask(n)) == m[mo..] + Zeros(mo)
  {
    ShlSlice(m, mo);
    AndFieldMask(Shl(m, mo), n);
    PaddedPrefix(m[mo..], mo, n);
  }

  /** The second word OR-ed in by get_message_bits fills the zeros behind m[mo..]. */
  lemma OrNextWord(m0: Word, m1: Word, mo: nat)
    requires 0 < mo < WORD_BIT_LEN
    ensures Or(m0[mo..] + Zeros(mo), Shr(m1, WORD_BIT_LEN - mo)) == m0[mo..] + m1[..mo]
  {
    ShrSlice(m1, WORD_BIT_LEN - mo);
  }

  /** The value get_message_bits computes for a field inside word mbi. */
  lemma ReadInside(host: Endian, msg: seq<Word>, mbi: nat, mo: nat, bitLen: nat, v: Word)
    requires mbi < |msg| && 1 <= bitLen && mo + bitLen <= WORD_BIT_LEN
    requires v == And(Shl(Ntohll(host, msg[mbi]), mo), FieldMask(bitLen))
    requires WORD_BIT_LEN * mbi + WORD_BIT_LEN <= WORD_BIT_LEN * |msg|
    ensures v == MessageBits(host, msg)[WORD_BIT_LEN * mbi + mo..WORD_BIT_LEN * mbi + mo + bitLen]
        + Zeros(WORD_BIT_LEN - bitLen)
  {
    ShiftMaskWord(Ntohll(host, msg[mbi]), mo, bitLen);
    WindowInWord(host, msg, mbi, mo, bitLen);
  }

  /** The value get_message_bits computes for a field crossing from word mbi into mbi + 1. */
  lemma ReadCrossing(host: Endian, msg: seq<Word>, mbi: nat, mo: nat, bitLen: nat, v: Word)
    requires mbi + 1 < |msg| && 0 < mo < WORD_BIT_LEN && WORD_BIT_LEN - mo < bitLen <= WORD_BIT_LEN
    requires v == Or(And(Shl(Ntohll(host, msg[mbi]), mo), FieldMask(bitLen)),
                     Shr(Ntohll(host, msg[mbi + 1]), WORD_BIT_LEN - mo))
    requires WORD_BIT_LEN * mbi + 2 * WORD_BIT_LEN <= WORD_BIT_LEN * |msg|
    ensures v == MessageBits(host, msg)[WORD_BIT_LEN * mbi + mo..WORD_BIT_LEN * mbi + mo + WORD_BIT_LEN]
  {
    ShiftMaskWord(Ntohll(host, msg[mbi]), mo, bitLen);
    OrNextWord(Ntohll(host, msg[mbi]), Ntohll(host, msg[mbi + 1]), mo);
    WindowAcross(host, msg, mbi, mo);
  }

  /**
   * The word get_message_bits reads, raw, is the window of 64 bits at start
   * when the field crosses a word boundary and the field followed by zeros
   * otherwise; with startLow it is shifted down to the low bits.
   */
  lemma ReadResult(bits: seq<bool>, start: nat, bitLen: nat, startLow: bool, raw: Word, v: Word)
    requires 1 <= bitLen <= WORD_BIT_LEN && start + bitLen <= |bits| && |bits| % WORD_BIT_LEN == 0
    requires start % WORD_BIT_LEN + bitLen > WORD_BIT_LEN ==>
      start + WORD_BIT_LEN <= |bits| && raw == bits[start..start + WORD_BIT_LEN]
    requires start % WORD_BIT_LEN + bitLen <= WORD_BIT_LEN ==>
      raw == bits[start..start + bitLen] + Zeros(WORD_BIT_LEN - bitLen)
    requires v == if startLow then Shr(raw, WORD_BIT_LEN - bitLen) else raw
    ensures v == ReadAsWritten(bits, start, bitLen, startLow)
  {
    if startLow {
      ShrSlice(raw, WORD_BIT_LEN - bitLen);
      assert raw[..bitLen] == bits[start..start + bitLen];
    }
  }

  /**
   * The word get_message_bits computes for the field of bitLen bits at bit mo
   * of word mbi: word mbi shifted up by mo and masked, the next word's head
   * OR-ed in when the field crosses into it, and the result shifted down with
   * startLow.
   */
  method ReadMessageWord(host: Endian, message: array<Word>, mbi: nat, mo: nat, bitLen: nat,
                         startLow: bool) returns (v: Word)
    requires mbi < message.Length && mo < WORD_BIT_LEN && 1 <= bitLen <= WORD_BIT_LEN
    requires mo + bitLen > WORD_BIT_LEN ==> mbi + 1 < message.Length
    ensures WORD_BIT_LEN * mbi + mo + bitLen <= WORD_BIT_LEN * message.Length
    ensures v == ReadAsWritten(MessageBits(host, message[..]), WORD_BIT_LEN * mbi + mo, bitLen, startLow)
  {
    ghost var bits := MessageBits(host, message[..]);
    ghost var start := WORD_BIT_LEN * mbi + mo;
    DivMod64(mbi, mo);
    DivMod64(message.Length, 0);
    WordInside(mbi, message.Length);
    var m := Ntohll(host, message[mbi]);
    v := Shl(m, mo);
    var mask := FieldMask(bitLen);
    v := And(v, mask);
    if bitLen > WORD_BIT_LEN - mo {
      m := Ntohll(host, message[mbi + 1]);
      v := Or(v, Shr(m, WORD_BIT_LEN - mo));
      assert v == bits[start..start + WORD_BIT_LEN] by {
        WordInside(mbi + 1, message.Length);
        ReadCrossing(host, message[..], mbi, mo, bitLen, v);
      }
    } else {
      assert v == bits[start..start + bitLen] + Zeros(WORD_BIT_LEN - bitLen) by {
        ReadInside(host, message[..], mbi, mo, bitLen, v);
      }
    }
    ghost var raw := v;
    if startLow {
      v := Shr(v, WORD_BIT_LEN - bitLen);
    }
    ReadResult(bits, start, bitLen, startLow, raw, v);
  }

  /**
   * get_message_bits: reads the field of bitLen bits at startBit into
   * value[at] (value and at model the pointer &value[at]; a null value is a
   * NULL pointer, and then nothing is stored). Returns the position after the
   * field, or the error code of GetGuard and stores nothing. A negative startBit
   * that passes the guard, and a field of no bits, are shifts C leaves undefined.
   */
  method GetMessageBits(host: Endian, message: array<Word>, startBit: int, bitLen: int,
                        value: array?<Word>, at: int, startLow: bool) returns (r: int)
    requires value != null ==> 0 <= at < value.Length
    requires GetGuard(message.Length, startBit, bitLen) == 0 ==> 0 <= startBit && 1 <= bitLen
    modifies value
    ensures GetGuard(message.Length, startBit, bitLen) != 0 ==>
      r == GetGuard(message.Length, startBit, bitLen) && (value != null ==> value[..] == old(value[..]))
    ensures GetGuard(message.Length, startBit, bitLen) == 0 ==>
      r == startBit + bitLen &&
      (value != null ==>
         value[..] == old(value[..])[at := ReadAsWritten(MessageBits(host, old(message[..])), startBit, bitLen, startLow)])
  {
    var mbi := CDiv(startBit, WORD_BIT_LEN);
    var mo := CMod(startBit, WORD_BIT_LEN);
    if mbi >= message.Length {
      return -1;
    }
    if bitLen > WORD_BIT_LEN {
      return -2;
    }
    if mbi == message.Length - 1 && mo + bitLen > WORD_BIT_LEN {
      return -3;
    }
    SetPositions(message.Length, startBit, bitLen);
    var v := ReadMessageWord(host, message, mbi, mo, bitLen, startLow);
    if value != null {
      value[at] := v;
    }
    r := startBit + bitLen;
  }
}
