/**
 * Byte order of include/bitter.h:11-18: the htonll/ntohll macros and the way a
 * word is laid out in memory, on either kind of host.
 */
module ByteOrder {
  import opened Tools
  import opened Words

  /**
   * The host's byte order. BigEndian is a host where __BIG_ENDIAN__ is set and
   * the macros are the identity; LittleEndian is a little-endian host, where
   * they swap bytes through htonl.
   */
  datatype Endian = BigEndian | LittleEndian

  /** uint8_t */
  type Byte = b: int | 0 <= b < 0x100

  /** uint32_t, the operand of htonl */
  type Word32 = u: seq<bool> | |u| == 32 witness seq(32, _ => false)

  /** The 8 bits of a byte, most significant first. */
  function ByteBits(b: Byte): (r: seq<bool>)
    ensures |r| == 8
  {
    Bits(b, 8)
  }

  /** The byte whose bits, most significant first, are s. */
  function BitsByte(s: seq<bool>): Byte
    requires |s| == 8
  {
    ValueBound(s);
    assert Power(2, 8) == 0x100;
    Value(s)
  }

  lemma ByteBitsRoundTrip(b: Byte, s: seq<bool>)
    requires |s| == 8
    ensures BitsByte(ByteBits(b)) == b
    ensures ByteBits(BitsByte(s)) == s
  {
    assert Power(2, 8) == 0x100;
    BitsValue(b, 8);
    ValueBits(s);
  }

  /** Splitting a bit position into its byte and its bit inside the byte. */
  lemma DivMod8(k: int, i: int)
    requires 0 <= i < 8
    ensures (8 * k + i) / 8 == k && (8 * k + i) % 8 == i
  {
  }

  /** The bits of consecutive bytes: byte k supplies bits [8k, 8k + 8). */
  function BytesBits(bs: seq<Byte>): (r: seq<bool>)
    ensures |r| == 8 * |bs|
  {
    seq(8 * |bs|, j requires 0 <= j < 8 * |bs| => ByteBits(bs[j / 8])[j % 8])
  }

  /** Bit i of byte k sits at position j = 8k + i of the bits of the bytes. */
  lemma BytesBitsAt(bs: seq<Byte>, j: nat, k: nat, i: nat)
    requires k < |bs| && i < 8 && j == 8 * k + i
    ensures BytesBits(bs)[j] == ByteBits(bs[k])[i]
  {
    DivMod8(k, i);
  }

  /** The bytes of a bit sequence whose length is a whole number of bytes. */
  function WordBytes(w: seq<bool>): (r: seq<Byte>)
    requires |w| % 8 == 0
    ensures |r| == |w| / 8
  {
    seq(|w| / 8, k requires 0 <= k < |w| / 8 => BitsByte(w[8 * k..8 * k + 8]))
  }

  /**
   * A word is exactly its WORD_BYTE_LEN bytes, most significant first, and
   * WORD_BYTE_LEN bytes make exactly one word: WORD_BIT_LEN == 8 * WORD_BYTE_LEN.
   */
  lemma WordBytesRoundTrip(w: Word, bs: seq<Byte>)
    requires |bs| == WORD_BYTE_LEN
    ensures |WordBytes(w)| == WORD_BYTE_LEN && BytesBits(WordBytes(w)) == w
    ensures |BytesBits(bs)| == WORD_BIT_LEN && WordBytes(BytesBits(bs)) == bs
  {
    var ws := WordBytes(w);
    forall j | 0 <= j < WORD_BIT_LEN
      ensures BytesBits(ws)[j] == w[j]
    {
      BitsOfWordBytes(w, j, j / 8, j % 8);
    }
    var bb := BytesBits(bs);
    forall k | 0 <= k < WORD_BYTE_LEN
      ensures WordBytes(bb)[k] == bs[k]
    {
      WordBytesOfBits(bs, k);
    }
  }

  /** Bit j = 8k + i of the bytes of w is bit j of w. */
  lemma BitsOfWordBytes(w: seq<bool>, j: nat, k: nat, i: nat)
    requires |w| % 8 == 0 && k < |w| / 8 && i < 8 && j == 8 * k + i
    ensures BytesBits(WordBytes(w))[j] == w[j]
  {
    var s := w[8 * k..8 * k + 8];
    BytesBitsAt(WordBytes(w), j, k, i);
    ByteBitsRoundTrip(0, s);
    assert s[i] == w[j];
  }

  lemma WordBytesOfBits(bs: seq<Byte>, k: nat)
    requires k < |bs|
    ensures WordBytes(BytesBits(bs))[k] == bs[k]
  {
    var bb := BytesBits(bs);
    forall i | 0 <= i < 8
      ensures bb[8 * k..8 * k + 8][i] == ByteBits(bs[k])[i]
    {
      BytesBitsAt(bs, 8 * k + i, k, i);
    }
    assert bb[8 * k..8 * k + 8] == ByteBits(bs[k]);
    ByteBitsRoundTrip(bs[k], ByteBits(bs[k]));
  }

  function Reverse<T>(s: seq<T>): seq<T>
  {
    seq(|s|, i requires 0 <= i < |s| => s[|s| - 1 - i])
  }

  /** htonl: the four bytes of x in reverse order on a little-endian host. */
  function Htonl(host: Endian, x: Word32): Word32
  {
    if host == BigEndian then x else x[24..32] + x[16..24] + x[8..16] + x[0..8]
  }

  /** The conversion of a 64-bit value to uint32_t: its 32 low bits. */
  function Low32(x: Word): Word32
  {
    x[32..]
  }

  /** The conversion of a uint32_t to uint64_t: zero extension. */
  function Widen(u: Word32): Word
  {
    Zeros(32) + u
  }

  /** htonll(x): ((uint64_t)htonl(x & 0xFFFFFFFF) << 32) | htonl(x >> 32). */
  function Htonll(host: Endian, x: Word): Word
  {
    if host == BigEndian then x
    else Or(Shl(Widen(Htonl(host, Low32(And(x, LowOnes(32))))), 32),
            Widen(Htonl(host, Low32(Shr(x, 32)))))
  }

  /**
   * ntohll(x): the macro is spelled with ntohl instead of htonl, and ntohl
   * performs the same byte swap, so both macros compute the same function.
   */
  function Ntohll(host: Endian, x: Word): Word
  {
    Htonll(host, x)
  }

  /** Bit i of byte k of htonl(u) on a little-endian host is bit i of byte 3 - k of u. */
  lemma HtonlBit(u: Word32, k: nat, i: nat)
    requires k < 4 && i < 8
    ensures Htonl(LittleEndian, u)[8 * k + i] == u[8 * (3 - k) + i]
  {
    var h := Htonl(LittleEndian, u);
    assert h == u[24..32] + u[16..24] + u[8..16] + u[0..8];
    if k == 0 {
      assert h[i] == u[24..32][i];
    } else if k == 1 {
      assert h[8 + i] == u[16..24][i];
    } else if k == 2 {
      assert h[16 + i] == u[8..16][i];
    } else {
      assert h[24 + i] == u[0..8][i];
    }
  }

  /** Bit j = 8k + i of htonll(x) on a little-endian host is bit i of byte 7 - k of x. */
  lemma HtonllBit(x: Word, j: nat, k: nat, i: nat)
    requires k < 8 && i < 8 && j == 8 * k + i
    ensures Htonll(LittleEndian, x)[j] == x[8 * (7 - k) + i]
  {
    var l1 := Low32(And(x, LowOnes(32)));
    var l2 := Low32(Shr(x, 32));
    var h1, h2 := Htonl(LittleEndian, l1), Htonl(LittleEndian, l2);
    var a, b := Shl(Widen(h1), 32), Widen(h2);
    assert Htonll(LittleEndian, x) == Or(a, b);
    if k < 4 {
      HtonlBit(l1, k, i);
      assert a[j] == Widen(h1)[j + 32] == h1[j];
      assert l1[8 * (3 - k) + i] == x[8 * (7 - k) + i];
      assert !b[j];
    } else {
      HtonlBit(l2, k - 4, i);
      assert !a[j];
      assert b[j] == h2[8 * (k - 4) + i];
      assert l2[8 * (7 - k) + i] == x[8 * (7 - k) + i];
    }
  }

  /** Bit j of htonll(x) on a little-endian host is bit j of x's bytes reversed. */
  lemma HtonllReversedAt(x: Word, j: nat)
    requires j < WORD_BIT_LEN
    ensures Htonll(LittleEndian, x)[j] == BytesBits(Reverse(WordBytes(x)))[j]
  {
    var k, i := j / 8, j % 8;
    HtonllBit(x, j, k, i);
    ReversedBytesAt(x, j, k, i);
  }

  /** Bit i of byte k of the reversed bytes of x is bit i of byte 7 - k of x. */
  lemma ReversedBytesAt(x: Word, j: nat, k: nat, i: nat)
    requires k < 8 && i < 8 && j == 8 * k + i
    ensures BytesBits(Reverse(WordBytes(x)))[j] == x[8 * (7 - k) + i]
  {
    var wb := WordBytes(x);
    var j' := 8 * (7 - k) + i;
    BytesBitsAt(Reverse(wb), j, k, i);
    assert Reverse(wb)[k] == wb[7 - k];
    BytesBitsAt(wb, j', 7 - k, i);
    BitsOfWordBytes(x, j', 7 - k, i);
  }

  /** On a little-endian host htonll reverses the eight bytes of the word. */
  lemma HtonllReversesBytes(x: Word)
    ensures Htonll(LittleEndian, x) == BytesBits(Reverse(WordBytes(x)))
  {
    forall j | 0 <= j < WORD_BIT_LEN
      ensures Htonll(LittleEndian, x)[j] == BytesBits(Reverse(WordBytes(x)))[j]
    {
      HtonllReversedAt(x, j);
    }
  }

  /** Bit j of htonll(htonll(x)) on a little-endian host is bit j of x. */
  lemma SwapTwiceAt(x: Word, j: nat)
    requires j < WORD_BIT_LEN
    ensures Htonll(LittleEndian, Htonll(LittleEndian, x))[j] == x[j]
  {
    var k, i := j / 8, j % 8;
    var j' := 8 * (7 - k) + i;
    HtonllBit(Htonll(LittleEndian, x), j, k, i);
    HtonllBit(x, j', 7 - k, i);
    assert 8 * (7 - (7 - k)) + i == j;
  }

  /**
   * ntohll undoes htonll and the other way round, on either host; this is what
   * lets src/bitter.c read a stored word, change it and store it back losslessly.
   * On a big-endian host both macros leave the word as it is.
   */
  lemma ByteSwapInvolution(host: Endian, x: Word)
    ensures Ntohll(host, Htonll(host, x)) == x
    ensures Htonll(host, Ntohll(host, x)) == x
    ensures host == BigEndian ==> Htonll(host, x) == x && Ntohll(host, x) == x
  {
    if host == LittleEndian {
      forall j | 0 <= j < WORD_BIT_LEN
        ensures Htonll(LittleEndian, Htonll(LittleEndian, x))[j] == x[j]
      {
        SwapTwiceAt(x, j);
      }
    }
  }

  /** Every stored word is htonll of its host-order value. */
  lemma ByteSwapAll(host: Endian)
    ensures forall x: Word {:trigger Htonll(host, x)} :: Ntohll(host, Htonll(host, x)) == x
    ensures forall x: Word {:trigger Ntohll(host, x)} :: Htonll(host, Ntohll(host, x)) == x
  {
    forall x: Word
      ensures Ntohll(host, Htonll(host, x)) == x && Htonll(host, Ntohll(host, x)) == x
    {
      ByteSwapInvolution(host, x);
    }
  }

  /** The value of the word whose memory holds mem, the first byte at the lowest address. */
  function LoadWord(host: Endian, mem: seq<Byte>): Word
    requires |mem| == WORD_BYTE_LEN
  {
    if host == BigEndian then BytesBits(mem) else BytesBits(Reverse(mem))
  }

  /** The bytes in memory of a word with value w, the first at the lowest address. */
  function StoreWord(host: Endian, w: Word): seq<Byte>
  {
    WordBytesRoundTrip(w, seq(8, _ => 0));
    if host == BigEndian then WordBytes(w) else Reverse(WordBytes(w))
  }

  /** A word's memory read back is the word, and the other way round. */
  lemma LoadStoreRoundTrip(host: Endian, w: Word, mem: seq<Byte>)
    requires |mem| == WORD_BYTE_LEN
    ensures |StoreWord(host, w)| == WORD_BYTE_LEN && LoadWord(host, StoreWord(host, w)) == w
    ensures StoreWord(host, LoadWord(host, mem)) == mem
  {
    WordBytesRoundTrip(w, mem);
    assert Reverse(Reverse(WordBytes(w))) == WordBytes(w);
    assert Reverse(Reverse(mem)) == mem;
    WordBytesRoundTrip(w, Reverse(mem));
  }

  /**
   * Bytes in network order laid in memory as a word read back through ntohll as
   * their bits in order, on either host: the conversion set_message_bits3
   * relies on.
   */
  lemma NtohllOfMemory(host: Endian, mem: seq<Byte>)
    requires |mem| == WORD_BYTE_LEN
    ensures Ntohll(host, LoadWord(host, mem)) == BytesBits(mem)
  {
    if host == LittleEndian {
      var w := BytesBits(Reverse(mem));
      WordBytesRoundTrip(w, Reverse(mem));
      HtonllReversesBytes(w);
      assert Reverse(Reverse(mem)) == mem;
    }
  }

  /**
   * A host-order word converted by htonll lies in memory as its bytes, most
   * significant first, on either host: the conversion get_message_bits3 relies on.
   */
  lemma StoreHtonll(host: Endian, w: Word)
    ensures StoreWord(host, Htonll(host, w)) == WordBytes(w)
  {
    if host == LittleEndian {
      HtonllReversesBytes(w);
      var rb := Reverse(WordBytes(w));
      WordBytesRoundTrip(w, rb);
      assert Reverse(rb) == WordBytes(w);
    }
  }

  /** The number bytes denote in network order: sum of b_k * 256^(n-1-k). */
  function BigEndianValue(bs: seq<Byte>): nat
  {
    if bs == [] then 0 else 256 * BigEndianValue(bs[..|bs| - 1]) + bs[|bs| - 1]
  }

  lemma ByteValue(b: Byte)
    ensures Value(ByteBits(b)) == b
  {
    assert Power(2, 8) == 0x100;
    BitsValue(b, 8);
  }

  /** The bits of bytes are the bits of all but the last byte followed by the last byte's. */
  lemma BytesBitsSnoc(bs: seq<Byte>)
    requires bs != []
    ensures BytesBits(bs) == BytesBits(bs[..|bs| - 1]) + ByteBits(bs[|bs| - 1])
  {
    var init := bs[..|bs| - 1];
    forall j | 0 <= j < 8 * |bs|
      ensures BytesBits(bs)[j] == (BytesBits(init) + ByteBits(bs[|bs| - 1]))[j]
    {
      if j < 8 * |init| {
        BytesBitsAt(init, j, j / 8, j % 8);
      }
    }
  }

  /** Appending the eight bits of a byte multiplies the number by 256 and adds the byte. */
  lemma ValueAppendByte(a: seq<bool>, b: Byte)
    ensures Value(a + ByteBits(b)) == 256 * Value(a) + b
  {
    ValueAppend(a, ByteBits(b));
    ByteValue(b);
    assert Power(2, 8) == 256;
  }

  /** The bits of bytes denote the number the bytes denote in network order. */
  lemma {:induction false} BytesValue(bs: seq<Byte>)
    ensures Value(BytesBits(bs)) == BigEndianValue(bs)
  {
    if bs != [] {
      var init, last := bs[..|bs| - 1], bs[|bs| - 1];
      BytesBitsSnoc(bs);
      ValueAppendByte(BytesBits(init), last);
      BytesValue(init);
    }
  }

  /**
   * Eight bytes b0..b7 laid in memory as a word give ntohll(word) =
   * sum of b_k * 256^(7-k), on either host.
   */
  lemma NtohllValue(host: Endian, mem: seq<Byte>)
    requires |mem| == WORD_BYTE_LEN
    ensures Value(Ntohll(host, LoadWord(host, mem))) == BigEndianValue(mem)
  {
    NtohllOfMemory(host, mem);
    BytesValue(mem);
  }
}
