/**
 * set_message_bits3 and get_message_bits3 of src/bitter.c: move a field of any
 * length between a message and consecutive bytes in network order, through a
 * zeroed scratch array of ceil(bitLen / 64) host-order words and the multiword
 * layer.
 */
module ByteArray {
  import opened Words
  import opened ByteOrder
  import opened Message
  import opened SingleWord
  import opened MultiWord

  /** ceil(bitLen / 8.0): the bytes a field of bitLen bits occupies (none for bitLen <= 0). */
  function FieldByteLen(bitLen: int): (n: nat)
    ensures bitLen <= 8 * n && (n > 0 ==> 8 * (n - 1) < bitLen)
  {
    if bitLen <= 0 then 0 else (bitLen + 7) / 8
  }

  /** ceil(bitLen / 64.0): the words of the scratch array (none for bitLen <= 0). */
  function ScratchLen(bitLen: int): (n: nat)
    ensures bitLen <= WORD_BIT_LEN * n && (n > 0 ==> WORD_BIT_LEN * (n - 1) < bitLen)
    ensures FieldByteLen(bitLen) <= WORD_BYTE_LEN * n
  {
    if bitLen <= 0 then 0 else (bitLen + WORD_BIT_LEN - 1) / WORD_BIT_LEN
  }

  /**
   * The memory of the scratch array after calloc and memcpy: the first
   * FieldByteLen(bitLen) bytes of value and zeros behind them.
   */
  function ScratchMemory(value: seq<Byte>, bitLen: int): (mem: seq<Byte>)
    requires FieldByteLen(bitLen) <= |value|
    ensures |mem| == WORD_BYTE_LEN * ScratchLen(bitLen)
  {
    value[..FieldByteLen(bitLen)] + seq(WORD_BYTE_LEN * ScratchLen(bitLen) - FieldByteLen(bitLen), _ => 0)
  }

  /** The bytes of word j of a memory of whole words. */
  function WordMemory(mem: seq<Byte>, j: nat): (r: seq<Byte>)
    requires WORD_BYTE_LEN * j + WORD_BYTE_LEN <= |mem|
    ensures |r| == WORD_BYTE_LEN
  {
    mem[WORD_BYTE_LEN * j..WORD_BYTE_LEN * j + WORD_BYTE_LEN]
  }

  /** The bits of the first m bytes are the first 8m bits of the bytes. */
  lemma BytesBitsPrefix(bs: seq<Byte>, m: nat)
    requires m <= |bs|
    ensures BytesBits(bs)[..8 * m] == BytesBits(bs[..m])
  {
    forall j | 0 <= j < 8 * m
      ensures BytesBits(bs)[j] == BytesBits(bs[..m])[j]
    {
      BytesBitsAt(bs, j, j / 8, j % 8);
      BytesBitsAt(bs[..m], j, j / 8, j % 8);
    }
  }

  /**
   * A memory of whole words converted word by word through ntohll holds the
   * bits of the memory in order, on either host.
   */
  lemma FlattenMemory(mem: seq<Byte>, ws: seq<Word>)
    requires |mem| == WORD_BYTE_LEN * |ws|
    requires forall j :: 0 <= j < |ws| ==> ws[j] == BytesBits(WordMemory(mem, j))
    ensures Flatten(ws) == BytesBits(mem)
  {
    forall k | 0 <= k < WORD_BIT_LEN * |ws|
      ensures Flatten(ws)[k] == BytesBits(mem)[k]
    {
      var j, b := k / WORD_BIT_LEN, k % WORD_BIT_LEN;
      assert k == WORD_BIT_LEN * j + b;
      MemoryBitAt(mem, ws, j, b);
    }
  }

  /** Bit b of word j, when word j is the bits of its eight bytes of memory. */
  lemma MemoryBitAt(mem: seq<Byte>, ws: seq<Word>, j: nat, b: nat)
    requires |mem| == WORD_BYTE_LEN * |ws| && j < |ws| && b < WORD_BIT_LEN
    requires ws[j] == BytesBits(WordMemory(mem, j))
    ensures Flatten(ws)[WORD_BIT_LEN * j + b] == BytesBits(mem)[WORD_BIT_LEN * j + b]
  {
    FlattenAt(ws, j, b);
    var q, i := b / 8, b % 8;
    BytesBitsAt(WordMemory(mem, j), b, q, i);
    BytesBitsAt(mem, WORD_BIT_LEN * j + b, WORD_BYTE_LEN * j + q, i);
  }

  /** Byte 8j + q of the bytes of a word sequence is byte q of word j. */
  lemma WordBytesOfFlatten(ws: seq<Word>, j: nat, q: nat)
    requires j < |ws| && q < WORD_BYTE_LEN
    ensures |Flatten(ws)| % 8 == 0 && WORD_BYTE_LEN * j + q < |Flatten(ws)| / 8
    ensures WordBytes(Flatten(ws))[WORD_BYTE_LEN * j + q] == WordBytes(ws[j])[q]
  {
    BitsOfWords(|ws|);
    FlattenSlice(ws, j);
    var f := Flatten(ws);
    var k := WORD_BYTE_LEN * j + q;
    assert f[8 * k..8 * k + 8] == f[WORD_BIT_LEN * j..WORD_BIT_LEN * j + WORD_BIT_LEN][8 * q..8 * q + 8];
  }

  /** n words hold 8n whole bytes. */
  lemma BitsOfWords(n: nat)
    ensures (WORD_BIT_LEN * n) % 8 == 0 && (WORD_BIT_LEN * n) / 8 == WORD_BYTE_LEN * n
  {
  }

  /** Byte WORD_BYTE_LEN * j + q splits into word j and byte q of it. */
  lemma DivModBytes(j: nat, q: nat)
    requires q < WORD_BYTE_LEN
    ensures (WORD_BYTE_LEN * j + q) / WORD_BYTE_LEN == j && (WORD_BYTE_LEN * j + q) % WORD_BYTE_LEN == q
  {
  }

  /** The first m bytes of the bytes of s are the bytes of its first 8m bits. */
  lemma WordBytesPrefix(s: seq<bool>, m: nat)
    requires |s| % 8 == 0 && 8 * m <= |s|
    ensures WordBytes(s)[..m] == WordBytes(s[..8 * m])
  {
    forall k | 0 <= k < m
      ensures WordBytes(s)[k] == WordBytes(s[..8 * m])[k]
    {
      assert s[8 * k..8 * k + 8] == s[..8 * m][8 * k..8 * k + 8];
    }
  }

  /** The bytes of the bits of bytes are the bytes, for any number of bytes. */
  lemma WordBytesOfBytesBits(bs: seq<Byte>)
    ensures WordBytes(BytesBits(bs)) == bs
  {
    forall k | 0 <= k < |bs|
      ensures WordBytes(BytesBits(bs))[k] == bs[k]
    {
      WordBytesOfBits(bs, k);
    }
  }

  /** The bits of the bytes of bits are the bits, for any whole number of bytes. */
  lemma BytesBitsOfWordBytes(s: seq<bool>)
    requires |s| % 8 == 0
    ensures BytesBits(WordBytes(s)) == s
  {
    forall j | 0 <= j < |s|
      ensures BytesBits(WordBytes(s))[j] == s[j]
    {
      BitsOfWordBytes(s, j, j / 8, j % 8);
    }
  }

  /**
   * The scratch words set_message_bits3 hands to set_message_bits2 carry the
   * bits of the input bytes in order: their first bitLen bits are the first
   * bitLen bits of value, whatever its later bytes hold.
   */
  lemma ScratchBits(value: seq<Byte>, bitLen: int, ws: seq<Word>)
    requires FieldByteLen(bitLen) <= |value| && bitLen >= 0
    requires |ws| == ScratchLen(bitLen)
    requires forall j :: 0 <= j < |ws| ==> ws[j] == BytesBits(WordMemory(ScratchMemory(value, bitLen), j))
    ensures Flatten(ws)[..bitLen] == BytesBits(value)[..bitLen]
  {
    var nb := FieldByteLen(bitLen);
    var mem := ScratchMemory(value, bitLen);
    FlattenMemory(mem, ws);
    BytesBitsPrefix(mem, nb);
    BytesBitsPrefix(value, nb);
    assert mem[..nb] == value[..nb];
    assert BytesBits(mem)[..bitLen] == BytesBits(mem)[..8 * nb][..bitLen];
    assert BytesBits(value)[..bitLen] == BytesBits(value)[..8 * nb][..bitLen];
  }

  /**
   * A scratch array of ScratchLen(bitLen) words moves the whole field: the
   * transfer stops only at the end of the message, and when it succeeds it
   * has moved bitLen bits.
   */
  lemma ScratchMovesField(len: int, start: int, bitLen: int)
    requires bitLen >= 0
    ensures Moved(bitLen, ScratchLen(bitLen)) == bitLen
    ensures ChunkedResult(len, start, bitLen, ScratchLen(bitLen)) >= 0 ==>
      ChunksDone(len, start, bitLen, ScratchLen(bitLen)) == ScratchLen(bitLen) &&
      Written(len, start, bitLen, ScratchLen(bitLen)) == bitLen
  {
  }

  /**
   * The loops of set_message_bits3 and get_message_bits3 that pass every word
   * of the scratch array through ntohll, in place (ntohll and htonll are the
   * same function).
   */
  method SwapWords(host: Endian, vawd: array<Word>)
    modifies vawd
    ensures vawd[..] == HostWords(host, old(vawd[..]))
  {
    var i := 0;
    while i < vawd.Length
      invariant 0 <= i <= vawd.Length
      invariant forall j :: 0 <= j < i ==> vawd[j] == Ntohll(host, old(vawd[j]))
      invariant forall j :: i <= j < vawd.Length ==> vawd[j] == old(vawd[j])
    {
      vawd[i] := Ntohll(host, vawd[i]);
      i := i + 1;
    }
  }

  /**
   * set_message_bits3: writes the first bitLen bits of the bytes value into the
   * message at startBit. Returns -1 when value holds fewer than bitLen bits, -2
   * when the scratch array cannot be allocated (allocFails), and otherwise the
   * result of set_message_bits2 over the scratch words, an error multiplied by
   * ten once more. value_len is the length of value. A bitLen of -8 or less,
   * once the allocation succeeds, makes memcpy copy a negative size, which C
   * leaves undefined.
   */
  method SetMessageBits3(host: Endian, message: array<Word>, startBit: int, bitLen: int,
                         value: seq<Byte>, erase: bool, allocFails: bool) returns (r: int)
    requires bitLen > -8 || allocFails
    modifies message
    ensures bitLen > 8 * |value| ==> r == -1 && message[..] == old(message[..])
    ensures bitLen <= 8 * |value| && allocFails ==> r == -2 && message[..] == old(message[..])
    ensures bitLen <= 8 * |value| && !allocFails ==>
      var inner := ChunkedResult(message.Length, startBit, bitLen, ScratchLen(bitLen));
      r == (if inner < 0 then 10 * inner else inner)
    ensures bitLen <= 8 * |value| && !allocFails && !(0 <= startBit < WORD_BIT_LEN * message.Length) ==>
      message[..] == old(message[..])
    ensures bitLen <= 8 * |value| && !allocFails && 0 <= startBit < WORD_BIT_LEN * message.Length ==>
      MessageBits(host, message[..]) ==
        Splice(MessageBits(host, old(message[..])), startBit,
               BytesBits(value)[..Written(message.Length, startBit, bitLen, ScratchLen(bitLen))], erase)
    ensures bitLen >= 0 && r >= 0 ==>
      MessageBits(host, message[..]) ==
        Splice(MessageBits(host, old(message[..])), startBit, BytesBits(value)[..bitLen], erase)
  {
    if bitLen > 8 * |value| {
      return -1;
    }
    var nbytes := FieldByteLen(bitLen);
    var vawdLen := ScratchLen(bitLen);
    if allocFails {
      return -2;
    }
    // calloc, then memcpy of the first nbytes bytes of value
    var mem := ScratchMemory(value, bitLen);
    var vawd := new Word[vawdLen](j requires 0 <= j < vawdLen => LoadWord(host, WordMemory(mem, j)));
    ghost var loaded := vawd[..];
    SwapWords(host, vawd);
    forall j | 0 <= j < vawdLen
      ensures vawd[j] == BytesBits(WordMemory(mem, j))
    {
      NtohllOfMemory(host, WordMemory(mem, j));
      assert vawd[j] == Ntohll(host, loaded[j]);
    }
    ghost var w := Written(message.Length, startBit, bitLen, vawdLen);
    ghost var bits := MessageBits(host, message[..]);
    var nextPos := SetMessageBits2(host, message, startBit, bitLen, vawd[..], erase);
    if nextPos < 0 {
      nextPos := nextPos * 10;
    }
    if 0 <= startBit < WORD_BIT_LEN * message.Length && bitLen >= 0 {
      assert Flatten(vawd[..])[..w] == BytesBits(value)[..w] by {
        ScratchBits(value, bitLen, vawd[..]);
        assert Flatten(vawd[..])[..w] == Flatten(vawd[..])[..bitLen][..w];
        assert BytesBits(value)[..w] == BytesBits(value)[..bitLen][..w];
      }
      ScratchMovesField(message.Length, startBit, bitLen);
    }
    r := nextPos;
  }

  /**
   * What get_message_bits3 delivers for the field of bitLen bits at start of
   * bits: the field's bits, padded with zeros to whole bytes.
   */
  function FieldBytes(bits: seq<bool>, start: nat, bitLen: nat): (bs: seq<Byte>)
    requires start + bitLen <= |bits|
    ensures |bs| == FieldByteLen(bitLen)
    ensures BytesBits(bs) == bits[start..start + bitLen] + Zeros(8 * FieldByteLen(bitLen) - bitLen)
  {
    var s := bits[start..start + bitLen] + Zeros(8 * FieldByteLen(bitLen) - bitLen);
    BytesBitsOfWordBytes(s);
    WordBytes(s)
  }

  /**
   * The mask ((WORD_T)pow_i(2, n) - 1) << s of src/bitter.c:502 as the 64-bit
   * value it denotes: the bits of weight 2^s up to 2^(s + n - 1) that a word
   * has. With n the field length and s the unused bits of the last scratch
   * word, these are the most significant 64 - s bits.
   */
  function TruncatedMask(n: nat, s: nat): (m: Word)
    requires s < WORD_BIT_LEN && WORD_BIT_LEN - s <= n
    ensures m == FieldMask(WORD_BIT_LEN - s)
  {
    seq(WORD_BIT_LEN, i requires 0 <= i < WORD_BIT_LEN => s <= WORD_BIT_LEN - 1 - i < s + n)
  }

  /**
   * The scratch words after get_message_bits2 and the clearing of the unused
   * bits of the last one hold exactly the field, followed by zeros.
   */
  lemma MaskedScratch(bits: seq<bool>, start: nat, bitLen: nat, ws: seq<Word>, masked: seq<Word>)
    requires |bits| % WORD_BIT_LEN == 0 && |ws| == ScratchLen(bitLen)
    requires ChunksInside(|bits|, start, bitLen, |ws|) && start + bitLen <= |bits|
    requires ws == ReadChunks(bits, start, bitLen, |ws|)
    requires masked == if bitLen == WORD_BIT_LEN * |ws| then ws
      else ws[|ws| - 1 := And(ws[|ws| - 1], FieldMask(bitLen - WORD_BIT_LEN * (|ws| - 1)))]
    ensures Flatten(masked) == bits[start..start + bitLen] + Zeros(WORD_BIT_LEN * |ws| - bitLen)
  {
    var nw := |ws|;
    if nw > 0 {
      ReadChunksPrefix(bits, start, bitLen, nw);
      var n := bitLen - WORD_BIT_LEN * (nw - 1);
      AndFieldMask(ws[nw - 1], n);
      var rhs := bits[start..start + bitLen] + Zeros(WORD_BIT_LEN * nw - bitLen);
      forall k | 0 <= k < WORD_BIT_LEN * nw
        ensures Flatten(masked)[k] == rhs[k]
      {
        var j, b := k / WORD_BIT_LEN, k % WORD_BIT_LEN;
        DivMod64(j, b);
        FlattenAt(masked, j, b);
        FlattenAt(ws, j, b);
        if k < bitLen {
          assert Flatten(ws)[..bitLen][k] == bits[start..start + bitLen][k];
        }
      }
    }
  }

  /**
   * get_message_bits3: reads the field of bitLen bits at startBit into the first
   * FieldByteLen(bitLen) bytes of value, in network order with the bits past
   * the field zero. valueLen is value_len, the size the caller gives for value.
   * Returns -1 when valueLen bytes hold fewer than bitLen bits, -2 for a NULL
   * value, -3 when the scratch array cannot be allocated (allocFails), and
   * otherwise the result of get_message_bits2 over the scratch words, an error
   * multiplied by ten once more; value is written only on success. A negative
   * bitLen that passes all of these, with a start inside the message and
   * start + bitLen >= 0, goes on to pow_i with a negative exponent and to
   * vawd[vawd_len - 1] with vawd_len == 0, which C leaves undefined.
   */
  method GetMessageBits3(host: Endian, message: array<Word>, startBit: int, bitLen: int,
                         value: array?<Byte>, valueLen: int, allocFails: bool) returns (r: int)
    requires bitLen < 0 ==>
      bitLen > 8 * valueLen || value == null || allocFails ||
      !(0 <= startBit < WORD_BIT_LEN * message.Length) || startBit + bitLen < 0
    requires value != null ==> valueLen <= value.Length
    modifies value
    ensures r < 0 && value != null ==> value[..] == old(value[..])
    ensures bitLen > 8 * valueLen ==> r == -1
    ensures bitLen <= 8 * valueLen && value == null ==> r == -2
    ensures bitLen <= 8 * valueLen && value != null && allocFails ==> r == -3
    ensures bitLen <= 8 * valueLen && value != null && !allocFails ==>
      var inner := ChunkedResult(message.Length, startBit, bitLen, ScratchLen(bitLen));
      r == (if inner < 0 then 10 * inner else inner)
    ensures r >= 0 ==>
      value != null && 0 <= startBit && 0 <= bitLen && startBit + bitLen <= WORD_BIT_LEN * message.Length &&
      value[..] == FieldBytes(MessageBits(host, message[..]), startBit, bitLen)
                   + old(value[..])[FieldByteLen(bitLen)..]
  {
    if bitLen > 8 * valueLen {
      return -1;
    }
    if value == null {
      return -2;
    }
    var nbytes := FieldByteLen(bitLen);
    var vawdLen := ScratchLen(bitLen);
    var vawdLenBits := vawdLen * WORD_BIT_LEN;
    if allocFails {
      return -3;
    }
    var vawd := new Word[vawdLen](_ => Zeros(WORD_BIT_LEN));
    ghost var bits := MessageBits(host, message[..]);
    var nextPos := GetMessageBits2(host, message, startBit, bitLen, vawd);
    if nextPos < 0 {
      return nextPos * 10;
    }
    assert bitLen >= 0;
    ScratchMovesField(message.Length, startBit, bitLen);
    ghost var ws := vawd[..];
    assert ws == ReadChunks(bits, startBit, bitLen, vawdLen);

    // Clear the unused bits of the last scratch word.
    if bitLen != vawdLenBits {
      var br := vawdLenBits - bitLen;
      var mask := TruncatedMask(bitLen, br);
      ghost var lastLen := bitLen - WORD_BIT_LEN * (vawdLen - 1);
      assert mask == FieldMask(lastLen);
      vawd[vawdLen - 1] := And(vawd[vawdLen - 1], mask);
      assert vawd[..] == ws[vawdLen - 1 := And(ws[vawdLen - 1], FieldMask(lastLen))];
    }
    ghost var masked := vawd[..];
    assert Flatten(masked) == bits[startBit..startBit + bitLen] + Zeros(vawdLenBits - bitLen) by {
      MaskedScratch(bits, startBit, bitLen, ws, masked);
    }

    // Convert the words to network byte order.
    SwapWords(host, vawd);

    // memcpy of the first nbytes bytes of the scratch array's memory.
    CopyOut(host, vawd, value, nbytes);
    assert value[..nbytes] == FieldBytes(bits, startBit, bitLen) by {
      FieldBytesOfScratch(host, bits, startBit, bitLen, masked, vawd[..]);
    }
    r := nextPos;
  }

  /** The bytes in memory of words, the first word at the lowest address. */
  function Memory(host: Endian, ws: seq<Word>): (mem: seq<Byte>)
    ensures |mem| == WORD_BYTE_LEN * |ws|
  {
    seq(WORD_BYTE_LEN * |ws|, k requires 0 <= k < WORD_BYTE_LEN * |ws| =>
      LoadStoreRoundTrip(host, ws[k / WORD_BYTE_LEN], seq(WORD_BYTE_LEN, _ => 0));
      StoreWord(host, ws[k / WORD_BYTE_LEN])[k % WORD_BYTE_LEN])
  }

  /** memcpy(dst, src, n): the first n bytes of the memory of the words of src into dst. */
  method CopyOut(host: Endian, src: array<Word>, dst: array<Byte>, n: nat)
    requires n <= WORD_BYTE_LEN * src.Length && n <= dst.Length
    modifies dst
    ensures dst[..] == Memory(host, src[..])[..n] + old(dst[..])[n..]
  {
    forall k | 0 <= k < n {
      dst[k] := Memory(host, src[..])[k];
    }
    assert dst[..] == dst[..n] + dst[n..];
  }

  /** The bytes memcpy takes from the scratch words in network order are the field's bytes. */
  lemma FieldBytesOfScratch(host: Endian, bits: seq<bool>, start: nat, bitLen: nat,
                            masked: seq<Word>, net: seq<Word>)
    requires start + bitLen <= |bits| && |masked| == ScratchLen(bitLen)
    requires Flatten(masked) == bits[start..start + bitLen] + Zeros(WORD_BIT_LEN * |masked| - bitLen)
    requires net == HostWords(host, masked)
    ensures Memory(host, net)[..FieldByteLen(bitLen)] == FieldBytes(bits, start, bitLen)
  {
    var nb := FieldByteLen(bitLen);
    var f := Flatten(masked);
    MemoryOfNetworkOrder(host, masked);
    WordBytesPrefix(f, nb);
    assert f[..8 * nb] == bits[start..start + bitLen] + Zeros(8 * nb - bitLen);
  }

  /**
   * Host-order words converted through htonll lie in memory as the bytes of
   * their bits in order, on either host.
   */
  lemma MemoryOfNetworkOrder(host: Endian, ws: seq<Word>)
    ensures Memory(host, HostWords(host, ws)) == WordBytes(Flatten(ws))
  {
    BitsOfWords(|ws|);
    forall k | 0 <= k < WORD_BYTE_LEN * |ws|
      ensures Memory(host, HostWords(host, ws))[k] == WordBytes(Flatten(ws))[k]
    {
      NetworkOrderByte(host, ws, k);
    }
  }

  /** Byte k of the memory of the words in network order. */
  lemma NetworkOrderByte(host: Endian, ws: seq<Word>, k: nat)
    requires k < WORD_BYTE_LEN * |ws|
    ensures |Flatten(ws)| % 8 == 0 && k < |Flatten(ws)| / 8
    ensures Memory(host, HostWords(host, ws))[k] == WordBytes(Flatten(ws))[k]
  {
    var net := HostWords(host, ws);
    var j, q := k / WORD_BYTE_LEN, k % WORD_BYTE_LEN;
    assert k == WORD_BYTE_LEN * j + q;
    MemoryAt(host, net, j, q);
    NetworkWordBytes(host, ws[j], net[j]);
    WordBytesOfFlatten(ws, j, q);
  }

  /** Byte WORD_BYTE_LEN * j + q of the memory of ws is byte q of the store of word j. */
  lemma MemoryAt(host: Endian, ws: seq<Word>, j: nat, q: nat)
    requires j < |ws| && q < WORD_BYTE_LEN
    ensures |StoreWord(host, ws[j])| == WORD_BYTE_LEN
    ensures Memory(host, ws)[WORD_BYTE_LEN * j + q] == StoreWord(host, ws[j])[q]
  {
    DivModBytes(j, q);
    LoadStoreRoundTrip(host, ws[j], seq(WORD_BYTE_LEN, _ => 0));
  }

  /** The store of the network-order form n of a word w holds the bytes of w. */
  lemma NetworkWordBytes(host: Endian, w: Word, n: Word)
    requires n == Ntohll(host, w)
    ensures StoreWord(host, n) == WordBytes(w)
  {
    StoreHtonll(host, w);
  }

  /**
   * Bytes written with erase by set_message_bits3 read back through
   * get_message_bits3 exactly when the bits of their last byte past bitLen
   * are zero.
   */
  lemma BytesRoundTrip(bits: seq<bool>, start: nat, bitLen: nat, bs: seq<Byte>)
    requires start + bitLen <= |bits| && bitLen <= 8 * |bs|
    ensures var after := Splice(bits, start, BytesBits(bs)[..bitLen], true);
      (FieldBytes(after, start, bitLen) == bs[..FieldByteLen(bitLen)])
        <==> (BytesBits(bs)[bitLen..8 * FieldByteLen(bitLen)] == Zeros(8 * FieldByteLen(bitLen) - bitLen))
  {
    var nb := FieldByteLen(bitLen);
    var after := Splice(bits, start, BytesBits(bs)[..bitLen], true);
    var fb := FieldBytes(after, start, bitLen);
    assert BytesBits(fb) == BytesBits(bs)[..bitLen] + Zeros(8 * nb - bitLen) by {
      SpliceErased(bits, start, BytesBits(bs)[..bitLen]);
    }
    assert BytesBits(bs[..nb]) == BytesBits(bs)[..bitLen] + BytesBits(bs)[bitLen..8 * nb] by {
      BytesBitsPrefix(bs, nb);
    }
    var a, z, p := BytesBits(bs)[..bitLen], Zeros(8 * nb - bitLen), BytesBits(bs)[bitLen..8 * nb];
    BytesBitsEqual(fb, bs[..nb]);
    assert a + z == a + p ==> z == p by {
      if a + z == a + p {
        assert (a + z)[|a|..] == z && (a + p)[|a|..] == p;
      }
    }
  }

  /** Bytes are equal exactly when their bits are. */
  lemma BytesBitsEqual(a: seq<Byte>, b: seq<Byte>)
    ensures a == b <==> BytesBits(a) == BytesBits(b)
  {
    if BytesBits(a) == BytesBits(b) {
      WordBytesOfBytesBits(a);
      WordBytesOfBytesBits(b);
    }
  }
}
