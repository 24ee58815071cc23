/**
 * set_message_bits2 and get_message_bits2 of src/bitter.c: move a field of any
 * length between a message and an array of host-order words, one word-sized
 * chunk at a time through set_message_bits and get_message_bits. Chunk j
 * covers bits [start + 64j, start + 64j + min(bitLen - 64j, 64)) of the message
 * and the most significant bits of value word j.
 */
module MultiWord {
  import opened Words
  import opened ByteOrder
  import opened Message
  import opened SingleWord

  /** The length of chunk j of a field of bitLen bits. */
  function ChunkLen(bitLen: int, j: nat): int
  {
    Min(bitLen - WORD_BIT_LEN * j, WORD_BIT_LEN)
  }

  /** The bits a transfer moves when nothing fails: bitLen, but no more than the value words hold. */
  function Moved(bitLen: int, valueLen: nat): (m: nat)
    ensures m <= WORD_BIT_LEN * valueLen
  {
    if bitLen <= 0 then 0 else Min(bitLen, WORD_BIT_LEN * valueLen)
  }

  /**
   * The number of chunks a transfer of bitLen bits at start, with valueLen value
   * words, gets through: none for a start outside the message of len words;
   * every chunk the field or the value words have when the bits moved fit in
   * the message; otherwise the whole-word chunks in front of the first one that
   * runs past the end of the message.
   */
  function ChunksDone(len: int, start: int, bitLen: int, valueLen: nat): (d: nat)
    ensures d <= valueLen
    ensures d > 0 ==>
      0 <= start && WORD_BIT_LEN * (d - 1) < bitLen && start + Min(bitLen, WORD_BIT_LEN * d) <= WORD_BIT_LEN * len
  {
    if start < 0 || start >= WORD_BIT_LEN * len || bitLen <= 0 then 0
    else if start + Moved(bitLen, valueLen) <= WORD_BIT_LEN * len then
      Min((bitLen + WORD_BIT_LEN - 1) / WORD_BIT_LEN, valueLen)
    else (WORD_BIT_LEN * len - start) / WORD_BIT_LEN
  }

  /** The bits moved by the chunks a transfer gets through. */
  function Written(len: int, start: int, bitLen: int, valueLen: nat): (w: nat)
    ensures w <= WORD_BIT_LEN * valueLen
    ensures w > 0 ==> 0 <= start && start + w <= WORD_BIT_LEN * len
  {
    var d := ChunksDone(len, start, bitLen, valueLen);
    if d == 0 then 0 else Min(bitLen, WORD_BIT_LEN * d)
  }

  /**
   * The result of set_message_bits2 and get_message_bits2 on a value array:
   * -1 for a start outside the message; the position after the field when the
   * bits moved fit in the message; otherwise ten times the error of the first
   * chunk that does not fit: -10 when it starts at the end of the message,
   * -30 when it starts inside the last word and runs past it.
   */
  function ChunkedResult(len: int, start: int, bitLen: int, valueLen: nat): int
  {
    if start < 0 || start >= WORD_BIT_LEN * len then -1
    else if start + Moved(bitLen, valueLen) <= WORD_BIT_LEN * len then start + bitLen
    else if (WORD_BIT_LEN * len - start) % WORD_BIT_LEN == 0 then -10
    else -30
  }

  /**
   * Chunk i runs past the end of the message although every chunk before it
   * fitted: the transfer stops there, after i chunks, and its result is ten
   * times the error set_message_bits and get_message_bits give for that chunk.
   */
  lemma ChunkFails(len: int, start: int, bitLen: int, valueLen: nat, i: nat)
    requires 0 <= start < WORD_BIT_LEN * len && i < valueLen && WORD_BIT_LEN * i < bitLen
    requires start + WORD_BIT_LEN * i <= WORD_BIT_LEN * len
    requires start + WORD_BIT_LEN * i + ChunkLen(bitLen, i) > WORD_BIT_LEN * len
    ensures ChunksDone(len, start, bitLen, valueLen) == i
    ensures ChunkedResult(len, start, bitLen, valueLen) ==
      10 * SetGuard(len, start + WORD_BIT_LEN * i, ChunkLen(bitLen, i))
  {
    var e := WORD_BIT_LEN * len;
    assert start + Moved(bitLen, valueLen) > e by {
      assert Moved(bitLen, valueLen) >= WORD_BIT_LEN * i + ChunkLen(bitLen, i);
    }
    assert (e - start) / WORD_BIT_LEN == i && (e - start) % WORD_BIT_LEN == e - start - WORD_BIT_LEN * i by {
      DivMod64(i, e - start - WORD_BIT_LEN * i);
    }
  }

  /**
   * The transfer got through k chunks, all of them fitting, and stopped because
   * the value words or the field ran out: it succeeds after those k chunks.
   */
  lemma ChunksFit(len: int, start: int, bitLen: int, valueLen: nat, k: nat)
    requires 0 <= start < WORD_BIT_LEN * len && k <= valueLen
    requires k > 0 ==> WORD_BIT_LEN * (k - 1) < bitLen
    requires k == valueLen || bitLen <= WORD_BIT_LEN * k
    requires start + Min(bitLen, WORD_BIT_LEN * k) <= WORD_BIT_LEN * len
    ensures ChunksDone(len, start, bitLen, valueLen) == k
    ensures ChunkedResult(len, start, bitLen, valueLen) == start + bitLen
  {
    if bitLen > 0 {
      assert (bitLen + WORD_BIT_LEN - 1) / WORD_BIT_LEN >= k;
      if bitLen <= WORD_BIT_LEN * k {
        assert (bitLen + WORD_BIT_LEN - 1) / WORD_BIT_LEN == k by {
          DivMod64(k - 1, bitLen - WORD_BIT_LEN * (k - 1) - 1);
        }
      }
    }
  }

  /**
   * The first w' = 64i + n bits of the words are their first w = 64i bits and
   * then the n most significant bits of word i.
   */
  lemma FlattenPrefix(ws: seq<Word>, i: nat, n: nat, w: nat, w': nat)
    requires i < |ws| && 1 <= n <= WORD_BIT_LEN && w == WORD_BIT_LEN * i && w' == w + n
    ensures Flatten(ws)[..w'] == Flatten(ws)[..w] + FieldOf(ws[i], n, false)
  {
    FlattenSlice(ws, i);
    assert Flatten(ws)[..w'] == Flatten(ws)[..w] + Flatten(ws)[w..w + WORD_BIT_LEN][..n];
  }

  /**
   * One chunk of set_message_bits2: cur holds the first w = 64i bits of the
   * value words written at start into bits, and set_message_bits writes n bits
   * of word i at start + w into cur, giving next; then next holds the first
   * w' = w + n bits written.
   */
  lemma SetChunkStep(bits: seq<bool>, cur: seq<bool>, next: seq<bool>, start: nat,
                     ws: seq<Word>, i: nat, at: nat, n: nat, w: nat, w': nat, erase: bool)
    requires i < |ws| && 1 <= n <= WORD_BIT_LEN && w == WORD_BIT_LEN * i && w' == w + n && at == start + w
    requires at + n <= |bits|
    requires cur == Splice(bits, start, Flatten(ws)[..w], erase)
    requires next == Splice(cur, at, FieldOf(ws[i], n, false), erase)
    ensures next == Splice(bits, start, Flatten(ws)[..w'], erase)
  {
    SpliceThen(bits, start, Flatten(ws)[..w], at, FieldOf(ws[i], n, false), erase);
    FlattenPrefix(ws, i, n, w, w');
  }

  /** When bits are left after chunk i, chunk i was a whole word and chunk i + 1 is what is left, up to a word. */
  lemma ChunkAdvance(bitLen: int, i: nat, l: int, rest: int)
    requires l == ChunkLen(bitLen, i) && rest == bitLen - WORD_BIT_LEN * i - l
    ensures rest > 0 ==>
      l == WORD_BIT_LEN && rest == bitLen - WORD_BIT_LEN * (i + 1) && ChunkLen(bitLen, i + 1) == Min(rest, WORD_BIT_LEN)
  {
  }

  /** Writing the first a or the first b bits of f is the same when a == b. */
  lemma SpliceSameLength(bits: seq<bool>, start: nat, f: seq<bool>, a: nat, b: nat, erase: bool)
    requires a == b <= |f| && start + a <= |bits|
    ensures Splice(bits, start, f[..a], erase) == Splice(bits, start, f[..b], erase)
  {
  }

  /**
   * One chunk of set_message_bits2: set_message_bits(message, message_len, n,
   * l, value[i], erase, false) for chunk i, which begins at n == start + 64i
   * and is l == ChunkLen(bitLen, i) bits long. Either the chunk lies inside the
   * message and is written, or the call fails because the chunk runs past the
   * end of the message and the message is left alone.
   */
  method SetChunk(host: Endian, message: array<Word>, ghost start: nat, ghost bitLen: int,
                  n: int, l: int, v: Word, erase: bool, ghost i: nat) returns (n2: int)
    requires n == start + WORD_BIT_LEN * i <= WORD_BIT_LEN * message.Length
    requires l == ChunkLen(bitLen, i) && WORD_BIT_LEN * i < bitLen
    modifies message
    ensures n2 < 0 ==>
      message[..] == old(message[..]) && n2 == SetGuard(message.Length, n, l) &&
      start + WORD_BIT_LEN * i + ChunkLen(bitLen, i) > WORD_BIT_LEN * message.Length
    ensures n2 >= 0 ==>
      n2 == n + l && n + l <= WORD_BIT_LEN * message.Length &&
      MessageBits(host, message[..]) == Splice(MessageBits(host, old(message[..])), n, FieldOf(v, l, false), erase)
  {
    n2 := SetMessageBits(host, message, n, l, v, erase, false);
    if n2 >= 0 {
      SetGuardPassed(message.Length, n, l);
    }
  }

  /**
   * set_message_bits2: writes the field of bitLen bits, taken from the most
   * significant bits of the value words in order, into the message at startBit,
   * one chunk per value word. A start outside the message leaves it alone; a
   * chunk that runs past the end stops the transfer after the chunks before it
   * have been written. value_len is the length of value. A field of no bits
   * with value words to take it from is a shift by the word width, which C
   * leaves undefined.
   */
  method SetMessageBits2(host: Endian, message: array<Word>, startBit: int, bitLen: int,
                         value: seq<Word>, erase: bool) returns (r: int)
    requires 0 <= startBit < WORD_BIT_LEN * message.Length && |value| > 0 ==> bitLen >= 1
    modifies message
    ensures r == ChunkedResult(message.Length, startBit, bitLen, |value|)
    ensures !(0 <= startBit < WORD_BIT_LEN * message.Length) ==> message[..] == old(message[..])
    ensures 0 <= startBit < WORD_BIT_LEN * message.Length ==>
      MessageBits(host, message[..]) ==
        Splice(MessageBits(host, old(message[..])), startBit,
               Flatten(value)[..Written(message.Length, startBit, bitLen, |value|)], erase)
  {
    var mbi := CDiv(startBit, WORD_BIT_LEN);
    if startBit < 0 || mbi >= message.Length {
      return -1;
    }
    ghost var bits := MessageBits(host, message[..]);
    ghost var e := WORD_BIT_LEN * message.Length;
    ghost var f := Flatten(value);
    var n := startBit;
    var l := bitLen;
    if l > WORD_BIT_LEN {
      l := WORD_BIT_LEN;
    }
    var rest := bitLen;
    var i := 0;
    ghost var done: nat := 0;
    SpliceEmpty(bits, startBit, f[..done], erase);
    while i < |value|
      invariant 0 <= i <= |value|
      invariant n == startBit + WORD_BIT_LEN * i <= e
      invariant rest == bitLen - WORD_BIT_LEN * i
      invariant l == ChunkLen(bitLen, i)
      invariant |value| > 0 ==> rest >= 1
      invariant done == WORD_BIT_LEN * i
      invariant MessageBits(host, message[..]) == Splice(bits, startBit, f[..done], erase)
    {
      var v := value[i];
      ghost var before := message[..];
      var n2 := SetChunk(host, message, startBit, bitLen, n, l, v, erase, i);
      if n2 < 0 {
        ghost var w := Written(message.Length, startBit, bitLen, |value|);
        assert n2 * 10 == ChunkedResult(message.Length, startBit, bitLen, |value|) && w == done by {
          ChunkFails(message.Length, startBit, bitLen, |value|, i);
        }
        SpliceSameLength(bits, startBit, f, done, w, erase);
        return n2 * 10;
      }
      ghost var done' := done + l;
      assert MessageBits(host, message[..]) == Splice(bits, startBit, f[..done'], erase) by {
        SetChunkStep(bits, MessageBits(host, before), MessageBits(host, message[..]), startBit, value, i, n, l, done, done', erase);
      }
      done := done';
      rest := rest - (n2 - n);
      ChunkAdvance(bitLen, i, l, rest);
      if rest <= 0 {
        assert startBit + bitLen == ChunkedResult(message.Length, startBit, bitLen, |value|)
          && Written(message.Length, startBit, bitLen, |value|) == done by {
          ChunksFit(message.Length, startBit, bitLen, |value|, i + 1);
        }
        break;
      }
      n := n2;
      l := rest;
      if l > WORD_BIT_LEN {
        l := WORD_BIT_LEN;
      }
      i := i + 1;
    }
    if i == |value| {
      assert startBit + bitLen == ChunkedResult(message.Length, startBit, bitLen, |value|)
        && Written(message.Length, startBit, bitLen, |value|) == done by {
        ChunksFit(message.Length, startBit, bitLen, |value|, i);
      }
    }
    SpliceSameLength(bits, startBit, f, done, Written(message.Length, startBit, bitLen, |value|), erase);
    r := startBit + bitLen;
  }

  /** What get_message_bits stores without startLow for the field of n bits at at, before the bits after it. */
  lemma ReadHighPrefix(bits: seq<bool>, at: nat, n: nat)
    requires 1 <= n <= WORD_BIT_LEN && at + n <= |bits| && |bits| % WORD_BIT_LEN == 0
    ensures ReadAsWritten(bits, at, n, false)[..n] == bits[at..at + n]
  {
  }

  /** The chunks 0..d-1 of a field of bitLen bits at start all lie inside bits. */
  predicate ChunksInside(size: nat, start: nat, bitLen: int, d: nat)
  {
    d > 0 ==> WORD_BIT_LEN * (d - 1) < bitLen && start + Min(bitLen, WORD_BIT_LEN * d) <= size
  }

  /**
   * The words get_message_bits2 stores for its first d chunks: chunk j read
   * through get_message_bits without startLow.
   */
  function ReadChunks(bits: seq<bool>, start: nat, bitLen: int, d: nat): (r: seq<Word>)
    requires |bits| % WORD_BIT_LEN == 0 && ChunksInside(|bits|, start, bitLen, d)
    ensures |r| == d
  {
    seq(d, j requires 0 <= j < d =>
      ReadAsWritten(bits, start + WORD_BIT_LEN * j, ChunkLen(bitLen, j), false))
  }

  /**
   * The words get_message_bits2 reads, taken one after the other, begin with
   * the bits of the message from start on, as many as the chunks cover.
   */
  lemma ReadChunksPrefix(bits: seq<bool>, start: nat, bitLen: int, d: nat)
    requires |bits| % WORD_BIT_LEN == 0 && ChunksInside(|bits|, start, bitLen, d) && d > 0
    ensures var w := Min(bitLen, WORD_BIT_LEN * d);
      Flatten(ReadChunks(bits, start, bitLen, d))[..w] == bits[start..start + w]
  {
    var rc := ReadChunks(bits, start, bitLen, d);
    var w := Min(bitLen, WORD_BIT_LEN * d);
    forall k | 0 <= k < w
      ensures Flatten(rc)[k] == bits[start + k]
    {
      var j, b := k / WORD_BIT_LEN, k % WORD_BIT_LEN;
      DivMod64(j, b);
      assert k == WORD_BIT_LEN * j + b;
      FlattenAt(rc, j, b);
      var at, n := start + WORD_BIT_LEN * j, ChunkLen(bitLen, j);
      ReadHighPrefix(bits, at, n);
      assert rc[j][..n][b] == bits[at..at + n][b];
    }
  }

  /**
   * The bits get_message_bits2 leaves behind the field in its last word: zeros
   * when the last chunk lies inside one message word, but the message bits that
   * follow the field when it crosses into the next word.
   */
  lemma ReadChunksTail(bits: seq<bool>, start: nat, bitLen: int, d: nat)
    requires |bits| % WORD_BIT_LEN == 0 && ChunksInside(|bits|, start, bitLen, d) && d > 0
    requires bitLen < WORD_BIT_LEN * d
    ensures var at, n := start + WORD_BIT_LEN * (d - 1), bitLen - WORD_BIT_LEN * (d - 1);
      ReadChunks(bits, start, bitLen, d)[d - 1][n..] ==
        if at % WORD_BIT_LEN + n > WORD_BIT_LEN then bits[at + n..at + WORD_BIT_LEN]
        else Zeros(WORD_BIT_LEN - n)
  {
    var at, n := start + WORD_BIT_LEN * (d - 1), bitLen - WORD_BIT_LEN * (d - 1);
    assert ChunkLen(bitLen, d - 1) == n;
    var w := ReadChunks(bits, start, bitLen, d)[d - 1];
    assert w == ReadAsWritten(bits, at, n, false);
    if at % WORD_BIT_LEN + n > WORD_BIT_LEN {
      assert w == bits[at..at + WORD_BIT_LEN];
    } else {
      assert w == bits[at..at + n] + Zeros(WORD_BIT_LEN - n);
    }
  }

  /**
   * Writing with erase and reading back at the same position returns the bits
   * written, as many as the chunks cover.
   */
  lemma ChunksRoundTrip(bits: seq<bool>, start: nat, bitLen: int, ws: seq<Word>, d: nat)
    requires |bits| % WORD_BIT_LEN == 0 && ChunksInside(|bits|, start, bitLen, d) && 0 < d <= |ws|
    ensures var w := Min(bitLen, WORD_BIT_LEN * d);
      var after := Splice(bits, start, Flatten(ws)[..w], true);
      Flatten(ReadChunks(after, start, bitLen, d))[..w] == Flatten(ws)[..w]
  {
    var w := Min(bitLen, WORD_BIT_LEN * d);
    var after := Splice(bits, start, Flatten(ws)[..w], true);
    ReadChunksPrefix(after, start, bitLen, d);
    SpliceErased(bits, start, Flatten(ws)[..w]);
  }

  /** Word w is chunk j of the field of bitLen bits at start, read as get_message_bits stores it. */
  predicate ChunkRead(bits: seq<bool>, start: nat, bitLen: int, j: nat, w: Word)
  {
    |bits| % WORD_BIT_LEN == 0 && ChunksInside(|bits|, start, bitLen, j + 1) &&
    w == ReadAsWritten(bits, start + WORD_BIT_LEN * j, ChunkLen(bitLen, j), false)
  }

  /** Words that hold the first d chunks and, behind them, what was there before. */
  lemma ReadChunksOf(cur: seq<Word>, was: seq<Word>, bits: seq<bool>, start: nat, bitLen: int, d: nat)
    requires |cur| == |was| && d <= |cur|
    requires |bits| % WORD_BIT_LEN == 0 && ChunksInside(|bits|, start, bitLen, d)
    requires forall j :: 0 <= j < d ==> ChunkRead(bits, start, bitLen, j, cur[j])
    requires forall j :: d <= j < |cur| ==> cur[j] == was[j]
    ensures cur == ReadChunks(bits, start, bitLen, d) + was[d..]
  {
    var rc := ReadChunks(bits, start, bitLen, d);
    forall j | 0 <= j < |cur|
      ensures cur[j] == (rc + was[d..])[j]
    {
      if j < d {
        assert ChunkRead(bits, start, bitLen, j, cur[j]);
      }
    }
  }

  /**
   * get_message_bits2 stopped at chunk i, the first that runs past the message:
   * the words hold the chunks before it, and the result is ten times its error.
   */
  lemma ReadStops(cur: seq<Word>, was: seq<Word>, bits: seq<bool>, len: int, start: nat, bitLen: int, i: nat)
    requires |cur| == |was| && i < |cur| && |bits| == WORD_BIT_LEN * len && |bits| % WORD_BIT_LEN == 0
    requires start < WORD_BIT_LEN * len && WORD_BIT_LEN * i < bitLen
    requires start + WORD_BIT_LEN * i <= WORD_BIT_LEN * len
    requires start + WORD_BIT_LEN * i + ChunkLen(bitLen, i) > WORD_BIT_LEN * len
    requires ChunksInside(|bits|, start, bitLen, i)
    requires forall j :: 0 <= j < i ==> ChunkRead(bits, start, bitLen, j, cur[j])
    requires forall j :: i <= j < |cur| ==> cur[j] == was[j]
    ensures ChunkedResult(len, start, bitLen, |cur|) == 10 * SetGuard(len, start + WORD_BIT_LEN * i, ChunkLen(bitLen, i))
    ensures var d := ChunksDone(len, start, bitLen, |cur|);
      d <= |cur| && ChunksInside(|bits|, start, bitLen, d) && cur == ReadChunks(bits, start, bitLen, d) + was[d..]
  {
    ChunkFails(len, start, bitLen, |cur|, i);
    ReadChunksOf(cur, was, bits, start, bitLen, i);
  }

  /**
   * get_message_bits2 got through its first k chunks, which hold the whole
   * field or use up the value words: the words hold those chunks, and the
   * result is the position after the field.
   */
  lemma ReadCompletes(cur: seq<Word>, was: seq<Word>, bits: seq<bool>, len: int, start: nat, bitLen: int, k: nat)
    requires |cur| == |was| && k <= |cur| && |bits| == WORD_BIT_LEN * len && |bits| % WORD_BIT_LEN == 0
    requires start < WORD_BIT_LEN * len
    requires k == |cur| || bitLen <= WORD_BIT_LEN * k
    requires ChunksInside(|bits|, start, bitLen, k)
    requires forall j :: 0 <= j < k ==> ChunkRead(bits, start, bitLen, j, cur[j])
    requires forall j :: k <= j < |cur| ==> cur[j] == was[j]
    ensures ChunkedResult(len, start, bitLen, |cur|) == start + bitLen
    ensures var d := ChunksDone(len, start, bitLen, |cur|);
      d <= |cur| && ChunksInside(|bits|, start, bitLen, d) && cur == ReadChunks(bits, start, bitLen, d) + was[d..]
  {
    ChunksFit(len, start, bitLen, |cur|, k);
    ReadChunksOf(cur, was, bits, start, bitLen, k);
  }

  /**
   * One chunk of get_message_bits2: get_message_bits(message, message_len, n,
   * l, &value[i], false) for chunk i, which begins at n == start + 64i and is
   * l == ChunkLen(bitLen, i) bits long. Either the chunk lies inside the
   * message and value[i] receives it, or the call fails because the chunk runs
   * past the end of the message and value is left alone.
   */
  method GetChunk(host: Endian, message: array<Word>, ghost bits: seq<bool>, ghost start: nat,
                  ghost bitLen: int, n: int, l: int, value: array<Word>, i: nat) returns (n2: int)
    requires value != message && i < value.Length
    requires MessageBits(host, message[..]) == bits
    requires n == start + WORD_BIT_LEN * i <= |bits| && l == ChunkLen(bitLen, i) && WORD_BIT_LEN * i < bitLen
    modifies value
    ensures forall j :: 0 <= j < value.Length && j != i ==> value[j] == old(value[j])
    ensures n2 < 0 ==>
      value[i] == old(value[i]) && n2 == SetGuard(message.Length, n, l) &&
      start + WORD_BIT_LEN * i + ChunkLen(bitLen, i) > WORD_BIT_LEN * message.Length
    ensures n2 >= 0 ==>
      n2 == n + l && ChunksInside(|bits|, start, bitLen, i + 1) &&
      ChunkRead(bits, start, bitLen, i, value[i])
  {
    DivMod64(message.Length, 0);
    n2 := GetMessageBits(host, message, n, l, value, i, false);
    if n2 >= 0 {
      SetGuardPassed(message.Length, n, l);
    }
  }

  /**
   * get_message_bits2: reads the field of bitLen bits at startBit into the
   * words of value, one chunk per word, each in the word's most significant
   * bits. Returns -1 for a start outside the message and -2 for a NULL value;
   * otherwise the words of the chunks it gets through are stored, the rest are
   * left as they were, and the result is that of set_message_bits2. value_len
   * is the length of value.
   */
  method GetMessageBits2(host: Endian, message: array<Word>, startBit: int, bitLen: int,
                         value: array?<Word>) returns (r: int)
    requires value != message
    requires 0 <= startBit < WORD_BIT_LEN * message.Length && value != null && value.Length > 0
      ==> bitLen >= 1
    modifies value
    ensures !(0 <= startBit < WORD_BIT_LEN * message.Length) ==>
      r == -1 && (value != null ==> value[..] == old(value[..]))
    ensures 0 <= startBit < WORD_BIT_LEN * message.Length && value == null ==> r == -2
    ensures 0 <= startBit < WORD_BIT_LEN * message.Length && value != null ==>
      var d := ChunksDone(message.Length, startBit, bitLen, value.Length);
      r == ChunkedResult(message.Length, startBit, bitLen, value.Length) &&
      value[..] == ReadChunks(MessageBits(host, message[..]), startBit, bitLen, d) + old(value[..])[d..]
  {
    var mbi := CDiv(startBit, WORD_BIT_LEN);
    if startBit < 0 || mbi >= message.Length {
      return -1;
    }
    if value == null {
      return -2;
    }
    ghost var bits := MessageBits(host, message[..]);
    ghost var e := WORD_BIT_LEN * message.Length;
    ghost var was := value[..];
    DivMod64(message.Length, 0);
    var n := startBit;
    var l := bitLen;
    if l > WORD_BIT_LEN {
      l := WORD_BIT_LEN;
    }
    var rest := bitLen;
    var i := 0;
    ghost var d: nat := 0;
    while i < value.Length
      invariant 0 <= i <= value.Length && d == i
      invariant n == startBit + WORD_BIT_LEN * i <= e
      invariant rest == bitLen - WORD_BIT_LEN * i
      invariant l == ChunkLen(bitLen, i)
      invariant value.Length > 0 ==> rest >= 1
      invariant MessageBits(host, message[..]) == bits
      invariant |bits| == e && |bits| % WORD_BIT_LEN == 0
      invariant ChunksInside(e, startBit, bitLen, d)
      invariant forall j :: 0 <= j < d ==> ChunkRead(bits, startBit, bitLen, j, value[j])
      invariant forall j :: d <= j < value.Length ==> value[j] == was[j]
    {
      var n2 := GetChunk(host, message, bits, startBit, bitLen, n, l, value, i);
      if n2 < 0 {
        ReadStops(value[..], was, bits, message.Length, startBit, bitLen, i);
        return n2 * 10;
      }
      d := d + 1;
      rest := rest - (n2 - n);
      ChunkAdvance(bitLen, i, l, rest);
      if rest <= 0 {
        break;
      }
      n := n2;
      l := rest;
      if l > WORD_BIT_LEN {
        l := WORD_BIT_LEN;
      }
      i := i + 1;
    }
    ReadCompletes(value[..], was, bits, message.Length, startBit, bitLen, d);
    r := startBit + bitLen;
  }
}
