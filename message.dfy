/**
 * A binary message of src/bitter.c: an array of words stored in network byte
 * order. Read through ntohll, word after word, it carries one bit string; bit 0
 * is the most significant bit of the first word. Every operation of the codec
 * is specified on that bit string.
 */
module Message {
  import opened Words
  import opened ByteOrder

  /** Splitting a bit position into its word and its bit inside the word. */
  lemma DivMod64(w: int, k: int)
    requires 0 <= k < WORD_BIT_LEN
    ensures (WORD_BIT_LEN * w + k) / WORD_BIT_LEN == w
    ensures (WORD_BIT_LEN * w + k) % WORD_BIT_LEN == k
  {
  }

  /** A word of a message of n words ends within the message's bits. */
  lemma WordInside(w: nat, n: nat)
    requires w < n
    ensures WORD_BIT_LEN * w + WORD_BIT_LEN <= WORD_BIT_LEN * n
  {
  }

  /** The words one after the other: bit k of word w becomes bit 64w + k. */
  function Flatten(ws: seq<Word>): (r: seq<bool>)
    ensures |r| == WORD_BIT_LEN * |ws|
  {
    seq(WORD_BIT_LEN * |ws|,
        j requires 0 <= j < WORD_BIT_LEN * |ws| => ws[j / WORD_BIT_LEN][j % WORD_BIT_LEN])
  }

  lemma FlattenAt(ws: seq<Word>, w: nat, k: nat)
    requires w < |ws| && k < WORD_BIT_LEN
    ensures Flatten(ws)[WORD_BIT_LEN * w + k] == ws[w][k]
  {
    DivMod64(w, k);
  }

  /** Word w of ws is bits [64w, 64w + 64) of Flatten(ws). */
  lemma FlattenSlice(ws: seq<Word>, w: nat)
    requires w < |ws|
    ensures Flatten(ws)[WORD_BIT_LEN * w..WORD_BIT_LEN * w + WORD_BIT_LEN] == ws[w]
  {
    forall k | 0 <= k < WORD_BIT_LEN
      ensures Flatten(ws)[WORD_BIT_LEN * w..WORD_BIT_LEN * w + WORD_BIT_LEN][k] == ws[w][k]
    {
      FlattenAt(ws, w, k);
    }
  }

  /** Flattening the words is one-to-one. */
  lemma FlattenInjective(ws: seq<Word>, vs: seq<Word>)
    requires |ws| == |vs| && Flatten(ws) == Flatten(vs)
    ensures ws == vs
  {
    forall w | 0 <= w < |ws|
      ensures ws[w] == vs[w]
    {
      FlattenSlice(ws, w);
      FlattenSlice(vs, w);
    }
  }

  /** Replacing word w replaces exactly bits [64w, 64w + 64). */
  lemma FlattenUpdate(ws: seq<Word>, w: nat, x: Word)
    requires w < |ws|
    ensures Flatten(ws[w := x]) ==
      Flatten(ws)[..WORD_BIT_LEN * w] + x + Flatten(ws)[WORD_BIT_LEN * w + WORD_BIT_LEN..]
  {
    var lhs := Flatten(ws[w := x]);
    var rhs := Flatten(ws)[..WORD_BIT_LEN * w] + x + Flatten(ws)[WORD_BIT_LEN * w + WORD_BIT_LEN..];
    forall j | 0 <= j < |lhs|
      ensures lhs[j] == rhs[j]
    {
      var a, b := j / WORD_BIT_LEN, j % WORD_BIT_LEN;
      assert j == WORD_BIT_LEN * a + b;
      FlattenAt(ws[w := x], a, b);
      FlattenAt(ws, a, b);
      if a < w {
        assert j < WORD_BIT_LEN * w;
      } else if a > w {
        assert j >= WORD_BIT_LEN * w + WORD_BIT_LEN;
      }
    }
  }

  /** The host-order values of the words of a message. */
  function HostWords(host: Endian, msg: seq<Word>): (r: seq<Word>)
    ensures |r| == |msg|
  {
    seq(|msg|, i requires 0 <= i < |msg| => Ntohll(host, msg[i]))
  }

  /** The bit string a message carries. */
  function MessageBits(host: Endian, msg: seq<Word>): (r: seq<bool>)
    ensures |r| == WORD_BIT_LEN * |msg|
  {
    Flatten(HostWords(host, msg))
  }

  /** A message is determined by the bit string it carries, on either host. */
  lemma MessageBitsDetermine(host: Endian, msg: seq<Word>, msg': seq<Word>)
    requires |msg| == |msg'| && MessageBits(host, msg) == MessageBits(host, msg')
    ensures msg == msg'
  {
    FlattenInjective(HostWords(host, msg), HostWords(host, msg'));
    forall i | 0 <= i < |msg|
      ensures msg[i] == msg'[i]
    {
      ByteSwapInvolution(host, msg[i]);
      ByteSwapInvolution(host, msg'[i]);
      assert HostWords(host, msg)[i] == HostWords(host, msg')[i];
    }
  }

  /**
   * The bits f written at position at of bits: each OR-ed over the bit it
   * replaces, or over a zero when erase, the rest left as it was.
   */
  function Splice(bits: seq<bool>, at: nat, f: seq<bool>, erase: bool): (r: seq<bool>)
    requires at + |f| <= |bits|
    ensures |r| == |bits|
  {
    bits[..at] + seq(|f|, k requires 0 <= k < |f| => (!erase && bits[at + k]) || f[k])
      + bits[at + |f|..]
  }

  /**
   * Only the bits in [at, at + |f|) change: with erase they become the field,
   * without it each is the old bit OR the field bit, so 1-bits already there stay.
   */
  lemma SpliceFrame(bits: seq<bool>, at: nat, f: seq<bool>, erase: bool)
    requires at + |f| <= |bits|
    ensures forall k :: 0 <= k < |bits| && !(at <= k < at + |f|) ==> Splice(bits, at, f, erase)[k] == bits[k]
    ensures forall k :: 0 <= k < |f| ==> Splice(bits, at, f, erase)[at + k] == (f[k] || (!erase && bits[at + k]))
  {
  }

  /** Writing no bits changes nothing. */
  lemma SpliceEmpty(bits: seq<bool>, at: nat, f: seq<bool>, erase: bool)
    requires |f| == 0 && at <= |bits|
    ensures Splice(bits, at, f, erase) == bits
  {
    assert bits[..at] + bits[at..] == bits;
  }

  /** Writing f and then g right behind it is writing f + g. */
  lemma SpliceSplit(bits: seq<bool>, at: nat, f: seq<bool>, g: seq<bool>, erase: bool)
    requires at + |f| + |g| <= |bits|
    ensures Splice(Splice(bits, at, f, erase), at + |f|, g, erase) == Splice(bits, at, f + g, erase)
  {
  }

  /** Writing f at at and then g at at2, right behind it, is writing f + g at at. */
  lemma SpliceThen(bits: seq<bool>, at: nat, f: seq<bool>, at2: nat, g: seq<bool>, erase: bool)
    requires at2 == at + |f| && at2 + |g| <= |bits|
    ensures Splice(Splice(bits, at, f, erase), at2, g, erase) == Splice(bits, at, f + g, erase)
  {
    SpliceSplit(bits, at, f, g, erase);
  }

  /** Writing the first w0 bits of f and then the rest is writing f. */
  lemma SpliceSplitAt(bits: seq<bool>, at: nat, f: seq<bool>, w0: nat, erase: bool)
    requires w0 <= |f| && at + |f| <= |bits|
    ensures Splice(Splice(bits, at, f[..w0], erase), at + w0, f[w0..], erase) == Splice(bits, at, f, erase)
  {
    SpliceSplit(bits, at, f[..w0], f[w0..], erase);
    assert f[..w0] + f[w0..] == f;
  }

  /** With erase the written range holds exactly f afterwards. */
  lemma SpliceErased(bits: seq<bool>, at: nat, f: seq<bool>)
    requires at + |f| <= |bits|
    ensures Splice(bits, at, f, true)[at..at + |f|] == f
  {
  }

  /**
   * The C update of one host-order word m: clear the bits under the mask em when
   * erase, then OR in v1, where v1 holds f at position at and em ones there.
   */
  lemma WordUpdate(m: Word, at: nat, f: seq<bool>, erase: bool, v1: Word, em: Word)
    requires at + |f| <= WORD_BIT_LEN
    requires v1 == Zeros(at) + f + Zeros(WORD_BIT_LEN - at - |f|)
    requires em == Zeros(at) + Ones(|f|) + Zeros(WORD_BIT_LEN - at - |f|)
    ensures Or(if erase then And(m, Not(em)) else m, v1) == Splice(m, at, f, erase)
  {
    var lhs := Or(if erase then And(m, Not(em)) else m, v1);
    var rhs := Splice(m, at, f, erase);
    forall k | 0 <= k < WORD_BIT_LEN
      ensures lhs[k] == rhs[k]
    {
      if k < at {
        assert !v1[k] && !em[k];
      } else if k < at + |f| {
        assert v1[k] == f[k - at] && em[k];
      } else {
        assert !v1[k] && !em[k];
      }
    }
  }

  /** Writing inside a stretch of bits is writing into the whole at the stretch's offset. */
  lemma SpliceInside(b: seq<bool>, base: nat, len: nat, at: nat, f: seq<bool>, erase: bool)
    requires base + len <= |b| && at + |f| <= len
    ensures b[..base] + Splice(b[base..base + len], at, f, erase) + b[base + len..]
      == Splice(b, base + at, f, erase)
  {
    var lhs := b[..base] + Splice(b[base..base + len], at, f, erase) + b[base + len..];
    var rhs := Splice(b, base + at, f, erase);
    forall j | 0 <= j < |b|
      ensures lhs[j] == rhs[j]
    {
      if base + at <= j < base + at + |f| {
        assert lhs[j] == Splice(b[base..base + len], at, f, erase)[j - base];
      }
    }
  }

  /** HostWords of a message with word w replaced by y: word w now reads as ntohll(y). */
  lemma HostWordsUpdate(host: Endian, msg: seq<Word>, w: nat, y: Word)
    requires w < |msg|
    ensures HostWords(host, msg[w := y]) == HostWords(host, msg)[w := Ntohll(host, y)]
  {
  }

  /** Storing y as word w replaces bits [64w, 64w + 64) of the message's bits with ntohll(y). */
  lemma MessageBitsUpdate(host: Endian, msg: seq<Word>, w: nat, y: Word, x: Word)
    requires w < |msg| && Ntohll(host, y) == x
    ensures MessageBits(host, msg[w := y]) ==
      MessageBits(host, msg)[..WORD_BIT_LEN * w] + x + MessageBits(host, msg)[WORD_BIT_LEN * w + WORD_BIT_LEN..]
  {
    HostWordsUpdate(host, msg, w, y);
    FlattenUpdate(HostWords(host, msg), w, x);
  }

  /** Bits [64w, 64w + 64) of the message's bits are word w read through ntohll. */
  lemma MessageBitsWord(host: Endian, msg: seq<Word>, w: nat)
    requires w < |msg|
    ensures MessageBits(host, msg)[WORD_BIT_LEN * w..WORD_BIT_LEN * w + WORD_BIT_LEN] == Ntohll(host, msg[w])
  {
    FlattenSlice(HostWords(host, msg), w);
  }

  /**
   * Reading word w through ntohll, writing f into it and storing it back
   * through htonll writes f into the message's bit string at 64w + at.
   */
  lemma StoreWordSplice(host: Endian, msg: seq<Word>, w: nat, at: nat, f: seq<bool>, erase: bool)
    requires w < |msg| && at + |f| <= WORD_BIT_LEN
    ensures MessageBits(host, msg[w := Htonll(host, Splice(Ntohll(host, msg[w]), at, f, erase))])
      == Splice(MessageBits(host, msg), WORD_BIT_LEN * w + at, f, erase)
  {
    var b := MessageBits(host, msg);
    var m := Ntohll(host, msg[w]);
    var x := Splice(m, at, f, erase);
    var y := Htonll(host, x);
    ByteSwapInvolution(host, x);
    MessageBitsUpdate(host, msg, w, y, x);
    MessageBitsWord(host, msg, w);
    WordSpliceInside(b, w, m, x, MessageBits(host, msg[w := y]), at, f, erase);
  }

  /** StoreWordSplice for a word m' computed as the splice. */
  lemma StoreSplicedWord(host: Endian, msg: seq<Word>, w: nat, at: nat, f: seq<bool>, erase: bool, m': Word)
    requires w < |msg| && at + |f| <= WORD_BIT_LEN
    requires m' == Splice(Ntohll(host, msg[w]), at, f, erase)
    ensures MessageBits(host, msg[w := Htonll(host, m')]) == Splice(MessageBits(host, msg), WORD_BIT_LEN * w + at, f, erase)
  {
    StoreWordSplice(host, msg, w, at, f, erase);
  }

  /** Replacing word w of bits b, which held m, by m with f written at at writes f at 64w + at. */
  lemma WordSpliceInside(b: seq<bool>, w: nat, m: seq<bool>, x: seq<bool>, after: seq<bool>,
                         at: nat, f: seq<bool>, erase: bool)
    requires WORD_BIT_LEN * w + WORD_BIT_LEN <= |b| && at + |f| <= WORD_BIT_LEN
    requires b[WORD_BIT_LEN * w..WORD_BIT_LEN * w + WORD_BIT_LEN] == m
    requires |m| == WORD_BIT_LEN && x == Splice(m, at, f, erase)
    requires after == b[..WORD_BIT_LEN * w] + x + b[WORD_BIT_LEN * w + WORD_BIT_LEN..]
    ensures after == Splice(b, WORD_BIT_LEN * w + at, f, erase)
  {
    SpliceInside(b, WORD_BIT_LEN * w, WORD_BIT_LEN, at, f, erase);
  }
}
