# bitter: a verified model of the bit-field codec

bitter packs and unpacks bit fields of any length at any bit position of a
binary message. A message is an array of 64-bit words (`WORD_T`), each stored
in network byte order. Bits are numbered from the most significant bit of word
0 onwards. The codec has three layers:

- `set_message_bits` / `get_message_bits` write or read a field of 1 to 64 bits.
  The field may straddle two adjacent words. The writer either erases the
  range first or ORs the field over it. The field is the high bits of the
  value word, or its low bits with `start_low`.
- `set_message_bits2` / `get_message_bits2` move a longer field between the
  message and an array of host-order words. They go chunk by chunk, 64 bits at
  a time. A failure inside is returned multiplied by 10.
- `set_message_bits3` / `get_message_bits3` move a field between the message
  and bytes in network order. They go through a zeroed scratch array of
  `ceil(bit_len / 64)` words and the multiword layer.

The helpers the codec depends on are modelled as well:

- the byte-swap macros `htonll` / `ntohll` and the word configuration of
  `include/bitter.h`;
- the integer power `pow_i` of `src/tools.c`, which builds every mask.

The model is written in Dafny, in the files below:

| file | module | models |
|---|---|---|
| `tools.dfy` | `Tools` | `pow_i` as a loop proved against `x^n` |
| `words.dfy` | `Words` | the 64-bit word as 64 bits, most significant first; C's shifts, bitwise operators, truncating `/` and `%`; the field masks |
| `byteorder.dfy` | `ByteOrder` | host byte order (a parameter), `htonl`, `htonll`, `ntohll`, how a word lies in memory |
| `message.dfy` | `Message` | the bit string a message carries (`MessageBits`), and writing a field into it (`Splice`) |
| `singleword.dfy` | `SingleWord` | `set_message_bits`, `get_message_bits` |
| `multiword.dfy` | `MultiWord` | `set_message_bits2`, `get_message_bits2` |
| `bytes.dfy` | `ByteArray` | `set_message_bits3`, `get_message_bits3` |

## How the model is organised

Every write is stated against `Message.Splice(bits, at, f, erase)`:

- `bits` is the message's bit string, and the field `f` is written at `at`.
- With `erase`, the range `[at, at + |f|)` becomes exactly `f`.
- Without it, each bit in the range becomes the old bit OR the field bit.
- All other bits keep their value.

`MessageBits(host, msg)` is the concatenation of `ntohll` of each stored word.
The host's byte order is the parameter `host`. So each `ensures` is about the
message's content, on either kind of host.

The C functions change arrays in place, so the model does too. The message
and the value or scratch arrays are Dafny `array`s, and the operations are
methods with `modifies` clauses. The loops of `pow_i`, of the `*2`
functions and of the `*3` byte-order conversions are `while` loops with their
invariants. The mask and shift expressions are pure functions in `Words`.

Three behaviours are modelled exactly as the code has them, surprising as they
may be to a caller.

- A start-high read that crosses a word boundary leaves the bits that follow
  the field in the low bits of the result (src/bitter.c:205-215). They come
  from the next word, and the tests expect zeros there: see the comment at
  tests/test_bitter.c:42-43 and the masked comparison at
  tests/test_bitter.c:633-643.
  `SingleWord.ReadAsWritten` is what the code returns, and
  `SingleWord.IntendedRead` is the value the tests expect.
  `SingleWord.ReadAsWrittenIsIntended` proves exactly when the two agree:
  - with `start_low`;
  - when the field fits in one word;
  - when the bits following the field happen to be zero.

  `SingleWord.CrossingReadLeaks` gives a concrete input where they differ.
  `SingleWord.SingleRoundTrip` states the round trip of an erasing write and
  a read in the same orientation.
- `get_message_bits` has no `start_bit < 0` test (src/bitter.c:168).
  `SingleWord.GetGuardAdmitsNegativeStart` exhibits a start of -10 that it
  lets through and the writer refuses.
- The multiword functions return `start_bit + bit_len` even when the value
  array ran out before `bit_len` bits were moved (src/bitter.c:277-299).
  `MultiWord.ChunkedResult` and `MultiWord.Written` say exactly what is
  returned and what is written.

## Model

| member | source | states |
|---|---|---|
| Tools.PowI | src/tools.c:15-21 | For `n >= 0` and a power that fits in an `int`, the loop returns `x^n`; the loop invariant is `r == x^(n - left)` and every intermediate value fits in an `int` |
| Tools.LowerPowersFit | src/tools.c:17-18 | If `x^n` fits in an `int`, so does every `x^m` with `m <= n`, so no step of the loop overflows before the last |
| Words.CDiv | src/bitter.c:42 | C's `/` truncates toward zero: for a non-negative dividend `0 <= a - b * q < b`, for a negative one `-b < a - b * q <= 0` |
| Words.CMod | src/bitter.c:43 | C's `%`: `a == b * (a / b) + a % b`, in `[0, b)` for a non-negative dividend and in `(-b, 0]` for a negative one |
| Words.FieldMask | src/bitter.c:75 | The mask `(pow_i(2, n) - 1) << (64 - n)`, built over the unbounded integers, has exactly the `n` most significant bits set |
| ByteOrder.WordBytesRoundTrip | include/bitter.h:24-27 | A word of `WORD_BIT_LEN` bits and its `WORD_BYTE_LEN` bytes convert into each other losslessly |
| ByteOrder.HtonlBit | include/bitter.h:16 | On a little-endian host, bit `i` of byte `k` of `htonl(u)` is bit `i` of byte `3 - k` of `u` |
| ByteOrder.HtonllBit | include/bitter.h:16 | On a little-endian host, bit `i` of byte `k` of `htonll(x)` is bit `i` of byte `7 - k` of `x` |
| ByteOrder.HtonllReversesBytes | include/bitter.h:16 | On a little-endian host `htonll` reverses the eight bytes of the word |
| ByteOrder.ByteSwapInvolution | include/bitter.h:11-18 | `ntohll(htonll(x)) == x` and `htonll(ntohll(x)) == x` on either host; on a big-endian host both are the identity |
| ByteOrder.LoadStoreRoundTrip | include/bitter.h:24-26 | A word's 8 bytes in memory read back as the word, and 8 bytes read as a word and stored again are the same bytes |
| ByteOrder.NtohllOfMemory | include/bitter.h:16-17 | Bytes in network order laid in memory as a word read back through `ntohll` as their bits in order, on either host |
| ByteOrder.StoreHtonll | include/bitter.h:16-17 | A host-order word passed through `htonll` lies in memory as its bytes, most significant first, on either host |
| ByteOrder.BytesValue | include/bitter.h:16-17 | The bits of a byte sequence denote its big-endian number `sum b_k * 256^(n-1-k)` |
| ByteOrder.NtohllValue | include/bitter.h:16-17 | Eight bytes `b0..b7` laid in memory as a word give `ntohll(word) == sum b_k * 256^(7-k)`, on either host |
| Message.MessageBitsDetermine | src/bitter.c:22 | Two messages of one length that carry the same bits are the same stored words |
| Message.SpliceFrame | src/bitter.c:86-99 | A write changes only the bits of its range; with `erase` they become the field, without it the old bit OR the field bit |
| Message.SpliceErased | src/bitter.c:89-91 | After an erasing write the range holds exactly the field |
| Message.SpliceSplit | src/bitter.c:105-135 | Writing `f` and then `g` right after it is writing `f + g` |
| Message.SpliceSplitAt | src/bitter.c:105-135 | Writing the head of a field and then its tail at the following position writes the whole field |
| Message.WordUpdate | src/bitter.c:86-99 | Clearing the mask's bits of the word `m` when erasing and then OR-ing the shifted field `v1` writes the field into `m` |
| Message.MessageBitsUpdate | src/bitter.c:107 | Storing `y` into word `w` replaces bits `[64w, 64w + 64)` of the message by `ntohll(y)` and keeps every other bit |
| Message.StoreWordSplice | src/bitter.c:59-107 | Reading a word with `ntohll`, writing a field into it and storing it back with `htonll` writes that field into the message's bits at `64w + at` |
| SingleWord.SetGuard | src/bitter.c:42-55 | Returns -1 exactly when the start is negative or past the message, -2 exactly when the start is inside and the field is wider than a word, -3 exactly when the field then runs past the end of the message, and 0 otherwise |
| SingleWord.GetGuard | src/bitter.c:164-176 | The same error codes as `SingleWord.SetGuard` for every non-negative start |
| SingleWord.GetGuardAdmitsNegativeStart | src/bitter.c:164-176 | A start of -10 passes the reader's checks and fails the writer's |
| SingleWord.SetGuardPassed | src/bitter.c:47-55 | A start that passes the checks lies in the message, and the field fits a word and ends inside the message |
| SingleWord.SetPositions | src/bitter.c:42-55 | After the checks, `mbi` is a word of the message, `mo` a bit in it, and a field that crosses the word boundary has a following word |
| SingleWord.FieldOfLowValue | src/bitter.c:70-72 | The `start_low` field is the low `bit_len` bits of the value: `value == high * 2^bit_len + field` |
| SingleWord.FieldOfHighValue | src/bitter.c:73-77 | The default field is the top `bit_len` bits of the value: `value == field * 2^(64 - bit_len) + low` |
| SingleWord.FirstWordValue | src/bitter.c:67-90 | The shifted value `v1` is the field's first part at offset `mo` with zeros around it, and the erase mask covers exactly those bits |
| SingleWord.SecondWordValue | src/bitter.c:112-123 | The second word's `v1` is the rest of the field at bit 0 with zeros after it, and its mask covers exactly those bits |
| SingleWord.FirstWordMerge | src/bitter.c:67-99 | The first word after masking and OR is the old word with the field's first `min(bit_len, 64 - mo)` bits written at `mo` |
| SingleWord.SecondWordMerge | src/bitter.c:110-131 | The second word after masking and OR is the old word with the rest of the field written at bit 0 |
| SingleWord.StoreMessageWord | src/bitter.c:107 | Storing `htonll` of a word that has a field written into it writes that field into the message's bits and changes no other bit |
| SingleWord.StoreFirstWord | src/bitter.c:59-107 | The first word's read, shift, mask, OR and store write the field's head at `start_bit` |
| SingleWord.StoreSecondWord | src/bitter.c:109-136 | The crossing branch writes the field's tail at the start of the next word |
| SingleWord.CrossingStores | src/bitter.c:105-136 | The two stores together write the whole field at `start_bit` |
| SingleWord.SetMessageBits | src/bitter.c:37-144 | On a failed check returns its code and leaves the message unchanged; otherwise returns `start_bit + bit_len` and writes the field into the message's bits at `start_bit`, erasing or ORing, and changes no other bit |
| SingleWord.IntendedRead | tests/test_bitter.c:633-643 | The read the tests expect: the field in the top `bit_len` bits or, with `start_low`, in the bottom ones, zeros elsewhere, and its number is the field's number scaled accordingly |
| SingleWord.ReadAsWrittenIsIntended | src/bitter.c:193-217 | The value the code reads equals the expected one exactly when `start_low` is set, or the field fits its word, or the bits following the field are zero |
| SingleWord.CrossingReadLeaks | src/bitter.c:205-215 | A concrete 8-bit start-high read at bit 60 whose result has a 1-bit where the tests expect 0 |
| SingleWord.SingleRoundTrip | src/bitter.c:37-232 | After an erasing write of a field, a read with the same orientation returns it right-aligned under zeros with `start_low`, or in the top `bit_len` bits followed by zeros when it lies in one word; a crossing start-high read still has the field in its top `bit_len` bits |
| SingleWord.ShiftMaskWord | src/bitter.c:193-199 | `(m << mo) & mask` is the field's bits from the first word, followed by zeros |
| SingleWord.OrNextWord | src/bitter.c:205-211 | OR-ing `m1 >> (64 - mo)` completes the result with the first `mo` bits of the next word |
| SingleWord.ReadInside | src/bitter.c:179-199 | A read within one word yields the message's field bits followed by zeros |
| SingleWord.ReadCrossing | src/bitter.c:179-211 | A crossing read yields the 64 message bits starting at the field, which reach past the field |
| SingleWord.WindowAcross | src/bitter.c:205-211 | The 64 message bits at `64w + mo` are the tail of word `w` and the head of word `w + 1`, both in host order |
| SingleWord.ReadMessageWord | src/bitter.c:179-217 | Shifting word `mbi` up by `mo`, masking, OR-ing the next word's head when the field crosses, and shifting down with `start_low` yields the code's read of the field at `64 mbi + mo` |
| SingleWord.GetMessageBits | src/bitter.c:160-232 | On a failed check returns its code and leaves the output alone; otherwise returns `start_bit + bit_len` and stores the value the code reads at the output position, only when the output pointer is not null, leaving every other output word |
| MultiWord.ChunkFails | src/bitter.c:277-284 | When chunk `i` is the first that runs past the message, the transfer stops there and returns 10 times that chunk's error code |
| MultiWord.ChunksFit | src/bitter.c:277-299 | When every chunk fits, the transfer returns `start_bit + bit_len`, even when the value array ends before `bit_len` bits are moved |
| MultiWord.ChunkAdvance | src/bitter.c:285-291 | When bits remain after a chunk, that chunk was a full word and the next is `min(rest, 64)` bits |
| MultiWord.SetChunkStep | src/bitter.c:277-292 | Writing chunk `i` after the first `i` chunks writes the first `i + 1` chunks of the flattened value words |
| MultiWord.SetChunk | src/bitter.c:282-284 | One chunk's call either fails with the single-word code and changes nothing, or writes the top `l` bits of `value[i]` at `start + 64i` |
| MultiWord.SetMessageBits2 | src/bitter.c:254-300 | Returns -1 for a bad start, 10 times the first chunk error, or `start_bit + bit_len`; writes the first `Written` bits of the value words at `start_bit` (the chunks before a failure stay written) and nothing else |
| MultiWord.ReadHighPrefix | src/bitter.c:193-211 | A start-high read holds the field in its top `bit_len` bits, crossing or not |
| MultiWord.ReadChunksPrefix | src/bitter.c:335-346 | The first `min(bit_len, 64d)` bits of the words read by `d` chunks are the message's bits from `start_bit` |
| MultiWord.ReadChunksTail | src/bitter.c:205-215 | Past the field, the last word read holds the message bits that follow it when its read crosses a word, and zeros otherwise |
| MultiWord.ChunksRoundTrip | src/bitter.c:254-354 | Writing words with `erase` and reading them back with the chunked reader returns the field's bits |
| MultiWord.GetChunk | src/bitter.c:336-338 | One chunk's call either fails with the single-word code and leaves `value` alone, or fills `value[i]` with the chunk's read and nothing else |
| MultiWord.ReadStops | src/bitter.c:335-338 | When chunk `i` is the first to fail, the result is 10 times its error and the words hold the chunks before it followed by the old words |
| MultiWord.ReadCompletes | src/bitter.c:335-353 | When the chunks read cover the field or use up the words, the result is `start_bit + bit_len` and the words hold the chunks read followed by the old words |
| MultiWord.GetMessageBits2 | src/bitter.c:317-354 | Returns -1 for a bad start, -2 for a null array, 10 times the first chunk error, or `start_bit + bit_len`; fills the first `ChunksDone` words with the chunk reads and leaves the rest |
| ByteArray.FieldByteLen | src/bitter.c:383 | `ceil(bit_len / 8)` in integers: the fewest bytes that hold `bit_len` bits |
| ByteArray.ScratchLen | src/bitter.c:387 | `ceil(bit_len / 64)` in integers: the fewest words that hold `bit_len` bits, and they hold the field's bytes |
| ByteArray.ScratchBits | src/bitter.c:389-412 | After the copy and the `ntohll` pass, the scratch words' first `bit_len` bits are the first `bit_len` bits of the input bytes |
| ByteArray.ScratchMovesField | src/bitter.c:435-436 | A scratch array of `ceil(bit_len / 64)` words moves all `bit_len` bits whenever the multiword call succeeds |
| ByteArray.SwapWords | src/bitter.c:411-412 | The in-place loop replaces each scratch word by its `ntohll` |
| ByteArray.SetMessageBits3 | src/bitter.c:374-441 | Returns -1 when `bit_len > value_len * 8` and -2 when allocation fails, both with the message unchanged, else the multiword result with errors times 10; on success writes exactly the first `bit_len` bits of the bytes at `start_bit` |
| ByteArray.FieldBytes | src/bitter.c:469-531 | The bytes returned for a field: `ceil(bit_len / 8)` bytes whose bits are the field followed by zero padding |
| ByteArray.TruncatedMask | src/bitter.c:500-503 | The mask `(pow_i(2, bit_len) - 1) << br` as a 64-bit word keeps exactly the `64 - br` top bits of the last scratch word |
| ByteArray.MaskedScratch | src/bitter.c:477-510 | After the chunked read and the clearing of the last word, the scratch words hold the field followed by zeros |
| ByteArray.MemoryOfNetworkOrder | src/bitter.c:518-520 | After the `ntohll` pass the scratch memory holds the words' bits as bytes in order, on either host |
| ByteArray.FieldBytesOfScratch | src/bitter.c:499-529 | The first `ceil(bit_len / 8)` bytes of the converted scratch memory are the field's bytes |
| ByteArray.CopyOut | src/bitter.c:529 | Copying `n` bytes of the scratch memory sets the first `n` output bytes and leaves the rest |
| ByteArray.GetMessageBits3 | src/bitter.c:459-532 | Returns -1 when `bit_len > value_len * 8`, -2 for a null output, -3 when allocation fails, else the multiword result with errors times 10, leaving the output alone on every error; on success writes exactly the `ceil(bit_len / 8)` bytes of the field, zero-padded |
| ByteArray.BytesRoundTrip | src/bitter.c:374-532 | Bytes written with `erase` and read back come out unchanged exactly when their pad bits past `bit_len` are zero |

## Left out

- `src/dump.c` (`dump_hex`) and all `MESSAGE_DEBUG` tracing: display output only.
- `rand_in_range` of `src/tools.c`: floating-point scaling of `rand()`, used only by tests.
- The test harness under `tests/`.
- The unused `pcap` and ethernet includes.
- The 32-bit configuration of `include/bitter.h:30-35` is commented out; only the 64-bit one is modelled. `WORD_BYTE_LEN` is 8 and `WORD_BIT_LEN` is 64 == 8 * 8 as constants.
- Tools.PowI: requires `n >= 0`, since `while(n--)` does not stop for a negative `n`. It also requires the power to fit in an `int`, since C leaves `int` overflow undefined.
- Words.FieldMask: the masks are built over the unbounded integers. The code builds them with `pow_i(2, n)`, which overflows an `int` for `n >= 31`. What the code computes there is undefined, so the masks are modelled as intended: the top `n` bits set.
- ByteArray.TruncatedMask: built over the unbounded integers, for the same reason as `Words.FieldMask`.
- SingleWord.SetMessageBits: requires `bit_len >= 1` once the checks pass, since a zero or negative length shifts by 64 or more, which C leaves undefined. Positions are unbounded integers, so `start_bit + bit_len` does not wrap.
- SingleWord.GetMessageBits: requires `start_bit >= 0` and `bit_len >= 1` once the checks pass. A negative start passes the reader's checks and then shifts by a negative `mo`, which C leaves undefined (see `SingleWord.GetGuardAdmitsNegativeStart`). The output pointer is an array and an index.
- MultiWord.SetMessageBits2: requires `bit_len >= 1` once the start is valid and the value array is not empty, as `SingleWord.SetMessageBits` does. `value_len` is the length of the value sequence.
- MultiWord.GetMessageBits2: requires `bit_len >= 1` under the same conditions, and that the output array is not the message; C's separate `value_len` argument is the array's length.
- ByteArray.SetMessageBits3: requires `bit_len > -8` unless the allocation fails. A more negative length, once `calloc` succeeds, makes `memcpy` copy a negative byte count (src/bitter.c:383, 392). `value_len` is the length of the byte sequence, and `value_len * 8` does not wrap.
- ByteArray.GetMessageBits3: excludes a negative `bit_len` only where the code goes on past its error returns. The -1, -2 and -3 returns and an inner error (a bad start, or `start_bit + bit_len < 0`) are all modelled for a negative length. Past them, a negative length calls `pow_i` with a negative exponent and writes `vawd[vawd_len - 1]` with `vawd_len == 0` (src/bitter.c:499-503), which C leaves undefined. `value_len` is a parameter no larger than the output array.
- `calloc`, `memcpy` and `free`: the scratch array is a fresh array, filled from the first `ceil(bit_len / 8)` input bytes and zeros. A failed allocation is the parameter `allocFails`.
- `ceil(x / 8.0)` and `ceil(x / 64.0)` on doubles are integer ceilings.
- A big-endian host whose compiler does not define `__BIG_ENDIAN__` takes the `#else` branch of include/bitter.h:15-17. There `htonl` is the identity and `htonll` only swaps the two 32-bit halves. This third configuration is not modelled; `Endian` covers the big-endian host with `__BIG_ENDIAN__` and the little-endian host.
- The host's byte order is a parameter. `htonl` is the system's byte swap of a 32-bit word, modelled as reversing its four bytes on a little-endian host.
