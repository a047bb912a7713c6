# ISAAC binding of tlscrypto, modelled in Dafny

tlscrypto wraps Bob Jenkins' ISAAC generator for Python. A C extension type
holds an ISAAC context: the output block `randrsl` of 256 words, the cursor
`randcnt` and the mixing state. A thin Python class adds two helpers on top. This
project models what the binding itself computes:

- the seed packing loop of `isaac_init` (`seed_packing.dfy`, module `SeedPacking`);
- the `REFILL` macro and `isaac_rand` (`generator.dfy`, module `Generator`);
- `isaac_random_string` (`byte_string.dfy`, module `ByteString`);
- `isaac.getrandbits` (`rand_bits.dfy`, module `RandBits`);
- `isaac.random_string` with and without `allowable_characters` (`alphabet.dfy`, module `Alphabet`).

`words.dfy` (module `Words`) holds the shared machine types: `Byte = bv8`, `Word = bv32`,
`RANDSIZ = 256`, the 256-word `Block` and the `Cursor` `0..256`.

The mixing step `isaac()` and the initialiser `randinit()` are defined in `rand.c`.
That file is not part of this model, and neither is `rand.h`. Both enter as
parameters: a `Step` maps the mixing state to its successor and the block it
writes, and `randinit` maps the packed block to a ready generator. Everything
else is stated against the word stream those parameters produce: which words a
call reads, how many, in what order, and how they become bytes or bits. The
generator is an immutable record `Gen(cnt, rsl, mix)`. Each operation returns
the new generator along with its result.

## Model

| member | source | states |
|---|---|---|
| SeedPacking.PackSeed | tlscrypto/isaac/isaac.c:39-50 | byte k of word i of randrsl, least significant first, is seed byte 4i+k, or 0 past the end of the seed |
| SeedPacking.LeWord | tlscrypto/isaac/isaac.c:40-48 | four bytes ORed in at shifts 0, 8, 16 and 24 can each be read back from their own byte position |
| SeedPacking.UnpackPackSeed | tlscrypto/isaac/isaac.c:39-50 | unpacking the packed block gives back exactly the first 1024 seed bytes, zero-padded: packing keeps those and loses nothing of them |
| SeedPacking.PackUnpackSeed | tlscrypto/isaac/isaac.c:39-50 | every 256-word block is the packing of some seed, namely of its own bytes |
| SeedPacking.PackSeedSameIff | tlscrypto/isaac/isaac.c:39-48 | two seeds give the same randrsl if and only if their zero-padded first 1024 bytes agree |
| SeedPacking.SeedTruncation | tlscrypto/isaac/isaac.c:39-48 | seeds that agree on their first 1024 bytes give the same randrsl, whatever follows, both in the intended packing and in the loop as written for signed or unsigned char |
| SeedPacking.SeedZeroPadding | tlscrypto/isaac/isaac.c:40-48 | a seed shorter than 1024 bytes packs like the same seed padded with zero bytes to 1024, both in the intended packing and in the loop as written for signed or unsigned char |
| SeedPacking.EmptySeed | tlscrypto/isaac/isaac.c:40-49 | the empty seed packs to the all-zero block, in the intended packing and in the loop as written for either signedness of char |
| SeedPacking.Promote | tlscrypto/isaac/isaac.c:42-48 | a char below 0x80, or any char where char is unsigned, widens to its value; a signed char of 0x80 or more keeps its low byte and fills the upper 24 bits with ones |
| SeedPacking.AsWrittenAgreesBelow0x80 | tlscrypto/isaac/isaac.c:42-48 | the packing as written equals the intended unsigned packing whenever char is unsigned or every seed byte is below 0x80 |
| SeedPacking.PackWordAsWritten | tlscrypto/isaac/isaac.c:40-48 | word i as one loop turn writes it: its low byte is always seed byte 4i, and every bit of the intended word is set in it, so the sign extension only adds ones |
| SeedPacking.PackSeedAsWritten | tlscrypto/isaac/isaac.c:39-50 | randrsl as the loop writes it: the low byte of word i is seed byte 4i, and every bit of the intended packing is set |
| SeedPacking.PackWordAsWrittenPadded | tlscrypto/isaac/isaac.c:40-48 | word i as the loop writes it, for either signedness of char, depends only on the zero-padded seed bytes 4i..4i+3 |
| SeedPacking.PackSeedAsWrittenPadded | tlscrypto/isaac/isaac.c:39-48 | even with sign extension, seeds whose zero-padded first 1024 bytes agree give the same randrsl |
| SeedPacking.SignExtensionCounterexample | tlscrypto/isaac/isaac.c:42-48 | with signed char the seed [0x80] packs word 0 as 0xFFFFFF80 instead of 0x80, and collides with the different seed [0x80, 0xFF, 0xFF, 0xFF] |
| SeedPacking.ReadSeedByte | tlscrypto/isaac/isaac.c:41-48 | one guarded read returns the widened byte at the cursor, or 0 once the seed is exhausted, and the cursor stops at the end of the seed |
| SeedPacking.PackOneWord | tlscrypto/isaac/isaac.c:40-49 | one turn of the loop builds word i from seed bytes 4i..4i+3 and leaves the cursor at 4i+4, or at the end of the seed |
| SeedPacking.PackSeedLoop | tlscrypto/isaac/isaac.c:39-50 | the loop fills all 256 words of randrsl, each from its own four seed bytes with bytes past the end read as nothing |
| Generator.Refill | tlscrypto/isaac/isaac.c:58 | REFILL runs the mixing step if and only if randcnt is 0, and then sets randcnt to RANDSIZ; otherwise it changes nothing |
| Generator.Rand | tlscrypto/isaac/isaac.c:60-70 | after a read randcnt is below RANDSIZ and the word returned is randrsl at the decremented cursor; the mixing step runs only when the block was exhausted |
| Generator.DrawsFollowStream | tlscrypto/isaac/isaac.c:58-68 | n reads return the unread words of the current block from the top down, then every later block from word 255 down to word 0 |
| Generator.AfterClosedForm | tlscrypto/isaac/isaac.c:58-68 | n reads from a cursor of cnt run exactly 0 mixing steps when n <= cnt and (n - cnt - 1) / 256 + 1 otherwise, and leave the cursor at the matching position |
| Generator.AfterRsl | tlscrypto/isaac/isaac.c:67-68 | reads that need no refill leave randrsl unchanged |
| Generator.FreshBlockOrder | tlscrypto/isaac/isaac.c:58-68 | after a refill, 256 reads return randrsl[255] down to randrsl[0] and exhaust the block; the 257th read runs exactly one more mixing step and returns word 255 of the new block |
| Generator.AfterAppend | tlscrypto/isaac/isaac.c:58-68 | a+b reads end in the same generator as a reads followed by b reads |
| Generator.DrawsAppend | tlscrypto/isaac/isaac.c:58-68 | a+b reads return the a words, then the b words read from where those stopped: no word is skipped or repeated |
| Generator.DrawOneMore | tlscrypto/isaac/isaac.c:60-70 | one more read extends the words read so far by exactly the word it returns |
| Generator.Seeded | tlscrypto/isaac/isaac.c:39-53 | isaac_init as written: the seed packed by the loop (PackSeedAsWritten) for the given signedness of char, handed to randinit; SeededIntended and SeededStreamsAgree state what that gives |
| Generator.SeededIntended | tlscrypto/isaac/isaac.c:39-53 | where char is unsigned, or every seed byte is below 0x80, isaac_init hands randinit the intended packing of the seed |
| Generator.SeededStreamsAgree | tlscrypto/isaac/isaac.c:39-53 | for either signedness of char, seeds whose zero-padded first 1024 bytes agree yield the same word stream and the same generator after any number of reads |
| Generator.SignedSeedsCollide | tlscrypto/isaac/isaac.c:42-53 | with signed char, the different seeds [0x80] and [0x80, 0xFF, 0xFF, 0xFF] seed generators whose word streams are identical |
| ByteString.BeBytes | tlscrypto/isaac/isaac.c:90-93 | a whole word is written as four bytes; BeWordOfBeBytes and BeBytesOfBeWord show they are its bytes, most significant first |
| ByteString.BeWordOfBeBytes | tlscrypto/isaac/isaac.c:90-93 | the four bytes of a whole word, most significant first, determine the word |
| ByteString.BeBytesOfBeWord | tlscrypto/isaac/isaac.c:90-93 | every four bytes are the serialisation of exactly one word |
| ByteString.Tail2 | tlscrypto/isaac/isaac.c:98-99 | the 2-byte tail is bits 8..15 then bits 0..7: the last two bytes of the word's 4-byte serialisation |
| ByteString.Tail1 | tlscrypto/isaac/isaac.c:105 | the 1-byte tail is bits 0..7: the last byte of the word's 4-byte serialisation |
| ByteString.Concat4Layout | tlscrypto/isaac/isaac.c:87-94 | bytes 4k..4k+3 of the whole-word part are word k, most significant byte first |
| ByteString.TailBytes | tlscrypto/isaac/isaac.c:95-106 | an r-byte tail has r bytes; for r of 2 or 3 it starts with the low 16 bits of the first tail word, and for r of 1 or 3 it ends with the low 8 bits of the last tail word |
| ByteString.Serialize | tlscrypto/isaac/isaac.c:87-106 | random_string(n) turns the words it consumed into exactly n bytes; SerializeLayout places each byte |
| ByteString.SerializeLayout | tlscrypto/isaac/isaac.c:87-106 | where every byte of random_string(n) comes from: the whole words in order, then the 16-bit part, then the 8-bit part |
| ByteString.WholeWords | tlscrypto/isaac/isaac.c:87-94 | the whole-word loop reads n / 4 words, emits each most significant byte first and leaves n % 4 bytes to do |
| ByteString.RandomTail | tlscrypto/isaac/isaac.c:95-106 | the tail reads one word for a 2-byte part and one for a 1-byte part, so a 3-byte tail reads two words, and emits their low bytes |
| ByteString.SerializeDraws | tlscrypto/isaac/isaac.c:87-106 | the whole-word words followed by the tail words are exactly the first WordsConsumed(n) words of the stream |
| ByteString.RandomString | tlscrypto/isaac/isaac.c:72-111 | random_string(n) returns exactly n bytes and consumes exactly n / 4 + (n % 4 >= 2) + (n % 4 odd) words, namely the words that many isaac_rand calls would return, serialised as above |
| ByteString.EmptyRequest | tlscrypto/isaac/isaac.c:86-106 | random_string(0) reads no word, leaves randcnt and randrsl alone and returns no bytes |
| ByteString.FourBytesAreOneWord | tlscrypto/isaac/isaac.c:87-94 | random_string(4) reads one word and returns its bytes most significant first |
| ByteString.WholeWordRequestsConcatenate | tlscrypto/isaac/isaac.c:87-106 | after a request for a multiple of 4 bytes, a second request continues the same byte stream: together they return what one request for the total returns |
| ByteString.SerializeAppend | tlscrypto/isaac/isaac.c:87-106 | serialising a whole-word request and another request side by side is serialising their joint request |
| ByteString.Concat4Append | tlscrypto/isaac/isaac.c:87-94 | the whole-word bytes of two word runs joined are the two byte runs joined |
| RandBits.WidthsCount | tlscrypto/isaac/isaac.py:39-62 | getrandbits(bits) keeps pieces whose widths add up to bits, reads bits / 32 + popcount(bits % 32) words, and reads nothing for bits <= 0 |
| RandBits.TailPlanBits | tlscrypto/isaac/isaac.py:44-62 | the 16/8/4/2/1 tests taken on a remainder below 32 are its set bits: their widths add up to it and there is one per set bit |
| RandBits.Chunk | tlscrypto/isaac/isaac.py:44-62 | a masked piece of width k is below 2^k |
| RandBits.ChunkWhole | tlscrypto/isaac/isaac.py:39-42 | a 32-bit piece is the word unmasked |
| RandBits.AssembleBound | tlscrypto/isaac/isaac.py:36-63 | a value assembled from pieces is below 2 to the sum of their widths |
| RandBits.AssemblePeel | tlscrypto/isaac/isaac.py:39-62 | the value decodes back into its pieces: the first piece is the value divided by 2 to the later widths, and the rest is the remainder |
| RandBits.AssembleSnoc | tlscrypto/isaac/isaac.py:39-62 | shifting the value left by k and putting a k-bit piece below appends that piece at the least significant end |
| RandBits.Take | tlscrypto/isaac/isaac.py:39-62 | one shift-and-OR step reads one word and extends the pieces read so far by one piece of width k |
| RandBits.Piece | tlscrypto/isaac/isaac.py:44-62 | one `bits >= k` test reads a word and shifts in its k low bits exactly when it passes, moving k from the plan to the pieces read |
| RandBits.WholeWordLoop | tlscrypto/isaac/isaac.py:39-42 | the whole-word loop reads one word per 32 bits, leaves fewer than 32 bits and leaves exactly the tail plan of the remainder unread |
| RandBits.TailPieces | tlscrypto/isaac/isaac.py:44-62 | the 16/8/4/2/1 tests read exactly the rest of the plan, in order, and assemble it below the value so far |
| RandBits.GetRandBits | tlscrypto/isaac/isaac.py:36-63 | getrandbits(bits) reads exactly the planned words in stream order, and its value is those pieces assembled with the first read most significant |
| RandBits.GetRandBitsRange | tlscrypto/isaac/isaac.py:36-63 | the value is below 2^bits, and for bits <= 0 it is 0 and no word is read |
| RandBits.FirstWordOnTop | tlscrypto/isaac/isaac.py:39-42 | for bits >= 32 the first word read is the top 32 bits of the value |
| Alphabet.Pick | tlscrypto/isaac/isaac.py:71 | the character a word selects belongs to the alphabet |
| Alphabet.PickChars | tlscrypto/isaac/isaac.py:70-71 | with a non-empty alphabet: n characters, the i-th being alphabet[w_i % len] for the i-th word read, and exactly n words read; with an empty one and n > 0, ZeroDivisionError after one word; for n <= 0 the empty string and no read |
| Alphabet.RandomString | tlscrypto/isaac/isaac.py:65-71 | without an alphabet the result is the C random_string unchanged; with one, there are n characters, the i-th being alphabet[w_i % len] for the i-th word read (so every one is from the alphabet), and n words are read, and an empty alphabet fails when n > 0, after one word was read |

## Left out

- `isaac()` and `randinit()`: parameters of the model, since `rand.c` and `rand.h` are not part of this model. What `randcnt` the initialiser leaves is up to the `randinit` parameter.
- The Python C-API glue (`isaac_new`, `isaac_free`, the type and method tables, `init_isaac`), `PyArg_ParseTuple` failures (a seed that is not a string raises `ValueError`), `PyMem_Malloc` failure and `PyString_FromStringAndSize`: host runtime plumbing.
- The `seed is None` path of the Python constructor: it reads `os.urandom` or the clock and hashes with SHA-512, which is I/O and foreign code.
- `setup.py` files: build configuration only.
- ByteString.RandomString: requires n >= 0. The C code has no check for a negative N: `PyMem_Malloc` gets a huge size and the `if (i)` branch would fire. The model follows the code and invents no error path for it.
- Alphabet.RandomString: requires n >= 0 only on the branch without an alphabet, for the same reason; the alphabet branch handles every n.
- RandBits.Chunk: the masks `0xFFFF`, `0xFF`, `0xF`, `0x3` and `1` are modelled as the remainder modulo 2^k, which is what AND with 2^k - 1 gives on a non-negative Python integer; the bit-level identity is not proved.
- RandBits.Take: `v <<= k; v |= x` is modelled as `v * 2^k + x`. The two agree because x < 2^k (the Chunk bound), so the OR only fills the k zero bits the shift opened.
- Python 2 strings are byte strings: a seed and an alphabet are sequences of bytes, and an alphabet of multi-character strings or of unicode characters is not modelled.
- `getrandbits` with a non-integer argument is not modelled; `rand()` hands Python a non-negative integer (`PyInt_FromSize_t`), so words are read as values 0..2^32-1.
- Words.Word: a `ub4` is taken to be an unsigned 32-bit word. `ub4` is defined in `rand.h` and the headers it includes, which are not part of this model; an `unsigned long` of 64 bits would change the masking, and RandBits.ChunkWhole and RandBits.GetRandBitsRange rely on words being below 2^32.
- SeedPacking.PackWordAsWritten: the shifts `s[pos++] << 8`, `<< 16` and `<< 24` are read as 32-bit two's-complement bit shifts. In C, shifting a byte of 0x80 or more left by 24 overflows `int`, and shifting a negative signed char left is undefined; the model, and the sign-extension finding, take the bits a usual compiler produces.
- Words.RANDSIZ: taken to be 256 (RANDSIZL = 8, the value of Jenkins' reference ISAAC), since `rand.h` is not part of this model.
- Concurrency: the generator is plain mutable state in the source; the model threads it through every call instead.

## Findings

| source | as written | input that shows it | evidently intended | confidence | as-written member | corrected member |
|---|---|---|---|---|---|---|
| tlscrypto/isaac/isaac.c:42-48 | each seed byte is read through `const char *` and ORed into the word after integer promotion; where char is signed, a byte of 0x80 or more becomes negative and sign-extends over the upper bytes of the word | the seed [0x80] on a signed-char platform: word 0 becomes 0xFFFFFF80, not 0x80, and the seed [0x80, 0xFF, 0xFF, 0xFF] gives the same randrsl | each byte packed as an unsigned value 0..255, so distinct zero-padded 1024-byte prefixes give distinct blocks | high on signed-char platforms such as x86; no effect where char is unsigned; not executed | SeedPacking.PackSeedAsWritten, SeedPacking.SignExtensionCounterexample | SeedPacking.PackSeed, SeedPacking.PackSeedSameIff |
