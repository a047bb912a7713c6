/**
 * The seed packing loop of isaac_init: a seed string of any length becomes the
 * RANDSIZ words of randrsl, four bytes per word, least significant byte first.
 * Missing bytes count as zero and bytes past the first SEEDBYTES are ignored.
 *
 * The loop reads the seed through a `const char *`. Where `char` is signed, a
 * byte of 0x80 or more is sign-extended before it is OR-ed into the word, which
 * floods the higher bytes of that word with ones. PackSeedAsWritten models the
 * loop with the signedness of `char` as a parameter; PackSeed is the intended
 * unsigned packing, which the loop computes wherever `char` is unsigned.
 */
module SeedPacking {
  import opened Words

  /** Seed byte k, or 0 at or past the end of the seed. */
  function ByteAt(s: seq<Byte>, k: nat): Byte {
    if k < |s| then s[k] else 0
  }

  /** The seed as the packing loop sees it: its first SEEDBYTES bytes, zero-padded. */
  function Pad(s: seq<Byte>): (p: seq<Byte>)
    ensures |p| == SEEDBYTES
  {
    seq(SEEDBYTES, k requires 0 <= k => ByteAt(s, k))
  }

  /** Byte k of a word, k = 0 being the least significant. */
  function LeByte(w: Word, k: nat): Byte
    requires k < 4
  {
    if k == 0 then (w & 0xFF) as Byte
    else if k == 1 then ((w >> 8) & 0xFF) as Byte
    else if k == 2 then ((w >> 16) & 0xFF) as Byte
    else ((w >> 24) & 0xFF) as Byte
  }

  /** Four bytes into one word, the first one least significant. */
  function LeWord(b0: Byte, b1: Byte, b2: Byte, b3: Byte): (w: Word)
    ensures LeByte(w, 0) == b0 && LeByte(w, 1) == b1
    ensures LeByte(w, 2) == b2 && LeByte(w, 3) == b3
  {
    (b0 as Word) | ((b1 as Word) << 8) | ((b2 as Word) << 16) | ((b3 as Word) << 24)
  }

  /** A word is determined by its four bytes. */
  lemma LeWordOfLeBytes(w: Word)
    ensures LeWord(LeByte(w, 0), LeByte(w, 1), LeByte(w, 2), LeByte(w, 3)) == w
  {
  }

  /** Word i of the intended packing. */
  function PackWord(s: seq<Byte>, i: nat): Word {
    LeWord(ByteAt(s, 4 * i), ByteAt(s, 4 * i + 1), ByteAt(s, 4 * i + 2), ByteAt(s, 4 * i + 3))
  }

  /** The intended packing of a whole seed: each byte read as an unsigned value 0..255. */
  function PackSeed(s: seq<Byte>): (rsl: Block)
    ensures forall i, k :: 0 <= i < RANDSIZ && 0 <= k < 4 ==> LeByte(rsl[i], k) == ByteAt(s, 4 * i + k)
  {
    seq(RANDSIZ, i requires 0 <= i => PackWord(s, i))
  }

  /** The bytes of a block read back in packing order: the inverse of PackSeed. */
  function UnpackSeed(rsl: Block): (s: seq<Byte>)
    ensures |s| == SEEDBYTES
  {
    seq(SEEDBYTES, k requires 0 <= k < SEEDBYTES => LeByte(rsl[k / 4], k % 4))
  }

  /** Packing reads exactly the zero-padded first SEEDBYTES bytes: unpacking gives them back. */
  lemma {:induction false} UnpackPackSeed(s: seq<Byte>)
    ensures UnpackSeed(PackSeed(s)) == Pad(s)
  {
    var rsl := PackSeed(s);
    forall k | 0 <= k < SEEDBYTES
      ensures UnpackSeed(rsl)[k] == Pad(s)[k]
    {
      assert 4 * (k / 4) + k % 4 == k;
      assert LeByte(rsl[k / 4], k % 4) == ByteAt(s, 4 * (k / 4) + k % 4);
    }
  }

  /** Word i of a block is rebuilt from its own four unpacked bytes. */
  lemma PackWordOfUnpack(rsl: Block, i: nat)
    requires i < RANDSIZ
    ensures PackWord(UnpackSeed(rsl), i) == rsl[i]
  {
    var s := UnpackSeed(rsl);
    assert ByteAt(s, 4 * i) == LeByte(rsl[i], 0);
    assert ByteAt(s, 4 * i + 1) == LeByte(rsl[i], 1);
    assert ByteAt(s, 4 * i + 2) == LeByte(rsl[i], 2);
    assert ByteAt(s, 4 * i + 3) == LeByte(rsl[i], 3);
    LeWordOfLeBytes(rsl[i]);
  }

  /** Every block is the packing of some seed: packing its own bytes gives it back. */
  lemma {:induction false} PackUnpackSeed(rsl: Block)
    ensures PackSeed(UnpackSeed(rsl)) == rsl
  {
    forall i | 0 <= i < RANDSIZ
      ensures PackSeed(UnpackSeed(rsl))[i] == rsl[i]
    {
      PackWordOfUnpack(rsl, i);
    }
  }

  /** Two seeds pack to the same randrsl exactly when their zero-padded first SEEDBYTES bytes agree. */
  lemma {:induction false} PackSeedSameIff(s1: seq<Byte>, s2: seq<Byte>)
    ensures PackSeed(s1) == PackSeed(s2) <==> Pad(s1) == Pad(s2)
  {
    UnpackPackSeed(s1);
    UnpackPackSeed(s2);
    if Pad(s1) == Pad(s2) {
      forall i | 0 <= i < RANDSIZ
        ensures PackSeed(s1)[i] == PackSeed(s2)[i]
      {
        assert Pad(s1)[4 * i] == Pad(s2)[4 * i];
        assert Pad(s1)[4 * i + 1] == Pad(s2)[4 * i + 1];
        assert Pad(s1)[4 * i + 2] == Pad(s2)[4 * i + 2];
        assert Pad(s1)[4 * i + 3] == Pad(s2)[4 * i + 3];
      }
    }
  }

  /**
   * Bytes past the first SEEDBYTES have no effect on randrsl, in the intended
   * packing and in the packing as written for either signedness of char.
   */
  lemma SeedTruncation(s1: seq<Byte>, s2: seq<Byte>, signedChar: bool)
    requires |s1| >= SEEDBYTES && |s2| >= SEEDBYTES
    requires s1[..SEEDBYTES] == s2[..SEEDBYTES]
    ensures PackSeed(s1) == PackSeed(s2)
    ensures PackSeedAsWritten(s1, signedChar) == PackSeedAsWritten(s2, signedChar)
  {
    assert forall k | 0 <= k < SEEDBYTES :: s1[k] == s1[..SEEDBYTES][k];
    assert forall k | 0 <= k < SEEDBYTES :: s2[k] == s2[..SEEDBYTES][k];
    assert Pad(s1) == Pad(s2);
    PackSeedSameIff(s1, s2);
    PackSeedAsWrittenPadded(s1, s2, signedChar);
  }

  /**
   * A short seed packs like the same seed explicitly zero-padded to SEEDBYTES
   * bytes, in the intended packing and in the packing as written for either
   * signedness of char.
   */
  lemma SeedZeroPadding(s: seq<Byte>, signedChar: bool)
    requires |s| < SEEDBYTES
    ensures PackSeed(s) == PackSeed(s + seq(SEEDBYTES - |s|, _ => 0 as Byte))
    ensures PackSeedAsWritten(s, signedChar) == PackSeedAsWritten(s + seq(SEEDBYTES - |s|, _ => 0 as Byte), signedChar)
  {
    var t := s + seq(SEEDBYTES - |s|, _ => 0 as Byte);
    assert Pad(s) == Pad(t);
    PackSeedSameIff(s, t);
    PackSeedAsWrittenPadded(s, t, signedChar);
  }

  /** The empty seed packs to the all-zero block, in the intended packing and as written. */
  lemma EmptySeed(signedChar: bool)
    ensures PackSeed([]) == seq(RANDSIZ, _ => 0 as Word)
    ensures PackSeedAsWritten([], signedChar) == seq(RANDSIZ, _ => 0 as Word)
  {
    AsWrittenAgreesBelow0x80([], signedChar);
  }

  /**
   * The C integer promotion of a seed char, converted to ub4 by the OR into `value`.
   * With a signed char, a byte of 0x80 or more is the negative value b - 256.
   */
  function Promote(b: Byte, signedChar: bool): (r: Word)
    ensures !signedChar || b < 0x80 ==> r == b as Word
    ensures signedChar && b >= 0x80 ==> r & 0xFF == b as Word && r >> 8 == 0xFF_FFFF
  {
    if signedChar && b >= 0x80 then (b as Word) | 0xFFFF_FF00 else b as Word
  }

  /** Seed byte k as the loop ORs it in: promoted when it exists, nothing when it does not. */
  function Widened(s: seq<Byte>, k: nat, signedChar: bool): Word {
    if k < |s| then Promote(s[k], signedChar) else 0
  }

  /**
   * Word i as the loop of isaac_init computes it, char signedness given. Its
   * low byte is always the seed byte, and it has every bit of the intended
   * word set: the sign extension can only add ones.
   */
  function PackWordAsWritten(s: seq<Byte>, i: nat, signedChar: bool): (w: Word)
    ensures LeByte(w, 0) == ByteAt(s, 4 * i)
    ensures w & PackWord(s, i) == PackWord(s, i)
  {
    Widened(s, 4 * i, signedChar)
      | (Widened(s, 4 * i + 1, signedChar) << 8)
      | (Widened(s, 4 * i + 2, signedChar) << 16)
      | (Widened(s, 4 * i + 3, signedChar) << 24)
  }

  /** randrsl as the loop of isaac_init fills it, char signedness given. */
  function PackSeedAsWritten(s: seq<Byte>, signedChar: bool): (rsl: Block)
    ensures forall i :: 0 <= i < RANDSIZ ==> LeByte(rsl[i], 0) == ByteAt(s, 4 * i)
    ensures forall i :: 0 <= i < RANDSIZ ==> rsl[i] & PackSeed(s)[i] == PackSeed(s)[i]
  {
    seq(RANDSIZ, i requires 0 <= i => PackWordAsWritten(s, i, signedChar))
  }

  /** What the loop ORs in for seed byte k depends only on the zero-padded byte there. */
  lemma WidenedPadded(s1: seq<Byte>, s2: seq<Byte>, k: nat, signedChar: bool)
    requires Pad(s1) == Pad(s2) && k < SEEDBYTES
    ensures Widened(s1, k, signedChar) == Widened(s2, k, signedChar)
  {
    assert Pad(s1)[k] == Pad(s2)[k];
    assert Widened(s1, k, signedChar) == Promote(ByteAt(s1, k), signedChar);
    assert Widened(s2, k, signedChar) == Promote(ByteAt(s2, k), signedChar);
  }

  /** Word i as written depends only on the zero-padded first SEEDBYTES bytes of the seed. */
  lemma PackWordAsWrittenPadded(s1: seq<Byte>, s2: seq<Byte>, i: nat, signedChar: bool)
    requires Pad(s1) == Pad(s2) && i < RANDSIZ
    ensures PackWordAsWritten(s1, i, signedChar) == PackWordAsWritten(s2, i, signedChar)
  {
    WidenedPadded(s1, s2, 4 * i, signedChar);
    WidenedPadded(s1, s2, 4 * i + 1, signedChar);
    WidenedPadded(s1, s2, 4 * i + 2, signedChar);
    WidenedPadded(s1, s2, 4 * i + 3, signedChar);
  }

  /**
   * Even with the sign extension, seeds whose zero-padded first SEEDBYTES bytes
   * agree give the same randrsl (the converse fails, see SignExtensionCounterexample).
   */
  lemma {:induction false} PackSeedAsWrittenPadded(s1: seq<Byte>, s2: seq<Byte>, signedChar: bool)
    requires Pad(s1) == Pad(s2)
    ensures PackSeedAsWritten(s1, signedChar) == PackSeedAsWritten(s2, signedChar)
  {
    forall i | 0 <= i < RANDSIZ
      ensures PackSeedAsWritten(s1, signedChar)[i] == PackSeedAsWritten(s2, signedChar)[i]
    {
      PackWordAsWrittenPadded(s1, s2, i, signedChar);
    }
  }

  /** A byte widens to its unsigned value when char is unsigned or the byte is below 0x80. */
  lemma WidenedUnsigned(s: seq<Byte>, k: nat, signedChar: bool)
    requires !signedChar || k >= |s| || s[k] < 0x80
    ensures Widened(s, k, signedChar) == ByteAt(s, k) as Word
  {
  }

  /** Where every byte widens to its unsigned value, the written word is the intended one. */
  lemma PackWordAsWrittenUnsigned(s: seq<Byte>, i: nat, signedChar: bool)
    requires Widened(s, 4 * i, signedChar) == ByteAt(s, 4 * i) as Word
    requires Widened(s, 4 * i + 1, signedChar) == ByteAt(s, 4 * i + 1) as Word
    requires Widened(s, 4 * i + 2, signedChar) == ByteAt(s, 4 * i + 2) as Word
    requires Widened(s, 4 * i + 3, signedChar) == ByteAt(s, 4 * i + 3) as Word
    ensures PackWordAsWritten(s, i, signedChar) == PackWord(s, i)
  {
  }

  /** The written packing is the intended one when char is unsigned or no seed byte has its top bit set. */
  lemma {:induction false} AsWrittenAgreesBelow0x80(s: seq<Byte>, signedChar: bool)
    requires !signedChar || forall k :: 0 <= k < |s| ==> s[k] < 0x80
    ensures PackSeedAsWritten(s, signedChar) == PackSeed(s)
  {
    forall i | 0 <= i < RANDSIZ
      ensures PackSeedAsWritten(s, signedChar)[i] == PackSeed(s)[i]
    {
      WidenedUnsigned(s, 4 * i, signedChar);
      WidenedUnsigned(s, 4 * i + 1, signedChar);
      WidenedUnsigned(s, 4 * i + 2, signedChar);
      WidenedUnsigned(s, 4 * i + 3, signedChar);
      PackWordAsWrittenUnsigned(s, i, signedChar);
    }
  }

  /**
   * With a signed char the written packing sign-extends: the one-byte seed 0x80
   * fills word 0 with 0xFFFFFF80 instead of 0x00000080, and so collides with the
   * different seed 0x80 0xFF 0xFF 0xFF.
   */
  lemma SignExtensionCounterexample()
    ensures PackSeedAsWritten([0x80], true)[0] == 0xFFFF_FF80
    ensures PackSeed([0x80])[0] == 0x80
    ensures PackSeedAsWritten([0x80], true) == PackSeedAsWritten([0x80, 0xFF, 0xFF, 0xFF], true)
    ensures Pad([0x80]) != Pad([0x80, 0xFF, 0xFF, 0xFF])
  {
    assert Pad([0x80])[1] == 0;
    var a := PackSeedAsWritten([0x80], true);
    var b := PackSeedAsWritten([0x80, 0xFF, 0xFF, 0xFF], true);
    forall i | 0 <= i < RANDSIZ
      ensures a[i] == b[i]
    {
      if i == 0 {
        assert a[0] == 0xFFFF_FF80;
      }
    }
  }

  /** Seed cursor position once the bytes before index k were read: it stops at the end of the seed. */
  function SeedPos(s: seq<Byte>, k: nat): nat {
    if k < |s| then k else |s|
  }

  /**
   * One guarded read of the packing loop: the byte at index k, widened,
   * or nothing once the seed is exhausted; the cursor moves past it.
   */
  method ReadSeedByte(s: seq<Byte>, signedChar: bool, pos: nat, ghost k: nat) returns (v: Word, pos': nat)
    requires pos == SeedPos(s, k)
    ensures v == Widened(s, k, signedChar)
    ensures pos' == SeedPos(s, k + 1)
  {
    v, pos' := 0, pos;
    if pos' < |s| {
      v := Promote(s[pos'], signedChar);
      pos' := pos' + 1;
    }
  }

  /**
   * One turn of the packing loop of isaac_init: four reads of the seed cursor,
   * each byte ORed in at its shift, starting from 0.
   */
  method PackOneWord(s: seq<Byte>, signedChar: bool, i: nat, pos: nat) returns (value: Word, pos': nat)
    requires pos == SeedPos(s, 4 * i)
    ensures value == PackWordAsWritten(s, i, signedChar)
    ensures pos' == SeedPos(s, 4 * i + 4)
  {
    var b0, b1, b2, b3: Word;
    value := 0;
    b0, pos' := ReadSeedByte(s, signedChar, pos, 4 * i);
    value := value | b0;
    b1, pos' := ReadSeedByte(s, signedChar, pos', 4 * i + 1);
    value := value | (b1 << 8);
    b2, pos' := ReadSeedByte(s, signedChar, pos', 4 * i + 2);
    value := value | (b2 << 16);
    b3, pos' := ReadSeedByte(s, signedChar, pos', 4 * i + 3);
    value := value | (b3 << 24);
  }

  /**
   * The packing loop of isaac_init: the cursor pos advances past each seed byte
   * as it is read and stops at the end of the seed.
   */
  method PackSeedLoop(s: seq<Byte>, signedChar: bool) returns (rsl: seq<Word>)
    ensures rsl == PackSeedAsWritten(s, signedChar)
  {
    var pos := 0;
    rsl := [];
    var i := 0;
    while i < RANDSIZ
      invariant 0 <= i <= RANDSIZ
      invariant pos == SeedPos(s, 4 * i)
      invariant |rsl| == i
      invariant forall j :: 0 <= j < i ==> rsl[j] == PackWordAsWritten(s, j, signedChar)
    {
      var value;
      value, pos := PackOneWord(s, signedChar, i, pos);
      rsl := rsl + [value];
      i := i + 1;
    }
  }
}
