/**
 * isaac_random_string: N pseudo-random bytes cut from the word stream.
 * Whole words come out most significant byte first. A tail of 2 or 3 bytes
 * takes the low 16 bits of one more word, and a tail of 1 or 3 bytes takes the
 * low 8 bits of one more word, so a 3-byte tail consumes two fresh words.
 */
module ByteString {
  import opened Words
  import opened Generator

  /** A word as four bytes, most significant first. */
  function BeBytes(w: Word): (r: seq<Byte>)
    ensures |r| == 4
  {
    [((w >> 24) & 0xFF) as Byte, ((w >> 16) & 0xFF) as Byte, ((w >> 8) & 0xFF) as Byte, (w & 0xFF) as Byte]
  }

  /** Four bytes, most significant first, as a word. */
  function BeWord(b: seq<Byte>): Word
    requires |b| == 4
  {
    ((b[0] as Word) << 24) | ((b[1] as Word) << 16) | ((b[2] as Word) << 8) | (b[3] as Word)
  }

  /** A word survives a trip through its four bytes. */
  lemma BeWordOfBeBytes(w: Word)
    ensures BeWord(BeBytes(w)) == w
  {
  }

  /** Four bytes survive a trip through a word. */
  lemma BeBytesOfBeWord(b: seq<Byte>)
    requires |b| == 4
    ensures BeBytes(BeWord(b)) == b
  {
  }

  /** The 2-byte tail: bits 8..15 then bits 0..7, the last two bytes of the word. */
  function Tail2(w: Word): (r: seq<Byte>)
    ensures r == BeBytes(w)[2..]
  {
    [((w >> 8) & 0xFF) as Byte, (w & 0xFF) as Byte]
  }

  /** The 1-byte tail: bits 0..7, the last byte of the word. */
  function Tail1(w: Word): (r: seq<Byte>)
    ensures r == BeBytes(w)[3..]
  {
    [(w & 0xFF) as Byte]
  }

  /** Words random_string(n) consumes: one per whole 4 bytes, one for a 2-byte part, one for a 1-byte part. */
  function WordsConsumed(n: nat): nat {
    n / 4 + TailWords(n % 4)
  }

  /** A slice inside the first part of a concatenation is a slice of that part. */
  lemma SliceOfPrefix<T>(a: seq<T>, b: seq<T>, i: nat, j: nat)
    requires i <= j <= |a|
    ensures (a + b)[i..j] == a[i..j]
  {
  }

  /** The second part of a concatenation is the slice that starts where the first part ends. */
  lemma SliceOfSuffix<T>(a: seq<T>, b: seq<T>)
    ensures (a + b)[|a|..|a| + |b|] == b
  {
  }

  /** The words, each as four bytes, most significant first. */
  function Concat4(ws: seq<Word>): (r: seq<Byte>)
    ensures |r| == 4 * |ws|
    decreases |ws|
  {
    if ws == [] then [] else Concat4(ws[..|ws| - 1]) + BeBytes(ws[|ws| - 1])
  }

  /** Bytes 4k..4k+3 of Concat4(ws) are word k, most significant byte first. */
  lemma {:induction false} Concat4Layout(ws: seq<Word>)
    ensures forall k :: 0 <= k < |ws| ==> Concat4(ws)[4 * k..4 * k + 4] == BeBytes(ws[k])
    decreases |ws|
  {
    if ws != [] {
      var init := ws[..|ws| - 1];
      var c := Concat4(init);
      Concat4Layout(init);
      var last := BeBytes(ws[|ws| - 1]);
      assert Concat4(ws) == c + last;
      forall k | 0 <= k < |init|
        ensures Concat4(ws)[4 * k..4 * k + 4] == BeBytes(ws[k])
      {
        SliceOfPrefix(c, last, 4 * k, 4 * k + 4);
        assert init[k] == ws[k];
      }
      SliceOfSuffix(c, last);
    }
  }

  /** The bytes of an r-byte tail (r < 4) cut from the tail words ts. */
  function TailBytes(ts: seq<Word>, r: nat): (b: seq<Byte>)
    requires r < 4
    requires |ts| == TailWords(r)
    ensures |b| == r
    ensures r >= 2 ==> b[..2] == BeBytes(ts[0])[2..]
    ensures r % 2 == 1 ==> b[r - 1] == BeBytes(ts[|ts| - 1])[3]
  {
    if r == 0 then []
    else if r == 1 then Tail1(ts[0])
    else if r == 2 then Tail2(ts[0])
    else Tail2(ts[0]) + Tail1(ts[1])
  }

  /** The n bytes random_string(n) makes of the words it consumed, in the order they were read. */
  function Serialize(ws: seq<Word>, n: nat): (b: seq<Byte>)
    requires |ws| == WordsConsumed(n)
    ensures |b| == n
  {
    Concat4(ws[..n / 4]) + TailBytes(ws[n / 4..], n % 4)
  }

  /**
   * Where each byte of random_string(n) comes from: bytes 4k..4k+3 are word k
   * most significant first; a 2- or 3-byte tail starts with the low 16 bits of
   * the next word, high byte first; a 1- or 3-byte tail ends with the low 8
   * bits of the last word.
   */
  lemma SerializeLayout(ws: seq<Word>, n: nat)
    requires |ws| == WordsConsumed(n)
    ensures forall k :: 0 <= k < n / 4 ==> Serialize(ws, n)[4 * k..4 * k + 4] == BeBytes(ws[k])
    ensures n % 4 >= 2 ==> Serialize(ws, n)[4 * (n / 4)..4 * (n / 4) + 2] == BeBytes(ws[n / 4])[2..]
    ensures n % 4 % 2 == 1 ==> Serialize(ws, n)[n - 1] == BeBytes(ws[|ws| - 1])[3]
  {
    var q := n / 4;
    var full := Concat4(ws[..q]);
    var tail := TailBytes(ws[q..], n % 4);
    var b := full + tail;
    Concat4Layout(ws[..q]);
    forall k | 0 <= k < q
      ensures b[4 * k..4 * k + 4] == BeBytes(ws[k])
    {
      SliceOfPrefix(full, tail, 4 * k, 4 * k + 4);
      assert ws[..q][k] == ws[k];
    }
    assert b[4 * q..] == tail;
    assert n % 4 >= 2 ==> b[4 * q..4 * q + 2] == tail[..2];
  }

  /**
   * isaac_random_string for n >= 0: the loop over whole words, then the 2-byte
   * and 1-byte tails, each read preceded by REFILL. It consumes exactly the
   * words that WordsConsumed(n) calls of isaac_rand would return.
   */
  method RandomString(g: Gen, isaac: Step, n: nat) returns (g': Gen, s: seq<Byte>)
    ensures |s| == n
    ensures g' == After(g, isaac, WordsConsumed(n))
    ensures s == Serialize(Draws(g, isaac, WordsConsumed(n)), n)
  {
    var i, tail;
    g', s, i := WholeWords(g, isaac, n);
    g', tail := RandomTail(g', isaac, i);
    s := s + tail;
    SerializeDraws(g, isaac, n);
  }

  /** Reading the whole words and then the tail words is reading WordsConsumed(n) words. */
  lemma SerializeDraws(g: Gen, isaac: Step, n: nat)
    ensures var mid := After(g, isaac, n / 4);
            && After(g, isaac, WordsConsumed(n)) == After(mid, isaac, TailWords(n % 4))
            && Serialize(Draws(g, isaac, WordsConsumed(n)), n)
               == Concat4(Draws(g, isaac, n / 4)) + TailBytes(Draws(mid, isaac, TailWords(n % 4)), n % 4)
  {
    var mid := After(g, isaac, n / 4);
    AfterAppend(g, isaac, n / 4, TailWords(n % 4));
    DrawsAppend(g, isaac, n / 4, TailWords(n % 4));
    var ws := Draws(g, isaac, WordsConsumed(n));
    assert ws[..n / 4] == Draws(g, isaac, n / 4);
    assert ws[n / 4..] == Draws(mid, isaac, TailWords(n % 4));
  }

  /** The whole-word loop of isaac_random_string: while four or more bytes are left, one word per four bytes. */
  method WholeWords(g: Gen, isaac: Step, n: nat) returns (g': Gen, s: seq<Byte>, i: nat)
    ensures i == n % 4
    ensures g' == After(g, isaac, n / 4) && s == Concat4(Draws(g, isaac, n / 4))
  {
    g', s := g, [];
    i := n;
    ghost var k := 0;
    while i >= 4
      invariant 0 <= i <= n && i == n - 4 * k
      invariant g' == After(g, isaac, k) && s == Concat4(Draws(g, isaac, k))
    {
      DrawOneMore(g, isaac, k);
      var out := Rand(g', isaac);
      g' := out.gen;
      s := s + BeBytes(out.word);
      i := i - 4;
      k := k + 1;
    }
    assert k == n / 4;
  }

  /** Words an r-byte tail (r < 4) consumes. */
  function TailWords(r: nat): nat {
    (if r >= 2 then 1 else 0) + (if r % 2 == 1 then 1 else 0)
  }

  /**
   * The tail of isaac_random_string, with i < 4 bytes left: the branch for two
   * or more bytes, then the branch for a byte still left over.
   */
  method RandomTail(g: Gen, isaac: Step, i0: nat) returns (g': Gen, s: seq<Byte>)
    requires i0 < 4
    ensures g' == After(g, isaac, TailWords(i0)) && s == TailBytes(Draws(g, isaac, TailWords(i0)), i0)
  {
    var i := i0;
    g', s := g, [];
    if i >= 2 {
      var out := Rand(g', isaac);
      g' := out.gen;
      s := s + Tail2(out.word);
      i := i - 2;
    }
    if i != 0 {
      var out := Rand(g', isaac);
      g' := out.gen;
      s := s + Tail1(out.word);
    }
    if i0 == 3 {
      DrawOneMore(g, isaac, 1);
    }
  }

  /** random_string(0) consumes no word, leaves randcnt and randrsl alone and returns no bytes. */
  lemma EmptyRequest(g: Gen, isaac: Step)
    ensures After(g, isaac, WordsConsumed(0)) == g
    ensures Serialize(Draws(g, isaac, WordsConsumed(0)), 0) == []
  {
  }

  /** random_string(4) returns the four bytes of the word rand() would return, most significant first. */
  lemma FourBytesAreOneWord(g: Gen, isaac: Step)
    ensures After(g, isaac, WordsConsumed(4)) == Rand(g, isaac).gen
    ensures Serialize(Draws(g, isaac, WordsConsumed(4)), 4) == BeBytes(Rand(g, isaac).word)
  {
    assert WordsConsumed(4) == 1;
  }

  /**
   * When the first request is a whole number of words, two requests in a row
   * return the same bytes as one request for their total: nothing is skipped.
   */
  lemma {:induction false} WholeWordRequestsConcatenate(g: Gen, isaac: Step, n1: nat, n2: nat)
    requires n1 % 4 == 0
    ensures var mid := After(g, isaac, WordsConsumed(n1));
            && After(g, isaac, WordsConsumed(n1 + n2)) == After(mid, isaac, WordsConsumed(n2))
            && Serialize(Draws(g, isaac, WordsConsumed(n1 + n2)), n1 + n2)
               == Serialize(Draws(g, isaac, WordsConsumed(n1)), n1) + Serialize(Draws(mid, isaac, WordsConsumed(n2)), n2)
  {
    var a, b := WordsConsumed(n1), WordsConsumed(n2);
    ConsumedAdd(n1, n2);
    var mid := After(g, isaac, a);
    var ws1, ws2 := Draws(g, isaac, a), Draws(mid, isaac, b);
    AfterAppend(g, isaac, a, b);
    DrawsAppend(g, isaac, a, b);
    assert Draws(g, isaac, WordsConsumed(n1 + n2)) == ws1 + ws2;
    SerializeAppend(ws1, ws2, n1, n2);
  }

  /** A whole-word request and any request together consume the words of both. */
  lemma ConsumedAdd(n1: nat, n2: nat)
    requires n1 % 4 == 0
    ensures (n1 + n2) / 4 == n1 / 4 + n2 / 4 && (n1 + n2) % 4 == n2 % 4
    ensures WordsConsumed(n1 + n2) == WordsConsumed(n1) + WordsConsumed(n2)
  {
  }

  /** The bytes of a whole-word request followed by those of another request. */
  lemma SerializeAppend(ws1: seq<Word>, ws2: seq<Word>, n1: nat, n2: nat)
    requires n1 % 4 == 0 && |ws1| == WordsConsumed(n1) && |ws2| == WordsConsumed(n2)
    ensures WordsConsumed(n1 + n2) == |ws1 + ws2|
    ensures Serialize(ws1 + ws2, n1 + n2) == Serialize(ws1, n1) + Serialize(ws2, n2)
  {
    var q1, q2, r2 := n1 / 4, n2 / 4, n2 % 4;
    ConsumedAdd(n1, n2);
    var ws := ws1 + ws2;
    assert ws[..q1 + q2] == ws1 + ws2[..q2];
    assert ws[q1 + q2..] == ws2[q2..];
    assert ws1[..q1] == ws1;
    assert ws1[q1..] == [] && TailBytes([], 0) == [];
    Concat4Append(ws1, ws2[..q2]);
    assert Serialize(ws, n1 + n2) == Concat4(ws1 + ws2[..q2]) + TailBytes(ws2[q2..], r2);
    assert Serialize(ws1, n1) == Concat4(ws1);
  }

  /** Concat4 of a concatenation is the concatenation of the Concat4s. */
  lemma {:induction false} Concat4Append(a: seq<Word>, b: seq<Word>)
    ensures Concat4(a + b) == Concat4(a) + Concat4(b)
    decreases |b|
  {
    if b != [] {
      var b' := b[..|b| - 1];
      Concat4Append(a, b');
      assert (a + b)[..|a + b| - 1] == a + b';
    } else {
      assert a + b == a;
    }
  }
}
