/**
 * The word cursor of the binding: the REFILL macro and isaac_rand.
 *
 * The ISAAC mixing step isaac() and the initialiser randinit() live in rand.c,
 * which is not part of this model. Both enter as parameters: a Step maps the
 * mixing state to its successor and the 256-word block it writes into randrsl.
 * Every consumer is then specified against the abstract word stream that a
 * Step produces.
 */
module Generator {
  import opened Words
  import SeedPacking

  /** The fields randmem, randa, randb and randc of randctx: touched only by the mixing step. */
  datatype MixState = MixState(randmem: seq<Word>, randa: Word, randb: Word, randc: Word)

  /** isaac(): the next mixing state and the block it writes into randrsl. */
  type Step = MixState -> (MixState, Block)

  /** A generator: randcnt, randrsl and the mixing state. */
  datatype Gen = Gen(cnt: Cursor, rsl: Block, mix: MixState)

  /** A generator together with the word one read returned. */
  datatype WordOut = WordOut(gen: Gen, word: Word)

  /** REFILL: run the mixing step exactly when the block is exhausted, then mark it full. */
  function Refill(g: Gen, isaac: Step): (r: Gen)
    ensures r.cnt > 0
    ensures g.cnt != 0 ==> r == g
    ensures g.cnt == 0 ==> r.cnt == RANDSIZ && (r.mix, r.rsl) == isaac(g.mix)
  {
    if g.cnt == 0 then
      var (mix', rsl') := isaac(g.mix);
      Gen(RANDSIZ, rsl', mix')
    else
      g
  }

  /** isaac_rand: REFILL, then return randrsl[--randcnt]. */
  function Rand(g: Gen, isaac: Step): (r: WordOut)
    ensures r.gen.cnt < RANDSIZ && r.word == r.gen.rsl[r.gen.cnt]
    ensures g.cnt > 0 ==> r.gen == g.(cnt := g.cnt - 1)
    ensures g.cnt == 0 ==> r.gen == Gen(RANDSIZ - 1, isaac(g.mix).1, isaac(g.mix).0)
  {
    var f := Refill(g, isaac);
    var g' := f.(cnt := f.cnt - 1);
    WordOut(g', g'.rsl[g'.cnt])
  }

  /** The generator after n successive calls of isaac_rand. */
  function After(g: Gen, isaac: Step, n: nat): Gen
    decreases n
  {
    if n == 0 then g else After(Rand(g, isaac).gen, isaac, n - 1)
  }

  /** The words n successive calls of isaac_rand return, first call first. */
  function Draws(g: Gen, isaac: Step, n: nat): (ws: seq<Word>)
    ensures |ws| == n
    decreases n
  {
    if n == 0 then [] else [Rand(g, isaac).word] + Draws(Rand(g, isaac).gen, isaac, n - 1)
  }

  /** The mixing state after k further mixing steps. */
  function Advance(isaac: Step, m: MixState, k: nat): MixState
    decreases k
  {
    if k == 0 then m else Advance(isaac, isaac(m).0, k - 1)
  }

  /** The block written by the (k+1)-th mixing step from m. */
  function BlockAt(isaac: Step, m: MixState, k: nat): Block {
    isaac(Advance(isaac, m, k)).1
  }

  /**
   * Word j of the stream a generator yields, in closed form: first the unread
   * words of the current block from the top down, then every later block from
   * its top word down to its word 0.
   */
  function StreamWord(g: Gen, isaac: Step, j: nat): Word {
    if j < g.cnt then g.rsl[g.cnt - 1 - j]
    else
      var t := j - g.cnt;
      BlockAt(isaac, g.mix, t / RANDSIZ)[RANDSIZ - 1 - t % RANDSIZ]
  }

  /** How many mixing steps n reads run, starting with cnt unread words. */
  function Refills(cnt: nat, n: nat): nat {
    if n <= cnt then 0 else (n - cnt - 1) / RANDSIZ + 1
  }

  /** randcnt after n reads, starting with cnt unread words. */
  function CursorAfter(cnt: Cursor, n: nat): Cursor {
    if n <= cnt then cnt - n else RANDSIZ - 1 - (n - cnt - 1) % RANDSIZ
  }

  /** One read shifts the stream by one word. */
  lemma StreamShift(g: Gen, isaac: Step, j: nat)
    ensures StreamWord(g, isaac, j + 1) == StreamWord(Rand(g, isaac).gen, isaac, j)
  {
    var g' := Rand(g, isaac).gen;
    if g.cnt == 0 && j >= RANDSIZ - 1 {
      var t := j + 1;
      var t' := j - (RANDSIZ - 1);
      assert t / RANDSIZ == t' / RANDSIZ + 1 && t % RANDSIZ == t' % RANDSIZ;
      assert Advance(isaac, g.mix, t / RANDSIZ) == Advance(isaac, g'.mix, t' / RANDSIZ);
    }
  }

  /** The counters of one read, for the closed forms Refills and CursorAfter. */
  lemma CountersShift(cnt: Cursor, n: nat)
    ensures cnt > 0 ==> Refills(cnt, n + 1) == Refills(cnt - 1, n)
    ensures cnt > 0 ==> CursorAfter(cnt, n + 1) == CursorAfter(cnt - 1, n)
    ensures cnt == 0 ==> Refills(cnt, n + 1) == 1 + Refills(RANDSIZ - 1, n)
    ensures cnt == 0 ==> CursorAfter(cnt, n + 1) == CursorAfter(RANDSIZ - 1, n)
  {
    if cnt == 0 && n > RANDSIZ - 1 {
      assert (n - RANDSIZ) / RANDSIZ + 1 == n / RANDSIZ;
      assert (n - RANDSIZ) % RANDSIZ == n % RANDSIZ;
    }
  }

  /** n reads return the first n words of the closed-form stream. */
  lemma {:induction false} DrawsFollowStream(g: Gen, isaac: Step, n: nat)
    ensures forall j :: 0 <= j < n ==> Draws(g, isaac, n)[j] == StreamWord(g, isaac, j)
    decreases n
  {
    if n > 0 {
      var first := Rand(g, isaac);
      DrawsFollowStream(first.gen, isaac, n - 1);
      forall j | 0 <= j < n
        ensures Draws(g, isaac, n)[j] == StreamWord(g, isaac, j)
      {
        if j > 0 {
          StreamShift(g, isaac, j - 1);
        }
      }
    }
  }

  /** n reads run exactly Refills mixing steps and leave the cursor at CursorAfter. */
  lemma {:induction false} AfterClosedForm(g: Gen, isaac: Step, n: nat)
    ensures After(g, isaac, n).mix == Advance(isaac, g.mix, Refills(g.cnt, n))
    ensures After(g, isaac, n).cnt == CursorAfter(g.cnt, n)
    decreases n
  {
    if n > 0 {
      AfterClosedForm(Rand(g, isaac).gen, isaac, n - 1);
      CountersShift(g.cnt, n - 1);
    }
  }

  /** Reading a+b words ends where reading a words and then b more ends. */
  lemma {:induction false} AfterAppend(g: Gen, isaac: Step, a: nat, b: nat)
    ensures After(g, isaac, a + b) == After(After(g, isaac, a), isaac, b)
    decreases a
  {
    if a > 0 {
      AfterAppend(Rand(g, isaac).gen, isaac, a - 1, b);
    }
  }

  /** Reading a+b words returns the a words, then the b words read from where they left off. */
  lemma {:induction false} DrawsAppend(g: Gen, isaac: Step, a: nat, b: nat)
    ensures Draws(g, isaac, a + b) == Draws(g, isaac, a) + Draws(After(g, isaac, a), isaac, b)
    decreases a
  {
    if a > 0 {
      var out := Rand(g, isaac);
      DrawsAppend(out.gen, isaac, a - 1, b);
      assert Draws(g, isaac, a + b) == [out.word] + Draws(out.gen, isaac, a - 1 + b);
      assert Draws(g, isaac, a) == [out.word] + Draws(out.gen, isaac, a - 1);
      assert After(g, isaac, a) == After(out.gen, isaac, a - 1);
    }
  }

  /** One more read extends the words read so far by the word it returns. */
  lemma DrawOneMore(g: Gen, isaac: Step, k: nat)
    ensures After(g, isaac, k + 1) == Rand(After(g, isaac, k), isaac).gen
    ensures Draws(g, isaac, k + 1) == Draws(g, isaac, k) + [Rand(After(g, isaac, k), isaac).word]
  {
    AfterAppend(g, isaac, k, 1);
    DrawsAppend(g, isaac, k, 1);
  }

  /**
   * After a refill, 256 reads return the block from randrsl[255] down to
   * randrsl[0] and leave it exhausted; the 257th read runs exactly one further
   * mixing step and returns the top word of the new block.
   */
  lemma FreshBlockOrder(g: Gen, isaac: Step)
    requires g.cnt == RANDSIZ
    ensures forall j :: 0 <= j < RANDSIZ ==> Draws(g, isaac, RANDSIZ)[j] == g.rsl[RANDSIZ - 1 - j]
    ensures After(g, isaac, RANDSIZ) == g.(cnt := 0)
    ensures After(g, isaac, RANDSIZ + 1).mix == isaac(g.mix).0
    ensures After(g, isaac, RANDSIZ + 1).rsl == isaac(g.mix).1
    ensures Draws(g, isaac, RANDSIZ + 1)[RANDSIZ] == isaac(g.mix).1[RANDSIZ - 1]
  {
    DrawsFollowStream(g, isaac, RANDSIZ);
    DrawsFollowStream(g, isaac, RANDSIZ + 1);
    AfterClosedForm(g, isaac, RANDSIZ);
    AfterRsl(g, isaac, RANDSIZ);
    AfterAppend(g, isaac, RANDSIZ, 1);
    assert After(g.(cnt := 0), isaac, 1) == Rand(g.(cnt := 0), isaac).gen;
  }

  /** While no refill happens, reads leave randrsl alone. */
  lemma {:induction false} AfterRsl(g: Gen, isaac: Step, n: nat)
    requires n <= g.cnt
    ensures After(g, isaac, n).rsl == g.rsl
    decreases n
  {
    if n > 0 {
      AfterRsl(Rand(g, isaac).gen, isaac, n - 1);
    }
  }

  /** isaac_init: pack the seed into randrsl as the loop does, then hand it to randinit. */
  function Seeded(seed: seq<Byte>, signedChar: bool, randinit: Block -> Gen): Gen {
    randinit(SeedPacking.PackSeedAsWritten(seed, signedChar))
  }

  /**
   * Where char is unsigned, or no seed byte reaches 0x80, isaac_init hands
   * randinit the intended packing of the seed.
   */
  lemma SeededIntended(seed: seq<Byte>, signedChar: bool, randinit: Block -> Gen)
    requires !signedChar || forall k :: 0 <= k < |seed| ==> seed[k] < 0x80
    ensures Seeded(seed, signedChar, randinit) == randinit(SeedPacking.PackSeed(seed))
  {
    SeedPacking.AsWrittenAgreesBelow0x80(seed, signedChar);
  }

  /**
   * Seeds whose zero-padded first SEEDBYTES bytes agree yield the same stream
   * of words, whatever follows them and whatever the signedness of char.
   */
  lemma SeededStreamsAgree(s1: seq<Byte>, s2: seq<Byte>, signedChar: bool, randinit: Block -> Gen, isaac: Step, n: nat)
    requires SeedPacking.Pad(s1) == SeedPacking.Pad(s2)
    ensures Draws(Seeded(s1, signedChar, randinit), isaac, n) == Draws(Seeded(s2, signedChar, randinit), isaac, n)
    ensures After(Seeded(s1, signedChar, randinit), isaac, n) == After(Seeded(s2, signedChar, randinit), isaac, n)
  {
    SeedPacking.PackSeedAsWrittenPadded(s1, s2, signedChar);
  }

  /**
   * With a signed char, the different seeds 0x80 and 0x80 0xFF 0xFF 0xFF seed
   * the same generator, so every stream drawn from them is the same.
   */
  lemma SignedSeedsCollide(randinit: Block -> Gen, isaac: Step, n: nat)
    ensures SeedPacking.Pad([0x80]) != SeedPacking.Pad([0x80, 0xFF, 0xFF, 0xFF])
    ensures Draws(Seeded([0x80], true, randinit), isaac, n) == Draws(Seeded([0x80, 0xFF, 0xFF, 0xFF], true, randinit), isaac, n)
  {
    SeedPacking.SignExtensionCounterexample();
  }
}
