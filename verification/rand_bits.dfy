/**
 * getrandbits(bits) of the Python wrapper: as many whole 32-bit words as fit,
 * then at most one 16-, 8-, 4-, 2- and 1-bit piece, each piece the low bits of
 * a fresh word, shifted in below what came before.
 */
module RandBits {
  import opened Words
  import opened Generator

  function Pow2(k: nat): (p: nat)
    ensures p >= 1
  {
    if k == 0 then 1 else 2 * Pow2(k - 1)
  }

  lemma {:induction false} Pow2Add(a: nat, b: nat)
    ensures Pow2(a + b) == Pow2(a) * Pow2(b)
    decreases a
  {
    if a > 0 {
      Pow2Add(a - 1, b);
    }
  }

  /** The shift amounts and masks the source writes as literals. */
  lemma Pow2Literals()
    ensures Pow2(1) == 2 && Pow2(2) == 4 && Pow2(4) == 0x10 && Pow2(8) == 0x100
    ensures Pow2(16) == 0x1_0000 && Pow2(32) == 0x1_0000_0000
  {
    Pow2Add(1, 1);
    Pow2Add(2, 2);
    Pow2Add(4, 4);
    Pow2Add(8, 8);
    Pow2Add(16, 16);
  }

  function Sum(ks: seq<nat>): nat {
    if ks == [] then 0 else ks[0] + Sum(ks[1..])
  }

  lemma {:induction false} SumAppend(a: seq<nat>, b: seq<nat>)
    ensures Sum(a + b) == Sum(a) + Sum(b)
    decreases |a|
  {
    if a == [] {
      assert a + b == b;
    } else {
      assert (a + b)[1..] == a[1..] + b;
      SumAppend(a[1..], b);
    }
  }

  /** The number of one bits of r. */
  function Popcount(r: nat): nat {
    if r == 0 then 0 else r % 2 + Popcount(r / 2)
  }

  /** Clearing the top bit 2^(e-1) of an e-bit number removes one set bit. */
  lemma {:induction false} PopcountTop(r: nat, e: nat)
    requires 1 <= e && Pow2(e - 1) <= r < Pow2(e)
    ensures Popcount(r) == 1 + Popcount(r - Pow2(e - 1))
    decreases e
  {
    if e > 1 {
      var h := Pow2(e - 2);
      assert Pow2(e - 1) == 2 * h;
      PopcountTop(r / 2, e - 1);
      var low := r - 2 * h;
      assert low % 2 == r % 2 && low / 2 == r / 2 - h;
    }
  }

  /**
   * The piece widths the width tests of getrandbits take when bits
   * is left below 2^e: widths 2^(e-1), ..., 2, 1, each at most once.
   */
  function TailPlan(bits: int, e: nat): seq<nat>
    decreases e
  {
    if e == 0 then []
    else if bits >= Pow2(e - 1) then [Pow2(e - 1)] + TailPlan(bits - Pow2(e - 1), e - 1)
    else TailPlan(bits, e - 1)
  }

  /** The widths of all pieces getrandbits(bits) reads, in reading order. */
  function Widths(bits: int): seq<nat>
    decreases if bits < 0 then 0 else bits
  {
    if bits >= 32 then [32] + Widths(bits - 32) else TailPlan(bits, 5)
  }

  /** The tail pieces of an e-bit remainder r are its set bits: they add up to r, one piece per bit. */
  lemma {:induction false} TailPlanBits(r: int, e: nat)
    requires 0 <= r < Pow2(e)
    ensures Sum(TailPlan(r, e)) == r
    ensures |TailPlan(r, e)| == Popcount(r)
    decreases e
  {
    if e > 0 {
      var h := Pow2(e - 1);
      assert Pow2(e) == 2 * h;
      if r >= h {
        TailPlanBits(r - h, e - 1);
        PopcountTop(r, e);
      } else {
        TailPlanBits(r, e - 1);
      }
    }
  }

  /** A non-positive remainder passes none of the tests. */
  lemma {:induction false} TailPlanNonPositive(bits: int, e: nat)
    requires bits <= 0
    ensures TailPlan(bits, e) == []
    decreases e
  {
    if e > 0 {
      TailPlanNonPositive(bits, e - 1);
    }
  }

  /**
   * getrandbits(bits) reads bits / 32 whole words and then one word per set
   * bit of bits % 32, and the widths of what it keeps add up to bits; for
   * bits <= 0 it reads nothing.
   */
  lemma {:induction false} WidthsCount(bits: int)
    ensures bits <= 0 ==> Widths(bits) == []
    ensures bits >= 0 ==> Sum(Widths(bits)) == bits
    ensures bits >= 0 ==> |Widths(bits)| == bits / 32 + Popcount(bits % 32)
    decreases if bits < 0 then 0 else bits
  {
    if bits >= 32 {
      var rest := Widths(bits - 32);
      WidthsCount(bits - 32);
      assert Widths(bits) == [32] + rest;
      assert ([32] + rest)[1..] == rest;
      assert (bits - 32) / 32 == bits / 32 - 1 && (bits - 32) % 32 == bits % 32;
    } else if bits <= 0 {
      TailPlanNonPositive(bits, 5);
    } else {
      assert Pow2(5) == 32;
      TailPlanBits(bits, 5);
      assert bits / 32 == 0 && bits % 32 == bits;
    }
  }

  /**
   * The piece a word contributes at width k: its k low bits. The source masks
   * with 2^k - 1 (0xFFFF, 0xFF, 0xF, 0x3, 1), which on a non-negative integer
   * is the remainder modulo 2^k; a 32-bit piece is the word unmasked.
   */
  function Chunk(w: Word, k: nat): (c: nat)
    ensures c < Pow2(k)
  {
    w as nat % Pow2(k)
  }

  /** A whole-word piece is the word itself. */
  lemma ChunkWhole(w: Word)
    ensures Chunk(w, 32) == w as nat
  {
    Pow2Literals();
    assert w as nat < 0x1_0000_0000;
    DivModUnique(w as nat, 0, w as nat, Pow2(32));
  }

  /**
   * The value built from pieces, by position: the first piece sits above all
   * later ones, shifted left by the sum of their widths.
   */
  function Assemble(ws: seq<Word>, ks: seq<nat>): nat
    requires |ws| == |ks|
  {
    if ws == [] then 0 else Chunk(ws[0], ks[0]) * Pow2(Sum(ks[1..])) + Assemble(ws[1..], ks[1..])
  }

  /** The assembled value fits in as many bits as the widths add up to. */
  lemma {:induction false} AssembleBound(ws: seq<Word>, ks: seq<nat>)
    requires |ws| == |ks|
    ensures Assemble(ws, ks) < Pow2(Sum(ks))
    decreases |ws|
  {
    if ws != [] {
      var c, p, a := Chunk(ws[0], ks[0]), Pow2(Sum(ks[1..])), Assemble(ws[1..], ks[1..]);
      AssembleBound(ws[1..], ks[1..]);
      Pow2Add(ks[0], Sum(ks[1..]));
      TopPieceBound(c, a, p, Pow2(ks[0]));
    }
  }

  lemma TopPieceBound(c: nat, a: nat, p: nat, q: nat)
    requires c < q && a < p
    ensures c * p + a < q * p
  {
    MulLe(c + 1, q, p);
  }

  lemma MulLe(a: nat, b: nat, p: nat)
    requires a <= b
    ensures a * p <= b * p
  {
  }

  /** Dividing c * p + a with a < p by p gives back c, remainder a. */
  lemma DivModUnique(x: nat, c: nat, a: nat, p: nat)
    requires x == c * p + a && a < p
    ensures x / p == c && x % p == a
  {
    var q, r := x / p, x % p;
    assert x == q * p + r;
    if q < c {
      MulLe(q + 1, c, p);
      assert false;
    } else if q > c {
      MulLe(c + 1, q, p);
      assert false;
    }
  }

  /**
   * The value decodes back into its pieces: the bits above the later pieces
   * are the first piece, and the bits below them are the rest assembled.
   */
  lemma AssemblePeel(ws: seq<Word>, ks: seq<nat>)
    requires |ws| == |ks| && ws != []
    ensures Assemble(ws, ks) / Pow2(Sum(ks[1..])) == Chunk(ws[0], ks[0])
    ensures Assemble(ws, ks) % Pow2(Sum(ks[1..])) == Assemble(ws[1..], ks[1..])
  {
    AssembleBound(ws[1..], ks[1..]);
    DivModUnique(Assemble(ws, ks), Chunk(ws[0], ks[0]), Assemble(ws[1..], ks[1..]), Pow2(Sum(ks[1..])));
  }

  /** Shifting the value left by k and putting a k-bit piece below is appending that piece. */
  lemma {:induction false} AssembleSnoc(ws: seq<Word>, ks: seq<nat>, w: Word, k: nat)
    requires |ws| == |ks|
    ensures Assemble(ws + [w], ks + [k]) == Assemble(ws, ks) * Pow2(k) + Chunk(w, k)
    decreases |ws|
  {
    if ws == [] {
      assert ([] + [w])[1..] == [] && ([] + [k])[1..] == [];
    } else {
      var ws', ks' := ws + [w], ks + [k];
      assert ws'[1..] == ws[1..] + [w] && ks'[1..] == ks[1..] + [k];
      AssembleSnoc(ws[1..], ks[1..], w, k);
      SumAppend(ks[1..], [k]);
      Pow2Add(Sum(ks[1..]), k);
      ShiftBelow(Chunk(ws[0], ks[0]), Pow2(Sum(ks[1..])), Assemble(ws[1..], ks[1..]), Pow2(k));
    }
  }

  lemma ShiftBelow(c: nat, p: nat, a: nat, q: nat)
    ensures c * (p * q) + a * q == (c * p + a) * q
  {
  }


  /** The generator and the value after reading the pieces of widths ks, in order. */
  predicate Reached(g0: Gen, isaac: Step, g: Gen, v: nat, ks: seq<nat>) {
    g == After(g0, isaac, |ks|) && v == Assemble(Draws(g0, isaac, |ks|), ks)
  }

  /**
   * One shift-and-OR step of getrandbits at width k: the value moves up by k
   * bits and the k low bits of a fresh word fill the gap (a whole word for
   * k = 32). The pieces read so far grow by one piece of width k.
   */
  method Take(g0: Gen, isaac: Step, g: Gen, v: nat, ghost ks: seq<nat>, k: nat) returns (g': Gen, v': nat)
    requires Reached(g0, isaac, g, v, ks)
    ensures Reached(g0, isaac, g', v', ks + [k])
  {
    DrawOneMore(g0, isaac, |ks|);
    AssembleSnoc(Draws(g0, isaac, |ks|), ks, Rand(g, isaac).word, k);
    var out := Rand(g, isaac);
    g' := out.gen;
    v' := v * Pow2(k) + Chunk(out.word, k);
  }

  /**
   * Partway through the width tests: the tests from width 2^(e-1) down still
   * have the tail plan of bits to read, that plan is a suffix of the whole
   * plan, and everything before it has been read.
   */
  predicate OnPlan(g0: Gen, isaac: Step, g: Gen, v: nat, bits: int, e: nat, plan: seq<nat>) {
    var rest := TailPlan(bits, e);
    |rest| <= |plan| && plan[..|plan| - |rest|] + rest == plan
    && Reached(g0, isaac, g, v, plan[..|plan| - |rest|])
  }

  /**
   * One of the width tests of getrandbits, for width k = 2^(e-1): when bits is
   * at least k, one word is read, its k low bits are shifted in and bits
   * drops by k. Before and after, the pieces still to come are a suffix of
   * the plan and everything before that suffix has been read.
   */
  method Piece(g0: Gen, isaac: Step, g: Gen, v: nat, bits: int, ghost plan: seq<nat>, e: nat)
      returns (g': Gen, v': nat, bits': int)
    requires e >= 1 && OnPlan(g0, isaac, g, v, bits, e, plan)
    ensures OnPlan(g0, isaac, g', v', bits', e - 1, plan)
  {
    var k := Pow2(e - 1);
    ghost var done := plan[..|plan| - |TailPlan(bits, e)|];
    if bits >= k {
      var rest := TailPlan(bits - k, e - 1);
      assert done + [k] + rest == plan;
      assert plan[..|plan| - |rest|] == done + [k];
      g', v' := Take(g0, isaac, g, v, done, k);
      bits' := bits - k;
    } else {
      g', v', bits' := g, v, bits;
    }
  }

  /** One turn of the whole-word loop moves a 32 from the plan to the pieces read. */
  lemma WordStep(ks: seq<nat>, bits: int, plan: seq<nat>)
    requires bits >= 32 && ks + Widths(bits) == plan
    ensures (ks + [32]) + Widths(bits - 32) == plan
  {
    assert ks + Widths(bits) == (ks + [32]) + Widths(bits - 32);
  }

  /**
   * The whole-word loop of getrandbits: while 32 or more bits remain, one
   * word goes in whole. What is left of the plan is the tail plan of the
   * remaining bits.
   */
  method WholeWordLoop(g: Gen, isaac: Step, bits0: int) returns (g': Gen, v: nat, bits: int, ghost ks: seq<nat>)
    ensures bits < 32 && ks + TailPlan(bits, 5) == Widths(bits0)
    ensures Reached(g, isaac, g', v, ks)
  {
    g', v := g, 0;
    bits := bits0;
    ks := [];
    while bits >= 32
      invariant ks + Widths(bits) == Widths(bits0)
      invariant Reached(g, isaac, g', v, ks)
      decreases bits
    {
      WordStep(ks, bits, Widths(bits0));
      g', v := Take(g, isaac, g', v, ks, 32);
      ks := ks + [32];
      bits := bits - 32;
    }
  }

  /** The five tests for 16, 8, 4, 2 and 1 bits (Pow2(4), ..., Pow2(0)): they read the rest of the plan. */
  method TailPieces(g0: Gen, isaac: Step, g: Gen, v: nat, bits: int, ghost plan: seq<nat>) returns (g': Gen, v': nat)
    requires OnPlan(g0, isaac, g, v, bits, 5, plan)
    ensures Reached(g0, isaac, g', v', plan)
  {
    var b := bits;
    g', v' := g, v;
    g', v', b := Piece(g0, isaac, g', v', b, plan, 5);  // bits >= 16
    g', v', b := Piece(g0, isaac, g', v', b, plan, 4);  // bits >= 8
    g', v', b := Piece(g0, isaac, g', v', b, plan, 3);  // bits >= 4
    g', v', b := Piece(g0, isaac, g', v', b, plan, 2);  // bits >= 2
    g', v', b := Piece(g0, isaac, g', v', b, plan, 1);  // bits >= 1
    assert plan[..|plan| - |TailPlan(b, 0)|] == plan;
  }

  /** getrandbits(bits): the whole-word loop, then the five width tests. */
  method GetRandBits(g: Gen, isaac: Step, bits0: int) returns (g': Gen, v: nat)
    ensures g' == After(g, isaac, |Widths(bits0)|)
    ensures v == Assemble(Draws(g, isaac, |Widths(bits0)|), Widths(bits0))
  {
    var g1, v1, bits, ks := WholeWordLoop(g, isaac, bits0);
    ghost var plan := Widths(bits0);
    assert plan[..|plan| - |TailPlan(bits, 5)|] == ks;
    g', v := TailPieces(g, isaac, g1, v1, bits, plan);
  }

  /**
   * What getrandbits(bits) returns fits in bits bits; for bits <= 0 it is 0
   * and no word is read.
   */
  lemma GetRandBitsRange(g: Gen, isaac: Step, bits: int)
    ensures Assemble(Draws(g, isaac, |Widths(bits)|), Widths(bits)) < Pow2(if bits > 0 then bits else 0)
    ensures bits <= 0 ==> After(g, isaac, |Widths(bits)|) == g && Assemble(Draws(g, isaac, |Widths(bits)|), Widths(bits)) == 0
  {
    WidthsCount(bits);
    AssembleBound(Draws(g, isaac, |Widths(bits)|), Widths(bits));
  }

  /**
   * The first word getrandbits(bits) reads, for bits >= 32, is the top 32
   * bits of the result: dividing by 2^(bits - 32) gives it back.
   */
  lemma FirstWordOnTop(g: Gen, isaac: Step, bits: int)
    requires bits >= 32
    ensures var ks := Widths(bits);
            Assemble(Draws(g, isaac, |ks|), ks) / Pow2(bits - 32) == Draws(g, isaac, |ks|)[0] as nat
  {
    var ks := Widths(bits);
    WidthsCount(bits - 32);
    assert ks == [32] + Widths(bits - 32) && ks[1..] == Widths(bits - 32);
    AssemblePeel(Draws(g, isaac, |ks|), ks);
    ChunkWhole(Draws(g, isaac, |ks|)[0]);
  }
}
