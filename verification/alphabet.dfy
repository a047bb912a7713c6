/**
 * random_string(N, allowable_characters) of the Python wrapper. Without an
 * alphabet it is the C random_string; with one, each of the N characters is
 * the alphabet entry at index rand() % len(alphabet), read in order.
 */
module Alphabet {
  import opened Words
  import opened Generator
  import ByteString

  datatype Option<T> = None | Some(value: T)

  /** The only failure of the alphabet branch: the remainder by an alphabet length of 0. */
  datatype Error = ZeroDivisionError

  datatype Result<T> = Success(value: T) | Failure(error: Error)

  /** The character a word selects: alphabet index word % len(alphabet). */
  function Pick(chars: seq<Byte>, w: Word): (c: Byte)
    requires |chars| > 0
    ensures c in chars
  {
    chars[w as int % |chars|]
  }

  /**
   * The list comprehension over range(N): one rand() per character, the
   * remainder taken after the word is read. An empty alphabet fails on the
   * first character, after that word was read; N <= 0 reads nothing.
   */
  method PickChars(g: Gen, isaac: Step, n: int, chars: seq<Byte>) returns (g': Gen, r: Result<seq<Byte>>)
    ensures n <= 0 ==> g' == g && r == Success([])
    ensures n > 0 && |chars| == 0 ==> g' == Rand(g, isaac).gen && r == Failure(ZeroDivisionError)
    ensures n > 0 && |chars| > 0 ==> g' == After(g, isaac, n) && r.Success? && |r.value| == n
    ensures n > 0 && |chars| > 0 ==>
              forall j :: 0 <= j < n ==> r.value[j] == Pick(chars, Draws(g, isaac, n)[j])
  {
    g' := g;
    var s: seq<Byte> := [];
    var i := 0;
    while i < n
      invariant 0 <= i <= (if n > 0 then n else 0)
      invariant |chars| == 0 ==> i == 0
      invariant g' == After(g, isaac, i) && |s| == i
      invariant forall j :: 0 <= j < i ==> |chars| > 0 && s[j] == Pick(chars, Draws(g, isaac, i)[j])
    {
      DrawOneMore(g, isaac, i);
      var out := Rand(g', isaac);
      g' := out.gen;
      if |chars| == 0 {
        return g', Failure(ZeroDivisionError);
      }
      s := s + [chars[out.word as int % |chars|]];
      i := i + 1;
    }
    r := Success(s);
  }

  /**
   * random_string(N, allowable_characters): None hands N to the C
   * random_string, which needs N >= 0; an alphabet goes through PickChars.
   */
  method RandomString(g: Gen, isaac: Step, n: int, allowable: Option<seq<Byte>>) returns (g': Gen, r: Result<seq<Byte>>)
    requires allowable.None? ==> n >= 0
    ensures allowable.None? ==>
              g' == After(g, isaac, ByteString.WordsConsumed(n))
              && r == Success(ByteString.Serialize(Draws(g, isaac, ByteString.WordsConsumed(n)), n))
    ensures allowable.Some? && n > 0 && |allowable.value| > 0 ==>
              g' == After(g, isaac, n) && r.Success? && |r.value| == n
              && forall j :: 0 <= j < n ==> r.value[j] in allowable.value
    ensures allowable.Some? && n > 0 && |allowable.value| > 0 ==>
              forall j :: 0 <= j < n ==> r.value[j] == Pick(allowable.value, Draws(g, isaac, n)[j])
    ensures allowable.Some? && n > 0 && |allowable.value| == 0 ==> g' == Rand(g, isaac).gen && r == Failure(ZeroDivisionError)
    ensures allowable.Some? && n <= 0 ==> g' == g && r == Success([])
  {
    match allowable {
      case None =>
        var s;
        g', s := ByteString.RandomString(g, isaac, n);
        r := Success(s);
      case Some(chars) =>
        g', r := PickChars(g, isaac, n, chars);
    }
  }
}
