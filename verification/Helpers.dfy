/** Small things that several modules need. */
module Helpers {

  function Min(x: int, y: int): (m: int)
    ensures m == x || m == y
  {
    if x < y then x else y
  }

  function Max(x: int, y: int): (m: int)
    ensures m == x || m == y
  {
    if x < y then y else x
  }

  /** Behind the same front, equal sequences have equal tails. */
  lemma SameFront<T>(p: seq<T>, x: seq<T>, y: seq<T>)
    ensures p + x == p + y <==> x == y
  {
    assert (p + x)[|p|..] == x && (p + y)[|p|..] == y;
  }
}
