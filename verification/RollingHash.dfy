/** The rolling hash of the delta encoder: a polynomial in 239 modulo 2^32, where the hash of a window
    is the hash of everything less the shifted hash of what lies before it. */
module RollingHash {
  import opened Bytes

  const K := 239

  /** The polynomial itself, before reduction. */
  ghost function Poly(s: seq<Byte>): nat {
    if s == [] then 0 else Poly(s[..|s| - 1]) * K + s[|s| - 1] as int
  }

  ghost function Hash(s: seq<Byte>): (h: nat)
    ensures h < WORD
  {
    Wrap(Poly(s))
  }

  ghost function Power(n: nat): nat {
    if n == 0 then 1 else Power(n - 1) * K
  }

  lemma {:induction false} PolyConcat(a: seq<Byte>, w: seq<Byte>)
    ensures Poly(a + w) == Poly(a) * Power(|w|) + Poly(w)
    decreases |w|
  {
    if w == [] {
      assert a + w == a;
    } else {
      var front, last := w[..|w| - 1], w[|w| - 1];
      PolyConcat(a, front);
      assert (a + w)[..|a + w| - 1] == a + front;
      Distribute(Poly(a), Power(|front|), Poly(front), last as int);
    }
  }

  lemma Distribute(x: nat, p: nat, y: nat, b: int)
    ensures (x * p + y) * K + b == x * (p * K) + (y * K + b)
  {
  }

  // ----- arithmetic modulo 2^32 -----

  lemma WrapAdd(n: int, q: int)
    ensures Wrap(n + q * WORD) == Wrap(n)
  {
  }

  lemma WrapStep(x: int, b: int)
    ensures Wrap(Wrap(Wrap(x) * K) + b) == Wrap(x * K + b)
  {
    var y := Wrap(x) * K;
    WrapAdd(y + b, -(y / WORD));
    assert y + b + -(y / WORD) * WORD == Wrap(y) + b;
    WrapAdd(y + b, x / WORD * K);
    assert y + b + x / WORD * K * WORD == x * K + b;
  }

  lemma WrapSub(x: int, y: int, p: int)
    ensures Wrap(Wrap(x) - Wrap(Wrap(y) * Wrap(p))) == Wrap(x - y * p)
  {
    var a, b := y / WORD, p / WORD;
    var z := Wrap(y) * Wrap(p);
    WrapAdd(Wrap(x) - z, z / WORD);
    assert Wrap(x) - z + z / WORD * WORD == Wrap(x) - Wrap(z);
    Expand(Wrap(y), a, Wrap(p), b);
    var c := a * p + Wrap(y) * b;
    WrapAdd(x - y * p, c - x / WORD);
    assert x - y * p + (c - x / WORD) * WORD == Wrap(x) - z;
  }

  lemma Expand(r: int, a: int, s: int, b: int)
    ensures (r + a * WORD) * (s + b * WORD) == r * s + (a * (s + b * WORD) + r * b) * WORD
  {
  }

  // ----- the three facts the encoder uses -----

  lemma HashStep(s: seq<Byte>, b: Byte)
    ensures Hash(s + [b]) == Wrap(Wrap(Hash(s) * K) + b as int)
  {
    assert (s + [b])[..|s|] == s;
    WrapStep(Poly(s), b as int);
  }

  /** The hash of the window w, from the hashes of everything and of what lies before it. */
  lemma WindowHash(a: seq<Byte>, w: seq<Byte>)
    ensures Hash(w) == Wrap(Hash(a + w) - Wrap(Hash(a) * Wrap(Power(|w|))))
  {
    hide Poly, Power, Wrap;
    PolyConcat(a, w);
    WrapSub(Poly(a + w), Poly(a), Power(|w|));
  }

  /** dhashmul: K to the power of the block size, wrapped at every step. */
  method PowerOfK(n: nat) returns (p: nat)
    ensures p == Wrap(Power(n))
  {
    p := 1;
    var i := n;
    while i > 0
      invariant 0 <= i <= n && p == Wrap(Power(n - i))
    {
      WrapStep(Power(n - i), 0);
      p := Wrap(p * K);
      i := i - 1;
    }
  }
}
