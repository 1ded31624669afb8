/** Powers of two and one-bits, for the tree shapes of BLAKE3. */
module Blake3Bits {

  function Pow2(k: nat): (p: nat)
    ensures p > 0
  {
    if k == 0 then 1 else 2 * Pow2(k - 1)
  }

  ghost predicate IsPow2(n: int) {
    exists k: nat :: n == Pow2(k)
  }

  /** Number of one-bits. */
  function PopCount(n: nat): nat {
    if n == 0 then 0 else n % 2 + PopCount(n / 2)
  }

  lemma {:induction false} Pow2Add(j: nat, k: nat)
    ensures Pow2(j + k) == Pow2(j) * Pow2(k)
    decreases k
  {
    if k > 0 {
      Pow2Add(j, k - 1);
    }
  }

  lemma {:induction false} Pow2Monotone(j: nat, k: nat)
    ensures j < k ==> 2 * Pow2(j) <= Pow2(k)
    ensures j <= k ==> Pow2(j) <= Pow2(k)
    decreases k
  {
    if j < k {
      Pow2Monotone(j, k - 1);
    }
  }

  /** Two powers of two, one below the other, differ at least by a factor of two. */
  lemma Pow2Gap(a: int, b: int)
    requires IsPow2(a) && IsPow2(b) && a < b
    ensures 2 * a <= b
  {
    var j: nat :| a == Pow2(j);
    var k: nat :| b == Pow2(k);
    Pow2Monotone(k, j);
    Pow2Monotone(j, k);
  }

  lemma Pow2Double(a: int)
    requires IsPow2(a)
    ensures IsPow2(2 * a) && a > 0
  {
    var k: nat :| a == Pow2(k);
    assert 2 * a == Pow2(k + 1);
  }

  lemma Pow2Half(a: int)
    requires IsPow2(a) && 1 < a
    ensures IsPow2(a / 2) && a % 2 == 0
  {
    var k: nat :| a == Pow2(k);
    assert a / 2 == Pow2(k - 1);
  }

  lemma Pow2One()
    ensures IsPow2(1) && IsPow2(2)
  {
    assert 1 == Pow2(0) && 2 == Pow2(1);
  }

  /** Bitwise and of two words. */
  function BitAnd(x: nat, y: nat): nat {
    if x == 0 || y == 0 then 0 else (if x % 2 == 1 && y % 2 == 1 then 1 else 0) + 2 * BitAnd(x / 2, y / 2)
  }

  lemma {:induction false} AndSelf(x: nat)
    ensures BitAnd(x, x) == x
  {
    if x > 0 {
      AndSelf(x / 2);
    }
  }

  /** Clearing the lowest one-bit. */
  lemma {:induction false} ClearLowest(x: nat)
    requires x > 0
    ensures BitAnd(x, x - 1) < x && PopCount(x) == PopCount(BitAnd(x, x - 1)) + 1
  {
    if x % 2 == 1 {
      AndSelf(x / 2);
      assert (x - 1) / 2 == x / 2;
    } else {
      ClearLowest(x / 2);
      assert (x - 1) / 2 == x / 2 - 1;
      assert BitAnd(x, x - 1) == 2 * BitAnd(x / 2, x / 2 - 1);
    }
  }

  /** popcnt: clears the lowest one-bit until none is left. */
  method PopCnt(x0: nat) returns (count: nat)
    ensures count == PopCount(x0)
  {
    count := 0;
    var x := x0;
    while x != 0
      invariant count + PopCount(x) == PopCount(x0)
    {
      count := count + 1;
      ClearLowest(x);
      x := BitAnd(x, x - 1);
    }
  }

  /** The k lowest bits of n are zero. */
  ghost predicate Divisible(n: nat, k: nat) {
    k == 0 || (n % 2 == 0 && Divisible(n / 2, k - 1))
  }

  /** Masking with a power of two less one tests divisibility. */
  lemma {:induction false} MaskIsDivisible(n: nat, k: nat)
    ensures BitAnd(Pow2(k) - 1, n) == 0 <==> Divisible(n, k)
  {
    if k > 0 {
      MaskIsDivisible(n / 2, k - 1);
      assert (Pow2(k) - 1) / 2 == Pow2(k - 1) - 1 && (Pow2(k) - 1) % 2 == 1;
      if n == 0 {
        ZeroDivisible(k);
      }
    }
  }

  lemma {:induction false} ZeroDivisible(k: nat)
    ensures Divisible(0, k)
  {
    if k > 0 {
      ZeroDivisible(k - 1);
    }
  }

  /** Lower powers divide as well. */
  lemma {:induction false} DivisibleLower(n: nat, j: nat, k: nat)
    requires Divisible(n, k) && j <= k
    ensures Divisible(n, j)
  {
    if j > 0 {
      DivisibleLower(n / 2, j - 1, k - 1);
    }
  }

  lemma {:induction false} DivisibleAdd(m: nat, n: nat, k: nat)
    requires Divisible(m, k)
    ensures Divisible(m + n, k) <==> Divisible(n, k)
  {
    if k > 0 {
      DivisibleAdd(m / 2, n / 2, k - 1);
    }
  }

  lemma {:induction false} Pow2Divisible(j: nat, k: nat)
    ensures Divisible(Pow2(j), k) <==> k <= j
  {
    if k > 0 {
      if j > 0 {
        Pow2Divisible(j - 1, k - 1);
      }
    }
  }

  /** Multiplying by 2^j shifts in j zero bits. */
  lemma {:induction false} DivisibleShift(n: nat, j: nat, k: nat)
    ensures Divisible(Pow2(j) * n, j + k) <==> Divisible(n, k)
    decreases j
  {
    if j > 0 {
      DivisibleShift(n, j - 1, k);
      assert Pow2(j) * n == 2 * (Pow2(j - 1) * n);
    } else {
      assert Pow2(0) * n == n;
    }
  }

  /** A top bit above the rest counts for itself. */
  lemma {:induction false} PopCountTop(k: nat, r: nat)
    requires r < Pow2(k)
    ensures PopCount(Pow2(k) + r) == 1 + PopCount(r)
    decreases k
  {
    if k > 0 {
      PopCountTop(k - 1, r / 2);
      assert (Pow2(k) + r) / 2 == Pow2(k - 1) + r / 2 && (Pow2(k) + r) % 2 == r % 2;
    } else {
      assert PopCount(1) == 1 + PopCount(0);
    }
  }

  /** highest_one: binary search for the top bit of a nonzero 64-bit word. */
  method HighestOne(x0: nat) returns (c: nat)
    requires 0 < x0 < 0x1_0000_0000_0000_0000
    ensures Pow2(c) <= x0 < 2 * Pow2(c)
  {
    hide Pow2, Window;
    c := 0;
    var x := x0;
    SmallPowers();
    WindowEnds(x0, 0);
    if x >= 0x1_0000_0000 {
      Shift(x0, x, c, 32, x / 0x1_0000_0000);
      x, c := x / 0x1_0000_0000, c + 32;
    }
    if x >= 0x1_0000 {
      Shift(x0, x, c, 16, x / 0x1_0000);
      x, c := x / 0x1_0000, c + 16;
    }
    c := HighestOneShort(x0, x, c);
    WindowEnds(x0, c);
  }

  /** The last four steps of the search, on a word of 16 bits. */
  method HighestOneShort(ghost x0: nat, x1: nat, c1: nat) returns (c: nat)
    requires 0 < x1 < 0x1_0000 && Window(x0, x1, c1)
    ensures Window(x0, 1, c)
  {
    hide Pow2, Window;
    SmallPowers();
    var x := x1;
    c := c1;
    if x >= 0x100 {
      ShiftBy(x0, x, c, 8, 0x100, x / 0x100);
      x, c := x / 0x100, c + 8;
    }
    if x >= 0x10 {
      ShiftBy(x0, x, c, 4, 0x10, x / 0x10);
      x, c := x / 0x10, c + 4;
    }
    if x >= 4 {
      ShiftBy(x0, x, c, 2, 4, x / 4);
      x, c := x / 4, c + 2;
    }
    if x >= 2 {
      ShiftBy(x0, x, c, 1, 2, x / 2);
      x, c := x / 2, c + 1;
    }
  }

  /** x is what is left of x0 after shifting right by c. */
  ghost predicate Window(x0: nat, x: nat, c: nat) {
    Pow2(c) * x <= x0 < Pow2(c) * (x + 1)
  }

  lemma WindowEnds(x0: nat, c: nat)
    ensures Window(x0, x0, 0)
    ensures Window(x0, 1, c) ==> Pow2(c) <= x0 < 2 * Pow2(c)
  {
  }

  lemma SmallPowers()
    ensures Pow2(0) == 1 && Pow2(1) == 2 && Pow2(2) == 4 && Pow2(4) == 16
    ensures Pow2(8) == 0x100 && Pow2(16) == 0x1_0000 && Pow2(32) == 0x1_0000_0000
  {
    assert Pow2(4) == 16;
    hide Pow2;
    Pow2Add(4, 4);
    Pow2Add(8, 8);
    Pow2Add(16, 16);
  }

  /** Shifting right by k keeps the word inside the window of its top bits. */
  lemma Shift(x0: nat, x: nat, c: nat, k: nat, q: nat)
    requires Window(x0, x, c)
    requires Pow2(k) * q <= x < Pow2(k) * (q + 1)
    ensures Window(x0, q, c + k)
  {
    Pow2Add(c, k);
    var p, d := Pow2(c), Pow2(k);
    Scale(p, d * q, x);
    Scale(p, x + 1, d * (q + 1));
    Regroup(p, d, q);
    Regroup(p, d, q + 1);
  }

  lemma ShiftBy(x0: nat, x: nat, c: nat, k: nat, d: nat, q: nat)
    requires Window(x0, x, c) && d == Pow2(k) && d * q <= x < d * q + d
    ensures Window(x0, q, c + k)
  {
    hide Window, Pow2;
    Shift(x0, x, c, k, q);
  }

  lemma Scale(p: nat, a: int, b: int)
    requires a <= b
    ensures p * a <= p * b
  {
  }

  lemma Regroup(p: nat, d: nat, q: nat)
    ensures p * (d * q) == (p * d) * q
  {
  }

  lemma Pow2Even(c: nat)
    ensures c > 0 ==> Pow2(c) % 2 == 0
    ensures c == 0 ==> Pow2(c) == 1
  {
  }

  /** round_down_to_power_of_2: the largest power of two up to x, and 1 for 0. */
  method RoundDownToPowerOf2(x: nat) returns (p: nat)
    requires x < 0x1_0000_0000_0000_0000
    ensures IsPow2(p) && (if x == 0 then p == 1 else p <= x < 2 * p)
  {
    // Or in the lowest bit, which gives 0 a top bit and moves no other.
    var c := HighestOne(x + (1 - x % 2));
    p := Pow2(c);
    Pow2Even(c);
  }
}
