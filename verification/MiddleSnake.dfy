/** The search loop of diff_bisect: two frontiers of furthest-reaching paths grow from opposite
    corners of the edit graph until they overlap.  The invariants below say that a frontier entry is
    always reachable at its cost (Sound) and that no point of a cheapest path is ever missed, in
    spite of the diagonals dropped at the borders (Covers); together they make the overlap optimal. */
module MiddleSnake {
  import opened Clocks
  import opened EditGraph

  /** Bookkeeping of one frontier: visited diagonals lo..hi and the two border offsets. */
  datatype Sweep = Sweep(lo: int, hi: int, kstart: nat, kend: nat)

  // ----- what a frontier knows -----

  /** Entries on visited diagonals are reachable with at most d edits; the others are untouched. */
  ghost predicate Sound<T>(a: seq<T>, b: seq<T>, s: seq<int>, off: int, lo: int, hi: int, d: int) {
    && 0 <= off + lo && off + hi < |s| && 0 <= off < |s| - 1
    && forall i :: 0 <= i < |s| ==>
         if lo <= i - off <= hi then s[i] >= 0 && s[i] >= i - off && Dist(a, b, s[i], s[i] - (i - off)) <= d
         else s[i] == if i == off + 1 then 0 else -1
  }

  /** The entry of diagonal x - y has come at least as far as (x, y). */
  ghost predicate Passed(s: seq<int>, off: int, sw: Sweep, x: int, y: int) {
    sw.lo <= x - y <= sw.hi && 0 <= off + x - y < |s| && x <= s[off + x - y]
  }

  /** No point of cost d on a cheapest path is ahead of the frontier. */
  ghost predicate Covers<T>(a: seq<T>, b: seq<T>, s: seq<int>, off: int, sw: Sweep, d: int) {
    forall x: nat, y: nat :: Live(a, b, x, y) && Dist(a, b, x, y) == d ==> Passed(s, off, sw, x, y)
  }

  /** State between two passes: all passes before d are complete. */
  ghost predicate Ready<T>(a: seq<T>, b: seq<T>, s: seq<int>, off: int, sw: Sweep, d: int) {
    && 0 <= d <= off && |s| == 2 * off
    && Sound(a, b, s, off, sw.lo, sw.hi, d - 1)
    && sw.kstart % 2 == 0 && sw.kend % 2 == 0
    && (d <= 1 ==> sw.kstart == 0 && sw.kend == 0)
    && (d == 0 ==> sw.lo == 0 && sw.hi == -1)
    && (d >= 1 ==> sw.lo <= 0 <= sw.hi && Covers(a, b, s, off, sw, d - 1))
    && (d >= 2 ==> sw.lo <= -1 && 1 <= sw.hi)
    && (d >= 1 ==> -d < sw.lo && sw.hi < d)
    && sw.lo - 1 <= -d + sw.kstart <= sw.hi + 1
    && sw.lo - 1 <= d - sw.kend <= sw.hi + 1
    && InBand(a, b, sw, d)
  }

  /** Cheapest paths stay inside the diagonals that are still examined. */
  ghost predicate InBand<T>(a: seq<T>, b: seq<T>, sw: Sweep, d: int) {
    forall x: nat, y: nat :: Live(a, b, x, y) && Dist(a, b, x, y) == d ==> -d + sw.kstart <= x - y <= d - sw.kend
  }

  /** The part of the state inside pass d that is only about diagonals; the pass began at k0. */
  ghost predicate SweepOk(sw: Sweep, d: int, k0: int, k: int) {
    && 0 <= d
    && sw.kstart % 2 == 0 && sw.kend % 2 == 0 && (k - d) % 2 == 0 && (k - k0) % 2 == 0
    && (d == 0 ==> k0 == 0 && sw.kstart == 0 && sw.kend == 0 && (k == k0 ==> sw.lo == 0 && sw.hi == -1))
    && (d == 1 ==> k0 == -1 && (k <= 1 ==> sw.kend == 0))
    && (d >= 1 ==> sw.lo <= 0 <= sw.hi)
    && (d >= 2 ==> sw.lo <= -1 && 1 <= sw.hi)
    && -d <= sw.lo && sw.hi <= d
    && -d <= k0 <= -d + sw.kstart <= k && k0 >= sw.lo - 1
    && (k0 < k ==> sw.lo <= k0 && k - 2 <= sw.hi)
    && (k == k0 ==> k0 == -d + sw.kstart && sw.lo - 1 <= d - sw.kend && k0 <= sw.hi + 1)
    && sw.lo - 2 <= d - sw.kend <= sw.hi + 1 && -d + sw.kstart <= sw.hi + 2
  }

  /** State inside pass d, just before diagonal k. */
  ghost predicate InPass<T>(a: seq<T>, b: seq<T>, s: seq<int>, off: int, sw: Sweep, d: int, k0: int, k: int) {
    && d < off && |s| == 2 * off
    && SweepOk(sw, d, k0, k)
    && Sound(a, b, s, off, sw.lo, sw.hi, d)
    && (d >= 1 ==> Covers(a, b, s, off, sw, d - 1))
    && InBand(a, b, sw, d)
    && PassedBefore(a, b, s, off, sw, d, k)
  }

  /** In pass d, every live point of cost d on a diagonal left of k has been passed. */
  ghost predicate PassedBefore<T>(a: seq<T>, b: seq<T>, s: seq<int>, off: int, sw: Sweep, d: int, k: int) {
    forall x: nat, y: nat :: Live(a, b, x, y) && Dist(a, b, x, y) == d && x - y < k ==> Passed(s, off, sw, x, y)
  }

  // ----- dropping diagonals at the borders loses nothing -----

  lemma LiveLeftOfRunOff<T>(a: seq<T>, b: seq<T>, x: nat, y: nat, offX: nat, offY: nat)
    requires Live(a, b, x, y) && |a| < offX && Dist(a, b, offX, offY) <= Dist(a, b, x, y)
    ensures x - y <= offX - offY - 2
  {
    OffRightCost(a, b, offX, offY);
    RestBounds(a, b, x, y);
  }

  lemma LiveRightOfRunOff<T>(a: seq<T>, b: seq<T>, x: nat, y: nat, offX: nat, offY: nat)
    requires Live(a, b, x, y) && |b| < offY && Dist(a, b, offX, offY) <= Dist(a, b, x, y)
    ensures offX - offY + 2 <= x - y
  {
    OffBottomCost(a, b, offX, offY);
    RestBounds(a, b, x, y);
  }

  lemma RunOffNeedsEdits<T>(a: seq<T>, b: seq<T>, x: nat, y: nat)
    ensures |a| < x ==> 2 - Dist(a, b, x, y) <= x - y
    ensures |b| < y ==> x - y <= Dist(a, b, x, y) - 2
  {
    if |a| < x {
      DistFarRight(a, b, x, y);
      DistBounds(a, b, |a|, y);
    }
    if |b| < y {
      DistFarBelow(a, b, x, y);
      DistBounds(a, b, x, |b|);
    }
  }

  // ----- one diagonal -----

  lemma {:induction false} FreePath<T>(a: seq<T>, b: seq<T>, x: nat, y: nat)
    requires Dist(a, b, x, y) == 0
    ensures x == y && MatchRun(a, b, 0, 0, x)
  {
    if x > 0 && y > 0 {
      FreePath(a, b, x - 1, y - 1);
    }
  }

  /** What the new entry of diagonal k owes to its neighbours. */
  ghost predicate Reached<T>(a: seq<T>, b: seq<T>, s: seq<int>, off: int, sw: Sweep, d: int, k: int, x: int) {
    && 0 <= x && k <= x && Dist(a, b, x, x - k) <= d && !MatchOn(a, b, k, x)
    && 0 < off + k < |s| && off + sw.hi < |s|
    && (d > 0 && sw.lo <= k - 1 <= sw.hi ==> s[off + k - 1] + 1 <= x)
    && (d > 0 && sw.lo <= k + 1 <= sw.hi ==> s[off + k + 1] <= x)
  }

  /** The new entry of diagonal k passes every live point of cost d on it. */
  lemma ReachedPassesLive<T>(a: seq<T>, b: seq<T>, s: seq<int>, off: int, sw: Sweep, d: int, k: int,
                             nx: int, x: nat, y: nat)
    requires d >= 1 ==> Covers(a, b, s, off, sw, d - 1)
    requires Reached(a, b, s, off, sw, d, k, nx)
    requires Live(a, b, x, y) && Dist(a, b, x, y) == d && x - y == k
    ensures x <= nx
  {
    if d == 0 {
      FreePath(a, b, x, y);
    } else {
      var px, py, sx := LivePredecessor(a, b, x, y);
      assert Passed(s, off, sw, px, py);
      RunStopsNowhere(a, b, k, sx, nx, x);
    }
  }

  /** A walk that stops only at a mismatch runs through a whole run of matches. */
  lemma RunStopsNowhere<T>(a: seq<T>, b: seq<T>, k: int, sx: nat, nx: nat, x: nat)
    requires MatchRun(a, b, k, sx, x) && sx <= nx && !MatchOn(a, b, k, nx)
    ensures x <= nx
  {
  }

  ghost function After(a: nat, b: nat, sw: Sweep, k: int, x: int): Sweep {
    Sweep(if k < sw.lo then k else sw.lo,
          if sw.hi < k then k else sw.hi,
          if x <= a && b < x - k then sw.kstart + 2 else sw.kstart,
          if a < x then sw.kend + 2 else sw.kend)
  }

  lemma BeginPass<T>(a: seq<T>, b: seq<T>, s: seq<int>, off: int, sw: Sweep, d: int)
    requires Ready(a, b, s, off, sw, d) && d < off
    ensures InPass(a, b, s, off, sw, d, -d + sw.kstart, -d + sw.kstart)
  {
  }

  lemma StepSound<T>(a: seq<T>, b: seq<T>, s: seq<int>, off: int, sw: Sweep, d: int, k: int, x: int, s': seq<int>)
    requires Sound(a, b, s, off, sw.lo, sw.hi, d) && |s| == 2 * off
    requires Reached(a, b, s, off, sw, d, k, x) && s' == s[off + k := x]
    requires if d == 0 then k == 0 && sw.hi == -1 && sw.lo == 0 else sw.lo - 1 <= k <= sw.hi + 1 && sw.lo <= sw.hi
    ensures Sound(a, b, s', off, After(|a|, |b|, sw, k, x).lo, After(|a|, |b|, sw, k, x).hi, d)
  {
  }

  /** Storing the new entry keeps what the entries of the previous pass say. */
  lemma StepCovers<T>(a: seq<T>, b: seq<T>, s: seq<int>, off: int, sw: Sweep, d: int, k: int, x: int, s': seq<int>)
    requires d >= 1 && (k - d) % 2 == 0 && Covers(a, b, s, off, sw, d - 1)
    requires 0 <= off + k < |s| && s' == s[off + k := x]
    ensures Covers(a, b, s', off, After(|a|, |b|, sw, k, x), d - 1)
  {
    hide Live, Dist;
    forall px: nat, py: nat | Live(a, b, px, py) && Dist(a, b, px, py) == d - 1
      ensures Passed(s', off, After(|a|, |b|, sw, k, x), px, py)
    {
      DistParity(a, b, px, py);
      assert Passed(s, off, sw, px, py);
    }
  }

  lemma StepPasses<T>(a: seq<T>, b: seq<T>, s: seq<int>, off: int, sw: Sweep, d: int, k0: int, k: int, x: int, s': seq<int>)
    requires InPass(a, b, s, off, sw, d, k0, k)
    requires Reached(a, b, s, off, sw, d, k, x) && s' == s[off + k := x]
    ensures PassedBefore(a, b, s', off, After(|a|, |b|, sw, k, x), d, k + 2)
  {
    hide Live, Dist, MatchOn, Sound, InBand;
    forall px: nat, py: nat | Live(a, b, px, py) && Dist(a, b, px, py) == d && px - py < k + 2
      ensures Passed(s', off, After(|a|, |b|, sw, k, x), px, py)
    {
      DistParity(a, b, px, py);
      if px - py < k {
        assert Passed(s, off, sw, px, py);
      } else {
        ReachedPassesLive(a, b, s, off, sw, d, k, x, px, py);
      }
    }
  }

  lemma StepSweep(na: nat, nb: nat, sw: Sweep, d: int, k0: int, k: int, x: int)
    requires SweepOk(sw, d, k0, k) && k <= d - sw.kend
    requires na < x ==> 2 - d <= k
    requires nb < x - k ==> k <= d - 2
    ensures SweepOk(After(na, nb, sw, k, x), d, k0, k + 2)
  {
  }

  lemma StepBand<T>(a: seq<T>, b: seq<T>, s: seq<int>, off: int, sw: Sweep, d: int, k0: int, k: int, x: int)
    requires InPass(a, b, s, off, sw, d, k0, k) && k <= d - sw.kend
    requires Reached(a, b, s, off, sw, d, k, x)
    ensures InBand(a, b, After(|a|, |b|, sw, k, x), d)
  {
    var sw' := After(|a|, |b|, sw, k, x);
    forall px: nat, py: nat | Live(a, b, px, py) && Dist(a, b, px, py) == d
      ensures -d + sw'.kstart <= px - py <= d - sw'.kend
    {
      DistParity(a, b, px, py);
      if |a| < x {
        LiveLeftOfRunOff(a, b, px, py, x, x - k);
      } else if |b| < x - k {
        LiveRightOfRunOff(a, b, px, py, x, x - k);
      }
    }
  }

  lemma StepKeeps<T>(a: seq<T>, b: seq<T>, s: seq<int>, off: int, sw: Sweep, d: int, k0: int, k: int, x: int, s': seq<int>)
    requires InPass(a, b, s, off, sw, d, k0, k) && k <= d - sw.kend
    requires Reached(a, b, s, off, sw, d, k, x) && s' == s[off + k := x]
    ensures InPass(a, b, s', off, After(|a|, |b|, sw, k, x), d, k0, k + 2)
  {
    StepSound(a, b, s, off, sw, d, k, x, s');
    StepPasses(a, b, s, off, sw, d, k0, k, x, s');
    StepBand(a, b, s, off, sw, d, k0, k, x);
    RunOffNeedsEdits(a, b, x, x - k);
    StepSweep(|a|, |b|, sw, d, k0, k, x);
    if d >= 1 {
      StepCovers(a, b, s, off, sw, d, k, x, s');
    }
  }

  lemma EndPass<T>(a: seq<T>, b: seq<T>, s: seq<int>, off: int, sw: Sweep, d: int, k0: int, k: int)
    requires InPass(a, b, s, off, sw, d, k0, k) && d - sw.kend < k
    ensures Ready(a, b, s, off, sw, d + 1)
  {
    assert Covers(a, b, s, off, sw, d);
    forall x: nat, y: nat | Live(a, b, x, y) && Dist(a, b, x, y) == d + 1
      ensures -(d + 1) + sw.kstart <= x - y <= d + 1 - sw.kend
    {
      var px, py, sx := LivePredecessor(a, b, x, y);
    }
  }

  /** The neighbours that the walk on diagonal k looks at are inside a table of the given length. */
  ghost predicate InTable(length: int, off: int, d: int, k: int) {
    0 < off + k < length && (k == -d || k != d ==> off + k + 1 < length)
  }

  /** Where the walk on diagonal k starts: one edit from the better of its two neighbours. */
  ghost function Start(s: seq<int>, off: int, d: int, k: int): int
    requires InTable(|s|, off, d, k)
  {
    if k == -d || (k != d && s[off + k - 1] < s[off + k + 1]) then s[off + k + 1] else s[off + k - 1] + 1
  }

  /** The neighbour a walk starts from has been visited. */
  lemma NeighbourVisited(sw: Sweep, d: int, k0: int, k: int)
    requires SweepOk(sw, d, k0, k) && k <= d - sw.kend && d > 0
    ensures -d <= k <= d
    ensures k == -d ==> sw.lo <= k + 1 <= sw.hi
    ensures k == d ==> sw.lo <= k - 1 <= sw.hi
    ensures sw.lo <= k - 1 <= sw.hi || (k != d && sw.lo <= k + 1 <= sw.hi)
    ensures d == 1 || sw.lo <= 1 <= sw.hi
    ensures d == 1 ==> k == -1 || k == 1
  {
  }

  lemma StartOk<T>(a: seq<T>, b: seq<T>, s: seq<int>, off: int, sw: Sweep, d: int, k0: int, k: int)
    requires InPass(a, b, s, off, sw, d, k0, k) && k <= d - sw.kend && 1 < off
    ensures InTable(|s|, off, d, k) && (k - d) % 2 == 0
    ensures var x := Start(s, off, d, k); 0 <= x && k <= x && Dist(a, b, x, x - k) <= d
  {
    if d > 0 {
      NeighbourVisited(sw, d, k0, k);
      StartFromNeighbour(a, b, s, off, sw, d, k);
    }
  }

  lemma StartFromNeighbour<T>(a: seq<T>, b: seq<T>, s: seq<int>, off: int, sw: Sweep, d: int, k: int)
    requires Sound(a, b, s, off, sw.lo, sw.hi, d) && InTable(|s|, off, d, k)
    requires -d <= k <= d && (k - d) % 2 == 0
    requires k == -d ==> sw.lo <= k + 1 <= sw.hi
    requires k == d ==> sw.lo <= k - 1 <= sw.hi
    requires sw.lo <= k - 1 <= sw.hi || (k != d && sw.lo <= k + 1 <= sw.hi)
    requires d == 1 || sw.lo <= 1 <= sw.hi
    requires d == 1 ==> k == -1 || k == 1
    ensures var x := Start(s, off, d, k); 0 <= x && k <= x && Dist(a, b, x, x - k) <= d
  {
    hide Dist;
    var j := if k == -d || (k != d && s[off + k - 1] < s[off + k + 1]) then k + 1 else k - 1;
    assert sw.lo <= j <= sw.hi;
    var px := s[off + j];
    DistParity(a, b, px, px - j);
    DistSteps(a, b, px, px - j);
  }

  lemma StartReaches<T>(a: seq<T>, b: seq<T>, s: seq<int>, off: int, sw: Sweep, d: int, k0: int, k: int, x: int)
    requires InPass(a, b, s, off, sw, d, k0, k) && k <= d - sw.kend && InTable(|s|, off, d, k)
    requires 0 <= x && k <= x && Dist(a, b, x, x - k) <= d && !MatchOn(a, b, k, x) && Start(s, off, d, k) <= x
    ensures Reached(a, b, s, off, sw, d, k, x)
  {
  }

  /** Walks diagonal k of the forward frontier: one edit, then matches as far as they go. */
  method Reach<T(==)>(a: seq<T>, b: seq<T>, v: array<int>, off: int, d: int, k: int) returns (x: int)
    requires InTable(v.Length, off, d, k) && 0 <= d
    requires var x := Start(v[..], off, d, k); 0 <= x && k <= x && Dist(a, b, x, x - k) <= d
    ensures Start(v[..], off, d, k) <= x && k <= x && Dist(a, b, x, x - k) <= d && !MatchOn(a, b, k, x)
  {
    if k == -d || (k != d && v[off + k - 1] < v[off + k + 1]) {
      x := v[off + k + 1];
    } else {
      x := v[off + k - 1] + 1;
    }
    ghost var start := Start(v[..], off, d, k);
    var y := x - k;
    while x < |a| && y < |b| && a[x] == b[y]
      invariant start <= x && 0 <= y == x - k && Dist(a, b, x, y) <= d
    {
      x := x + 1;
      y := y + 1;
    }
  }

  /** The same walk of the reverse frontier: both texts are read from their ends. */
  method ReachBack<T(==)>(a: seq<T>, b: seq<T>, v: array<int>, off: int, d: int, k: int) returns (x: int)
    requires InTable(v.Length, off, d, k) && 0 <= d
    requires var x := Start(v[..], off, d, k); 0 <= x && k <= x && Dist(Reversed(a), Reversed(b), x, x - k) <= d
    ensures Start(v[..], off, d, k) <= x && k <= x && Dist(Reversed(a), Reversed(b), x, x - k) <= d
    ensures !MatchOn(Reversed(a), Reversed(b), k, x)
  {
    hide Dist, Reversed;
    if k == -d || (k != d && v[off + k - 1] < v[off + k + 1]) {
      x := v[off + k + 1];
    } else {
      x := v[off + k - 1] + 1;
    }
    ghost var start := Start(v[..], off, d, k);
    ghost var ra, rb := Reversed(a), Reversed(b);
    var y := x - k;
    while x < |a| && y < |b| && a[|a| - x - 1] == b[|b| - y - 1]
      invariant start <= x && 0 <= y == x - k && Dist(ra, rb, x, y) <= d
    {
      MatchReversed(a, b, x, y);
      DistOfMatch(ra, rb, x, y);
      x := x + 1;
      y := y + 1;
    }
    MatchReversed(a, b, x, y);
  }

  lemma DistOfMatch<T>(a: seq<T>, b: seq<T>, x: nat, y: nat)
    requires Match(a, b, x, y)
    ensures Dist(a, b, x + 1, y + 1) == Dist(a, b, x, y)
  {
  }

  // ----- overlap -----

  /** A forward and a reverse entry that overlap on a diagonal, and are together no dearer than the
      cost of the graph, pin the forward point to a cheapest path. */
  lemma OverlapIsLive<T>(a: seq<T>, b: seq<T>, x: nat, y: nat, d1: int, rx: nat, ry: nat, d2: int)
    requires x <= |a| && y <= |b| && Dist(a, b, x, y) <= d1
    requires rx - ry == |a| - |b| - (x - y) && Dist(Reversed(a), Reversed(b), rx, ry) <= d2
    requires |a| - x <= rx && d1 + d2 <= Cost(a, b)
    ensures Live(a, b, x, y) && Dist(a, b, x, y) == d1 && Rest(a, b, x, y) == d2 && Cost(a, b) == d1 + d2
  {
    hide Dist, Rest, Reversed;
    DistDiagonal(Reversed(a), Reversed(b), |a| - x, |b| - y, rx - (|a| - x));
    LiveMirror(a, b, x, y);
    Through(a, b, x, y);
  }

  /** A forward entry beyond the border would have made the whole graph cheaper than 2 d. */
  lemma OffGridIsCheap<T>(a: seq<T>, b: seq<T>, x: nat, y: nat, d: int)
    requires Dist(a, b, x, y) <= d && -d <= |a| - |b| - (x - y) <= d
    requires |a| < x || |b| < y
    ensures Cost(a, b) < 2 * d
  {
    if |a| < x {
      OffRightCost(a, b, x, y);
    } else {
      OffBottomCost(a, b, x, y);
    }
  }

  /** No live point of cost d left of diagonal k allows the whole cost to be c. */
  ghost predicate NoMeeting<T>(a: seq<T>, b: seq<T>, d: int, k: int, c: int) {
    forall x: nat, y: nat :: Live(a, b, x, y) && Dist(a, b, x, y) == d && x - y < k ==> Cost(a, b) != c
  }

  /** If the far frontier is complete for cost c - d, the check on diagonal k cannot miss a meeting. */
  lemma CheckFindsMeeting<T>(a: seq<T>, b: seq<T>, far: seq<int>, off: int, fsw: Sweep, d: int, k: int, x: int, c: int,
                             px: nat, py: nat)
    requires Ready(Reversed(a), Reversed(b), far, off, fsw, c - d + 1)
    requires Live(a, b, px, py) && Dist(a, b, px, py) == d && Cost(a, b) == c
    requires px - py == k && px <= x
    ensures 0 <= off + |a| - |b| - k < |far|
    ensures far[off + |a| - |b| - k] >= 0 && |a| - far[off + |a| - |b| - k] <= x
  {
    hide Sound, InBand, Dist, Rest, Cost;
    LiveMirror(a, b, px, py);
    assert Passed(far, off, fsw, |a| - px, |b| - py);
  }

  /** Without a meeting in a whole pass, the cost is not c. */
  lemma NoMeetingAtAll<T>(a: seq<T>, b: seq<T>, s: seq<int>, off: int, sw: Sweep, d: int, k0: int, k: int, c: int)
    requires InPass(a, b, s, off, sw, d, k0, k) && d - sw.kend < k && NoMeeting(a, b, d, k, c)
    requires 0 <= c ==> d <= c
    requires (|a| - |b| - c) % 2 == 0 && c <= Cost(a, b)
    ensures c + 2 <= Cost(a, b)
  {
    hide Sound, Covers, PassedBefore;
    DistParity(a, b, |a|, |b|);
    if Cost(a, b) == c {
      RestBounds(a, b, |a|, |b|);
      var x, y := LiveAtLevel(a, b, |a|, |b|, d);
      assert Live(a, b, x, y) && Dist(a, b, x, y) == d;
    }
  }

  // ----- one pass, on either frontier -----

  /** A check that found nothing, or a run over the border, rules out a meeting on diagonal k. */
  lemma CheckMissed<T>(a: seq<T>, b: seq<T>, s: seq<int>, sw: Sweep, far: seq<int>, fsw: Sweep, off: int,
                       d: int, k0: int, k: int, x: int, c: int)
    requires InPass(a, b, s, off, sw, d, k0, k + 2) && 0 <= off + k < |s| && s[off + k] == x
    requires 0 <= x && k <= x && Dist(a, b, x, x - k) <= d
    requires Ready(Reversed(a), Reversed(b), far, off, fsw, c - d + 1)
    requires NoMeeting(a, b, d, k, c)
    requires var i := off + |a| - |b| - k;
             |a| < x || |b| < x - k || !(0 <= i < |far|) || far[i] == -1 || x < |a| - far[i]
    ensures NoMeeting(a, b, d, k + 2, c)
  {
    hide Ready, Sound, Covers, InBand;
    forall px: nat, py: nat | Live(a, b, px, py) && Dist(a, b, px, py) == d && px - py < k + 2
      ensures Cost(a, b) != c
    {
      if Cost(a, b) == c && px - py >= k {
        MeetingIsFound(a, b, s, sw, far, fsw, off, d, k, x, c, px, py);
        assert false;
      }
    }
  }

  lemma MeetingIsFound<T>(a: seq<T>, b: seq<T>, s: seq<int>, sw: Sweep, far: seq<int>, fsw: Sweep, off: int,
                          d: int, k: int, x: int, c: int, px: nat, py: nat)
    requires PassedBefore(a, b, s, off, sw, d, k + 2) && 0 <= off + k < |s| && s[off + k] == x
    requires 0 <= x && k <= x && Dist(a, b, x, x - k) <= d && (k - d) % 2 == 0
    requires Ready(Reversed(a), Reversed(b), far, off, fsw, c - d + 1)
    requires Live(a, b, px, py) && Dist(a, b, px, py) == d && k <= px - py < k + 2 && Cost(a, b) == c
    ensures var i := off + |a| - |b| - k;
            !(|a| < x || |b| < x - k || !(0 <= i < |far|) || far[i] == -1 || x < |a| - far[i])
  {
    hide Live, Dist, Ready;
    DistParity(a, b, px, py);
    assert Passed(s, off, sw, px, py);
    if |a| < x {
      LiveLeftOfRunOff(a, b, px, py, x, x - k);
      assert false;
    } else if |b| < x - k {
      LiveRightOfRunOff(a, b, px, py, x, x - k);
      assert false;
    }
    CheckFindsMeeting(a, b, far, off, fsw, d, k, x, c, px, py);
  }

  lemma BeginNoMeeting<T>(a: seq<T>, b: seq<T>, s: seq<int>, off: int, sw: Sweep, d: int, k0: int, c: int)
    requires InPass(a, b, s, off, sw, d, k0, k0)
    ensures NoMeeting(a, b, d, k0, c)
  {
    hide Sound, Covers, PassedBefore;
  }

  /** A pass in front of diagonal k, with nothing met so far.  The far frontier, that of the reversed
      texts, is complete up to cost c - d; if this pass checks for overlaps, the cost is at least c. */
  ghost predicate Walking<T>(a: seq<T>, b: seq<T>, s: seq<int>, far: seq<int>, off: int, sw: Sweep, fsw: Sweep,
                             d: int, k0: int, k: int, checks: bool, c: int) {
    && 1 < off
    && InPass(a, b, s, off, sw, d, k0, k)
    && Ready(Reversed(a), Reversed(b), far, off, fsw, c - d + 1)
    && (0 <= c ==> d <= c)
    && (checks ==> (|a| - |b| - c) % 2 == 0 && c <= Cost(a, b) && NoMeeting(a, b, d, k, c))
  }

  lemma WalkBegin<T>(a: seq<T>, b: seq<T>, s: seq<int>, far: seq<int>, off: int, sw: Sweep, fsw: Sweep,
                     d: int, checks: bool, c: int)
    requires 1 < off && d < off && Ready(a, b, s, off, sw, d)
    requires Ready(Reversed(a), Reversed(b), far, off, fsw, c - d + 1) && (0 <= c ==> d <= c)
    requires checks ==> (|a| - |b| - c) % 2 == 0 && c <= Cost(a, b)
    ensures Walking(a, b, s, far, off, sw, fsw, d, -d + sw.kstart, -d + sw.kstart, checks, c)
  {
    BeginPass(a, b, s, off, sw, d);
    BeginNoMeeting(a, b, s, off, sw, d, -d + sw.kstart, c);
  }

  lemma WalkStart<T>(a: seq<T>, b: seq<T>, s: seq<int>, far: seq<int>, off: int, sw: Sweep, fsw: Sweep,
                     d: int, k0: int, k: int, checks: bool, c: int)
    requires Walking(a, b, s, far, off, sw, fsw, d, k0, k, checks, c) && k <= d - sw.kend
    ensures InTable(|s|, off, d, k) && -d <= k <= d && (k - d) % 2 == 0
    ensures var x := Start(s, off, d, k); 0 <= x && k <= x && Dist(a, b, x, x - k) <= d
  {
    hide Ready, NoMeeting, Start;
    StartOk(a, b, s, off, sw, d, k0, k);
  }

  lemma WalkNext<T>(a: seq<T>, b: seq<T>, s: seq<int>, far: seq<int>, off: int, sw: Sweep, fsw: Sweep,
                    d: int, k0: int, k: int, checks: bool, c: int, x: int)
    requires Walking(a, b, s, far, off, sw, fsw, d, k0, k, checks, c)
    requires k <= d - sw.kend && InTable(|s|, off, d, k)
    requires Start(s, off, d, k) <= x && 0 <= x && k <= x && Dist(a, b, x, x - k) <= d && !MatchOn(a, b, k, x)
    requires var i := off + |a| - |b| - k;
             |a| < x || |b| < x - k || !checks || !(0 <= i < |far|) || far[i] == -1 || x < |a| - far[i]
    ensures Walking(a, b, s[off + k := x], far, off, After(|a|, |b|, sw, k, x), fsw, d, k0, k + 2, checks, c)
  {
    hide Ready, InPass, NoMeeting, Reached, Start;
    StartReaches(a, b, s, off, sw, d, k0, k, x);
    StepKeeps(a, b, s, off, sw, d, k0, k, x, s[off + k := x]);
    if checks {
      CheckMissed(a, b, s[off + k := x], After(|a|, |b|, sw, k, x), far, fsw, off, d, k0, k, x, c);
    }
  }

  lemma WalkEnd<T>(a: seq<T>, b: seq<T>, s: seq<int>, far: seq<int>, off: int, sw: Sweep, fsw: Sweep,
                   d: int, k0: int, k: int, checks: bool, c: int)
    requires Walking(a, b, s, far, off, sw, fsw, d, k0, k, checks, c) && d - sw.kend < k
    ensures Ready(a, b, s, off, sw, d + 1)
    ensures checks ==> c + 2 <= Cost(a, b)
  {
    hide Ready, InPass, NoMeeting;
    EndPass(a, b, s, off, sw, d, k0, k);
    if checks {
      NoMeetingAtAll(a, b, s, off, sw, d, k0, k, c);
    }
  }

  // ----- what an overlap means -----

  lemma FrontHit<T>(a: seq<T>, b: seq<T>, far: seq<int>, off: int, fsw: Sweep, d: int, x: int, y: int)
    requires Ready(Reversed(a), Reversed(b), far, off, fsw, d) && (|a| - |b|) % 2 != 0
    requires 0 <= x <= |a| && 0 <= y <= |b| && Dist(a, b, x, y) <= d && 2 * d - 1 <= Cost(a, b)
    requires (x - y - d) % 2 == 0
    requires var i := off + |a| - |b| - (x - y); 0 <= i < |far| && far[i] != -1 && |a| - far[i] <= x
    ensures Live(a, b, x, y) && Dist(a, b, x, y) == d && Cost(a, b) == 2 * d - 1
  {
    hide Covers, InBand, Dist, Cost, Reversed, Live, Rest;
    var i := off + |a| - |b| - (x - y);
    assert fsw.lo <= i - off <= fsw.hi by { DistBounds(a, b, x, y); }
    OverlapIsLive(a, b, x, y, d, far[i], far[i] - (i - off), d - 1);
  }

  lemma BackHit<T>(a: seq<T>, b: seq<T>, near: seq<int>, off: int, nsw: Sweep, d: int, k: int, x: int, x2: int)
    requires Ready(a, b, near, off, nsw, d + 1) && (|a| - |b|) % 2 == 0 && 0 <= d
    requires 0 <= x2 && k <= x2 && Dist(Reversed(a), Reversed(b), x2, x2 - k) <= d && 2 * d <= Cost(a, b)
    requires (k - d) % 2 == 0 && -d <= k <= d
    requires var i := off + |a| - |b| - k; 0 <= i < |near| && near[i] != -1 && near[i] == x && |a| - x2 <= x
    ensures 0 <= x <= |a| && 0 <= x - (|a| - |b| - k) <= |b|
    ensures Live(a, b, x, x - (|a| - |b| - k)) && Dist(a, b, x, x - (|a| - |b| - k)) == d && Cost(a, b) == 2 * d
  {
    hide Covers, InBand;
    var k1 := |a| - |b| - k;
    assert nsw.lo <= k1 <= nsw.hi;
    if |a| < x || |b| < x - k1 {
      OffGridIsCheap(a, b, x, x - k1, d);
      assert false;
    }
    OverlapIsLive(a, b, x, x - k1, d, x2, x2 - k, d);
  }

  // ----- the two passes of one round -----

  /** One forward step: all diagonals still in the band, left to right. */
  method ForwardPass<T(==)>(a: seq<T>, b: seq<T>, v1: array<int>, v2: array<int>, off: int, d: int,
                            kstart: nat, kend: nat, ghost sw0: Sweep, ghost fsw: Sweep)
      returns (kstart': nat, kend': nat, found: bool, x: int, y: int, ghost sw: Sweep)
    requires v1 != v2 && 1 < off && 0 <= d < off
    requires sw0.kstart == kstart && sw0.kend == kend
    requires Ready(a, b, v1[..], off, sw0, d) && Ready(Reversed(a), Reversed(b), v2[..], off, fsw, d)
    requires (|a| - |b|) % 2 != 0 ==> 2 * d - 1 <= Cost(a, b)
    modifies v1
    ensures found ==> 0 <= x && 0 <= y && Live(a, b, x, y) && Dist(a, b, x, y) == d && Cost(a, b) == 2 * d - 1
    ensures !found ==> sw.kstart == kstart' && sw.kend == kend' && Ready(a, b, v1[..], off, sw, d + 1)
    ensures !found && (|a| - |b|) % 2 != 0 ==> 2 * d + 1 <= Cost(a, b)
  {
    hide Ready, Walking, Live, Start, Dist, MatchOn;
    kstart', kend', found, x, y := kstart, kend, false, 0, 0;
    sw := sw0;
    var delta := |a| - |b|;
    var front := delta % 2 != 0;
    var k1 := -d + kstart;
    ghost var k0, far, s, c := k1, v2[..], v1[..], 2 * d - 1;
    WalkBegin(a, b, s, far, off, sw, fsw, d, front, c);
    while k1 <= d - kend'
      invariant sw.kstart == kstart' && sw.kend == kend'
      invariant Walking(a, b, s, far, off, sw, fsw, d, k0, k1, front, c)
      invariant v1[..] == s && v2[..] == far
      decreases d - kend' - k1
    {
      WalkStart(a, b, s, far, off, sw, fsw, d, k0, k1, front, c);
      var x1 := Reach(a, b, v1, off, d, k1);
      var y1 := x1 - k1;
      v1[off + k1] := x1;
      if x1 > |a| {
        kend' := kend' + 2;
      } else if y1 > |b| {
        kstart' := kstart' + 2;
      } else if front {
        var k2Offset := off + delta - k1;
        if 0 <= k2Offset < v2.Length && v2[k2Offset] != -1 {
          var x2 := |a| - v2[k2Offset];
          if x1 >= x2 {
            FrontHit(a, b, far, off, fsw, d, x1, y1);
            x, y, found := x1, y1, true;
            return;
          }
        }
      }
      WalkNext(a, b, s, far, off, sw, fsw, d, k0, k1, front, c, x1);
      s := s[off + k1 := x1];
      assert v1[..] == s;
      sw := After(|a|, |b|, sw, k1, x1);
      k1 := k1 + 2;
    }
    WalkEnd(a, b, s, far, off, sw, fsw, d, k0, k1, front, c);
  }

  /** One reverse step, on the texts read from their ends. */
  method ReversePass<T(==)>(a: seq<T>, b: seq<T>, v1: array<int>, v2: array<int>, off: int, d: int,
                            kstart: nat, kend: nat, ghost sw0: Sweep, ghost nsw: Sweep)
      returns (kstart': nat, kend': nat, found: bool, x: int, y: int, ghost sw: Sweep)
    requires v1 != v2 && 1 < off && 0 <= d < off
    requires sw0.kstart == kstart && sw0.kend == kend
    requires Ready(a, b, v1[..], off, nsw, d + 1) && Ready(Reversed(a), Reversed(b), v2[..], off, sw0, d)
    requires (|a| - |b|) % 2 == 0 ==> 2 * d <= Cost(a, b)
    modifies v2
    ensures found ==> 0 <= x && 0 <= y && Live(a, b, x, y) && Dist(a, b, x, y) == d && Cost(a, b) == 2 * d
    ensures !found ==> sw.kstart == kstart' && sw.kend == kend'
                       && Ready(Reversed(a), Reversed(b), v2[..], off, sw, d + 1)
    ensures !found && (|a| - |b|) % 2 == 0 ==> 2 * d + 2 <= Cost(a, b)
  {
    hide Ready, Walking, Live, Start, Dist, MatchOn, Cost, Reversed;
    kstart', kend', found, x, y := kstart, kend, false, 0, 0;
    sw := sw0;
    var delta := |a| - |b|;
    var front := delta % 2 != 0;
    var k2 := -d + kstart;
    ghost var ra, rb := Reversed(a), Reversed(b);
    ghost var k0, far, s, c := k2, v1[..], v2[..], 2 * d;
    ReversedTwice(a);
    ReversedTwice(b);
    ReversedCost(a, b);
    WalkBegin(ra, rb, s, far, off, sw, nsw, d, !front, c);
    while k2 <= d - kend'
      invariant sw.kstart == kstart' && sw.kend == kend'
      invariant Walking(ra, rb, s, far, off, sw, nsw, d, k0, k2, !front, c)
      invariant v2[..] == s && v1[..] == far
      decreases d - kend' - k2
    {
      WalkStart(ra, rb, s, far, off, sw, nsw, d, k0, k2, !front, c);
      var x2 := ReachBack(a, b, v2, off, d, k2);
      var y2 := x2 - k2;
      v2[off + k2] := x2;
      if x2 > |a| {
        kend' := kend' + 2;
      } else if y2 > |b| {
        kstart' := kstart' + 2;
      } else if !front {
        var k1Offset := off + delta - k2;
        if 0 <= k1Offset < v1.Length && v1[k1Offset] != -1 {
          var x1 := v1[k1Offset];
          var y1 := off + x1 - k1Offset;
          if x1 >= |a| - x2 {
            BackHit(a, b, far, off, nsw, d, k2, x1, x2);
            x, y, found := x1, y1, true;
            return;
          }
        }
      }
      WalkNext(ra, rb, s, far, off, sw, nsw, d, k0, k2, !front, c, x2);
      s := s[off + k2 := x2];
      assert v2[..] == s;
      sw := After(|a|, |b|, sw, k2, x2);
      k2 := k2 + 2;
    }
    WalkEnd(ra, rb, s, far, off, sw, nsw, d, k0, k2, !front, c);
  }

  // ----- the whole search -----

  /** Texts that differ in their first and in their last character need at least two edits. */
  lemma TrimmedCost<T>(a: seq<T>, b: seq<T>)
    requires a != [] && b != [] && a[0] != b[0] && a[|a| - 1] != b[|b| - 1]
    ensures 2 <= Cost(a, b)
  {
    if Cost(a, b) < 2 {
      var px, py, sx := |a|, |b|, |a|;
      if Cost(a, b) == 1 {
        px, py, sx := LivePredecessor(a, b, |a|, |b|);
      }
      FreePath(a, b, px, py);
      FirstOfRun(a, b, 0, px);
      LastOfRun(a, b, |a| - |b|, sx, |a|);
    }
  }

  lemma FirstOfRun<T>(a: seq<T>, b: seq<T>, k: int, hi: nat)
    requires MatchRun(a, b, k, 0, hi)
    ensures 0 < hi ==> MatchOn(a, b, k, 0)
  {
  }

  lemma LastOfRun<T>(a: seq<T>, b: seq<T>, k: int, lo: nat, hi: nat)
    requires MatchRun(a, b, k, lo, hi)
    ensures lo < hi ==> MatchOn(a, b, k, hi - 1)
  {
  }

  /** The search of diff_bisect: a split point on a cheapest path, off both corners, or none.
      `unlimited` is the infinite deadline; otherwise the clock may run out at any test. */
  method Search<T(==)>(a: seq<T>, b: seq<T>, unlimited: bool, clock: Clock) returns (found: bool, x: int, y: int)
    requires a != [] && b != [] && a[0] != b[0] && a[|a| - 1] != b[|b| - 1] && 3 <= |a| + |b|
    modifies clock
    ensures found ==> 0 <= x <= |a| && 0 <= y <= |b| && 0 < x + y < |a| + |b| && Live(a, b, x, y)
    ensures found <==> Cost(a, b) < |a| + |b| && (unlimited || InTime(clock.late, old(clock.tests), (Cost(a, b) + 1) / 2 + 1))
  {
    hide Ready, Walking, Live, Dist, Rest, Cost, Covers, InBand;
    TrimmedCost(a, b);
    found, x, y := false, 0, 0;
    var maxD := (|a| + |b| + 1) / 2;
    var v1 := new int[2 * maxD](_ => -1);
    var v2 := new int[2 * maxD](_ => -1);
    v1[maxD + 1] := 0;
    v2[maxD + 1] := 0;
    var k1start, k1end, k2start, k2end: nat := 0, 0, 0, 0;
    ghost var sw1, sw2 := Sweep(0, -1, 0, 0), Sweep(0, -1, 0, 0);
    ghost var odd := (|a| - |b|) % 2 != 0;
    FirstReady(a, b, v1[..], maxD);
    FirstReady(Reversed(a), Reversed(b), v2[..], maxD);
    var d := 0;
    while d < maxD
      invariant 0 <= d <= maxD && v1.Length == v2.Length == 2 * maxD
      invariant sw1.kstart == k1start && sw1.kend == k1end && sw2.kstart == k2start && sw2.kend == k2end
      invariant Ready(a, b, v1[..], maxD, sw1, d) && Ready(Reversed(a), Reversed(b), v2[..], maxD, sw2, d)
      invariant (if odd then 2 * d - 1 else 2 * d) <= Cost(a, b)
      invariant !unlimited ==> clock.tests == old(clock.tests) + d && InTime(clock.late, old(clock.tests), d)
    {
      if !unlimited {
        var late := clock.Test();
        if late {
          assert old(clock.tests) + d < old(clock.tests) + ((Cost(a, b) + 1) / 2 + 1);
          return;
        }
      }
      k1start, k1end, found, x, y, sw1 := ForwardPass(a, b, v1, v2, maxD, d, k1start, k1end, sw1, sw2);
      if found {
        SplitIsInside(a, b, x, y, d, d - 1);
        return;
      }
      k2start, k2end, found, x, y, sw2 := ReversePass(a, b, v1, v2, maxD, d, k2start, k2end, sw2, sw1);
      if found {
        SplitIsInside(a, b, x, y, d, d);
        return;
      }
      d := d + 1;
    }
    WholeCost(a, b);
  }

  lemma FirstReady<T>(a: seq<T>, b: seq<T>, s: seq<int>, off: int)
    requires 1 < off && |s| == 2 * off
    requires forall i :: 0 <= i < |s| ==> s[i] == if i == off + 1 then 0 else -1
    ensures Ready(a, b, s, off, Sweep(0, -1, 0, 0), 0)
  {
    forall x: nat, y: nat | Live(a, b, x, y) && Dist(a, b, x, y) == 0 ensures x == y {
      DistBounds(a, b, x, y);
    }
  }

  lemma SplitIsInside<T>(a: seq<T>, b: seq<T>, x: nat, y: nat, d1: int, d2: int)
    requires 2 <= Cost(a, b) == d1 + d2 && d2 <= d1 <= d2 + 1
    requires Live(a, b, x, y) && Dist(a, b, x, y) == d1
    ensures x <= |a| && y <= |b| && 0 < x + y < |a| + |b|
  {
  }

  lemma WholeCost<T>(a: seq<T>, b: seq<T>)
    ensures Cost(a, b) <= |a| + |b|
  {
    DistBounds(a, b, |a|, |b|);
  }
}
