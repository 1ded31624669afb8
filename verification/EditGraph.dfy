/** The edit graph of two texts: the cost of the cheapest insert/delete script between prefixes,
    the cost between suffixes, and how the two meet.  The graph is extended beyond both texts by
    cells that never match, because the search in diff_bisect may step over the border by design. */
module EditGraph {
  import opened Helpers

  /** The two texts agree on the cell to the lower right of (x, y). */
  ghost predicate Match<T>(a: seq<T>, b: seq<T>, x: nat, y: nat) {
    x < |a| && y < |b| && a[x] == b[y]
  }

  /** The cell at column i of diagonal k is a match. */
  ghost predicate MatchOn<T>(a: seq<T>, b: seq<T>, k: int, i: nat) {
    k <= i && Match(a, b, i, i - k)
  }

  /** Columns lo to hi of diagonal k are all matches. */
  ghost predicate MatchRun<T>(a: seq<T>, b: seq<T>, k: int, lo: nat, hi: nat) {
    forall i: nat :: lo <= i < hi ==> MatchOn(a, b, k, i)
  }

  /** Fewest single-character edits on a path from (0, 0) to (x, y). */
  ghost function Dist<T>(a: seq<T>, b: seq<T>, x: nat, y: nat): nat
    decreases x + y
  {
    if x == 0 then y
    else if y == 0 then x
    else if Match(a, b, x - 1, y - 1) then Dist(a, b, x - 1, y - 1)
    else 1 + Min(Dist(a, b, x - 1, y), Dist(a, b, x, y - 1))
  }

  /** Fewest single-character edits on a path from (x, y) to the far corner. */
  ghost function Rest<T>(a: seq<T>, b: seq<T>, x: nat, y: nat): nat
    requires x <= |a| && y <= |b|
    decreases |a| + |b| - x - y
  {
    if x == |a| then |b| - y
    else if y == |b| then |a| - x
    else if Match(a, b, x, y) then Rest(a, b, x + 1, y + 1)
    else 1 + Min(Rest(a, b, x + 1, y), Rest(a, b, x, y + 1))
  }

  /** The edit distance of the whole texts. */
  ghost function Cost<T>(a: seq<T>, b: seq<T>): nat {
    Dist(a, b, |a|, |b|)
  }

  /** (x, y) lies on some cheapest path through the whole graph. */
  ghost predicate Live<T>(a: seq<T>, b: seq<T>, x: nat, y: nat) {
    x <= |a| && y <= |b| && Dist(a, b, x, y) + Rest(a, b, x, y) == Cost(a, b)
  }

  // ----- shape of the distance -----

  /** What the recursion says of the inner cells and of the two borders. */
  lemma DistCell<T>(a: seq<T>, b: seq<T>, x: nat, y: nat)
    ensures Dist(a, b, x + 1, y + 1) == if Match(a, b, x, y) then Dist(a, b, x, y)
                                        else 1 + Min(Dist(a, b, x, y + 1), Dist(a, b, x + 1, y))
    ensures Dist(a, b, x, 0) == x && Dist(a, b, 0, y) == y
  {
  }

  lemma {:induction false} DistSteps<T>(a: seq<T>, b: seq<T>, x: nat, y: nat)
    ensures Dist(a, b, x + 1, y) <= Dist(a, b, x, y) + 1
    ensures Dist(a, b, x, y + 1) <= Dist(a, b, x, y) + 1
    ensures Dist(a, b, x, y) <= Dist(a, b, x + 1, y) + 1
    ensures Dist(a, b, x, y) <= Dist(a, b, x, y + 1) + 1
    ensures Dist(a, b, x, y) <= Dist(a, b, x + 1, y + 1)
    decreases x + y
  {
    hide Dist, Match;
    DistCell(a, b, x, y);
    DistCell(a, b, x + 1, y + 1);
    if x > 0 { DistSteps(a, b, x - 1, y); DistCell(a, b, x - 1, y); }
    if y > 0 { DistSteps(a, b, x, y - 1); DistCell(a, b, x, y - 1); }
    if x > 0 && y > 0 { DistSteps(a, b, x - 1, y - 1); DistCell(a, b, x - 1, y - 1); }
  }

  /** Moving down a diagonal never makes a point cheaper to reach. */
  lemma {:induction false} DistDiagonal<T>(a: seq<T>, b: seq<T>, x: nat, y: nat, t: nat)
    ensures Dist(a, b, x, y) <= Dist(a, b, x + t, y + t)
    decreases t
  {
    if t > 0 {
      DistDiagonal(a, b, x, y, t - 1);
      DistSteps(a, b, x + t - 1, y + t - 1);
    }
  }

  lemma {:induction false} DistParity<T>(a: seq<T>, b: seq<T>, x: nat, y: nat)
    ensures (x + y - Dist(a, b, x, y)) % 2 == 0
    decreases x + y
  {
    hide Dist, Match;
    DistCell(a, b, x, y);
    if x > 0 && y > 0 {
      DistCell(a, b, x - 1, y - 1);
      if Match(a, b, x - 1, y - 1) {
        DistParity(a, b, x - 1, y - 1);
      } else if Dist(a, b, x, y) == 1 + Dist(a, b, x - 1, y) {
        DistParity(a, b, x - 1, y);
      } else {
        DistParity(a, b, x, y - 1);
      }
    }
  }

  lemma {:induction false} DistBounds<T>(a: seq<T>, b: seq<T>, x: nat, y: nat)
    ensures x - y <= Dist(a, b, x, y) && y - x <= Dist(a, b, x, y)
    ensures Dist(a, b, x, y) <= x + y
    decreases x + y
  {
    if x > 0 && y > 0 {
      DistBounds(a, b, x - 1, y);
      DistBounds(a, b, x, y - 1);
      DistBounds(a, b, x - 1, y - 1);
    }
  }

  /** A column right of the first text costs one edit more than its left neighbour. */
  lemma {:induction false} DistRightOf<T>(a: seq<T>, b: seq<T>, x: nat, y: nat)
    requires |a| <= x
    ensures Dist(a, b, x + 1, y) == Dist(a, b, x, y) + 1
    decreases y
  {
    if y > 0 {
      DistRightOf(a, b, x, y - 1);
      DistSteps(a, b, x, y - 1);
    }
  }

  /** A row below the second text costs one edit more than the row above it. */
  lemma {:induction false} DistBelow<T>(a: seq<T>, b: seq<T>, x: nat, y: nat)
    requires |b| <= y
    ensures Dist(a, b, x, y + 1) == Dist(a, b, x, y) + 1
    decreases x
  {
    if x > 0 {
      DistBelow(a, b, x - 1, y);
      DistSteps(a, b, x - 1, y);
    }
  }

  lemma {:induction false} DistFarRight<T>(a: seq<T>, b: seq<T>, x: nat, y: nat)
    requires |a| <= x
    ensures Dist(a, b, x, y) == Dist(a, b, |a|, y) + (x - |a|)
    decreases x
  {
    if |a| < x {
      DistFarRight(a, b, x - 1, y);
      DistRightOf(a, b, x - 1, y);
    }
  }

  lemma {:induction false} DistFarBelow<T>(a: seq<T>, b: seq<T>, x: nat, y: nat)
    requires |b| <= y
    ensures Dist(a, b, x, y) == Dist(a, b, x, |b|) + (y - |b|)
    decreases y
  {
    if |b| < y {
      DistFarBelow(a, b, x, y - 1);
      DistBelow(a, b, x, y - 1);
    }
  }

  lemma {:induction false} DistDownTo<T>(a: seq<T>, b: seq<T>, x: nat, y: nat, t: nat)
    ensures Dist(a, b, x, y + t) <= Dist(a, b, x, y) + t
    decreases t
  {
    if t > 0 {
      DistDownTo(a, b, x, y, t - 1);
      DistSteps(a, b, x, y + t - 1);
    }
  }

  lemma {:induction false} DistRightTo<T>(a: seq<T>, b: seq<T>, x: nat, y: nat, t: nat)
    ensures Dist(a, b, x + t, y) <= Dist(a, b, x, y) + t
    decreases t
  {
    if t > 0 {
      DistRightTo(a, b, x, y, t - 1);
      DistSteps(a, b, x + t - 1, y);
    }
  }

  /** What a point off the right border says about the whole cost. */
  lemma OffRightCost<T>(a: seq<T>, b: seq<T>, x: nat, y: nat)
    requires |a| < x
    ensures y <= |b| ==> Cost(a, b) <= Dist(a, b, x, y) - (x - |a|) + (|b| - y)
    ensures |b| <= y ==> Cost(a, b) < Dist(a, b, x, y)
  {
    DistFarRight(a, b, x, y);
    if y <= |b| {
      DistDownTo(a, b, |a|, y, |b| - y);
    } else {
      DistFarBelow(a, b, |a|, y);
    }
  }

  /** What a point off the bottom border says about the whole cost. */
  lemma OffBottomCost<T>(a: seq<T>, b: seq<T>, x: nat, y: nat)
    requires |b| < y
    ensures x <= |a| ==> Cost(a, b) <= Dist(a, b, x, y) - (y - |b|) + (|a| - x)
    ensures |a| <= x ==> Cost(a, b) < Dist(a, b, x, y)
  {
    DistFarBelow(a, b, x, y);
    if x <= |a| {
      DistRightTo(a, b, x, |b|, |a| - x);
    } else {
      DistFarRight(a, b, x, |b|);
    }
  }

  // ----- shape of the remaining cost -----

  lemma {:induction false} RestSteps<T>(a: seq<T>, b: seq<T>, x: nat, y: nat)
    requires x <= |a| && y <= |b|
    ensures x < |a| ==> Rest(a, b, x + 1, y) <= Rest(a, b, x, y) + 1 && Rest(a, b, x, y) <= Rest(a, b, x + 1, y) + 1
    ensures y < |b| ==> Rest(a, b, x, y + 1) <= Rest(a, b, x, y) + 1 && Rest(a, b, x, y) <= Rest(a, b, x, y + 1) + 1
    ensures x < |a| && y < |b| ==> Rest(a, b, x + 1, y + 1) <= Rest(a, b, x, y)
    decreases |a| + |b| - x - y
  {
    if x < |a| { RestSteps(a, b, x + 1, y); }
    if y < |b| { RestSteps(a, b, x, y + 1); }
    if x < |a| && y < |b| { RestSteps(a, b, x + 1, y + 1); }
  }

  lemma {:induction false} RestBounds<T>(a: seq<T>, b: seq<T>, x: nat, y: nat)
    requires x <= |a| && y <= |b|
    ensures (|a| - x) - (|b| - y) <= Rest(a, b, x, y)
    ensures (|b| - y) - (|a| - x) <= Rest(a, b, x, y)
    decreases |a| + |b| - x - y
  {
    if x < |a| && y < |b| {
      RestBounds(a, b, x + 1, y);
      RestBounds(a, b, x, y + 1);
      RestBounds(a, b, x + 1, y + 1);
    }
  }

  /** No path through a point beats the cheapest path of the whole graph. */
  lemma {:induction false} Through<T>(a: seq<T>, b: seq<T>, x: nat, y: nat)
    requires x <= |a| && y <= |b|
    ensures Cost(a, b) <= Dist(a, b, x, y) + Rest(a, b, x, y)
    decreases |a| + |b| - x - y
  {
    if x == |a| {
      DistDownTo(a, b, x, y, |b| - y);
    } else if y == |b| {
      DistRightTo(a, b, x, y, |a| - x);
    } else if Match(a, b, x, y) {
      Through(a, b, x + 1, y + 1);
    } else {
      Through(a, b, x + 1, y);
      Through(a, b, x, y + 1);
      DistSteps(a, b, x, y);
    }
  }

  lemma MatchIsLive<T>(a: seq<T>, b: seq<T>, x: nat, y: nat)
    requires Live(a, b, x, y) && 0 < x && 0 < y && Match(a, b, x - 1, y - 1)
    ensures Live(a, b, x - 1, y - 1) && Dist(a, b, x - 1, y - 1) == Dist(a, b, x, y)
  {
  }

  lemma MatchRunGrows<T>(a: seq<T>, b: seq<T>, k: int, lo: nat, hi: nat)
    requires MatchRun(a, b, k, lo, hi) && k <= hi && Match(a, b, hi, hi - k)
    ensures MatchRun(a, b, k, lo, hi + 1)
  {
  }

  lemma EmptyRun<T>(a: seq<T>, b: seq<T>, k: int, x: nat)
    ensures MatchRun(a, b, k, x, x)
  {
  }

  /** One edit back from a live point is live if it is one edit cheaper. */
  lemma EditIsLive<T>(a: seq<T>, b: seq<T>, x: nat, y: nat, px: nat, py: nat)
    requires Live(a, b, x, y) && Dist(a, b, x, y) == Dist(a, b, px, py) + 1
    requires (px + 1 == x && py == y) || (px == x && py + 1 == y)
    ensures Live(a, b, px, py)
  {
    hide Dist, Rest;
    RestSteps(a, b, px, py);
    Through(a, b, px, py);
  }

  /** Every cheapest path point has a live predecessor one edit back, followed by a run of matches. */
  lemma {:induction false} LivePredecessor<T>(a: seq<T>, b: seq<T>, x: nat, y: nat)
      returns (px: nat, py: nat, sx: nat)
    requires Live(a, b, x, y) && Dist(a, b, x, y) > 0
    ensures Live(a, b, px, py) && Dist(a, b, px, py) == Dist(a, b, x, y) - 1
    ensures sx <= x && sx - (x - y) >= 0
    ensures (sx == px + 1 && sx - (x - y) == py) || (sx == px && sx - (x - y) == py + 1)
    ensures MatchRun(a, b, x - y, sx, x)
    decreases x + y
  {
    hide Live, Rest, Match, MatchRun;
    if x > 0 && y > 0 && Match(a, b, x - 1, y - 1) {
      MatchIsLive(a, b, x, y);
      px, py, sx := LivePredecessor(a, b, x - 1, y - 1);
      MatchRunGrows(a, b, x - y, sx, x - 1);
    } else if x > 0 && Dist(a, b, x, y) == 1 + Dist(a, b, x - 1, y) {
      px, py, sx := x - 1, y, x;
      EditIsLive(a, b, x, y, px, py);
      EmptyRun(a, b, x - y, x);
    } else {
      px, py, sx := x, y - 1, x;
      EditIsLive(a, b, x, y, px, py);
      EmptyRun(a, b, x - y, x);
    }
  }

  /** A cheapest path visits every cost level. */
  lemma {:induction false} LiveAtLevel<T>(a: seq<T>, b: seq<T>, x: nat, y: nat, e: nat) returns (px: nat, py: nat)
    requires Live(a, b, x, y) && e <= Dist(a, b, x, y)
    ensures Live(a, b, px, py) && Dist(a, b, px, py) == e
    decreases Dist(a, b, x, y)
  {
    px, py := x, y;
    if e < Dist(a, b, x, y) {
      var sx;
      px, py, sx := LivePredecessor(a, b, x, y);
      px, py := LiveAtLevel(a, b, px, py, e);
    }
  }

  // ----- the graph read from the far corner -----

  ghost function Reversed<T>(s: seq<T>): (r: seq<T>)
    ensures |r| == |s|
  {
    if s == [] then [] else [s[|s| - 1]] + Reversed(s[..|s| - 1])
  }

  lemma {:induction false} ReversedAt<T>(s: seq<T>, i: nat)
    requires i < |s|
    ensures Reversed(s)[i] == s[|s| - 1 - i]
  {
    if i > 0 {
      ReversedAt(s[..|s| - 1], i - 1);
    }
  }

  /** Rest is the distance of the reversed texts. */
  lemma MatchReversed<T>(a: seq<T>, b: seq<T>, x: nat, y: nat)
    ensures Match(Reversed(a), Reversed(b), x, y) <==> x < |a| && y < |b| && a[|a| - x - 1] == b[|b| - y - 1]
  {
    if x < |a| && y < |b| {
      ReversedAt(a, x);
      ReversedAt(b, y);
    }
  }

  lemma {:induction false} RestIsReversedDist<T>(a: seq<T>, b: seq<T>, x: nat, y: nat)
    requires x <= |a| && y <= |b|
    ensures Rest(a, b, x, y) == Dist(Reversed(a), Reversed(b), |a| - x, |b| - y)
    decreases |a| + |b| - x - y
  {
    hide Dist, Reversed;
    DistCell(Reversed(a), Reversed(b), |a| - x, |b| - y);
    if x < |a| && y < |b| {
      MatchReversed(a, b, |a| - x - 1, |b| - y - 1);
      DistCell(Reversed(a), Reversed(b), |a| - x - 1, |b| - y - 1);
      RestIsReversedDist(a, b, x + 1, y + 1);
      RestIsReversedDist(a, b, x + 1, y);
      RestIsReversedDist(a, b, x, y + 1);
    }
  }

  lemma ReversedTwice<T>(a: seq<T>)
    ensures Reversed(Reversed(a)) == a
  {
    forall i | 0 <= i < |a| ensures Reversed(Reversed(a))[i] == a[i] {
      ReversedAt(a, |a| - 1 - i);
      ReversedAt(Reversed(a), i);
    }
  }

  lemma ReversedCost<T>(a: seq<T>, b: seq<T>)
    ensures Cost(Reversed(a), Reversed(b)) == Cost(a, b)
    ensures Rest(a, b, 0, 0) == Cost(a, b)
  {
    var ra, rb := Reversed(a), Reversed(b);
    RestIsReversedDist(a, b, 0, 0);
    Through(a, b, 0, 0);
    RestIsReversedDist(ra, rb, 0, 0);
    Through(ra, rb, 0, 0);
    ReversedTwice(a);
    ReversedTwice(b);
  }

  /** A point is live exactly if its mirror image is. */
  lemma LiveMirror<T>(a: seq<T>, b: seq<T>, x: nat, y: nat)
    requires x <= |a| && y <= |b|
    ensures Live(a, b, x, y) <==> Live(Reversed(a), Reversed(b), |a| - x, |b| - y)
    ensures Dist(Reversed(a), Reversed(b), |a| - x, |b| - y) == Rest(a, b, x, y)
    ensures Rest(Reversed(a), Reversed(b), |a| - x, |b| - y) == Dist(a, b, x, y)
  {
    var ra, rb := Reversed(a), Reversed(b);
    var mx, my := |a| - x, |b| - y;
    assert Dist(ra, rb, mx, my) == Rest(a, b, x, y) by { RestIsReversedDist(a, b, x, y); }
    assert Rest(ra, rb, mx, my) == Dist(a, b, x, y) by {
      RestIsReversedDist(ra, rb, mx, my);
      assert |ra| - mx == x && |rb| - my == y;
      ReversedTwice(a);
      ReversedTwice(b);
    }
    assert Cost(ra, rb) == Cost(a, b) by { ReversedCost(a, b); }
  }
}
