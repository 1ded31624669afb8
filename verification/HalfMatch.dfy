/** diff_halfMatch: a common substring at least half as long as the longer text. */
module HalfMatch {
  import opened DiffList
  import opened Strings

  datatype HalfMatchResult = HalfMatchResult(text1A: Text, text1B: Text, text2A: Text, text2B: Text, midCommon: Text)

  const NO_MATCH := HalfMatchResult([], [], [], [], [])

  /** The result cuts both texts around the same middle. */
  ghost predicate CutsBoth(hm: HalfMatchResult, text1: Text, text2: Text) {
    text1 == hm.text1A + hm.midCommon + hm.text1B && text2 == hm.text2A + hm.midCommon + hm.text2B
  }

  /** The texts agree on n characters around i and j, and on no more. */
  ghost predicate AgreeOn(longtext: Text, shorttext: Text, i: nat, j: nat, n: int)
    requires i <= |longtext| && j <= |shorttext|
  {
    exists p, s :: IsCommonPrefix(longtext[i..], shorttext[j..], p) && IsCommonSuffix(longtext[..i], shorttext[..j], s)
                   && n == s + p
  }

  lemma OneLength(longtext: Text, shorttext: Text, i: nat, j: nat, m: int, n: int)
    requires i <= |longtext| && j <= |shorttext| && AgreeOn(longtext, shorttext, i, j, m) && AgreeOn(longtext, shorttext, i, j, n)
    ensures m == n
  {
    var p, s :| IsCommonPrefix(longtext[i..], shorttext[j..], p) && IsCommonSuffix(longtext[..i], shorttext[..j], s) && m == s + p;
    var q, t :| IsCommonPrefix(longtext[i..], shorttext[j..], q) && IsCommonSuffix(longtext[..i], shorttext[..j], t) && n == t + q;
    OnePrefix(longtext[i..], shorttext[j..], p, q);
    OneSuffix(longtext[..i], shorttext[..j], s, t);
  }

  /** A match of the seed at i in the long text and j in the short one, grown to both sides. */
  method Grow(longtext: Text, shorttext: Text, i: nat, j: nat) returns (hm: HalfMatchResult)
    requires i <= |longtext| && j <= |shorttext|
    ensures CutsBoth(hm, longtext, shorttext) && AgreeOn(longtext, shorttext, i, j, |hm.midCommon|)
  {
    var prefix := CommonPrefix(longtext[i..], shorttext[j..]);
    var suffix := CommonSuffix(longtext[..i], shorttext[..j]);
    SameMiddle(longtext, shorttext, i, j, suffix, prefix);
    Agreeing(longtext, shorttext, i, j, suffix, prefix);
    hide IsCommonPrefix, IsCommonSuffix, AgreeOn;
    var mid := shorttext[j - suffix..j] + shorttext[j..j + prefix];
    assert |mid| == suffix + prefix;
    hm := HalfMatchResult(longtext[..i - suffix], longtext[i + prefix..], shorttext[..j - suffix], shorttext[j + prefix..], mid);
  }

  lemma Agreeing(longtext: Text, shorttext: Text, i: nat, j: nat, s: int, p: int)
    requires i <= |longtext| && j <= |shorttext|
    requires IsCommonPrefix(longtext[i..], shorttext[j..], p) && IsCommonSuffix(longtext[..i], shorttext[..j], s)
    ensures AgreeOn(longtext, shorttext, i, j, s + p)
    ensures 0 <= s <= i && s <= j && 0 <= p && i + p <= |longtext| && j + p <= |shorttext|
  {
  }

  lemma SameMiddle(a: Text, b: Text, i: nat, j: nat, s: nat, p: nat)
    requires i <= |a| && j <= |b| && IsCommonPrefix(a[i..], b[j..], p) && IsCommonSuffix(a[..i], b[..j], s)
    ensures var mid := b[j - s..j] + b[j..j + p];
            |mid| == s + p && a == a[..i - s] + mid + a[i + p..] && b == b[..j - s] + mid + b[j + p..]
  {
    assert a[i - s..i] == b[j - s..j] by {
      SliceOfTake(a, i, s);
      SliceOfTake(b, j, s);
    }
    assert a[i..i + p] == b[j..j + p] by {
      SliceOfDrop(a, i, p);
      SliceOfDrop(b, j, p);
    }
    hide IsCommonPrefix, IsCommonSuffix;
    CutAround(a, i, s, p);
    CutAround(b, j, s, p);
  }

  lemma SliceOfTake(t: Text, i: nat, s: nat)
    requires s <= i <= |t|
    ensures t[i - s..i] == t[..i][i - s..]
  {
  }

  lemma SliceOfDrop(t: Text, i: nat, p: nat)
    requires i + p <= |t|
    ensures t[i..i + p] == t[i..][..p]
  {
  }

  lemma CutAround(t: Text, i: nat, s: nat, p: nat)
    requires s <= i && i + p <= |t|
    ensures t == t[..i - s] + (t[i - s..i] + t[i..i + p]) + t[i + p..]
  {
  }

  /** The quarter-length seed at i, cut off at the end of the text. */
  function Seed(longtext: Text, i: nat): Text
    requires i <= |longtext|
  {
    longtext[i..if i + |longtext| / 4 < |longtext| then i + |longtext| / 4 else |longtext|]
  }

  /** No occurrence of the seed before `limit` grows to more than n characters. */
  ghost predicate NoneLonger(longtext: Text, shorttext: Text, i: nat, n: int, limit: int)
    requires i <= |longtext|
  {
    forall j: nat, k: int :: j < limit && Occurs(shorttext, Seed(longtext, i), j) && AgreeOn(longtext, shorttext, i, j, k) ==> k <= n
  }

  lemma OneMoreSeed(longtext: Text, shorttext: Text, i: nat, n: int, j: nat, k: int)
    requires i <= |longtext| && j <= |shorttext| && NoneLonger(longtext, shorttext, i, n, j) && AgreeOn(longtext, shorttext, i, j, k)
    ensures NoneLonger(longtext, shorttext, i, if n < k then k else n, j + 1)
  {
    forall j': nat, k': int | j' < j + 1 && Occurs(shorttext, Seed(longtext, i), j') && AgreeOn(longtext, shorttext, i, j', k')
      ensures k' <= if n < k then k else n
    {
      if j' == j {
        OneLength(longtext, shorttext, i, j, k, k');
      }
    }
  }

  /** The seed at i of the long text occurs at j of the short one, and grows to k characters there. */
  ghost predicate SeedMatch(longtext: Text, shorttext: Text, i: nat, j: nat, k: int) {
    && i <= |longtext| && j <= |shorttext|
    && Occurs(shorttext, Seed(longtext, i), j) && AgreeOn(longtext, shorttext, i, j, k)
  }

  /** diff_halfMatchI: the best match of the quarter-length seed at i of the long text. */
  method HalfMatchAt(longtext: Text, shorttext: Text, i: nat) returns (found: bool, best: HalfMatchResult)
    requires i <= |longtext|
    ensures best.midCommon != [] ==> CutsBoth(best, longtext, shorttext)
    ensures NoneLonger(longtext, shorttext, i, |best.midCommon|, |shorttext| + 1)
    ensures best == NO_MATCH || exists j :: SeedMatch(longtext, shorttext, i, j, |best.midCommon|)
    ensures found <==> 2 * |best.midCommon| >= |longtext|
  {
    hide AgreeOn;
    var seed := Seed(longtext, i);
    best := NO_MATCH;
    var j := Find(shorttext, seed, 0);
    while j != -1
      invariant j == -1 || Occurs(shorttext, seed, j)
      invariant best.midCommon != [] ==> CutsBoth(best, longtext, shorttext)
      invariant best == NO_MATCH || exists j :: SeedMatch(longtext, shorttext, i, j, |best.midCommon|)
      invariant NoneLonger(longtext, shorttext, i, |best.midCommon|, if j == -1 then |shorttext| + 1 else j)
      decreases if j == -1 then -1 else |shorttext| - j
    {
      var hm := Grow(longtext, shorttext, i, j);
      OneMoreSeed(longtext, shorttext, i, |best.midCommon|, j, |hm.midCommon|);
      if |best.midCommon| < |hm.midCommon| {
        best := hm;
        assert SeedMatch(longtext, shorttext, i, j, |best.midCommon|);
      }
      j := Find(shorttext, seed, j + 1);
    }
    found := 2 * |best.midCommon| >= |longtext|;
  }

  /** The two places where a seed is taken. */
  predicate SeedPlace(n: nat, i: int) {
    i == (n + 3) / 4 || i == (n + 1) / 2
  }

  /** A seed from one of the two places of the longer text grows to k characters, at least half of it. */
  ghost predicate LongMatch(longtext: Text, shorttext: Text, k: int) {
    && 4 <= |longtext| <= 2 * |shorttext| && |longtext| <= 2 * k
    && exists i: nat, j: nat :: SeedPlace(|longtext|, i) && SeedMatch(longtext, shorttext, i, j, k)
  }

  /** The same, whichever text is longer. */
  ghost predicate HalfMatched(text1: Text, text2: Text, k: int) {
    if |text1| > |text2| then LongMatch(text1, text2, k) else LongMatch(text2, text1, k)
  }

  /** What the two seeds found are all the matches there are. */
  lemma NothingLonger(longtext: Text, shorttext: Text, n1: int, n2: int)
    requires 4 <= |longtext| <= 2 * |shorttext|
    requires NoneLonger(longtext, shorttext, (|longtext| + 3) / 4, n1, |shorttext| + 1)
    requires NoneLonger(longtext, shorttext, (|longtext| + 1) / 2, n2, |shorttext| + 1)
    ensures forall k :: LongMatch(longtext, shorttext, k) ==> k <= n1 || k <= n2
  {
    hide AgreeOn;
    forall k | LongMatch(longtext, shorttext, k) ensures k <= n1 || k <= n2 {
      var i: nat, j: nat :| SeedPlace(|longtext|, i) && SeedMatch(longtext, shorttext, i, j, k);
    }
  }

  lemma FoundIsMatch(longtext: Text, shorttext: Text, i: nat, k: int)
    requires 4 <= |longtext| <= 2 * |shorttext| && |longtext| <= 2 * k && SeedPlace(|longtext|, i)
    requires exists j :: SeedMatch(longtext, shorttext, i, j, k)
    ensures LongMatch(longtext, shorttext, k)
  {
    hide AgreeOn;
    var j :| SeedMatch(longtext, shorttext, i, j, k);
    assert SeedPlace(|longtext|, i) && SeedMatch(longtext, shorttext, i, j, k);
  }

  /** diff_halfMatch: finds the longest match that one of the two seeds grows to, exactly if one of them is half of
      the longer text. */
  method FindHalfMatch(text1: Text, text2: Text) returns (found: bool, hm: HalfMatchResult)
    ensures found ==> CutsBoth(hm, text1, text2) && hm.midCommon != []
    ensures found ==> 2 * |hm.midCommon| >= |text1| && 2 * |hm.midCommon| >= |text2|
    ensures found ==> HalfMatched(text1, text2, |hm.midCommon|)
    ensures forall k :: HalfMatched(text1, text2, k) ==> found && k <= |hm.midCommon|
  {
    hide NoneLonger, SeedMatch, LongMatch;
    hm := NO_MATCH;
    var longtext := if |text1| > |text2| then text1 else text2;
    var shorttext := if |text1| > |text2| then text2 else text1;
    if |longtext| < 4 || |shorttext| * 2 < |longtext| {
      NoLongMatch(longtext, shorttext);
      return false, hm;  // No middle can be half of the longer text.
    }
    // Seeds from the second and from the third quarter.
    var hm1, res1 := HalfMatchAt(longtext, shorttext, (|longtext| + 3) / 4);
    var hm2, res2 := HalfMatchAt(longtext, shorttext, (|longtext| + 1) / 2);
    NothingLonger(longtext, shorttext, |res1.midCommon|, |res2.midCommon|);
    LongIsHalf(longtext, shorttext);
    if !hm1 && !hm2 {
      return false, hm;
    } else if !hm2 {
      hm := res1;
    } else if !hm1 {
      hm := res2;
    } else {
      hm := if |res1.midCommon| > |res2.midCommon| then res1 else res2;
    }
    if hm == res1 {
      FoundIsMatch(longtext, shorttext, (|longtext| + 3) / 4, |hm.midCommon|);
    } else {
      FoundIsMatch(longtext, shorttext, (|longtext| + 1) / 2, |hm.midCommon|);
    }
    // The result names the texts in the order of the call.
    if |text1| <= |text2| {
      hm := HalfMatchResult(hm.text2A, hm.text2B, hm.text1A, hm.text1B, hm.midCommon);
    }
    found := true;
  }

  lemma NoLongMatch(longtext: Text, shorttext: Text)
    requires |longtext| < 4 || |shorttext| * 2 < |longtext|
    ensures forall k :: !LongMatch(longtext, shorttext, k)
  {
  }

  lemma LongIsHalf(longtext: Text, shorttext: Text)
    ensures forall k :: LongMatch(longtext, shorttext, k) ==> |longtext| <= 2 * k
  {
  }
}
