/** What the constructor of a save decides before the first write: the form of the object and the block size of
    its signature, from the size of the file and the settings. */
module SaveChoices {
  const THRESHOLD_DELTA := 581
  const THRESHOLD_ZLIB := 220

  datatype Settings = Settings(zlib: bool, rawContent: bool, embedSignature: bool, localSignature: bool)

  datatype Choice = Choice(raw: bool, noSignature: bool, useZlib: bool, writeSignature: bool, bsnt: nat)

  /** lround(sqrt(n)): the root is never half-way between two integers. */
  function RoundedRoot(n: nat): (r: nat)
    ensures n <= r * r + r && (n > 0 ==> 0 < r && r * r < n + r)
  {
    if n == 0 then 0
    else
      var r := RoundedRoot(n - 1);
      if n <= r * r + r then r else r + 1
  }

  lemma RootIs(n: nat, r: nat)
    requires 0 < n && r * r < n + r && n <= r * r + r
    ensures RoundedRoot(n) == r
  {
    var q := RoundedRoot(n);
    if q < r {
      RootGap(q, r);
    } else if r < q {
      RootGap(r, q);
    }
  }

  lemma RootGap(q: nat, r: nat)
    requires q < r
    ensures q * q + q <= r * r - r
  {
    assert r * r - r - q * q - q == (r + q) * (r - 1 - q);
  }

  /** The block size; a signature that is embedded has larger blocks. */
  function BlockSize(size: nat, embed: bool): (b: nat)
    ensures 0 < b
  {
    RoundedRoot((if embed then 12 else 4) * size + 2) + 1
  }

  /** The choices.  `delta` is what chance, the policy on chains of deltas and the parent's signature allow;
      `signed` says that the caller brought the parent's signature along. */
  function Choose(s: Settings, size: nat, hasParent: bool, signed: bool, delta: bool): Choice {
    var small := BlockSize(size, false) > size || size <= THRESHOLD_DELTA;
    var noSignature := small || s.rawContent;
    var embed := !noSignature && s.embedSignature && !(signed && s.localSignature);
    Choice(small || !hasParent || s.rawContent || !delta, noSignature, size > THRESHOLD_ZLIB && s.zlib, embed,
           BlockSize(size, embed))
  }

  /** Whatever is chosen: the blocks fit the file if there is a signature, there is one if it is embedded, and a
      delta is only made of a file above the threshold that has a parent. */
  lemma ChoicesFit(s: Settings, size: nat, hasParent: bool, signed: bool, delta: bool)
    ensures var c := Choose(s, size, hasParent, signed, delta);
            && (c.writeSignature ==> !c.noSignature) && (!c.noSignature ==> 2 <= c.bsnt <= size)
            && (!c.raw ==> THRESHOLD_DELTA < size && hasParent && !c.noSignature)
  {
    if THRESHOLD_DELTA < size {
      BlocksFit(size, false);
      BlocksFit(size, true);
    }
  }

  lemma RootBelow(n: nat, b: nat)
    requires 0 < n && n <= b * b - b
    ensures RoundedRoot(n) < b
  {
    var r := RoundedRoot(n);
    if b < r {
      RootGap(b, r);
    }
  }

  lemma BlocksFit(size: nat, embed: bool)
    requires THRESHOLD_DELTA < size
    ensures 2 <= BlockSize(size, embed) <= size
  {
    var n := (if embed then 12 else 4) * size + 2;
    assert 14 * size <= size * size;
    RootBelow(n, size);
  }

  /** The block size of a file below 2^55 bytes is a 32-bit number. */
  lemma BlockSizeBound(size: nat, embed: bool)
    requires size < 0x80_0000_0000_0000
    ensures BlockSize(size, embed) < 0x1_0000_0000
  {
    RootBelow((if embed then 12 else 4) * size + 2, 0xFFFF_FFFF);
  }

  lemma BlockSizeIs(size: nat, embed: bool, r: nat)
    requires var n := (if embed then 12 else 4) * size + 2; r * r < n + r && n <= r * r + r
    ensures BlockSize(size, embed) == r + 1
  {
    RootIs((if embed then 12 else 4) * size + 2, r);
  }
}
