/** The alignment arithmetic of the block layer (blkedv.h.c), in the 32-bit
    unsigned arithmetic of the source. */
module Alignment {
  import opened Arithmetic

  const WORD: nat := 0x1_0000_0000
  type U32 = x: nat | x < 0x1_0000_0000

  datatype QueueLimits = QueueLimits(
    physicalBlockSize: U32, ioMin: U32, alignmentOffset: U32,
    maxDiscardSectors: U32, discardGranularity: U32, discardAlignment: U32)

  /** Reduction to 32 bits: what an unsigned operation leaves. */
  function Wrap(x: int): (r: U32)
    ensures 0 <= x < WORD ==> r == x
  {
    x % 0x1_0000_0000
  }

  /** The conversion from unsigned int to the returned int. */
  function ToInt(x: U32): (r: int)
    ensures x < 0x8000_0000 ==> r == x
  {
    if x < 0x8000_0000 then x else x - 0x1_0000_0000
  }

  function Granularity(lim: QueueLimits): U32 {
    if lim.physicalBlockSize > lim.ioMin then lim.physicalBlockSize else lim.ioMin
  }

  /** queue_limit_alignment_offset, before the conversion to int. The sector
      division needs a granularity of at least one sector. */
  function AlignmentOffset(lim: QueueLimits, sector: nat): (r: U32)
    requires Granularity(lim) >= 512
  {
    var granularity := Granularity(lim);
    var alignment := Wrap(sector % (granularity / 512) * 512);
    Wrap(Wrap(granularity + lim.alignmentOffset) - alignment) % granularity
  }

  /** queue_limit_discard_alignment, before the conversion to int. */
  function DiscardAlignment(lim: QueueLimits, sector: nat): (r: U32) {
    if lim.maxDiscardSectors == 0 then 0 else
      var alignment := lim.discardAlignment / 512;
      var granularity := lim.discardGranularity / 512;
      if granularity == 0 then 0 else
        var offset := sector % granularity;
        Wrap(Wrap(Wrap(Wrap(granularity + alignment) - offset) % granularity) * 512)
  }

  // ---- What the offset is for ----

  /** `r` units after `start` lies a unit congruent to `offset`. */
  predicate Hits(r: nat, start: nat, offset: nat, granularity: nat)
    requires granularity > 0
  {
    (start + r) % granularity == offset % granularity
  }

  /** `r` is the least distance from `start` to a unit congruent to `offset`. */
  ghost predicate IsLeastDistance(r: nat, start: nat, offset: nat, granularity: nat)
    requires granularity > 0
  {
    Hits(r, start, offset, granularity) && forall r': nat :: r' < r ==> !Hits(r', start, offset, granularity)
  }

  /** Within one granule the distance is unique, hence the least one. */
  lemma LeastByCongruence(r: nat, start: nat, offset: nat, g: nat)
    requires g > 0 && r < g
    ensures IsLeastDistance(r, start, offset, g) <==> Hits(r, start, offset, g)
  {
    if Hits(r, start, offset, g) {
      forall r': nat | r' < r ensures !Hits(r', start, offset, g) {
        DifferentWithinGranule(start + r', start + r, g);
      }
    }
  }

  lemma DifferentWithinGranule(x: nat, y: nat, g: nat)
    requires g > 0 && x < y < x + g
    ensures x % g != y % g
  {
    SameMod(y, x, g);
    ModIs(y - x, 0, y - x, g);
  }

  /** Taking the remainder in sectors and in bytes is the same thing. */
  lemma ScaleMod(sector: nat, n: nat)
    requires n > 0
    ensures sector % n * 512 == sector * 512 % (n * 512)
  {
    var q := sector / n;
    assert sector * 512 == q * (n * 512) + sector % n * 512;
    ModIs(sector * 512, q, sector % n * 512, n * 512);
  }

  // ---- The alignment offset ----

  /** `g` is the larger of the two granularities that the limits name. */
  ghost predicate IsGranularity(lim: QueueLimits, g: nat) {
    && g >= lim.physicalBlockSize && g >= lim.ioMin
    && (g == lim.physicalBlockSize || g == lim.ioMin)
  }

  /** For a granularity of whole sectors the returned offset is the least
      distance to an aligned byte exactly when the sum does not leave 32 bits
      or the granularity divides 2^32; the int that is returned is the offset
      itself for granularities up to 2^31. */
  lemma AlignmentOffsetIff(lim: QueueLimits, sector: nat, g: nat)
    requires IsGranularity(lim, g) && g >= 512 && g % 512 == 0
    ensures var r := AlignmentOffset(lim, sector);
            && r < g
            && (IsLeastDistance(r, sector * 512, lim.alignmentOffset, g)
                <==> g + lim.alignmentOffset - sector * 512 % g < 0x1_0000_0000 || 0x1_0000_0000 % g == 0)
            && ((sector * 512 + r) % g == lim.alignmentOffset % g
                <==> IsLeastDistance(r, sector * 512, lim.alignmentOffset, g))
            && (g <= 0x8000_0000 ==> ToInt(r) == r)
  {
    assert g == Granularity(lim);
    ScaleMod(sector, g / 512);
    WrapDifference(g + lim.alignmentOffset, sector * 512 % g);
    WrappedSumHitsIff(sector * 512, lim.alignmentOffset, g);
    LeastByCongruence(AlignmentOffset(lim, sector), sector * 512, lim.alignmentOffset, g);
  }

  lemma WrappedSumHitsIff(start: nat, ao: U32, g: U32)
    requires g > 0
    ensures var sum := g + ao - start % g;
            IsLeastDistance(Wrap(sum) % g, start, ao, g) <==> sum < WORD || WORD % g == 0
  {
    var sum := g + ao - start % g;
    var r := Wrap(sum) % g;
    LeastByCongruence(r, start, ao, g);
    ModAdd(start, Wrap(sum), g);
    SumCongruent(start, ao, g);
    if sum >= WORD {
      ModIs(sum, 1, sum - WORD, WORD);
      SameMod(start + sum, start + sum - WORD, g);
    }
  }

  lemma WrapDifference(x: nat, y: nat)
    ensures Wrap(Wrap(x) - y) == Wrap(x - y)
  {
    var q := x / WORD;
    assert x - y == Wrap(x) - y + q * WORD;
    ModShift(Wrap(x) - y, q, WORD);
  }

  lemma SumCongruent(start: nat, ao: nat, g: nat)
    requires g > 0
    ensures (start + (g + ao - start % g)) % g == ao % g
  {
    var q := start / g;
    assert start + (g + ao - start % g) == ao + (q + 1) * g;
    ModShift(ao, q + 1, g);
  }

  lemma SixteenBits()
    ensures Pow2(16) == 0x1_0000
  {
    assert Pow2(8) == 256;
    Pow2Sum(8, 8);
  }

  lemma HalfAWord()
    ensures Pow2(31) == 0x8000_0000
  {
    SixteenBits();
    Pow2Sum(15, 16);
    assert 2 * Pow2(15) == Pow2(16);
  }

  lemma Word()
    ensures Pow2(32) == WORD
  {
    SixteenBits();
    Pow2Sum(16, 16);
  }

  lemma PowersOfTwo(k: nat)
    requires k <= 31 && Pow2(k) >= 512
    ensures Pow2(k) % 512 == 0 && WORD % Pow2(k) == 0 && Pow2(k) <= 0x8000_0000
  {
    assert Pow2(8) == 256 && Pow2(9) == 512;
    HalfAWord();
    Word();
    Pow2Monotone(k, 31);
    if k < 9 {
      Pow2Monotone(k, 8);
    }
    Pow2Divides(9, k);
    Pow2Divides(k, 32);
  }

  /** So a power of two as granularity is always good, whether or not the sum
      wraps; the int that is returned is the offset itself up to 2^31. */
  lemma PowerOfTwoAlignment(lim: QueueLimits, sector: nat, k: nat)
    requires k <= 31 && IsGranularity(lim, Pow2(k)) && Pow2(k) >= 512
    ensures var r := AlignmentOffset(lim, sector);
            && ToInt(r) == r < Pow2(k)
            && IsLeastDistance(r, sector * 512, lim.alignmentOffset, Pow2(k))
  {
    PowersOfTwo(k);
    AlignmentOffsetIff(lim, sector, Pow2(k));
  }

  // ---- The discard alignment ----

  /** With discard enabled and a granularity of at least one sector, no step
      leaves 32 bits, and the result is, in bytes, the least distance to an
      aligned sector, both limits rounded down to whole sectors. */
  lemma DiscardIsLeast(lim: QueueLimits, sector: nat) returns (r: nat)
    requires lim.maxDiscardSectors != 0 && lim.discardGranularity >= 512
    ensures var g, a := lim.discardGranularity / 512, lim.discardAlignment / 512;
            && DiscardAlignment(lim, sector) == r * 512 < g * 512 <= lim.discardGranularity
            && r < g && IsLeastDistance(r, sector, a, g)
    ensures lim.discardGranularity <= 0x8000_0000 ==>
              ToInt(DiscardAlignment(lim, sector)) == DiscardAlignment(lim, sector)
  {
    var g, a := lim.discardGranularity / 512, lim.discardAlignment / 512;
    r := (g + a - sector % g) % g;
    WrappedSumHitsIff(sector, a, g);
    DiscardInSectors(lim, sector);
  }

  /** Without discard, or with a granularity below one sector, there is no offset. */
  lemma NoDiscard(lim: QueueLimits, sector: nat)
    requires lim.maxDiscardSectors == 0 || lim.discardGranularity < 512
    ensures DiscardAlignment(lim, sector) == 0
  {
  }

  lemma DiscardInSectors(lim: QueueLimits, sector: nat)
    requires lim.maxDiscardSectors != 0 && lim.discardGranularity >= 512
    ensures var g, a := lim.discardGranularity / 512, lim.discardAlignment / 512;
            && g + a < WORD
            && DiscardAlignment(lim, sector) == (g + a - sector % g) % g * 512
  {
    var g, a := lim.discardGranularity / 512, lim.discardAlignment / 512;
    assert g < 0x80_0000 && a < 0x80_0000;
    assert (g + a - sector % g) % g < g;
  }

  /** When both limits are whole sectors it is the least distance in bytes. */
  lemma DiscardIsLeastInBytes(lim: QueueLimits, sector: nat)
    requires lim.maxDiscardSectors != 0 && lim.discardGranularity >= 512
    requires lim.discardGranularity % 512 == 0 && lim.discardAlignment % 512 == 0
    ensures IsLeastDistance(DiscardAlignment(lim, sector), sector * 512, lim.discardAlignment, lim.discardGranularity)
  {
    var g, a := lim.discardGranularity / 512, lim.discardAlignment / 512;
    var r := DiscardIsLeast(lim, sector);
    LeastInBytes(r, sector, a, g);
    assert g * 512 == lim.discardGranularity && a * 512 == lim.discardAlignment;
  }

  lemma LeastInBytes(r: nat, sector: nat, a: nat, g: nat)
    requires g > 0 && r < g && Hits(r, sector, a, g)
    ensures IsLeastDistance(r * 512, sector * 512, a * 512, g * 512)
  {
    HitsInBytes(r, sector, a, g);
    LeastByCongruence(r * 512, sector * 512, a * 512, g * 512);
  }

  lemma HitsInBytes(r: nat, sector: nat, a: nat, g: nat)
    requires g > 0 && Hits(r, sector, a, g)
    ensures Hits(r * 512, sector * 512, a * 512, g * 512)
  {
    ScaleMod(sector + r, g);
    ScaleMod(a, g);
  }

  lemma LeastIsUnique(r: nat, d: nat, start: nat, offset: nat, g: nat)
    requires g > 0 && IsLeastDistance(d, start, offset, g)
    ensures r == d <==> IsLeastDistance(r, start, offset, g)
  {
  }

  /** So it agrees with the byte formula exactly where that one is right. */
  lemma DiscardIsAlignmentOffset(lim: QueueLimits, sector: nat, bytes: QueueLimits)
    requires lim.maxDiscardSectors != 0 && lim.discardGranularity >= 512
    requires lim.discardGranularity % 512 == 0 && lim.discardAlignment % 512 == 0
    requires IsGranularity(bytes, lim.discardGranularity) && bytes.alignmentOffset == lim.discardAlignment
    ensures var g, a := lim.discardGranularity, lim.discardAlignment;
            DiscardAlignment(lim, sector) == AlignmentOffset(bytes, sector)
            <==> g + a - sector * 512 % g < WORD || WORD % g == 0
  {
    DiscardIsLeastInBytes(lim, sector);
    AlignmentOffsetIff(bytes, sector, lim.discardGranularity);
    LeastIsUnique(AlignmentOffset(bytes, sector), DiscardAlignment(lim, sector),
                  sector * 512, lim.discardAlignment, lim.discardGranularity);
  }
}
