/** Block sizes in the block layer (blkedv.h.c): the logarithm loop, the shifts
    from blocks to sectors, and the test of address and length against a mask. */
module BlockSize {
  import opened Arithmetic
  import opened Bits
  import opened BlockLayer

  // ---- The logarithm loop ----

  /** `j` is the least number of halvings, at least one, that bring `size` to
      256 or below. */
  ghost predicate IsHalvings(size: nat, j: nat) {
    j >= 1 && size / Pow2(j) <= 256 && forall i :: 1 <= i < j ==> size / Pow2(i) > 256
  }

  lemma Halve(size: nat, j: nat)
    ensures size / Pow2(j) / 2 == size / Pow2(j + 1)
  {
    var p := Pow2(j);
    var q := size / p;
    assert size == q * p + size % p;
    assert q == q / 2 * 2 + q % 2;
    assert q * p == q / 2 * (2 * p) + q % 2 * p;
    assert q % 2 * p <= p;
    ModIs(size, q / 2, q % 2 * p + size % p, 2 * p);
  }

  /** blksize_bits */
  method BlksizeBits(size: nat) returns (bits: nat)
    ensures bits >= 9 && IsHalvings(size, bits - 8)
  {
    bits := 8;
    var left := size;
    ghost var j := 0;
    assert size / Pow2(0) == size;
    while true
      invariant bits == 8 + j && left == size / Pow2(j)
      invariant forall i :: 1 <= i <= j ==> size / Pow2(i) > 256
      decreases left
    {
      bits := bits + 1;
      Halve(size, j);
      left := left / 2;
      j := j + 1;
      if left <= 256 {
        break;
      }
    }
  }

  /** A power of two above 256 gives its exact logarithm. */
  lemma PowerOfTwoBits(k: nat, bits: nat)
    requires k >= 9 && bits >= 9 && IsHalvings(Pow2(k), bits - 8)
    ensures bits == k
  {
    assert Pow2(8) == 256;
    var j := bits - 8;
    if j < k - 8 {
      Quotient(k, j);
      Pow2Strict(8, k - j);
    } else if j > k - 8 {
      Quotient(k, k - 8);
    }
  }

  lemma Quotient(k: nat, j: nat)
    requires j <= k
    ensures Pow2(k) / Pow2(j) == Pow2(k - j)
  {
    Pow2Sum(k - j, j);
    ModIs(Pow2(k), Pow2(k - j), 0, Pow2(j));
  }

  // ---- From blocks to sectors ----

  /** `x << k` in the 64 bits of sector_t. */
  function ShiftLeft(x: nat, k: nat): nat {
    x * Pow2(k) % SECTOR_T_LIMIT
  }

  /** The sector range sb_issue_discard and sb_issue_zeroout hand on. */
  function SectorRange(block: nat, blocks: nat, bits: nat): (nat, nat)
    requires bits >= 9
  {
    (ShiftLeft(block, bits - 9), ShiftLeft(blocks, bits - 9))
  }

  ghost predicate InRange(x: nat, range: (nat, nat)) { range.0 <= x < range.0 + range.1 }

  lemma Distribute(a: nat, b: nat, p: nat)
    ensures (a + b) * p == a * p + b * p
  {
  }

  lemma MulMonotone(a: nat, b: nat, p: nat)
    requires a <= b
    ensures a * p <= b * p
  {
    Distribute(a, b - a, p);
  }

  lemma QuotientAtLeast(x: nat, a: nat, p: nat)
    requires p > 0
    ensures a * p <= x <==> a <= x / p
  {
    var q := x / p;
    assert x == q * p + x % p;
    if a <= q {
      MulMonotone(a, q, p);
    } else {
      MulMonotone(q + 1, a, p);
      Distribute(q, 1, p);
    }
  }

  /** Division finds the multiple of p that x lies in. */
  lemma QuotientInRange(x: nat, a: nat, n: nat, p: nat)
    requires p > 0
    ensures a * p <= x < a * p + n * p <==> a <= x / p < a + n
  {
    QuotientAtLeast(x, a, p);
    QuotientAtLeast(x, a + n, p);
    Distribute(a, n, p);
  }

  lemma ShiftWithoutWrap(x: nat, k: nat)
    requires x * Pow2(k) < SECTOR_T_LIMIT
    ensures ShiftLeft(x, k) == x * Pow2(k)
  {
  }

  /** Within 64 bits the shifts multiply. */
  lemma RangeWithoutWrap(block: nat, blocks: nat, bits: nat)
    requires bits >= 9 && (block + blocks) * Pow2(bits - 9) < SECTOR_T_LIMIT
    ensures SectorRange(block, blocks, bits) == (block * Pow2(bits - 9), blocks * Pow2(bits - 9))
  {
    MulMonotone(block, block + blocks, Pow2(bits - 9));
    MulMonotone(blocks, block + blocks, Pow2(bits - 9));
    ShiftWithoutWrap(block, bits - 9);
    ShiftWithoutWrap(blocks, bits - 9);
  }

  lemma BytesPerBlock(n: nat, bits: nat)
    requires bits >= 9
    ensures n * Pow2(bits - 9) * 512 == n * Pow2(bits)
  {
    assert Pow2(9) == 512;
    Pow2Sum(bits - 9, 9);
    assert n * (Pow2(bits - 9) * 512) == n * Pow2(bits - 9) * 512;
  }

  /** A sector lies in the sector range exactly when its block lies in the block
      range; the byte ranges are the same. */
  lemma SectorsOfBlocks(block: nat, blocks: nat, bits: nat, sector: nat)
    requires bits >= 9 && (block + blocks) * Pow2(bits - 9) < SECTOR_T_LIMIT
    ensures var r := SectorRange(block, blocks, bits);
            && r.0 * 512 == block * Pow2(bits) && r.1 * 512 == blocks * Pow2(bits)
            && (InRange(sector, r) <==> InRange(sector / Pow2(bits - 9), (block, blocks)))
  {
    RangeWithoutWrap(block, blocks, bits);
    BytesPerBlock(block, bits);
    BytesPerBlock(blocks, bits);
    QuotientInRange(sector, block, blocks, Pow2(bits - 9));
  }

  /** Block ranges that follow each other become sector ranges that follow each
      other: no sector falls between them or into both. */
  lemma AdjacentRanges(block: nat, first: nat, second: nat, bits: nat)
    requires bits >= 9 && (block + first + second) * Pow2(bits - 9) < SECTOR_T_LIMIT
    ensures var a, b := SectorRange(block, first, bits), SectorRange(block + first, second, bits);
            && a.0 + a.1 == b.0
            && SectorRange(block, first + second, bits) == (a.0, a.1 + b.1)
  {
    var p := Pow2(bits - 9);
    Distribute(block, first, p);
    Distribute(first, second, p);
    MulMonotone(block + first, block + first + second, p);
    RangeWithoutWrap(block, first, bits);
    RangeWithoutWrap(block + first, second, bits);
    assert block + (first + second) == block + first + second;
    RangeWithoutWrap(block, first + second, bits);
  }

  // ---- Alignment masks ----

  /** blk_rq_aligned, with the queue's two masks. */
  predicate RqAligned(dmaAlignment: nat, dmaPadMask: nat, addr: nat, len: nat) {
    var alignment := Or(dmaAlignment, dmaPadMask);
    And(addr, alignment) == 0 && And(len, alignment) == 0
  }

  /** Whatever the masks, a request is aligned exactly when neither its address nor
      its length has a bit of either mask. */
  lemma AlignedIffNoMaskedBit(dmaAlignment: nat, dmaPadMask: nat, addr: nat, len: nat)
    ensures RqAligned(dmaAlignment, dmaPadMask, addr, len) <==>
            && NoCommonBit(addr, dmaAlignment) && NoCommonBit(addr, dmaPadMask)
            && NoCommonBit(len, dmaAlignment) && NoCommonBit(len, dmaPadMask)
  {
    NoBitOfEither(addr, dmaAlignment, dmaPadMask);
    NoBitOfEither(len, dmaAlignment, dmaPadMask);
  }

  lemma NoBitOfEither(x: nat, a: nat, b: nat)
    ensures And(x, Or(a, b)) == 0 <==> NoCommonBit(x, a) && NoCommonBit(x, b)
  {
    AndIsZeroIff(x, Or(a, b));
    forall k: nat ensures Bit(Or(a, b), k) <==> Bit(a, k) || Bit(b, k) {
      BitOfOr(a, b, k);
    }
  }

  lemma MultipleOfLarger(x: nat, a: nat, b: nat)
    requires b <= a && x % Pow2(a) == 0
    ensures x % Pow2(b) == 0
  {
    Pow2Sum(a - b, b);
    MultipleOfProduct(x, Pow2(a - b), Pow2(b));
  }

  lemma MultipleOfProduct(x: nat, m: nat, n: nat)
    requires m > 0 && n > 0 && m * n > 0 && x % (m * n) == 0
    ensures x % n == 0
  {
    var q := x / (m * n);
    assert x == q * (m * n);
    assert q * (m * n) == (q * m) * n;
    ModIs(x, q * m, 0, n);
  }

  lemma MultipleOfBoth(x: nat, a: nat, b: nat)
    ensures x % Pow2(Max(a, b)) == 0 <==> x % Pow2(a) == 0 && x % Pow2(b) == 0
  {
    if x % Pow2(Max(a, b)) == 0 {
      MultipleOfLarger(x, Max(a, b), a);
      MultipleOfLarger(x, Max(a, b), b);
    }
  }

  lemma LowMasksTest(x: nat, a: nat, b: nat)
    ensures And(x, Or(Ones(a), Ones(b))) == 0 <==> x % Pow2(a) == 0 && x % Pow2(b) == 0
  {
    OrOfLowMasks(a, b);
    OnesArePow2(Max(a, b));
    LowMask(x, Max(a, b));
    MultipleOfBoth(x, a, b);
  }

  /** With masks of low ones, as drivers set them, a request is aligned exactly
      when address and length are multiples of both alignments. */
  lemma AlignedIffMultiples(a: nat, b: nat, addr: nat, len: nat)
    ensures RqAligned(Pow2(a) - 1, Pow2(b) - 1, addr, len) <==>
            && addr % Pow2(a) == 0 && addr % Pow2(b) == 0
            && len % Pow2(a) == 0 && len % Pow2(b) == 0
  {
    OnesArePow2(a);
    OnesArePow2(b);
    LowMasksTest(addr, a, b);
    LowMasksTest(len, a, b);
  }
}
