/** What the block layer hands around: sector numbers and page segments. */
module BlockLayer {

  /** A sector_t is an unsigned 64-bit number. */
  const SECTOR_T_LIMIT: nat := 0x1_0000_0000_0000_0000

  /** One page segment of a request: where its page starts in memory, its
      length, and its offset in the page. */
  datatype Vec = Vec(page: nat, len: nat, offset: nat)
}
