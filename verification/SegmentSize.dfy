/** How data is cut into segments of at most seven bytes (core/src/sdo/mod.rs, core/src/sdo/block.rs). */
module SegmentSize {
  const SEGMENT_DATA_MAX: nat := 7

  /** How many bytes the segment starting at `pos` takes. */
  function Take(len: nat, pos: nat): (n: nat)
    requires pos <= len
    ensures pos + n <= len && n <= SEGMENT_DATA_MAX
  {
    if len - pos < SEGMENT_DATA_MAX then len - pos else SEGMENT_DATA_MAX
  }
}
