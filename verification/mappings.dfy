/** The pixel mapping of one device (`LedMapping` in src/settings.rs) and the small
    vocabulary every other module uses to talk about it. */
module Mappings {
  import opened Results

  /** One byte of a received frame or of an outgoing packet. */
  type Byte = b: int | 0 <= b < 256

  /** First value that no longer fits in a Rust `u16`. */
  const U16_LIMIT: nat := 0x1_0000

  /** A contiguous run of source pixels copied to a contiguous run of target pixels.
      `length` defaults to 1 and `reverse` to false when left out of the configuration. */
  datatype LedMapping = LedMapping(
    sourceStart: nat,
    targetStart: nat,
    length: Option<nat>,
    reverse: Option<bool>)

  /** Number of pixels the mapping moves (`length.unwrap_or(1)`). */
  function Len(m: LedMapping): nat {
    m.length.GetOr(1)
  }

  /** Whether the run is placed back to front on the target side (`reverse.unwrap_or(false)`). */
  predicate Reversed(m: LedMapping) {
    m.reverse.GetOr(false)
  }

  /** One past the last target pixel of the run. */
  function End(m: LedMapping): nat {
    m.targetStart + Len(m)
  }

  /** Target pixel `t` lies in the run of `m`. */
  predicate Covers(m: LedMapping, t: int) {
    m.targetStart <= t < End(m)
  }

  /** Every `u16` field, and the `u16` sum `target_start + length`, stay below 2^16. */
  predicate FitsU16(m: LedMapping) {
    m.sourceStart < U16_LIMIT && End(m) < U16_LIMIT
  }

  predicate AllFitU16(ms: seq<LedMapping>) {
    forall k :: 0 <= k < |ms| ==> FitsU16(ms[k])
  }

  /** One past the last source pixel the run reads; an empty run reads nothing. */
  function ReadEnd(m: LedMapping): nat {
    if Len(m) == 0 then 0 else m.sourceStart + Len(m)
  }

  /** A frame of `frameSize` bytes holds every source pixel the run reads:
      `(source_start + length) * 3 <= |buf|` unless the run is empty. */
  predicate ReadsInFrame(m: LedMapping, frameSize: nat) {
    3 * ReadEnd(m) <= frameSize
  }

  /** Every mapping of the table reads inside the frame. */
  predicate SourceInBounds(ms: seq<LedMapping>, frameSize: nat) {
    forall k :: 0 <= k < |ms| ==> ReadsInFrame(ms[k], frameSize)
  }

  /** Offset inside the target run at which the `i`-th source pixel of the run is placed:
      the source is always read forward, only the placement flips when reversed. */
  function Slot(m: LedMapping, i: nat): (j: nat)
    requires i < Len(m)
    ensures j < Len(m)
  {
    if Reversed(m) then Len(m) - 1 - i else i
  }

  /** Placement is its own inverse, so every target offset of the run is written exactly once. */
  lemma SlotInvolution(m: LedMapping, i: nat)
    requires i < Len(m)
    ensures Slot(m, Slot(m, i)) == i
  {
  }

  lemma SlotInjective(m: LedMapping, i: nat, i': nat)
    requires i < Len(m) && i' < Len(m)
    ensures Slot(m, i) == Slot(m, i') <==> i == i'
  {
  }
}
