/** Where each target pixel of a device takes its colour from: the remapping that both
    the text path and the DRGB path of src/main.rs perform inline. */
module Remap {
  import opened Results
  import opened Mappings
  import opened Settings

  /** One pixel, as the three consecutive bytes R, G, B of a frame. */
  datatype Rgb = Rgb(r: Byte, g: Byte, b: Byte)

  const Black := Rgb(0, 0, 0)

  /** Source pixel `p` of the frame: bytes `3p`, `3p+1`, `3p+2`. */
  function PixelAt(buf: seq<Byte>, p: nat): Rgb
    requires 3 * p + 3 <= |buf|
  {
    Rgb(buf[3 * p], buf[3 * p + 1], buf[3 * p + 2])
  }

  /** Smallest target start of the table. */
  function MinTarget(ms: seq<LedMapping>): (lo: nat)
    requires |ms| > 0
    ensures forall k :: 0 <= k < |ms| ==> lo <= ms[k].targetStart
    ensures exists k :: 0 <= k < |ms| && lo == ms[k].targetStart
  {
    if |ms| == 1 then ms[0].targetStart
    else
      var rest := MinTarget(ms[1..]);
      assert forall k :: 0 < k < |ms| ==> ms[k] == ms[1..][k - 1];
      if ms[0].targetStart <= rest then ms[0].targetStart else rest
  }

  /** Largest end of a run of the table. */
  function MaxEnd(ms: seq<LedMapping>): (hi: nat)
    requires |ms| > 0
    ensures forall k :: 0 <= k < |ms| ==> End(ms[k]) <= hi
    ensures exists k :: 0 <= k < |ms| && hi == End(ms[k])
    ensures MinTarget(ms) <= hi
  {
    if |ms| == 1 then End(ms[0])
    else
      var rest := MaxEnd(ms[1..]);
      assert forall k :: 0 < k < |ms| ==> ms[k] == ms[1..][k - 1];
      if End(ms[0]) >= rest then End(ms[0]) else rest
  }

  /** The source pixel that ends up in target pixel `t`: the last mapping of the table whose
      run covers `t` decides (later writes overwrite earlier ones), and within that run the
      target offset `j` receives source pixel `sourceStart + Slot(m, j)`. */
  function SourcePixel(ms: seq<LedMapping>, t: nat): Option<nat>
    decreases |ms|
  {
    if |ms| == 0 then None
    else
      var m := ms[|ms| - 1];
      if Covers(m, t) then Some(m.sourceStart + Slot(m, t - m.targetStart))
      else SourcePixel(ms[..|ms| - 1], t)
  }

  /** A target pixel has a source exactly when some run covers it, and that source lies in
      the covering run's source range, so it is inside the frame whenever the table's reads are. */
  lemma {:induction false} SourcePixelCovered(ms: seq<LedMapping>, t: nat)
    ensures SourcePixel(ms, t).Some? <==> exists k :: 0 <= k < |ms| && Covers(ms[k], t)
    ensures SourcePixel(ms, t).Some? ==> exists k :: (0 <= k < |ms| && Covers(ms[k], t) &&
      ms[k].sourceStart <= SourcePixel(ms, t).value < ms[k].sourceStart + Len(ms[k]))
    decreases |ms|
  {
    if |ms| > 0 {
      var init := ms[..|ms| - 1];
      SourcePixelCovered(init, t);
      assert forall k :: 0 <= k < |init| ==> init[k] == ms[k];
    }
  }

  lemma SourcePixelInFrame(ms: seq<LedMapping>, t: nat, frameSize: nat)
    requires SourceInBounds(ms, frameSize)
    requires SourcePixel(ms, t).Some?
    ensures 3 * SourcePixel(ms, t).value + 3 <= frameSize
  {
    SourcePixelCovered(ms, t);
  }

  /** The `i`-th source pixel of run `k` lands at target `targetStart + Slot(i)` unless a later
      run of the table covers that target pixel too. */
  lemma {:induction false} SourcePixelOfRun(ms: seq<LedMapping>, k: nat, i: nat)
    requires k < |ms| && i < Len(ms[k])
    requires forall k' :: k < k' < |ms| ==> !Covers(ms[k'], ms[k].targetStart + Slot(ms[k], i))
    ensures SourcePixel(ms, ms[k].targetStart + Slot(ms[k], i)) == Some(ms[k].sourceStart + i)
    decreases |ms|
  {
    var m := ms[k];
    if k == |ms| - 1 {
      SlotInvolution(m, i);
    } else {
      var init := ms[..|ms| - 1];
      assert init[k] == m;
      SourcePixelOfRun(init, k, i);
    }
  }

  /** The colour of every target pixel: the covering source pixel, or black in a gap. */
  function TargetPixel(buf: seq<Byte>, ms: seq<LedMapping>, t: nat): Rgb
    requires SourceInBounds(ms, |buf|)
  {
    match SourcePixel(ms, t)
    case None => Black
    case Some(p) => SourcePixelInFrame(ms, t, |buf|); PixelAt(buf, p)
  }

  /** The `n` target pixels from `lo` on, black in gaps. */
  function Pixels(buf: seq<Byte>, ms: seq<LedMapping>, lo: nat, n: nat): (px: seq<Rgb>)
    requires SourceInBounds(ms, |buf|)
    ensures |px| == n
    ensures forall p :: 0 <= p < n ==> px[p] == TargetPixel(buf, ms, lo + p)
  {
    if n == 0 then [] else Pixels(buf, ms, lo, n - 1) + [TargetPixel(buf, ms, lo + n - 1)]
  }

  /** Source pixel `i` of a run with no later run over its target pixel is found there. */
  lemma TargetPixelOfRun(buf: seq<Byte>, ms: seq<LedMapping>, k: nat, i: nat)
    requires SourceInBounds(ms, |buf|)
    requires k < |ms| && i < Len(ms[k])
    requires forall k' :: k < k' < |ms| ==> !Covers(ms[k'], ms[k].targetStart + Slot(ms[k], i))
    ensures 3 * (ms[k].sourceStart + i) + 3 <= |buf|
    ensures TargetPixel(buf, ms, ms[k].targetStart + Slot(ms[k], i)) == PixelAt(buf, ms[k].sourceStart + i)
  {
    SourcePixelOfRun(ms, k, i);
  }

  /** A target pixel no run covers stays black. */
  lemma TargetPixelGap(buf: seq<Byte>, ms: seq<LedMapping>, t: nat)
    requires SourceInBounds(ms, |buf|)
    requires forall k :: 0 <= k < |ms| ==> !Covers(ms[k], t)
    ensures TargetPixel(buf, ms, t) == Black
  {
    SourcePixelCovered(ms, t);
  }

  /** In a table with disjoint runs (every validated table), a forward run copies source
      pixel `sourceStart + i` to target pixel `targetStart + i`. */
  lemma ForwardPlacement(buf: seq<Byte>, ms: seq<LedMapping>, k: nat, i: nat)
    requires SourceInBounds(ms, |buf|) && PairwiseDisjoint(ms)
    requires k < |ms| && i < Len(ms[k]) && !Reversed(ms[k])
    ensures 3 * (ms[k].sourceStart + i) + 3 <= |buf|
    ensures TargetPixel(buf, ms, ms[k].targetStart + i) == PixelAt(buf, ms[k].sourceStart + i)
  {
    assert Covers(ms[k], ms[k].targetStart + Slot(ms[k], i));
    TargetPixelOfRun(buf, ms, k, i);
  }

  /** In a table with disjoint runs, a reversed run places source pixel `sourceStart + i` at
      target pixel `targetStart + Len - 1 - i`: its first pixel lands on the run's last slot. */
  lemma ReversePlacement(buf: seq<Byte>, ms: seq<LedMapping>, k: nat, i: nat)
    requires SourceInBounds(ms, |buf|) && PairwiseDisjoint(ms)
    requires k < |ms| && i < Len(ms[k]) && Reversed(ms[k])
    ensures 3 * (ms[k].sourceStart + i) + 3 <= |buf|
    ensures TargetPixel(buf, ms, ms[k].targetStart + (Len(ms[k]) - 1 - i)) == PixelAt(buf, ms[k].sourceStart + i)
  {
    assert Covers(ms[k], ms[k].targetStart + Slot(ms[k], i));
    TargetPixelOfRun(buf, ms, k, i);
  }
}
