/** The DRGB path of src/main.rs (the `for wled in settings.wleds` loop): every frame, each
    WLED device gets one UDP datagram in WLED's DRGB realtime format, a two-byte header
    followed by three bytes R, G, B for every LED from index 0 up to the table's largest end. */
module Drgb {
  import opened Results
  import opened Mappings
  import opened Remap

  /** Header byte 0: the DRGB protocol number. */
  const DRGB_PROTOCOL: Byte := 2
  /** Header byte 1: seconds the device waits before leaving realtime mode. */
  const TIMEOUT_SECONDS: Byte := 1

  /** The datagram for the given LEDs, LED `p` at bytes `3p + 2 .. 3p + 5`. */
  function Encode(px: seq<Rgb>): (packet: seq<Byte>)
    ensures |packet| == 2 + 3 * |px|
    ensures packet[0] == DRGB_PROTOCOL && packet[1] == TIMEOUT_SECONDS
  {
    if |px| == 0 then [DRGB_PROTOCOL, TIMEOUT_SECONDS]
    else
      var c := px[|px| - 1];
      Encode(px[..|px| - 1]) + [c.r, c.g, c.b]
  }

  /** The LEDs of a run of R, G, B triples. */
  function Triples(bytes: seq<Byte>): (px: seq<Rgb>)
    requires |bytes| % 3 == 0
    ensures 3 * |px| == |bytes|
    decreases |bytes|
  {
    if |bytes| == 0 then []
    else
      var n := |bytes|;
      Triples(bytes[..n - 3]) + [Rgb(bytes[n - 3], bytes[n - 2], bytes[n - 1])]
  }

  /** Reads a datagram back: `None` unless it has the DRGB header and whole triples. */
  function Decode(packet: seq<Byte>): Option<seq<Rgb>>
  {
    if |packet| < 2 || packet[0] != DRGB_PROTOCOL || packet[1] != TIMEOUT_SECONDS
       || (|packet| - 2) % 3 != 0
    then None
    else Some(Triples(packet[2..]))
  }

  /** Decoding an encoded datagram gives back its LEDs. */
  lemma {:induction false} DecodeEncode(px: seq<Rgb>)
    ensures Decode(Encode(px)) == Some(px)
    decreases |px|
  {
    if |px| > 0 {
      var init := px[..|px| - 1];
      var c := px[|px| - 1];
      DecodeEncode(init);
      var packet := Encode(px);
      assert packet[2..][..|packet| - 5] == Encode(init)[2..];
      assert px == init + [c];
    }
  }

  /** Every datagram `Decode` accepts is the encoding of what it decodes to. */
  lemma {:induction false} EncodeDecode(packet: seq<Byte>)
    requires Decode(packet).Some?
    ensures Encode(Decode(packet).value) == packet
    decreases |packet|
  {
    if |packet| > 2 {
      var n := |packet|;
      var init := packet[..n - 3];
      assert init[2..] == packet[2..][..n - 5];
      EncodeDecode(init);
      var px := Triples(packet[2..]);
      assert px[..|px| - 1] == Triples(init[2..]);
      assert packet == init + [packet[n - 3], packet[n - 2], packet[n - 1]];
    }
  }

  /** Each LED's bytes sit at offset `3p + 2` of the datagram. */
  lemma {:induction false} EncodeLed(px: seq<Rgb>, p: nat)
    requires p < |px|
    ensures Encode(px)[3 * p + 2 .. 3 * p + 5] == [px[p].r, px[p].g, px[p].b]
    decreases |px|
  {
    var init := px[..|px| - 1];
    if p < |px| - 1 {
      EncodeLed(init, p);
      assert Encode(px)[..3 * |init| + 2] == Encode(init);
    }
  }

  /** Overwriting one LED overwrites exactly its three bytes of the datagram. */
  lemma {:induction false} EncodeUpdate(px: seq<Rgb>, p: nat, c: Rgb)
    requires p < |px|
    ensures Encode(px[p := c]) == Encode(px)[..3 * p + 2] + [c.r, c.g, c.b] + Encode(px)[3 * p + 5..]
    decreases |px|
  {
    var n := |px|;
    var init := px[..n - 1];
    var last := px[n - 1];
    if p == n - 1 {
      assert px[p := c][..n - 1] == init;
      assert Encode(px)[..3 * p + 2] == Encode(init);
    } else {
      assert px[p := c][..n - 1] == init[p := c];
      assert px[p := c][n - 1] == last;
      EncodeUpdate(init, p, c);
      assert Encode(px)[..3 * (n - 1) + 2] == Encode(init);
    }
  }

  /** Copying the three bytes of source pixel `src` over LED `p` of a datagram sets that LED. */
  lemma CopyPixel(px: seq<Rgb>, buf: seq<Byte>, src: nat, p: nat)
    requires p < |px| && 3 * src + 3 <= |buf|
    ensures Encode(px[p := PixelAt(buf, src)]) == CopyLed(Encode(px), buf, 3 * src, 3 * p + 2)
  {
    var c := PixelAt(buf, src);
    assert buf[src * 3..src * 3 + 3] == [c.r, c.g, c.b];
    EncodeUpdate(px, p, c);
  }

  /** A datagram of `n` black LEDs: the header, then zero bytes. */
  lemma {:induction false} EncodeBlack(n: nat)
    ensures Encode(seq(n, _ => Black)) == [DRGB_PROTOCOL, TIMEOUT_SECONDS] + seq(3 * n, _ => 0)
    decreases n
  {
    if n > 0 {
      var px := seq(n, _ => Black);
      assert px[..n - 1] == seq(n - 1, _ => Black);
      EncodeBlack(n - 1);
      assert seq(3 * n, _ => 0) == seq(3 * (n - 1), _ => 0) + [0, 0, 0];
    }
  }

  /** The datagram a device gets for a frame: every LED from 0 to the table's largest end,
      each with the colour of its target pixel (black where no run lands). */
  function Frame(buf: seq<Byte>, ms: seq<LedMapping>): seq<Byte>
    requires |ms| > 0 && SourceInBounds(ms, |buf|)
  {
    Encode(Pixels(buf, ms, 0, MaxEnd(ms)))
  }

  /** The pixel a run writes to target pixel `t` of its own range. */
  function RunPixel(buf: seq<Byte>, m: LedMapping, t: nat): Rgb
    requires Covers(m, t) && ReadsInFrame(m, |buf|)
  {
    PixelAt(buf, m.sourceStart + Slot(m, t - m.targetStart))
  }

  /** Writing run `k` over the pixels of the first `k` runs gives the pixels of the first
      `k + 1`: the new run decides every pixel it covers, the others keep theirs. */
  lemma PixelsExtend(buf: seq<Byte>, ms: seq<LedMapping>, k: nat, lo: nat, out: seq<Rgb>)
    requires SourceInBounds(ms, |buf|) && k < |ms|
    requires SourceInBounds(ms[..k], |buf|)
    requires forall p :: 0 <= p < |out| ==>
      out[p] == (if Covers(ms[k], lo + p) then RunPixel(buf, ms[k], lo + p) else Pixels(buf, ms[..k], lo, |out|)[p])
    ensures SourceInBounds(ms[..k + 1], |buf|)
    ensures out == Pixels(buf, ms[..k + 1], lo, |out|)
  {
    assert ms[..k + 1][..k] == ms[..k];
    var next := Pixels(buf, ms[..k + 1], lo, |out|);
    forall p | 0 <= p < |out|
      ensures out[p] == next[p]
    {
    }
  }

  /** The LEDs after the first `i` steps of writing run `m`: step `i` puts source pixel
      `sourceStart + i` on target pixel `targetStart + Slot(m, i)`. */
  ghost function RunWritten(px: seq<Rgb>, buf: seq<Byte>, m: LedMapping, i: nat): (qx: seq<Rgb>)
    requires End(m) <= |px| && i <= Len(m) && ReadsInFrame(m, |buf|)
    ensures |qx| == |px|
  {
    if i == 0 then px
    else RunWritten(px, buf, m, i - 1)[m.targetStart + Slot(m, i - 1) := PixelAt(buf, m.sourceStart + i - 1)]
  }

  /** After `i` steps exactly the pixels of the run whose slot is below `i` hold the run's
      colour; every other pixel is unchanged. */
  lemma {:induction false} RunWrittenPixels(px: seq<Rgb>, buf: seq<Byte>, m: LedMapping, i: nat)
    requires End(m) <= |px| && i <= Len(m) && ReadsInFrame(m, |buf|)
    ensures forall p :: 0 <= p < |px| ==>
      RunWritten(px, buf, m, i)[p] ==
        (if Covers(m, p) && Slot(m, p - m.targetStart) < i then RunPixel(buf, m, p) else px[p])
  {
    if i > 0 {
      RunWrittenPixels(px, buf, m, i - 1);
      var t := m.targetStart + Slot(m, i - 1);
      SlotInvolution(m, i - 1);
      forall p | 0 <= p < |px| && Covers(m, p)
        ensures Slot(m, p - m.targetStart) == i - 1 <==> p == t
      {
        SlotInvolution(m, p - m.targetStart);
      }
    }
  }

  /** After the whole run every pixel it covers holds its colour; the rest are unchanged. */
  lemma RunWrittenAll(px: seq<Rgb>, buf: seq<Byte>, m: LedMapping)
    requires End(m) <= |px| && ReadsInFrame(m, |buf|)
    ensures forall p :: 0 <= p < |px| ==>
      RunWritten(px, buf, m, Len(m))[p] == (if Covers(m, p) then RunPixel(buf, m, p) else px[p])
  {
    RunWrittenPixels(px, buf, m, Len(m));
  }

  /** `out` with the three bytes at `target` replaced by the three bytes of `buf` at `source`
      (the `copy_from_slice` of the inner loop). */
  function CopyLed(out: seq<Byte>, buf: seq<Byte>, source: nat, target: nat): (next: seq<Byte>)
    requires target + 3 <= |out| && source + 3 <= |buf|
    ensures |next| == |out|
  {
    out[..target] + buf[source..source + 3] + out[target + 3..]
  }

  /** One step of the inner loop copies the step's three source bytes over its LED. */
  lemma WriteStep(px: seq<Rgb>, buf: seq<Byte>, m: LedMapping, i: nat, out: seq<Byte>, source: nat, target: nat)
    requires End(m) <= |px| && i < Len(m) && ReadsInFrame(m, |buf|)
    requires out == Encode(RunWritten(px, buf, m, i))
    requires source == m.sourceStart * 3 + i * 3 && target == (m.targetStart + Slot(m, i)) * 3 + 2
    ensures target + 3 <= |out| && source + 3 <= |buf|
    ensures CopyLed(out, buf, source, target) == Encode(RunWritten(px, buf, m, i + 1))
  {
    var before := RunWritten(px, buf, m, i);
    var src, led := m.sourceStart + i, m.targetStart + Slot(m, i);
    assert source == 3 * src && target == 3 * led + 2;
    var after := before[led := PixelAt(buf, src)];
    assert RunWritten(px, buf, m, i + 1) == after;
    CopyPixel(before, buf, src, led);
    assert CopyLed(out, buf, source, target) == Encode(after);
  }

  /** Copies one run into the datagram, as the inner `for (i, j) in range.enumerate()` loop
      does: the three bytes of source pixel `sourceStart + i` go to bytes
      `(targetStart + j) * 3 + 2 ..` where `j` counts down when the run is reversed. The ghost
      `px` is the LED sequence the datagram encodes. */
  method WriteRun(packet: seq<Byte>, ghost px: seq<Rgb>, buf: seq<Byte>, m: LedMapping)
    returns (out: seq<Byte>)
    requires packet == Encode(px)
    requires End(m) <= |px| && ReadsInFrame(m, |buf|)
    ensures out == Encode(RunWritten(px, buf, m, Len(m)))
  {
    var len := Len(m);
    out := packet;
    var i := 0;
    while i < len
      invariant 0 <= i <= len
      invariant out == Encode(RunWritten(px, buf, m, i))
    {
      var j := Slot(m, i);
      var bufferStart := m.sourceStart * 3 + i * 3;
      var targetStart := (m.targetStart + j) * 3 + 2;
      WriteStep(px, buf, m, i, out, bufferStart, targetStart);
      out := CopyLed(out, buf, bufferStart, targetStart);
      i := i + 1;
    }
  }

  /** Writing run `k` in full over the pixels of the first `k` runs gives those of the first `k + 1`. */
  lemma RunExtends(buf: seq<Byte>, ms: seq<LedMapping>, k: nat, hi: nat, px: seq<Rgb>)
    requires SourceInBounds(ms, |buf|) && k < |ms| && SourceInBounds(ms[..k], |buf|)
    requires End(ms[k]) <= hi && px == Pixels(buf, ms[..k], 0, hi)
    ensures SourceInBounds(ms[..k + 1], |buf|)
    ensures RunWritten(px, buf, ms[k], Len(ms[k])) == Pixels(buf, ms[..k + 1], 0, hi)
  {
    var m := ms[k];
    var out := RunWritten(px, buf, m, Len(m));
    RunWrittenAll(px, buf, m);
    assert |out| == hi;
    forall p | 0 <= p < hi
      ensures out[p] == (if Covers(m, 0 + p) then RunPixel(buf, m, 0 + p) else px[p])
    {
    }
    PixelsExtend(buf, ms, k, 0, out);
  }

  /** One pass of the outer loop: write run `k` over the datagram of the first `k` runs. */
  method WriteNext(packet: seq<Byte>, buf: seq<Byte>, ms: seq<LedMapping>, k: nat, hi: nat)
    returns (next: seq<Byte>)
    requires SourceInBounds(ms, |buf|) && k < |ms| && SourceInBounds(ms[..k], |buf|)
    requires End(ms[k]) <= hi && packet == Encode(Pixels(buf, ms[..k], 0, hi))
    ensures SourceInBounds(ms[..k + 1], |buf|)
    ensures next == Encode(Pixels(buf, ms[..k + 1], 0, hi))
  {
    ghost var px := Pixels(buf, ms[..k], 0, hi);
    next := WriteRun(packet, px, buf, ms[k]);
    RunExtends(buf, ms, k, hi, px);
  }

  /** The datagram before any run is written (`vec![0u8; max * 3 + 2]` with the two header
      bytes set): it encodes `n` black LEDs. */
  function BlankPacket(n: nat): (packet: seq<Byte>)
    ensures packet == Encode(seq(n, _ => Black))
  {
    var packet := seq(n * 3 + 2, _ => 0)[0 := DRGB_PROTOCOL][1 := TIMEOUT_SECONDS];
    EncodeBlack(n);
    assert packet == [DRGB_PROTOCOL, TIMEOUT_SECONDS] + seq(3 * n, _ => 0);
    packet
  }

  /** With no run written yet every target pixel is black. */
  lemma NoRuns(buf: seq<Byte>, ms: seq<LedMapping>, lo: nat, n: nat)
    ensures SourceInBounds(ms[..0], |buf|)
    ensures Pixels(buf, ms[..0], lo, n) == seq(n, _ => Black)
  {
  }

  /** The DRGB path for one device. The buffer length `max * 3 + 2` is a `u16` expression in
      the source, so it must stay below 65536; the runs of a WLED table are not validated and
      may overlap, in which case the later run wins. */
  method DrgbPacket(buf: seq<Byte>, ms: seq<LedMapping>) returns (packet: seq<Byte>)
    requires |ms| > 0 && SourceInBounds(ms, |buf|) && AllFitU16(ms)
    requires 3 * MaxEnd(ms) + 2 < U16_LIMIT
    ensures packet == Frame(buf, ms)
  {
    packet := WriteAll(buf, ms, MaxEnd(ms));
  }

  /** The outer `for mapping in &wled.mappings` loop over a datagram of `hi` LEDs: every run
      in table order, each overwriting what earlier runs put on its LEDs. */
  method WriteAll(buf: seq<Byte>, ms: seq<LedMapping>, hi: nat) returns (packet: seq<Byte>)
    requires SourceInBounds(ms, |buf|)
    requires forall k :: 0 <= k < |ms| ==> End(ms[k]) <= hi
    ensures packet == Encode(Pixels(buf, ms, 0, hi))
  {
    packet := BlankPacket(hi);
    NoRuns(buf, ms, 0, hi);
    var k := 0;
    while k < |ms|
      invariant 0 <= k <= |ms|
      invariant SourceInBounds(ms[..k], |buf|)
      invariant packet == Encode(Pixels(buf, ms[..k], 0, hi))
    {
      packet := WriteNext(packet, buf, ms, k, hi);
      k := k + 1;
    }
    assert ms[..k] == ms;
  }

  /** LED `p` of a device's datagram carries the colour of target pixel `p`. */
  lemma FrameLed(buf: seq<Byte>, ms: seq<LedMapping>, p: nat)
    requires |ms| > 0 && SourceInBounds(ms, |buf|) && p < MaxEnd(ms)
    ensures |Frame(buf, ms)| == 3 * MaxEnd(ms) + 2
    ensures Frame(buf, ms)[3 * p + 2 .. 3 * p + 5] ==
      [TargetPixel(buf, ms, p).r, TargetPixel(buf, ms, p).g, TargetPixel(buf, ms, p).b]
  {
    EncodeLed(Pixels(buf, ms, 0, MaxEnd(ms)), p);
  }

  /** The datagram reads back as the target pixels of the whole strip. */
  lemma FrameDecodes(buf: seq<Byte>, ms: seq<LedMapping>)
    requires |ms| > 0 && SourceInBounds(ms, |buf|)
    ensures Decode(Frame(buf, ms)) == Some(Pixels(buf, ms, 0, MaxEnd(ms)))
  {
    DecodeEncode(Pixels(buf, ms, 0, MaxEnd(ms)));
  }
}
