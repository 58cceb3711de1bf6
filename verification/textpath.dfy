/** The MQTT path of one frame for one device (src/main.rs, the body of the
    `for tasmota in settings.tasmotas` loop): fill the device's colour span from the
    frame, render it as a payload, and address it to the device's topic. */
module TextPath {
  import opened Results
  import opened Mappings
  import opened Remap
  import opened TextCodec
  import opened Settings

  /** What is handed to the MQTT client's `publish`. */
  datatype Message = Message(topic: string, payload: string)

  /** The colour slot for target pixel `t`: the packed covering source pixel, or a gap. */
  function SlotColor(buf: seq<Byte>, ms: seq<LedMapping>, t: nat): (c: Option<nat>)
    requires SourceInBounds(ms, |buf|)
    ensures c.GetOr(0) < COLOR_LIMIT
  {
    match SourcePixel(ms, t)
    case None => None
    case Some(p) => SourcePixelInFrame(ms, t, |buf|); Some(Pack(PixelAt(buf, p)))
  }

  /** A slot is a gap exactly when no run covers it; otherwise it renders as the packed
      colour of its target pixel, and a gap renders as black. */
  lemma SlotColorRendered(buf: seq<Byte>, ms: seq<LedMapping>, t: nat)
    requires SourceInBounds(ms, |buf|)
    ensures SlotColor(buf, ms, t).None? <==> forall k :: 0 <= k < |ms| ==> !Covers(ms[k], t)
    ensures SlotColor(buf, ms, t).GetOr(0) == Pack(TargetPixel(buf, ms, t))
  {
    SourcePixelCovered(ms, t);
  }

  /** `n` colour slots for the target pixels `lo`, `lo + 1`, ... */
  function Slots(buf: seq<Byte>, ms: seq<LedMapping>, lo: nat, n: nat): (colors: seq<Option<nat>>)
    requires SourceInBounds(ms, |buf|)
    ensures |colors| == n
    ensures ColorsFit(colors)
    ensures forall p :: 0 <= p < n ==> colors[p] == SlotColor(buf, ms, lo + p)
  {
    var colors := seq(n, p requires 0 <= p < n => SlotColor(buf, ms, lo + p));
    assert forall p :: 0 <= p < n ==> colors[p] == SlotColor(buf, ms, lo + p);
    colors
  }

  /** The device's span `[MinTarget, MaxEnd)` with one colour slot per target pixel. */
  function Span(buf: seq<Byte>, ms: seq<LedMapping>): (colors: seq<Option<nat>>)
    requires |ms| > 0 && SourceInBounds(ms, |buf|)
    ensures |colors| == MaxEnd(ms) - MinTarget(ms)
  {
    Slots(buf, ms, MinTarget(ms), MaxEnd(ms) - MinTarget(ms))
  }

  /** The target pixels of the device's span `[MinTarget, MaxEnd)`. */
  function SpanPixels(buf: seq<Byte>, ms: seq<LedMapping>): (px: seq<Rgb>)
    requires |ms| > 0 && SourceInBounds(ms, |buf|)
  {
    Pixels(buf, ms, MinTarget(ms), MaxEnd(ms) - MinTarget(ms))
  }

  /** In a table with disjoint runs (every validated table), source pixel `sourceStart + i` of
      run `k` fills span slot `targetStart - MinTarget + Slot(i)`: slot `i` of a forward run, the
      mirrored slot `Len - 1 - i` of a reversed one. */
  lemma SpanPlacement(buf: seq<Byte>, ms: seq<LedMapping>, k: nat, i: nat)
    requires |ms| > 0 && SourceInBounds(ms, |buf|) && PairwiseDisjoint(ms)
    requires k < |ms| && i < Len(ms[k])
    ensures 3 * (ms[k].sourceStart + i) + 3 <= |buf|
    ensures MinTarget(ms) <= ms[k].targetStart
    ensures ms[k].targetStart - MinTarget(ms) + Slot(ms[k], i) < |Span(buf, ms)|
    ensures Span(buf, ms)[ms[k].targetStart - MinTarget(ms) + Slot(ms[k], i)]
      == Some(Pack(PixelAt(buf, ms[k].sourceStart + i)))
  {
    var lo, hi := MinTarget(ms), MaxEnd(ms);
    assert lo <= ms[k].targetStart && End(ms[k]) <= hi;
    SlotsPlacement(buf, ms, k, i, lo, hi);
    var span := Slots(buf, ms, lo, hi - lo);
    assert Span(buf, ms) == span;
  }

  lemma SlotsPlacement(buf: seq<Byte>, ms: seq<LedMapping>, k: nat, i: nat, lo: nat, hi: nat)
    requires SourceInBounds(ms, |buf|) && PairwiseDisjoint(ms)
    requires k < |ms| && i < Len(ms[k]) && lo <= ms[k].targetStart && End(ms[k]) <= hi
    ensures 3 * (ms[k].sourceStart + i) + 3 <= |buf|
    ensures ms[k].targetStart - lo + Slot(ms[k], i) < hi - lo
    ensures Slots(buf, ms, lo, hi - lo)[ms[k].targetStart - lo + Slot(ms[k], i)]
      == Some(Pack(PixelAt(buf, ms[k].sourceStart + i)))
  {
    SlotOfRun(buf, ms, k, i);
  }

  lemma SlotOfRun(buf: seq<Byte>, ms: seq<LedMapping>, k: nat, i: nat)
    requires SourceInBounds(ms, |buf|) && PairwiseDisjoint(ms)
    requires k < |ms| && i < Len(ms[k])
    ensures 3 * (ms[k].sourceStart + i) + 3 <= |buf|
    ensures SlotColor(buf, ms, ms[k].targetStart + Slot(ms[k], i)) == Some(Pack(PixelAt(buf, ms[k].sourceStart + i)))
  {
    var m := ms[k];
    var t := m.targetStart + Slot(m, i);
    assert Covers(m, t);
    forall k' | k < k' < |ms|
      ensures !Covers(ms[k'], t)
    {
    }
    SourcePixelOfRun(ms, k, i);
    SourcePixelInFrame(ms, t, |buf|);
  }

  /** Each pixel packed into its `u32` colour. */
  function PackAll(px: seq<Rgb>): (vs: seq<nat>)
    ensures |vs| == |px|
    ensures forall i :: 0 <= i < |px| ==> vs[i] == Pack(px[i])
  {
    if |px| == 0 then [] else PackAll(px[..|px| - 1]) + [Pack(px[|px| - 1])]
  }

  /** Rendering the span's slots, gaps as 0, gives exactly the packed target pixels. */
  lemma RenderedSpan(buf: seq<Byte>, ms: seq<LedMapping>)
    requires |ms| > 0 && SourceInBounds(ms, |buf|)
    ensures Rendered(Span(buf, ms)) == PackAll(SpanPixels(buf, ms))
  {
    RenderedSlots(buf, ms, MinTarget(ms), MaxEnd(ms) - MinTarget(ms));
  }

  lemma RenderedSlots(buf: seq<Byte>, ms: seq<LedMapping>, lo: nat, n: nat)
    requires SourceInBounds(ms, |buf|)
    ensures Rendered(Slots(buf, ms, lo, n)) == PackAll(Pixels(buf, ms, lo, n))
  {
    var span, px := Slots(buf, ms, lo, n), Pixels(buf, ms, lo, n);
    forall p | 0 <= p < n
      ensures span[p].GetOr(0) == Pack(px[p])
    {
      SlotRenders(buf, ms, lo + p, px[p]);
    }
    RenderedPointwise(span, px);
  }

  lemma RenderedPointwise(colors: seq<Option<nat>>, px: seq<Rgb>)
    requires |colors| == |px|
    requires forall p :: 0 <= p < |px| ==> colors[p].GetOr(0) == Pack(px[p])
    ensures Rendered(colors) == PackAll(px)
  {
  }

  lemma SlotRenders(buf: seq<Byte>, ms: seq<LedMapping>, t: nat, c: Rgb)
    requires SourceInBounds(ms, |buf|) && c == TargetPixel(buf, ms, t)
    ensures SlotColor(buf, ms, t).GetOr(0) == Pack(c)
  {
    SlotColorRendered(buf, ms, t);
  }

  /** The message a device publishes for a frame. */
  function Publication(buf: seq<Byte>, t: Tasmota): Message
    requires |t.mappings| > 0 && SourceInBounds(t.mappings, |buf|)
  {
    Message(Topic(t.mqttPrefix, MinTarget(t.mappings)), Payload(Span(buf, t.mappings)))
  }

  /** The colour as the source computes it from bytes `at .. at + 3` of the frame:
      `buf[at + 2] + (buf[at + 1] << 8) + (buf[at] << 16)`, with no carries since each byte
      is below 256. */
  function ShiftPack(buf: seq<Byte>, at: nat): (v: nat)
    requires at + 3 <= |buf|
    ensures v == Pack(Rgb(buf[at], buf[at + 1], buf[at + 2]))
  {
    buf[at + 2] as int + buf[at + 1] as int * 0x100 + buf[at] as int * 0x1_0000
  }

  /** The packed colour a run gives target pixel `t` of its own range. */
  function RunColor(buf: seq<Byte>, m: LedMapping, t: nat): nat
    requires Covers(m, t) && ReadsInFrame(m, |buf|)
  {
    Pack(PixelAt(buf, m.sourceStart + Slot(m, t - m.targetStart)))
  }

  /** Writing run `k` over the slots of the first `k` runs gives the slots of the first `k + 1`:
      the new run decides every pixel it covers, the others keep their colour. */
  lemma SlotsExtend(buf: seq<Byte>, ms: seq<LedMapping>, k: nat, lo: nat, out: seq<Option<nat>>)
    requires SourceInBounds(ms, |buf|) && k < |ms|
    requires SourceInBounds(ms[..k], |buf|)
    requires forall p :: 0 <= p < |out| ==>
      out[p] == (if Covers(ms[k], lo + p) then Some(RunColor(buf, ms[k], lo + p))
                 else Slots(buf, ms[..k], lo, |out|)[p])
    ensures SourceInBounds(ms[..k + 1], |buf|)
    ensures out == Slots(buf, ms[..k + 1], lo, |out|)
  {
    assert ms[..k + 1][..k] == ms[..k];
    var next := Slots(buf, ms[..k + 1], lo, |out|);
    forall p | 0 <= p < |out|
      ensures out[p] == next[p]
    {
    }
  }

  /** After the first `i` steps of writing run `m` into `colors`: the slots the run has
      reached hold its colour, every other slot is unchanged. */
  predicate Filled(out: seq<Option<nat>>, colors: seq<Option<nat>>, buf: seq<Byte>, m: LedMapping, lo: nat, i: nat)
    requires ReadsInFrame(m, |buf|)
  {
    && |out| == |colors|
    && forall p :: 0 <= p < |out| ==>
      out[p] == (if Covers(m, lo + p) && Slot(m, lo + p - m.targetStart) < i
                 then Some(RunColor(buf, m, lo + p)) else colors[p])
  }

  /** Step `i` puts the packed source pixel `sourceStart + i` on slot `targetStart - lo + Slot(m, i)`. */
  lemma FillStep(out: seq<Option<nat>>, colors: seq<Option<nat>>, buf: seq<Byte>, m: LedMapping, lo: nat, i: nat)
    requires lo <= m.targetStart && End(m) <= lo + |colors|
    requires ReadsInFrame(m, |buf|) && i < Len(m)
    requires Filled(out, colors, buf, m, lo, i)
    ensures m.targetStart - lo + Slot(m, i) < |out|
    ensures Filled(out[m.targetStart - lo + Slot(m, i) := Some(Pack(PixelAt(buf, m.sourceStart + i)))],
                   colors, buf, m, lo, i + 1)
  {
    var at := m.targetStart - lo + Slot(m, i);
    var next := out[at := Some(Pack(PixelAt(buf, m.sourceStart + i)))];
    SlotInvolution(m, i);
    forall p | 0 <= p < |next|
      ensures next[p] == (if Covers(m, lo + p) && Slot(m, lo + p - m.targetStart) < i + 1
                          then Some(RunColor(buf, m, lo + p)) else colors[p])
    {
      if p == at {
      } else if Covers(m, lo + p) {
        SlotInjective(m, lo + p - m.targetStart, Slot(m, i));
        SlotInvolution(m, lo + p - m.targetStart);
      }
    }
  }

  /** Writes one run into the span, as the inner `for (i, j) in range.enumerate()` loop does:
      source pixel `sourceStart + i` goes to slot `targetStart - lo + j`, where `j` counts
      down instead of up when the run is reversed. */
  method WriteRun(colors: seq<Option<nat>>, buf: seq<Byte>, m: LedMapping, lo: nat) returns (out: seq<Option<nat>>)
    requires lo <= m.targetStart && End(m) <= lo + |colors|
    requires ReadsInFrame(m, |buf|)
    ensures |out| == |colors|
    ensures forall p :: 0 <= p < |out| ==>
      out[p] == (if Covers(m, lo + p) then Some(RunColor(buf, m, lo + p)) else colors[p])
  {
    var len := Len(m);
    out := colors;
    var i := 0;
    while i < len
      invariant 0 <= i <= len
      invariant Filled(out, colors, buf, m, lo, i)
    {
      var j := Slot(m, i);
      var bufferStart := m.sourceStart * 3 + i * 3;
      var color := ShiftPack(buf, bufferStart);
      FillStep(out, colors, buf, m, lo, i);
      out := out[m.targetStart - lo + j := Some(color)];
      i := i + 1;
    }
  }

  /** Fills the colour span: every mapping in table order writes its run, a later run
      overwriting an earlier one, and untouched slots stay empty. */
  method FillColors(buf: seq<Byte>, ms: seq<LedMapping>) returns (colors: seq<Option<nat>>)
    requires |ms| > 0 && SourceInBounds(ms, |buf|)
    ensures colors == Span(buf, ms)
  {
    var lo, hi := MinTarget(ms), MaxEnd(ms);
    colors := seq(hi - lo, _ => None);
    assert colors == Slots(buf, ms[..0], lo, hi - lo);
    var k := 0;
    while k < |ms|
      invariant 0 <= k <= |ms|
      invariant SourceInBounds(ms[..k], |buf|)
      invariant colors == Slots(buf, ms[..k], lo, hi - lo)
    {
      var prev := colors;
      colors := WriteRun(prev, buf, ms[k], lo);
      SlotsExtend(buf, ms, k, lo, colors);
      k := k + 1;
    }
    assert ms[..k] == ms;
  }

  lemma {:induction false} PayloadAppend(colors: seq<Option<nat>>, c: Option<nat>)
    requires ColorsFit(colors) && c.GetOr(0) < COLOR_LIMIT
    ensures ColorsFit(colors + [c])
    ensures Payload(colors + [c]) == Payload(colors) + HexToken(c.GetOr(0))
    decreases |colors|
  {
    var longer := colors + [c];
    assert ColorsFit(longer) by {
      forall i | 0 <= i < |longer|
        ensures longer[i].GetOr(0) < COLOR_LIMIT
      {
        if i < |colors| {
          assert longer[i] == colors[i];
        }
      }
    }
    if |colors| > 0 {
      var head, tail, last := HexToken(colors[0].GetOr(0)), colors[1..], HexToken(c.GetOr(0));
      assert longer[0] == colors[0] && longer[1..] == tail + [c];
      PayloadAppend(tail, c);
      assert Payload(longer) == head + Payload(tail + [c]);
      Associative(head, Payload(tail), last);
    }
  }

  lemma Associative<T>(a: seq<T>, b: seq<T>, c: seq<T>)
    ensures a + (b + c) == (a + b) + c
  {
  }

  /** The payload of one more slot is the payload so far followed by that slot's token. */
  lemma PayloadPrefix(colors: seq<Option<nat>>, i: nat)
    requires ColorsFit(colors) && i < |colors|
    ensures ColorsFit(colors[..i]) && ColorsFit(colors[..i + 1])
    ensures Payload(colors[..i + 1]) == Payload(colors[..i]) + HexToken(colors[i].GetOr(0))
  {
    assert colors[..i + 1] == colors[..i] + [colors[i]];
    PayloadAppend(colors[..i], colors[i]);
  }

  /** Renders the span token by token, as the source's `for_each` with `push_str` does:
      the result is the payload, one token per slot in slot order. */
  method RenderPayload(colors: seq<Option<nat>>) returns (payload: string)
    requires ColorsFit(colors)
    ensures payload == Payload(colors)
  {
    payload := "";
    var i := 0;
    while i < |colors|
      invariant 0 <= i <= |colors|
      invariant payload == Payload(colors[..i])
    {
      PayloadPrefix(colors, i);
      payload := payload + HexToken(colors[i].GetOr(0));
      i := i + 1;
    }
    assert colors[..i] == colors;
  }

  /** A device's payload has 8 characters per slot of the span and decodes to the packed
      colour of every target pixel, black in gaps. */
  lemma PublicationPayload(buf: seq<Byte>, t: Tasmota)
    requires |t.mappings| > 0 && SourceInBounds(t.mappings, |buf|)
    ensures |Publication(buf, t).payload| == 8 * (MaxEnd(t.mappings) - MinTarget(t.mappings))
    ensures DecodePayload(Publication(buf, t).payload) == Some(PackAll(SpanPixels(buf, t.mappings)))
  {
    var span := Span(buf, t.mappings);
    PayloadRoundTrip(span);
    RenderedSpan(buf, t.mappings);
  }

  /** The text path for one device: fill the span, render it, address it. The one-based
      index in the topic is a `u16` sum, so it must stay below 65536. */
  method TextMessage(buf: seq<Byte>, t: Tasmota) returns (msg: Message)
    requires |t.mappings| > 0 && SourceInBounds(t.mappings, |buf|) && AllFitU16(t.mappings)
    requires MinTarget(t.mappings) + 1 < U16_LIMIT
    ensures msg == Publication(buf, t)
  {
    var colors := FillColors(buf, t.mappings);
    var payload := RenderPayload(colors);
    msg := Message(Topic(t.mqttPrefix, MinTarget(t.mappings)), payload);
  }
}
