/** Concrete tables and frames worked through the model: the behaviour a reader of the
    bridge's configuration would expect, checked on small instances. */
module Scenarios {
  import opened Results
  import opened Mappings
  import opened Remap
  import opened Settings
  import opened TargetSort
  import opened TextCodec
  import opened TextPath
  import opened Drgb

  /** Three pixels forward to targets 0..2, then source pixels 10 and 11 mirrored onto 3..4. */
  const MIRROR: seq<LedMapping> := [
    LedMapping(0, 0, Some(3), None),
    LedMapping(10, 3, Some(2), Some(true))]

  /** The mirrored table is accepted as it stands, and target pixels 0..4 read source
      pixels 0, 1, 2, 11, 10. */
  lemma MirrorScenario()
    ensures Validate(MIRROR) == Success(MIRROR)
    ensures SourcePixel(MIRROR, 0) == Some(0)
    ensures SourcePixel(MIRROR, 1) == Some(1)
    ensures SourcePixel(MIRROR, 2) == Some(2)
    ensures SourcePixel(MIRROR, 3) == Some(11)
    ensures SourcePixel(MIRROR, 4) == Some(10)
    ensures SourcePixel(MIRROR, 5) == None
  {
    assert SortByTarget(MIRROR) == MIRROR;
  }

  /** A run of five from 0 and a run of two from 3 share target pixels 3 and 4. */
  lemma OverlapScenario()
    ensures Validate([LedMapping(0, 0, Some(5), None), LedMapping(0, 3, Some(2), None)])
      == Failure(OverlappingTargetRanges)
  {
    var ms := [LedMapping(0, 0, Some(5), None), LedMapping(0, 3, Some(2), None)];
    assert SortByTarget(ms) == ms;
  }

  /** Runs that merely touch are accepted, and the table comes back sorted by target start
      even when it was written back to front. */
  lemma AdjacentScenario()
    ensures Validate([LedMapping(7, 3, Some(2), None), LedMapping(0, 0, Some(3), None)])
      == Success([LedMapping(0, 0, Some(3), None), LedMapping(7, 3, Some(2), None)])
  {
    var ms := [LedMapping(7, 3, Some(2), None), LedMapping(0, 0, Some(3), None)];
    assert ms[..1] == [ms[0]];
    assert SortByTarget([ms[0]]) == [ms[0]];
    assert Insert([ms[0]], ms[1]) == [ms[1], ms[0]];
  }

  /** A mapping without a length moves one pixel: two such mappings on neighbouring targets are
      accepted, on the same target they are refused. */
  lemma DefaultLengthScenario()
    ensures Validate([LedMapping(4, 0, None, None), LedMapping(9, 1, None, None)]).Success?
    ensures Validate([LedMapping(4, 0, None, None), LedMapping(9, 0, None, None)])
      == Failure(OverlappingTargetRanges)
  {
    var ms := [LedMapping(4, 0, None, None), LedMapping(9, 1, None, None)];
    assert SortByTarget(ms) == ms;
    var ns := [LedMapping(4, 0, None, None), LedMapping(9, 0, None, None)];
    assert SortByTarget(ns) == ns;
  }

  /** A zero-length run does not occupy its target start, so the overlap fold accepts it before a run
      with the same start but refuses it after one: with equal starts the stable sort keeps
      the written order, and only that order is checked. */
  lemma ZeroLengthOrderScenario()
    ensures Validate([LedMapping(0, 2, Some(0), None), LedMapping(0, 2, Some(1), None)]).Success?
    ensures Validate([LedMapping(0, 2, Some(1), None), LedMapping(0, 2, Some(0), None)])
      == Failure(OverlappingTargetRanges)
  {
    var ms := [LedMapping(0, 2, Some(0), None), LedMapping(0, 2, Some(1), None)];
    assert SortByTarget(ms) == ms;
    var ns := [LedMapping(0, 2, Some(1), None), LedMapping(0, 2, Some(0), None)];
    assert SortByTarget(ns) == ns;
  }

  /** A device whose only run starts at target 0 publishes to `<prefix>/LED1`; one whose
      first run starts at target 9 publishes to `<prefix>/LED10`. */
  lemma TopicScenario()
    ensures Topic("tasmota", 0) == "tasmota/LED1"
    ensures Topic("tasmota", 9) == "tasmota/LED10"
  {
  }

  /** A red pixel, a gap and a grey pixel render as three tokens in slot order, the gap as
      the token of black. */
  lemma PayloadScenario()
    ensures Payload([Some(0xff0000), None, Some(0x0a0b0c)])
      == HexToken(0xff0000) + HexToken(0) + HexToken(0x0a0b0c)
  {
    var c: seq<Option<nat>> := [Some(0x0a0b0c)];
    PayloadCons(Some(0x0a0b0c), []);
    PayloadCons(None, c);
    PayloadCons(Some(0xff0000), [None] + c);
    assert [Some(0xff0000)] + ([None] + c) == [Some(0xff0000), None, Some(0x0a0b0c)];
  }

  lemma PayloadCons(head: Option<nat>, rest: seq<Option<nat>>)
    requires head.GetOr(0) < COLOR_LIMIT && ColorsFit(rest)
    ensures ColorsFit([head] + rest)
    ensures Payload([head] + rest) == HexToken(head.GetOr(0)) + Payload(rest)
  {
    assert ([head] + rest)[1..] == rest;
  }

  /** The tokens of the scenario above, digit by digit. */
  lemma TokenScenario()
    ensures HexToken(0xff0000) == "#ff0000 "
    ensures HexToken(0) == "#000000 "
    ensures HexToken(0x0a0b0c) == "#0a0b0c "
  {
    HexScenario();
    assert HexToken(0xff0000) == "#" + HexDigits(0xff0000, 6) + " ";
    assert HexToken(0) == "#" + HexDigits(0, 6) + " ";
    assert HexToken(0x0a0b0c) == "#" + HexDigits(0x0a0b0c, 6) + " ";
  }

  lemma HexScenario()
    ensures HexDigits(0xff0000, 6) == "ff0000"
    ensures HexDigits(0, 6) == "000000"
    ensures HexDigits(0x0a0b0c, 6) == "0a0b0c"
  {
    HexScenarioHigh();
    HexScenarioMixed();
    ZeroHexDigits(6);
  }

  lemma HexScenarioHigh()
    ensures HexDigits(0xff0000, 6) == "ff0000"
  {
    assert DigitChar(0) == '0' && DigitChar(15) == 'f';
    assert HexDigits(0, 0) == "";
    assert HexDigits(0xf, 1) == "f";
    assert HexDigits(0xff, 2) == "ff";
    assert HexDigits(0xff0, 3) == "ff0";
    assert HexDigits(0xff00, 4) == "ff00";
    assert HexDigits(0xff000, 5) == "ff000";
  }

  lemma HexScenarioMixed()
    ensures HexDigits(0x0a0b0c, 6) == "0a0b0c"
  {
    assert DigitChar(0) == '0' && DigitChar(10) == 'a' && DigitChar(11) == 'b' && DigitChar(12) == 'c';
    assert HexDigits(0, 0) == "";
    assert HexDigits(0, 1) == "0";
    assert HexDigits(0xa, 2) == "0a";
    assert HexDigits(0xa0, 3) == "0a0";
    assert HexDigits(0xa0b, 4) == "0a0b";
    assert HexDigits(0xa0b0, 5) == "0a0b0";
  }

  /** One pixel copied to target 2 of a two-pixel frame: the DRGB packet has the header, two
      black LEDs and then the copied pixel. */
  lemma DrgbScenario()
    ensures Frame([1, 2, 3, 4, 5, 6], [LedMapping(1, 2, None, None)])
      == [2, 1, 0, 0, 0, 0, 0, 0, 4, 5, 6]
  {
    var buf: seq<Byte> := [1, 2, 3, 4, 5, 6];
    var ms := [LedMapping(1, 2, None, None)];
    assert MaxEnd(ms) == 3;
    var px := Pixels(buf, ms, 0, 3);
    assert SourcePixel(ms, 0) == None && SourcePixel(ms, 1) == None && SourcePixel(ms, 2) == Some(1);
    assert px[0] == Black && px[1] == Black && px[2] == Rgb(4, 5, 6);
    assert px == [Black, Black, Rgb(4, 5, 6)];
    EncodeScenario();
  }

  lemma EncodeScenario()
    ensures Encode([Black, Black, Rgb(4, 5, 6)]) == [2, 1, 0, 0, 0, 0, 0, 0, 4, 5, 6]
  {
    var px := [Black, Black, Rgb(4, 5, 6)];
    assert px[..2] == [Black, Black];
    assert px[..2][..1] == [Black];
    assert Encode([Black]) == [2, 1, 0, 0, 0];
    assert Encode([Black, Black]) == [2, 1, 0, 0, 0, 0, 0, 0];
  }

  /** An empty run reads nothing, so its source start may lie far past a six-byte frame:
      such a table is in bounds and the run adds nothing to the DRGB packet, while a
      one-pixel run from the same start would read outside the frame. */
  lemma EmptyRunScenario()
    ensures SourceInBounds([LedMapping(400, 0, Some(0), None), LedMapping(1, 2, None, None)], 6)
    ensures !ReadsInFrame(LedMapping(400, 0, None, None), 6)
    ensures Frame([1, 2, 3, 4, 5, 6], [LedMapping(400, 0, Some(0), None), LedMapping(1, 2, None, None)])
      == [2, 1, 0, 0, 0, 0, 0, 0, 4, 5, 6]
  {
    var buf: seq<Byte> := [1, 2, 3, 4, 5, 6];
    var ms := [LedMapping(400, 0, Some(0), None), LedMapping(1, 2, None, None)];
    assert MaxEnd(ms) == 3;
    var px := Pixels(buf, ms, 0, 3);
    assert SourcePixel(ms, 0) == None && SourcePixel(ms, 1) == None && SourcePixel(ms, 2) == Some(1);
    assert px[0] == Black && px[1] == Black && px[2] == Rgb(4, 5, 6);
    assert px == [Black, Black, Rgb(4, 5, 6)];
    EncodeScenario();
  }
}
