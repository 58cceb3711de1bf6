/** The textual wire format of the MQTT path (src/main.rs): a pixel packed into a 24-bit
    colour, rendered as `#rrggbb ` tokens, and the `prefix/LED<n>` topic. Each encoder
    comes with the parser that undoes it. */
module TextCodec {
  import opened Results
  import opened Mappings
  import opened Remap

  /** First value a packed colour never reaches. */
  const COLOR_LIMIT: nat := 0x100_0000

  /** The `u32` colour `R << 16 | G << 8 | B`. */
  function Pack(c: Rgb): (v: nat)
    ensures v < COLOR_LIMIT
  {
    c.r * 0x1_0000 + c.g * 0x100 + c.b
  }

  /** Splits a packed colour back into its three channels. */
  function Unpack(v: nat): Rgb
    requires v < COLOR_LIMIT
  {
    Rgb(v / 0x1_0000, v % 0x1_0000 / 0x100, v % 0x100)
  }

  /** Packing loses nothing: the three channels are recovered from the colour. */
  lemma PackRoundTrip(c: Rgb)
    ensures Unpack(Pack(c)) == c
  {
    var v := Pack(c);
    var low := c.g * 0x100 + c.b;
    DivModSplit(v, c.r, low, 0x1_0000);
    DivModSplit(low, c.g, c.b, 0x100);
    DivModSplit(v, c.r * 0x100 + c.g, c.b, 0x100);
  }

  /** Distinct pixels give distinct colours. */
  lemma PackInjective(c: Rgb, d: Rgb)
    ensures Pack(c) == Pack(d) <==> c == d
  {
    PackRoundTrip(c);
    PackRoundTrip(d);
  }

  lemma DivModSplit(v: nat, q: nat, r: nat, d: nat)
    requires d > 0 && r < d && v == q * d + r
    ensures v / d == q && v % d == r
  {
    var a, b := v / d, v % d;
    assert a * d + b == q * d + r;
    if a > q {
      MulMono(q + 1, a, d);
      assert false;
    } else if a < q {
      MulMono(a + 1, q, d);
      assert false;
    }
  }

  lemma MulMono(x: nat, y: nat, d: nat)
    requires x <= y
    ensures x * d <= y * d
  {
  }

  /** The lower-case digit alphabet of `format!("{:x}")` (its first ten also serve for `{}`). */
  const DIGITS: string := "0123456789abcdef"

  function DigitChar(d: nat): char
    requires d < 16
  {
    DIGITS[d]
  }

  /** Value of a digit character of the alphabet above, if it is one. */
  function DigitValue(c: char): Option<nat> {
    if '0' <= c <= '9' then Some(c as int - '0' as int)
    else if 'a' <= c <= 'f' then Some(c as int - 'a' as int + 10)
    else None
  }

  lemma DigitValueOfChar(d: nat)
    requires d < 16
    ensures DigitValue(DigitChar(d)) == Some(d)
  {
  }

  function Pow(base: nat, n: nat): (p: nat)
    ensures p > 0 || base == 0
  {
    if n == 0 then 1 else base * Pow(base, n - 1)
  }

  /** Six hex digits hold exactly the 24-bit colours. */
  lemma SixHexDigits()
    ensures Pow(16, 6) == COLOR_LIMIT
  {
    assert Pow(16, 1) == 16;
    assert Pow(16, 2) == 0x100;
    assert Pow(16, 3) == 0x1000;
    assert Pow(16, 4) == 0x1_0000;
    assert Pow(16, 5) == 0x10_0000;
  }

  /** Reads a big-endian digit string in `base`; `None` on a character that is not a digit of that base. */
  function ParseDigits(s: string, base: nat): Option<nat>
    decreases |s|
  {
    if |s| == 0 then Some(0)
    else
      match ParseDigits(s[..|s| - 1], base)
      case None => None
      case Some(high) =>
        match DigitValue(s[|s| - 1])
        case None => None
        case Some(d) => if d < base then Some(high * base + d) else None
  }

  /** `v` written with exactly `n` lower-case hex digits, zero padded (`{:0nx}`). */
  function HexDigits(v: nat, n: nat): (s: string)
    ensures |s| == n
    decreases n
  {
    if n == 0 then "" else HexDigits(v / 16, n - 1) + [DigitChar(v % 16)]
  }

  /** Reading the digits back gives the value, provided it fits in `n` digits. */
  lemma {:induction false} HexDigitsRoundTrip(v: nat, n: nat)
    requires v < Pow(16, n)
    ensures ParseDigits(HexDigits(v, n), 16) == Some(v)
    decreases n
  {
    if n > 0 {
      var s := HexDigits(v, n);
      HexDigitsRoundTrip(v / 16, n - 1);
      DigitValueOfChar(v % 16);
      assert s[..|s| - 1] == HexDigits(v / 16, n - 1);
    }
  }

  /** Reads one token back, `None` when it is not `#`, six hex digits, space. */
  function ParseToken(tok: string): Option<nat>
    requires |tok| == 8
  {
    if tok[0] == '#' && tok[7] == ' ' then ParseDigits(tok[1..7], 16) else None
  }

  /** One payload token: `#`, six hex digits, one space (`format!("#{:06x} ", c)`). */
  function HexToken(v: nat): (tok: string)
    requires v < COLOR_LIMIT
    ensures |tok| == 8
  {
    "#" + HexDigits(v, 6) + " "
  }

  /** Reading a token back gives the colour it was made from. */
  lemma TokenRoundTrip(v: nat)
    requires v < COLOR_LIMIT
    ensures ParseToken(HexToken(v)) == Some(v)
  {
    SixHexDigits();
    HexDigitsRoundTrip(v, 6);
    var tok := HexToken(v);
    assert tok[1..7] == HexDigits(v, 6);
  }

  lemma {:induction false} ZeroHexDigits(n: nat)
    ensures HexDigits(0, n) == seq(n, _ => '0')
  {
    if n > 0 {
      ZeroHexDigits(n - 1);
    }
  }

  predicate ColorsFit(colors: seq<Option<nat>>) {
    forall i :: 0 <= i < |colors| ==> colors[i].GetOr(0) < COLOR_LIMIT
  }

  /** The colour each slot is rendered with: its value, or 0 for a gap. */
  function Rendered(colors: seq<Option<nat>>): (vs: seq<nat>)
    ensures |vs| == |colors|
    ensures forall i :: 0 <= i < |colors| ==> vs[i] == colors[i].GetOr(0)
  {
    seq(|colors|, i requires 0 <= i < |colors| => colors[i].GetOr(0))
  }

  lemma RenderedCons(colors: seq<Option<nat>>)
    requires |colors| > 0
    ensures Rendered(colors) == [colors[0].GetOr(0)] + Rendered(colors[1..])
  {
    var a, b := Rendered(colors), [colors[0].GetOr(0)] + Rendered(colors[1..]);
    assert |a| == |b|;
    forall i | 0 <= i < |a|
      ensures a[i] == b[i]
    {
      if i > 0 {
        assert b[i] == Rendered(colors[1..])[i - 1];
      }
    }
  }

  /** The MQTT payload: one token per slot, in slot order, with gaps rendered as `#000000 `. */
  function Payload(colors: seq<Option<nat>>): (s: string)
    requires ColorsFit(colors)
    ensures |s| == 8 * |colors|
    decreases |colors|
  {
    if |colors| == 0 then "" else HexToken(colors[0].GetOr(0)) + Payload(colors[1..])
  }

  /** Splits a payload into its tokens and reads each one back. */
  function DecodePayload(s: string): Option<seq<nat>>
    decreases |s|
  {
    if |s| == 0 then Some([])
    else if |s| < 8 then None
    else
      match ParseToken(s[..8])
      case None => None
      case Some(v) =>
        match DecodePayload(s[8..])
        case None => None
        case Some(rest) => Some([v] + rest)
  }

  lemma DecodeToken(v: nat, rest: string)
    requires v < COLOR_LIMIT
    ensures DecodePayload(HexToken(v) + rest) ==
      match DecodePayload(rest)
      case None => None
      case Some(vs) => Some([v] + vs)
  {
    var s := HexToken(v) + rest;
    TokenRoundTrip(v);
    assert s[..8] == HexToken(v);
    assert s[8..] == rest;
  }

  /** Decoding a payload recovers the rendered colour of every slot, in order. */
  lemma {:induction false} PayloadRoundTrip(colors: seq<Option<nat>>)
    requires ColorsFit(colors)
    ensures DecodePayload(Payload(colors)) == Some(Rendered(colors))
    decreases |colors|
  {
    if |colors| > 0 {
      var c, rest := colors[0].GetOr(0), colors[1..];
      assert ColorsFit(rest);
      assert Payload(colors) == HexToken(c) + Payload(rest);
      DecodeToken(c, Payload(rest));
      PayloadRoundTrip(rest);
      assert DecodePayload(Payload(colors)) == Some([c] + Rendered(rest));
      RenderedCons(colors);
    }
  }

  lemma BlackToken()
    ensures HexToken(0) == "#000000 "
  {
    SixHexDigits();
    ZeroHexDigits(6);
    assert HexDigits(0, 6) == "000000";
  }

  /** `n` copies of a token. */
  function Repeat(tok: string, n: nat): (s: string)
    ensures |s| == n * |tok|
  {
    if n == 0 then "" else tok + Repeat(tok, n - 1)
  }

  /** A span with no source pixel at all is published as `#000000 ` once per slot. */
  lemma {:induction false} EmptySpanPayload(colors: seq<Option<nat>>)
    requires forall i :: 0 <= i < |colors| ==> colors[i].None?
    ensures ColorsFit(colors)
    ensures Payload(colors) == Repeat("#000000 ", |colors|)
    decreases |colors|
  {
    assert ColorsFit(colors);
    if |colors| > 0 {
      var tail := colors[1..];
      EmptySpanPayload(tail);
      BlackToken();
      assert colors[0].GetOr(0) == 0;
      assert Payload(colors) == HexToken(0) + Payload(tail);
      assert Repeat("#000000 ", |colors|) == "#000000 " + Repeat("#000000 ", |tail|);
    }
  }

  /** `v` in decimal without leading zeros (`format!("{}", v)`). */
  function Decimal(v: nat): (s: string)
    ensures |s| > 0
    ensures ParseDigits(s, 10) == Some(v)
    ensures v > 0 ==> s[0] != '0'
  {
    if v < 10 then
      DigitValueOfChar(v);
      [DigitChar(v)]
    else
      var s := Decimal(v / 10) + [DigitChar(v % 10)];
      DigitValueOfChar(v % 10);
      assert s[..|s| - 1] == Decimal(v / 10);
      s
  }

  /** The topic a device publishes to: its prefix, `/LED`, and the one-based index of its first target pixel. */
  function Topic(prefix: string, lo: nat): (topic: string)
    ensures |topic| > |prefix| + 4
    ensures topic[..|prefix|] == prefix && topic[|prefix|..|prefix| + 4] == "/LED"
    ensures ParseDigits(topic[|prefix| + 4..], 10) == Some(lo + 1)
    ensures topic[|prefix| + 4] != '0'
  {
    var topic := prefix + "/LED" + Decimal(lo + 1);
    assert topic[|prefix| + 4..] == Decimal(lo + 1);
    topic
  }
}
