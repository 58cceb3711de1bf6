# hyperion-tasmota-bridge in Dafny

The bridge receives raw RGB frames from Hyperion over UDP. It forwards them to two kinds of LED devices:

- **Tasmota devices over MQTT.** Each gets a text payload of `#rrggbb ` tokens on the topic `<prefix>/LED<n>`.
- **WLED devices over UDP.** Each gets a binary DRGB datagram.

Every device has a table of `LedMapping`s. A mapping copies a run of source pixels of the frame to a run of target pixels on the device, optionally mirrored.

This project models the pure logic of the bridge:

- **Validation** of the Tasmota mapping tables in `Settings::new` (module `Settings`, on top of `Mappings` and `TargetSort`). An empty table is refused. The table is sorted stably by target start, and refused when a run starts before the previous one ended.
- **The remapping** that both output paths perform inline (module `Remap`). Target pixel `t` takes its colour from the last run of the table that covers it. Uncovered pixels are black.
- **The text path** (modules `TextCodec` and `TextPath`):
  - the colour span `[min target start, max end)`;
  - the `u32` packing `R << 16 | G << 8 | B`;
  - the `#rrggbb ` payload;
  - the `prefix/LED<min + 1>` topic.

  Each encoder has a decoder, and a round-trip lemma connects the two.
- **The DRGB path** (module `Drgb`). The datagram is `[2, 1]` followed by three bytes per LED, from LED 0 up to the largest end. It has a decoder and round-trip lemmas.
- **One iteration of the main loop** (module `Bridge`):
  - the datagram overwrites the front of the fixed-capacity receive buffer;
  - the change gate compares the whole buffer with the previous one, and only a change publishes to MQTT and updates the remembered buffer;
  - the WLED datagrams are sent on every iteration.
- **Worked examples** on small tables (module `Scenarios`).

The model is functional. The source's loops (filling the colour array, rendering the payload, writing the DRGB packet, iterating over the devices) are also written as methods with loops. Each method is proved equal to its functional definition.

Integers are unbounded. The source's `u16` arithmetic becomes preconditions that keep every sum below 65536:

- `target_start + length` (`FitsU16`);
- `min_target_index + 1`;
- `max_target_index * 3 + 2`.

The frame bounds that the source checks only by panicking become the precondition `SourceInBounds`: every run with at least one pixel reads inside the frame (`ReadsInFrame`). An empty run reads nothing, so its source start may be anywhere.

Four facts about the code shape the model:

- A publish or send error ends the process (`?` at src/main.rs:96 and :122).
- A mapping that reads past the frame is an index panic. There is no per-device error for it.
- Only the Tasmota tables are validated (src/settings.rs:42-63). The WLED tables (src/main.rs:99-119) may overlap, and the last run wins.
- One payload is published per device, covering the device's whole span.

## Model

| member | source | states |
|---|---|---|
| Mappings.SlotInvolution | src/main.rs:64-71 | The target offset chosen for the `i`-th source pixel (counting down for a reversed run) is its own inverse, so the source is always read forward and only the placement flips |
| Mappings.SlotInjective | src/main.rs:64-71 | Different source pixels of a run go to different target offsets, so each target offset of the run is written exactly once |
| TargetSort.SortByTargetCorrect | src/settings.rs:47 | The sorted table is a permutation of the input, ordered by target start, and keeps the input order among mappings with the same target start (stability) |
| TargetSort.StableSortUnique | src/settings.rs:47 | Two tables both sorted by target start, with the same mappings in the same order for every start, are equal: any stable sort yields the model's table |
| TargetSort.SortSameShape | src/settings.rs:47 | Sorting two tables that agree on target starts and lengths gives results that still agree on them, position by position |
| TargetSort.SortByTarget | src/settings.rs:47 | `sort_by` on the target start, modelled as an insertion sort; the result has as many mappings as the input, and `TargetSort.SortByTargetCorrect` and `TargetSort.StableSortUnique` state that it is the stable sort |
| Settings.Advance | src/settings.rs:50-58 | One step of the overlap fold: a failed cursor stays failed, a run starting before the cursor fails it, and otherwise the cursor moves to the run's end (start plus length, default 1); its meaning over a table is `Settings.FoldSucceedsIffChained` |
| Settings.FoldCursor | src/settings.rs:49-58 | The `fold` of `Advance` over the sorted table from `Some(0)`; `Settings.FoldFromNone` and `Settings.FoldSucceedsIffChained` state when it succeeds |
| Settings.FoldFromNone | src/settings.rs:49-58 | Once the cursor fold has failed it stays failed (`and_then` on `None`) |
| Settings.FoldSucceedsIffChained | src/settings.rs:49-58 | The fold from cursor `c` succeeds exactly when `c` is at most the first start and each run ends (start plus length, default 1) no later than the next one starts; touching runs pass because the test is a strict `>` |
| Settings.ChainedOrdered | src/settings.rs:49-58 | In a chained table every run ends no later than any later run starts |
| Settings.ChainedDisjoint | src/settings.rs:49-62 | A table that passes the fold has pairwise disjoint target runs |
| Settings.Validate | src/settings.rs:42-63 | A device's table is refused as empty exactly when it has no mapping, refused as overlapping exactly when it is non-empty and its stable sort is not chained, and is otherwise returned sorted |
| Settings.ValidatedTable | src/settings.rs:47-62 | An accepted table is non-empty, a permutation of the input, sorted and stable by target start, chained, pairwise disjoint, and its fields still fit `u16` |
| Settings.ValidateDevices | src/settings.rs:42-65 | Validates the devices in configuration order and stops at the first refused table (`collect` into a `Result`); an accepted list has one entry per device, and `Settings.DevicesAccepted` and `Settings.DevicesRefused` state the rest |
| Settings.OverlapRejected | src/settings.rs:51-61 | A run that, in sorted order, starts before the end of the run before it makes validation fail with the overlap error |
| Settings.AcceptanceIgnoresSource | src/settings.rs:49-58 | Acceptance, and the error on refusal, depend only on target starts and lengths, never on source starts or reverse flags |
| Settings.DevicesAccepted | src/settings.rs:42-65 | All devices are accepted exactly when each device's table is, and then device `k` keeps its prefix and carries its own validated table |
| Settings.DevicesRefused | src/settings.rs:42-63 | When the configuration is refused, the error is the one of the first device whose table is refused, and all devices before it are accepted |
| Remap.MinTarget | src/main.rs:58 | The span start is a lower bound of all target starts and is the start of some mapping |
| Remap.MaxEnd | src/main.rs:59 | The span end is an upper bound of all run ends, is the end of some mapping, and is not below the span start |
| Remap.SourcePixel | src/main.rs:63-82 | Which source pixel, if any, the nested loops leave on target pixel `t`: the one the last covering run of the table writes there; `Remap.SourcePixelCovered`, `Remap.SourcePixelOfRun` and `Remap.TargetPixelGap` state this |
| Remap.SourcePixelCovered | src/main.rs:63-82 | A target pixel receives a source pixel exactly when some run covers it, and that source pixel lies in the source range of a covering run |
| Remap.SourcePixelOfRun | src/main.rs:63-82 | Source pixel `sourceStart + i` of run `k` ends up at target `targetStart + Slot(i)` unless a later run writes that target pixel again |
| Remap.TargetPixelGap | src/main.rs:61 | A target pixel no run covers keeps its initial value: black |
| Remap.ForwardPlacement | src/main.rs:68-80 | In a table with disjoint runs, a forward run puts source pixel `sourceStart + i` on target pixel `targetStart + i` |
| Remap.ReversePlacement | src/main.rs:64-80 | In a table with disjoint runs, a reversed run puts source pixel `sourceStart + i` on target pixel `targetStart + Len - 1 - i`, so its first source pixel lands on its last target pixel |
| TextCodec.Pack | src/main.rs:72-80 | A packed colour is below 2^24, so it fits six hex digits |
| TextCodec.PackRoundTrip | src/main.rs:72-80 | The three channels can be recovered from the packed colour |
| TextCodec.PackInjective | src/main.rs:72-80 | Two pixels pack to the same colour exactly when they are equal |
| TextCodec.HexDigitsRoundTrip | src/main.rs:86 | Any value below 16^n, written as n zero-padded lowercase hex digits, parses back to itself |
| TextCodec.HexToken | src/main.rs:86 | `format!("#{:06x} ", c)`: the token is 8 characters long, and `TextCodec.TokenRoundTrip` parses it back to the colour |
| TextCodec.TokenRoundTrip | src/main.rs:86 | A `#{:06x} ` token of a packed colour parses back to that colour |
| TextCodec.Payload | src/main.rs:83-86 | The payload has exactly 8 characters per slot |
| TextCodec.PayloadRoundTrip | src/main.rs:83-86 | Reading the payload back token by token gives every slot's colour in slot order, with gaps as 0 |
| TextCodec.BlackToken | src/main.rs:86 | A gap renders as `#000000 ` |
| TextCodec.EmptySpanPayload | src/main.rs:83-86 | A span with no colour at all renders as `#000000 ` repeated once per slot |
| TextCodec.Decimal | src/main.rs:92 | The decimal rendering of a number is non-empty, parses back to the number and has no leading zero |
| TextCodec.Topic | src/main.rs:92 | The topic is the prefix, then `/LED`, then the decimal of the span start plus one without a leading zero |
| TextPath.SlotColorRendered | src/main.rs:61-86 | A colour slot stays `None` exactly when no run covers its target pixel, and it renders as the packed colour of the target pixel (black for a gap) |
| TextPath.Span | src/main.rs:58-61 | The colour array has exactly `max end - min start` slots |
| TextPath.SpanPlacement | src/main.rs:63-80 | In a table with disjoint runs, source pixel `sourceStart + i` of any run fills slot `targetStart - min + Slot(i)` of the colour array with its packed colour |
| TextPath.WriteRun | src/main.rs:64-81 | The inner loop over one mapping sets every slot of its run to the packed colour of the source pixel that lands there and leaves every other slot as it was |
| TextPath.FillColors | src/main.rs:61-82 | Filling the colour array run after run, later runs overwriting earlier ones, gives the span of slot colours |
| TextPath.RenderedSpan | src/main.rs:61-86 | Rendering the filled array, gaps as 0, gives the packed target pixels of the span |
| TextPath.RenderPayload | src/main.rs:83-86 | The `for_each` loop builds the payload: one token per slot, in slot order |
| TextPath.PublicationPayload | src/main.rs:58-93 | A device's payload has 8 characters per span slot and decodes to the packed target pixels of its span, black where no run lands |
| TextPath.Publication | src/main.rs:58-95 | The message one Tasmota device publishes for a frame: topic `prefix/LED<min + 1>` and the payload of its span; `TextPath.PublicationPayload` and `TextCodec.Topic` state what the two parts hold |
| TextPath.TextMessage | src/main.rs:58-95 | The text path for one device builds the message addressed to its topic with its span's payload |
| Drgb.Encode | src/main.rs:102-104 | A DRGB datagram for `n` LEDs has `2 + 3n` bytes, byte 0 is protocol 2 and byte 1 is a 1-second timeout |
| Drgb.DecodeEncode | src/main.rs:102-117 | Decoding an encoded datagram gives back the LED colours |
| Drgb.EncodeDecode | src/main.rs:102-117 | Every datagram that decodes is the encoding of what it decodes to |
| Drgb.EncodeLed | src/main.rs:116-117 | LED `p` occupies bytes `3p + 2 .. 3p + 5` of the datagram |
| Drgb.EncodeUpdate | src/main.rs:117 | Changing one LED changes only its three bytes of the datagram |
| Drgb.CopyPixel | src/main.rs:115-117 | Copying the three bytes of source pixel `src` to offset `3p + 2` sets LED `p` to that pixel |
| Drgb.EncodeBlack | src/main.rs:102-104 | A zeroed packet with the header set encodes all-black LEDs |
| Drgb.BlankPacket | src/main.rs:102-104 | The freshly allocated packet encodes `n` black LEDs |
| Drgb.WriteRun | src/main.rs:106-118 | The inner loop over one mapping writes every LED of its run with the source pixel that lands there, forward or mirrored |
| Drgb.WriteAll | src/main.rs:106-119 | Writing all runs in table order, later ones overwriting earlier ones, encodes the target pixels from 0 up to the given end |
| Drgb.DrgbPacket | src/main.rs:100-119 | The packet built for a WLED device is the DRGB encoding of its target pixels from LED 0 to the table's largest end, black where no run lands |
| Drgb.Frame | src/main.rs:100-119 | The DRGB datagram of a WLED device for a frame: the encoding of its target pixels from LED 0 up to the largest end; `Drgb.FrameLed`, `Drgb.FrameDecodes` and `Drgb.DrgbPacket` state its bytes and tie it to the loop |
| Drgb.FrameLed | src/main.rs:100-117 | The datagram has `3 * maxEnd + 2` bytes, and LED `p` carries the bytes of the target pixel's colour |
| Drgb.FrameDecodes | src/main.rs:100-117 | The datagram decodes to exactly the target pixels `0 .. maxEnd` |
| Bridge.Init | src/main.rs:20-21 | Both buffers start zeroed, with the configured capacity or 1024 bytes |
| Bridge.Receive | src/main.rs:46 | A received datagram overwrites the front of the buffer, and the buffer keeps its capacity and the stale bytes after the datagram |
| Bridge.Changed | src/main.rs:53 | The change gate `buf != old_buf`, compared byte by byte; `Bridge.ChangedWhere` and `Bridge.ChangedIffDiffers` state when it fires |
| Bridge.ChangedWhere | src/main.rs:53 | The gate fires exactly when some position both buffers have holds different bytes |
| Bridge.ChangedIffDiffers | src/main.rs:53 | For buffers of equal capacity the gate fires exactly when they differ |
| Bridge.Step | src/main.rs:53-123 | One pass of the loop body after the receive: gate, publish to every Tasmota device when the frame changed, remember the buffer, send to every WLED device; `Bridge.StepGate` and `Bridge.RepeatedFrame` state its outcome and `Bridge.Dispatch` ties it to the loop |
| Bridge.Iterate | src/main.rs:46-123 | One whole loop iteration: the datagram overwrites the front of the buffer (`Bridge.Receive`), then `Bridge.Step`; `Bridge.ZeroFirstFrame` states its outcome on a first all-zero frame |
| Bridge.StepGate | src/main.rs:53-123 | After an iteration the remembered buffer is the current one; the MQTT devices are published to exactly when the frame changed, and every WLED device gets its datagram in any case |
| Bridge.RepeatedFrame | src/main.rs:53-55 | Repeating a frame publishes nothing and leaves the state as it was, but still sends every WLED datagram |
| Bridge.ZeroFirstFrame | src/main.rs:20-55 | Since both buffers start zeroed, an all-zero first datagram publishes nothing |
| Bridge.PublishAll | src/main.rs:57-97 | One message per Tasmota device, in configuration order |
| Bridge.SendAll | src/main.rs:99-123 | One datagram per WLED device, in configuration order, to the device's address |
| Bridge.Dispatch | src/main.rs:53-123 | The loop body (gate, publishes, copy into the old buffer, sends) computes one model step |
| Scenarios.MirrorScenario | src/main.rs:63-82 | A forward run of three and a mirrored run of two are accepted as written, and target pixels 0..4 read source pixels 0, 1, 2, 11, 10 |
| Scenarios.OverlapScenario | src/settings.rs:51-61 | A run starting inside the previous one is refused as overlapping |
| Scenarios.AdjacentScenario | src/settings.rs:47-58 | Runs that merely touch are accepted, and a table written back to front comes back sorted |
| Scenarios.DefaultLengthScenario | src/settings.rs:55 | A mapping without a length occupies one pixel |
| Scenarios.ZeroLengthOrderScenario | src/settings.rs:47-58 | A zero-length run is accepted before, but refused after, a run with the same start, because the stable sort keeps the written order |
| Scenarios.TopicScenario | src/main.rs:92 | Span starts 0 and 9 give topics `tasmota/LED1` and `tasmota/LED10` |
| Scenarios.PayloadScenario | src/main.rs:83-86 | Slots red, gap and `0x0a0b0c` render as their three tokens in slot order |
| Scenarios.TokenScenario | src/main.rs:86 | The tokens of those colours are `#ff0000 `, `#000000 ` and `#0a0b0c ` |
| Scenarios.DrgbScenario | src/main.rs:100-117 | One pixel copied to target 2 gives the header, two black LEDs, then the pixel's bytes |
| Scenarios.EmptyRunScenario | src/main.rs:106-118 | A run of length 0 never enters the copy loop, so a source start far past the frame is in bounds and leaves the DRGB packet as the other runs make it; a one-pixel run from there would read outside the frame |

## Left out

- UDP sockets, the MQTT client (connect, publish, reconnect options), tokio and logging are I/O. Publishing and sending are modelled as the `Message` and `Datagram` values handed to them, in order.
- The "receive buffer size might be too low" warning (src/main.rs:48-50) only logs.
- Reading the configuration file and environment (src/settings.rs:35-40) is a library call. The model starts from the deserialised device list.
- The `receive_buffer_size` cast from `u32` to `usize` (src/main.rs:20) is treated as the identity.
- `u16` wrap-around and overflow panics are not modelled. Each `u16` sum the source computes is a precondition that keeps it below 65536 (`FitsU16`, `MinTarget + 1`, `3 * MaxEnd + 2`).
- An out-of-frame source read panics in the source. The model makes the absence of such reads a precondition (`SourceInBounds`: `3 * (sourceStart + length) <= |buf|` for every run with `length > 0`) instead of modelling the panic. Empty runs are never read, so they may start anywhere (`Scenarios.EmptyRunScenario`).
- A publish or send error ends the process through `?`. The model has no transport errors, so every message and datagram is delivered.
- The `Wled` record (url and mapping table) is not declared in src/settings.rs. Its shape is taken from how src/main.rs:99-122 uses `settings.wleds`.
- The frame is the whole receive buffer, including stale bytes after a short datagram, because the source compares and reads all of `buf`, never `buf[..len]`. The received length is not modelled.
- Bridge.Receive: models `recv_from` only as the bytes it writes; the returned length and sender address are dropped, since the loop ignores the sender and uses the length only for the warning.
- TextPath.TextMessage: states that the message equals `Publication`; its payload and topic facts are in `TextPath.PublicationPayload` and `TextCodec.Topic`.
- Drgb.DrgbPacket: an empty WLED table panics at `.max().unwrap()` (src/main.rs:100). The model requires a non-empty table here, and `Bridge.WledsReady` requires one for every WLED device, instead of modelling the panic.
- TextPath.Publication: an empty Tasmota table cannot reach the text path, because validation refuses it (src/settings.rs:43-45). The model requires a non-empty table, and `Bridge.TasmotasReady` requires one for every Tasmota device.
- Settings.ValidateDevices: its own contract gives only the device count; acceptance and refusal are stated by `Settings.DevicesAccepted` and `Settings.DevicesRefused`.
