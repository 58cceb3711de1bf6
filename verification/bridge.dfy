/** One iteration of the main loop of src/main.rs: a datagram lands in the receive buffer,
    the change gate decides whether the MQTT devices are updated, and every WLED device gets
    its DRGB datagram regardless. Publishing and sending are modelled as the values handed to
    the MQTT client and the UDP socket. */
module Bridge {
  import opened Results
  import opened Mappings
  import opened Remap
  import opened Settings
  import opened TextPath
  import opened Drgb

  /** Receive buffer capacity when the configuration names none. */
  const DEFAULT_RECEIVE_BUFFER_SIZE: nat := 1024

  /** A WLED device: where its datagrams go and its (unvalidated) mapping table. */
  datatype Wled = Wled(url: string, mappings: seq<LedMapping>)

  /** What is handed to `send_to`. */
  datatype Datagram = Datagram(url: string, packet: seq<Byte>)

  /** The devices of the configuration, MQTT tables already validated. */
  datatype Devices = Devices(tasmotas: seq<Tasmota>, wleds: seq<Wled>)

  /** The two buffers the loop keeps between iterations. */
  datatype State = State(buf: seq<Byte>, oldBuf: seq<Byte>)

  /** What one iteration produces: the next state and everything published and sent. */
  datatype Output = Output(state: State, published: seq<Message>, sent: seq<Datagram>)

  /** Both buffers start zeroed, with the configured capacity. */
  function Init(receiveBufferSize: Option<nat>): (s: State)
    ensures |s.buf| == |s.oldBuf| == receiveBufferSize.GetOr(DEFAULT_RECEIVE_BUFFER_SIZE)
    ensures forall i :: 0 <= i < |s.buf| ==> s.buf[i] == 0 && s.oldBuf[i] == 0
  {
    var zeros := seq(receiveBufferSize.GetOr(DEFAULT_RECEIVE_BUFFER_SIZE), _ => 0);
    State(zeros, zeros)
  }

  /** `recv_from` into the fixed buffer: the datagram's bytes overwrite the front of the buffer
      (a longer datagram is cut to the capacity) and the rest keeps what was there before. */
  function Receive(buf: seq<Byte>, datagram: seq<Byte>): (next: seq<Byte>)
    ensures |next| == |buf|
    ensures forall i :: 0 <= i < |buf| ==> next[i] == (if i < |datagram| then datagram[i] else buf[i])
  {
    if |datagram| >= |buf| then datagram[..|buf|] else datagram + buf[|datagram|..]
  }

  /** `buf.iter().zip(old_buf.iter()).any(|(a, b)| a != b)`: some position both buffers have
      holds different bytes. */
  function Changed(buf: seq<Byte>, prev: seq<Byte>): (c: bool)
    decreases |buf|
  {
    if |buf| == 0 || |prev| == 0 then false
    else buf[0] != prev[0] || Changed(buf[1..], prev[1..])
  }

  /** The gate fires exactly when the zipped buffers differ at some position. */
  lemma {:induction false} ChangedWhere(buf: seq<Byte>, prev: seq<Byte>)
    ensures Changed(buf, prev) <==> exists i :: 0 <= i < |buf| && i < |prev| && buf[i] != prev[i]
    decreases |buf|
  {
    if |buf| > 0 && |prev| > 0 {
      ChangedWhere(buf[1..], prev[1..]);
      if !Changed(buf, prev) {
        forall i | 0 <= i < |buf| && i < |prev|
          ensures buf[i] == prev[i]
        {
          if i > 0 {
            assert buf[1..][i - 1] == buf[i] && prev[1..][i - 1] == prev[i];
          }
        }
      } else if buf[0] == prev[0] {
        var i :| 0 <= i < |buf[1..]| && i < |prev[1..]| && buf[1..][i] != prev[1..][i];
        assert buf[i + 1] != prev[i + 1];
      }
    }
  }

  /** For buffers of the same capacity the gate fires exactly when they differ. */
  lemma ChangedIffDiffers(buf: seq<Byte>, prev: seq<Byte>)
    requires |buf| == |prev|
    ensures Changed(buf, prev) <==> buf != prev
  {
    ChangedWhere(buf, prev);
    if buf != prev {
      var i :| 0 <= i < |buf| && buf[i] != prev[i];
    }
  }

  /** What the source needs of the MQTT devices to render a frame of `frameSize` bytes
      without a panic: non-empty tables reading inside the frame, with `u16` ends and a `u16`
      topic index. */
  predicate TasmotasReady(ts: seq<Tasmota>, frameSize: nat) {
    forall k :: 0 <= k < |ts| ==>
      |ts[k].mappings| > 0 && SourceInBounds(ts[k].mappings, frameSize) && AllFitU16(ts[k].mappings)
      && MinTarget(ts[k].mappings) + 1 < U16_LIMIT
  }

  /** The same for the WLED devices, whose datagram length is a `u16` expression. */
  predicate WledsReady(ws: seq<Wled>, frameSize: nat) {
    forall k :: 0 <= k < |ws| ==>
      |ws[k].mappings| > 0 && SourceInBounds(ws[k].mappings, frameSize) && AllFitU16(ws[k].mappings)
      && 3 * MaxEnd(ws[k].mappings) + 2 < U16_LIMIT
  }

  predicate Ready(d: Devices, frameSize: nat) {
    TasmotasReady(d.tasmotas, frameSize) && WledsReady(d.wleds, frameSize)
  }

  /** The messages of all MQTT devices, in configuration order. */
  function Publications(buf: seq<Byte>, ts: seq<Tasmota>): (msgs: seq<Message>)
    requires forall k :: 0 <= k < |ts| ==> |ts[k].mappings| > 0 && SourceInBounds(ts[k].mappings, |buf|)
    ensures |msgs| == |ts|
    ensures forall k :: 0 <= k < |ts| ==> msgs[k] == Publication(buf, ts[k])
  {
    seq(|ts|, k requires 0 <= k < |ts| => Publication(buf, ts[k]))
  }

  /** The datagrams of all WLED devices, in configuration order. */
  function Datagrams(buf: seq<Byte>, ws: seq<Wled>): (out: seq<Datagram>)
    requires forall k :: 0 <= k < |ws| ==> |ws[k].mappings| > 0 && SourceInBounds(ws[k].mappings, |buf|)
    ensures |out| == |ws|
    ensures forall k :: 0 <= k < |ws| ==> out[k] == Datagram(ws[k].url, Frame(buf, ws[k].mappings))
  {
    seq(|ws|, k requires 0 <= k < |ws| => Datagram(ws[k].url, Frame(buf, ws[k].mappings)))
  }

  /** One iteration on a buffer that already holds the frame: publish to every MQTT device and
      remember the frame when it differs from the last one published; send to every WLED
      device in any case. */
  function Step(d: Devices, s: State): (out: Output)
    requires |s.buf| == |s.oldBuf| && Ready(d, |s.buf|)
  {
    var changed := Changed(s.buf, s.oldBuf);
    Output(State(s.buf, if changed then s.buf else s.oldBuf),
           if changed then Publications(s.buf, d.tasmotas) else [],
           Datagrams(s.buf, d.wleds))
  }

  /** A full iteration: receive the datagram, then step. */
  function Iterate(d: Devices, s: State, datagram: seq<Byte>): Output
    requires |s.buf| == |s.oldBuf| && Ready(d, |s.buf|)
  {
    Step(d, State(Receive(s.buf, datagram), s.oldBuf))
  }

  /** After any step the remembered frame is the current one, the MQTT devices hear about it
      exactly when it differs from the previous one, and the WLED devices always do. */
  lemma StepGate(d: Devices, s: State)
    requires |s.buf| == |s.oldBuf| && Ready(d, |s.buf|)
    ensures Step(d, s).state == State(s.buf, s.buf)
    ensures s.buf != s.oldBuf ==> Step(d, s).published == Publications(s.buf, d.tasmotas)
    ensures s.buf == s.oldBuf ==> Step(d, s).published == []
    ensures Step(d, s).sent == Datagrams(s.buf, d.wleds)
  {
    ChangedIffDiffers(s.buf, s.oldBuf);
  }

  /** The same frame twice publishes nothing the second time, leaves the state as it was and
      still sends every WLED datagram. */
  lemma RepeatedFrame(d: Devices, s: State)
    requires |s.buf| == |s.oldBuf| && Ready(d, |s.buf|)
    ensures Step(d, Step(d, s).state).published == []
    ensures Step(d, Step(d, s).state).state == Step(d, s).state
    ensures Step(d, Step(d, s).state).sent == Step(d, s).sent
  {
    StepGate(d, s);
    StepGate(d, Step(d, s).state);
  }

  /** Since the buffers start zeroed, an all-zero first datagram publishes nothing. */
  lemma ZeroFirstFrame(d: Devices, receiveBufferSize: Option<nat>, datagram: seq<Byte>)
    requires Ready(d, receiveBufferSize.GetOr(DEFAULT_RECEIVE_BUFFER_SIZE))
    requires forall i :: 0 <= i < |datagram| ==> datagram[i] == 0
    ensures Iterate(d, Init(receiveBufferSize), datagram).published == []
  {
    var s := Init(receiveBufferSize);
    var buf := Receive(s.buf, datagram);
    assert buf == s.oldBuf;
    StepGate(d, State(buf, s.oldBuf));
  }

  lemma PrefixSnoc<T>(s: seq<T>, k: nat)
    requires k < |s|
    ensures s[..k + 1] == s[..k] + [s[k]]
  {
  }

  /** The `for tasmota in settings.tasmotas` loop: one message per device, in order. */
  method PublishAll(buf: seq<Byte>, ts: seq<Tasmota>) returns (published: seq<Message>)
    requires TasmotasReady(ts, |buf|)
    ensures published == Publications(buf, ts)
  {
    ghost var all := Publications(buf, ts);
    published := [];
    var k := 0;
    while k < |ts|
      invariant 0 <= k <= |ts|
      invariant published == all[..k]
    {
      var msg := TextMessage(buf, ts[k]);
      assert msg == all[k];
      PrefixSnoc(all, k);
      published := published + [msg];
      k := k + 1;
    }
    assert all[..k] == all;
  }

  /** The `for wled in settings.wleds` loop: one datagram per device, in order. */
  method SendAll(buf: seq<Byte>, ws: seq<Wled>) returns (sent: seq<Datagram>)
    requires WledsReady(ws, |buf|)
    ensures sent == Datagrams(buf, ws)
  {
    ghost var all := Datagrams(buf, ws);
    sent := [];
    var k := 0;
    while k < |ws|
      invariant 0 <= k <= |ws|
      invariant sent == all[..k]
    {
      var w := ws[k];
      var packet := DrgbPacket(buf, w.mappings);
      assert Datagram(w.url, packet) == all[k];
      PrefixSnoc(all, k);
      sent := sent + [Datagram(w.url, packet)];
      k := k + 1;
    }
    assert all[..k] == all;
  }

  /** The loop body as the source writes it: the gate with the publishes, which also copies
      the frame into `old_buf`, then the sends. */
  method Dispatch(d: Devices, s: State) returns (out: Output)
    requires |s.buf| == |s.oldBuf| && Ready(d, |s.buf|)
    ensures out == Step(d, s)
  {
    var oldBuf := s.oldBuf;
    var published: seq<Message> := [];
    if Changed(s.buf, oldBuf) {
      oldBuf := s.buf;
      published := PublishAll(s.buf, d.tasmotas);
    }
    var sent := SendAll(s.buf, d.wleds);
    out := Output(State(s.buf, oldBuf), published, sent);
  }
}
