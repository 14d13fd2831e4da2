/**
 * The CrsfSerial receiver/transmitter object: the frame assembler of
 * assembler.dfy with CrsfSerial's constants, the three packet handlers, the
 * link state and its 300 ms failsafe, the passthrough baud state machine and
 * the outbound framer.
 *
 * The callbacks (onLinkUp, onLinkDown, onOobData, onPacketChannels,
 * onPacketLinkStatistics, onPacketGps) are recorded, in order, in a log of
 * Callback values; the serial port is a log of PortOp values; millis() is a
 * timestamp carried with each received byte and a `now` for the checks that
 * follow the receive loop.
 */
module Serial {
  import opened Arith
  import opened Bytes
  import opened Protocol
  import opened Channels
  import opened Assembler

  /** Idle time after which a partial frame is flushed (CrsfSerial.h). */
  const PACKET_TIMEOUT_MS: U32 := 100
  /** Time without a channels packet after which the link is down (CrsfSerial.h). */
  const FAILSAFE_STAGE1_MS: U32 := 300
  /** The constructor's default baud rate. */
  const BAUDRATE: U32 := 420000

  datatype Callback =
    | LinkUp
    | LinkDown
    | OobData(b: Byte)
    | PacketChannels
    | PacketLinkStatistics(stats: LinkStatistics)
    | PacketGps(gps: GpsSensor)

  datatype PortOp = Begin(baud: U32) | End | Write(bytes: seq<Byte>)

  /** A byte read from the port and the millis() reading taken right after it. */
  datatype Rx = Rx(b: Byte, at: U32)

  /** Everything of a CrsfSerial object except the constant `_baud`. */
  datatype Serial = Serial(
    rx: RxState,
    lastReceive: U32,
    lastChannelsPacket: U32,
    linkIsUp: bool,
    passthroughBaud: U32,
    channels: seq<int>,
    linkStatistics: LinkStatistics,
    gpsSensor: GpsSensor,
    callbacks: seq<Callback>,
    port: seq<PortOp>)

  predicate Inv(s: Serial)
  {
    Fits(SERIAL, s.rx) && s.rx.pos < SERIAL.capacity && |s.channels| == NUM_CHANNELS
  }

  /**
   * A freshly constructed object in static storage: the constructor sets the
   * timestamps, the link flag and the passthrough baud; the buffer, its
   * cursor, the channels and the sensors hold zero because static storage
   * starts zeroed.
   */
  function Initial(): (s: Serial)
    ensures Inv(s) && !s.linkIsUp && s.passthroughBaud == 0 && s.rx.pos == 0
  {
    Serial(RxState(seq(SERIAL.capacity, _ => 0), 0), 0, 0, false, 0,
           seq(NUM_CHANNELS, _ => 0), ZERO_LINK_STATISTICS, ZERO_GPS, [], [])
  }

  /** getPassthroughMode */
  predicate InPassthrough(s: Serial)
  {
    s.passthroughBaud != 0
  }

  /** begin(b): open the port at b, or at `_baud` when b is 0. */
  function Begun(s: Serial, baud: U32, b: U32): (r: Serial)
    ensures r.port == s.port + [Begin(if b != 0 then b else baud)]
    ensures r == s.(port := r.port)
  {
    s.(port := s.port + [Begin(if b != 0 then b else baud)])
  }

  /** processPacketIn on the buffer w: dispatch on the type byte, read the payload from offset 3. */
  function ProcessedPacket(s: Serial, w: seq<Byte>, t: U32): (r: Serial)
    requires Inv(s) && |w| == SERIAL.capacity
    ensures Inv(r) && r.rx == s.rx && r.passthroughBaud == s.passthroughBaud && r.port == s.port
  {
    var data := w[OFFSET_PAYLOAD..];
    if w[OFFSET_TYPE] == FRAMETYPE_GPS then
      var g := DecodeGps(data);
      s.(gpsSensor := g, callbacks := s.callbacks + [PacketGps(g)])
    else if w[OFFSET_TYPE] == FRAMETYPE_RC_CHANNELS_PACKED then
      s.(channels := DecodedChannels(data), linkIsUp := true, lastChannelsPacket := t,
         callbacks := s.callbacks + (if s.linkIsUp then [] else [LinkUp]) + [PacketChannels])
    else if w[OFFSET_TYPE] == FRAMETYPE_LINK_STATISTICS then
      var l := DecodeLinkStatistics(data);
      s.(linkStatistics := l, callbacks := s.callbacks + [PacketLinkStatistics(l)])
    else s
  }

  /** Every dispatched frame comes with the whole 64-byte buffer. */
  predicate Dispatchable(events: seq<Event>)
  {
    forall i :: 0 <= i < |events| && events[i].Packet? ==> |events[i].window| == SERIAL.capacity
  }

  /** The assembler's events in order: a dropped byte goes to onOobData, a frame to processPacketIn. */
  function Dispatched(s: Serial, events: seq<Event>, t: U32): (r: Serial)
    requires Inv(s) && Dispatchable(events)
    ensures Inv(r) && r.rx == s.rx && r.passthroughBaud == s.passthroughBaud && r.port == s.port
    decreases |events|
  {
    if events == [] then s else Dispatched(DispatchedOne(s, events[0], t), events[1..], t)
  }

  function DispatchedOne(s: Serial, e: Event, t: U32): (r: Serial)
    requires Inv(s) && (e.Packet? ==> |e.window| == SERIAL.capacity)
    ensures Inv(r) && r.rx == s.rx && r.passthroughBaud == s.passthroughBaud && r.port == s.port
  {
    match e
    case Oob(b) => s.(callbacks := s.callbacks + [OobData(b)])
    case Packet(_, w) => ProcessedPacket(s, w, t)
  }

  /** One iteration of the receive loop of handleSerialIn. */
  function ByteIn(s: Serial, r: Rx): (s': Serial)
    requires Inv(s)
    ensures Inv(s') && s'.passthroughBaud == s.passthroughBaud && s'.port == s.port
  {
    var s1 := s.(lastReceive := r.at);
    if InPassthrough(s) then s1.(callbacks := s1.callbacks + [OobData(r.b)])
    else
      var d := Received(SERIAL, s.rx, r.b);
      ReceivedFramesValid(SERIAL, s.rx, r.b);
      Dispatched(s1.(rx := d.st), d.events, r.at)
  }

  /** The receive loop over all available bytes. */
  function BytesIn(s: Serial, input: seq<Rx>): (s': Serial)
    requires Inv(s)
    ensures Inv(s') && s'.passthroughBaud == s.passthroughBaud && s'.port == s.port
    decreases |input|
  {
    if input == [] then s else BytesIn(ByteIn(s, input[0]), input[1..])
  }

  /** checkPacketTimeout: after 100 ms without data a partial frame is flushed byte by byte. */
  function PacketTimeoutChecked(s: Serial, now: U32): (r: Serial)
    requires Inv(s)
    ensures Inv(r)
  {
    if s.rx.pos > 0 && Sub32(now, s.lastReceive) > PACKET_TIMEOUT_MS then
      var d := Flushed(SERIAL, s.rx);
      FlushedOnlyOob(SERIAL, s.rx);
      Dispatched(s.(rx := d.st), d.events, now)
    else s
  }

  /** checkLinkDown: more than 300 ms since the last channels packet takes an up link down. */
  function LinkDownChecked(s: Serial, now: U32): (r: Serial)
    requires Inv(s)
    ensures Inv(r)
  {
    if s.linkIsUp && Sub32(now, s.lastChannelsPacket) > FAILSAFE_STAGE1_MS then
      s.(linkIsUp := false, callbacks := s.callbacks + [LinkDown])
    else s
  }

  /** handleSerialIn (and loop): the receive loop, then the two time checks. */
  function SerialIn(s: Serial, input: seq<Rx>, now: U32): (r: Serial)
    requires Inv(s)
    ensures Inv(r)
  {
    LinkDownChecked(PacketTimeoutChecked(BytesIn(s, input), now), now)
  }

  /** queuePacket: nothing in passthrough or for a payload over 60 bytes, else one written frame. */
  function Queued(s: Serial, kind: Byte, payload: seq<Byte>): (r: Serial)
    requires |payload| < 256
  {
    if InPassthrough(s) || |payload| > MAX_PAYLOAD_LEN then s
    else s.(port := s.port + [Write(FrameBytes(SYNC_BYTE, kind, payload))])
  }

  /** The close and reopen at the end of setPassthroughMode: begin(_passthroughBaud). */
  function Reopened(s: Serial, baud: U32): Serial
  {
    Begun(s.(port := s.port + [End]), baud, s.passthroughBaud)
  }

  /** setPassthroughMode(val, b). */
  function PassthroughSet(s: Serial, baud: U32, val: bool, b: U32): (r: Serial)
  {
    if val then
      if b == 0 then s.(passthroughBaud := if s.passthroughBaud == 0 then baud else s.passthroughBaud)
      else Reopened(s.(passthroughBaud := b), baud)
    else if s.passthroughBaud == 0 then s
    else if s.passthroughBaud == baud then s.(passthroughBaud := 0)
    else Reopened(s.(passthroughBaud := 0), baud)
  }

  /** setChannel(ch, us), 1-based, as the handset example uses it. */
  function ChannelSet(s: Serial, ch: nat, us: int): (r: Serial)
    requires 1 <= ch <= NUM_CHANNELS && |s.channels| == NUM_CHANNELS
    ensures |r.channels| == NUM_CHANNELS
  {
    s.(channels := s.channels[ch - 1 := us])
  }

  // ---------------------------------------------------------------------
  // Properties

  /** In passthrough every byte goes to onOobData, in order, and the frame buffer is left alone. */
  lemma {:induction false} PassthroughBytesAreOob(s: Serial, input: seq<Rx>)
    requires Inv(s) && InPassthrough(s)
    ensures var r := BytesIn(s, input);
            r.rx == s.rx && r.linkIsUp == s.linkIsUp && r.channels == s.channels
            && r.callbacks == s.callbacks + OobCallbacks(input)
            && (input != [] ==> r.lastReceive == input[|input| - 1].at)
    decreases |input|
  {
    if input != [] {
      var s1 := ByteIn(s, input[0]);
      PassthroughBytesAreOob(s1, input[1..]);
      assert OobCallbacks(input) == [OobData(input[0].b)] + OobCallbacks(input[1..]);
      if |input| > 1 {
        assert input[1..][|input[1..]| - 1] == input[|input| - 1];
      }
    }
  }

  function OobCallbacks(input: seq<Rx>): (r: seq<Callback>)
    ensures |r| == |input|
  {
    if input == [] then [] else [OobData(input[0].b)] + OobCallbacks(input[1..])
  }

  /**
   * onLinkUp fires exactly for a channels packet while the link is down; a
   * GPS or link statistics packet leaves the link state alone.
   */
  lemma LinkUpOnlyOnChannels(s: Serial, w: seq<Byte>, t: U32)
    requires Inv(s) && |w| == SERIAL.capacity
    ensures var r := ProcessedPacket(s, w, t);
            (LinkUp in r.callbacks[|s.callbacks|..] <==> w[OFFSET_TYPE] == FRAMETYPE_RC_CHANNELS_PACKED && !s.linkIsUp)
            && |r.callbacks| >= |s.callbacks| && r.callbacks[..|s.callbacks|] == s.callbacks
    ensures var r := ProcessedPacket(s, w, t);
            w[OFFSET_TYPE] != FRAMETYPE_RC_CHANNELS_PACKED ==>
              r.linkIsUp == s.linkIsUp && r.lastChannelsPacket == s.lastChannelsPacket && r.channels == s.channels
  {
    var r := ProcessedPacket(s, w, t);
    if w[OFFSET_TYPE] == FRAMETYPE_RC_CHANNELS_PACKED {
      assert r.callbacks[|s.callbacks|..] == (if s.linkIsUp then [] else [LinkUp]) + [PacketChannels];
    } else if w[OFFSET_TYPE] == FRAMETYPE_GPS || w[OFFSET_TYPE] == FRAMETYPE_LINK_STATISTICS {
      assert |r.callbacks[|s.callbacks|..]| == 1 && r.callbacks[|s.callbacks|..][0] != LinkUp;
    } else {
      assert r.callbacks[|s.callbacks|..] == [];
    }
  }

  /** A channels packet raises the link, stamps it and stores sixteen values in [880, 2159]. */
  lemma ChannelsPacketRaisesLink(s: Serial, w: seq<Byte>, t: U32)
    requires Inv(s) && |w| == SERIAL.capacity && w[OFFSET_TYPE] == FRAMETYPE_RC_CHANNELS_PACKED
    ensures var r := ProcessedPacket(s, w, t);
            r.linkIsUp && r.lastChannelsPacket == t
            && (forall i :: 0 <= i < NUM_CHANNELS ==> r.channels[i] == CrsfToUs(ChannelRaw(w[3..25], i)))
            && (forall i :: 0 <= i < NUM_CHANNELS ==> 880 <= r.channels[i] <= 2159)
  {
    var data := w[3..];
    forall i | 0 <= i < NUM_CHANNELS
      ensures ChannelRaw(data, i) == ChannelRaw(w[3..25], i)
    {
      assert data[..22] == w[3..25][..22];
    }
  }

  /** onLinkDown fires at most once: after checkLinkDown fires, further checks change nothing. */
  lemma LinkDownOnce(s: Serial, t1: U32, t2: U32)
    requires Inv(s)
    ensures var r := LinkDownChecked(s, t1);
            (r != s <==> s.linkIsUp && Sub32(t1, s.lastChannelsPacket) > FAILSAFE_STAGE1_MS)
            && (r != s ==> !r.linkIsUp && r.callbacks == s.callbacks + [LinkDown])
            && (r != s ==> LinkDownChecked(r, t2) == r)
  {
    var r := LinkDownChecked(s, t1);
    if s.linkIsUp && Sub32(t1, s.lastChannelsPacket) > FAILSAFE_STAGE1_MS {
      assert r.linkIsUp != s.linkIsUp;
    }
  }

  /** The idle flush empties the buffer and reports all but the last buffered byte. */
  lemma IdleFlushReports(s: Serial, now: U32)
    requires Inv(s) && s.rx.pos > 0 && Sub32(now, s.lastReceive) > PACKET_TIMEOUT_MS
    ensures var r := PacketTimeoutChecked(s, now);
            r.rx.pos == 0 && r.callbacks == s.callbacks + OobBytes(Contents(s.rx)[..s.rx.pos - 1])
            && r.linkIsUp == s.linkIsUp && r.channels == s.channels
  {
    var d := Flushed(SERIAL, s.rx);
    FlushedReports(SERIAL, s.rx);
    FlushedOnlyOob(SERIAL, s.rx);
    DispatchedOob(s.(rx := d.st), Contents(s.rx)[..s.rx.pos - 1], now);
  }

  function OobBytes(bs: seq<Byte>): (r: seq<Callback>)
    ensures |r| == |bs|
  {
    if bs == [] then [] else [OobData(bs[0])] + OobBytes(bs[1..])
  }

  /** Dropped bytes only append their onOobData calls. */
  lemma {:induction false} DispatchedOob(s: Serial, bs: seq<Byte>, t: U32)
    requires Inv(s)
    ensures Dispatchable(OobAll(bs))
    ensures var r := Dispatched(s, OobAll(bs), t);
            r == s.(callbacks := s.callbacks + OobBytes(bs))
    decreases |bs|
  {
    OobAllOnlyOob(bs);
    if bs != [] {
      var s1 := s.(callbacks := s.callbacks + [OobData(bs[0])]);
      DispatchedOob(s1, bs[1..], t);
      assert OobAll(bs)[0] == Oob(bs[0]) && OobAll(bs)[1..] == OobAll(bs[1..]);
    }
  }

  lemma {:induction false} OobAllOnlyOob(bs: seq<Byte>)
    ensures forall i :: 0 <= i < |OobAll(bs)| ==> OobAll(bs)[i] == Oob(bs[i])
    decreases |bs|
  {
    if bs != [] {
      OobAllOnlyOob(bs[1..]);
    }
  }

  /**
   * queuePacket writes [0xC8, len + 2, type, payload, crc] when it writes
   * anything, and a receiver fed those bytes dispatches exactly that frame.
   */
  lemma QueuePacketRoundTrip(s: Serial, kind: Byte, payload: seq<Byte>, st: RxState)
    requires |payload| < 256 && Fits(SERIAL, st) && st.pos == 0
    ensures var r := Queued(s, kind, payload);
            r == s <==> InPassthrough(s) || |payload| > MAX_PAYLOAD_LEN
    ensures !InPassthrough(s) && 1 <= |payload| <= MAX_PAYLOAD_LEN ==>
            var f := FrameBytes(SYNC_BYTE, kind, payload);
            Queued(s, kind, payload).port == s.port + [Write(f)]
            && var d := Fed(SERIAL, st, f);
               |d.events| == 1 && d.events[0].Packet? && d.events[0].frame == f && d.st.pos == 0
  {
    if !InPassthrough(s) && |payload| <= MAX_PAYLOAD_LEN {
      assert |Queued(s, kind, payload).port| == |s.port| + 1;
      if 1 <= |payload| {
        FrameRoundTrip(SERIAL, st, SYNC_BYTE, kind, payload);
      }
    }
  }

  /** An empty payload gives frame size 2, which the receiver turns away at its first check. */
  lemma EmptyPayloadRejected(kind: Byte)
    ensures Classify(SERIAL, FrameBytes(SYNC_BYTE, kind, [])) == BadLength
  {
  }

  /** The passthrough baud rules of setPassthroughMode. */
  lemma PassthroughRules(s: Serial, baud: U32, val: bool, b: U32)
    ensures var r := PassthroughSet(s, baud, val, b);
            (val && b == 0 ==> r.passthroughBaud == (if s.passthroughBaud == 0 then baud else s.passthroughBaud))
            && (val && b != 0 ==> r.passthroughBaud == b)
            && (!val ==> r.passthroughBaud == 0)
    ensures var r := PassthroughSet(s, baud, val, b);
            (r.port != s.port <==> (val && b != 0) || (!val && s.passthroughBaud != 0 && s.passthroughBaud != baud))
            && (r.port != s.port ==>
                  r.port == s.port + [End, Begin(if r.passthroughBaud != 0 then r.passthroughBaud else baud)])
    ensures var r := PassthroughSet(s, baud, val, b);
            r.rx == s.rx && r.linkIsUp == s.linkIsUp && r.channels == s.channels && r.callbacks == s.callbacks
  {
    var r := PassthroughSet(s, baud, val, b);
    if r.port != s.port {
      assert r.port == s.port + [End, Begin(if r.passthroughBaud != 0 then r.passthroughBaud else baud)];
    }
  }

  /** Enabling passthrough without a baud enters it unless both the old setting and `_baud` are 0. */
  lemma PassthroughEntered(s: Serial, baud: U32)
    ensures InPassthrough(PassthroughSet(s, baud, true, 0)) <==> s.passthroughBaud != 0 || baud != 0
    ensures !InPassthrough(PassthroughSet(s, baud, false, 0))
  {
  }

  // ---------------------------------------------------------------------
  // The object

  class CrsfSerial {
    const baud: U32
    const rx: FrameAssembler
    var lastReceive: U32
    var lastChannelsPacket: U32
    var linkIsUp: bool
    var passthroughBaud: U32
    var channels: seq<int>
    var linkStatistics: LinkStatistics
    var gpsSensor: GpsSensor
    var callbacks: seq<Callback>
    var port: seq<PortOp>

    ghost predicate Valid()
      reads this, rx
    {
      rx.Valid() && rx.cfg == SERIAL && rx.pos < SERIAL.capacity && |channels| == NUM_CHANNELS
    }

    function Snapshot(): Serial
      reads this, rx, rx.buf
    {
      Serial(rx.State(), lastReceive, lastChannelsPacket, linkIsUp, passthroughBaud,
             channels, linkStatistics, gpsSensor, callbacks, port)
    }

    constructor(baud: U32)
      ensures Valid() && fresh(rx) && fresh(rx.buf)
      ensures this.baud == baud && Snapshot() == Initial()
    {
      this.baud := baud;
      ConfigsWellFormed();
      rx := new FrameAssembler(SERIAL);
      lastReceive, lastChannelsPacket, linkIsUp, passthroughBaud := 0, 0, false, 0;
      channels := seq(NUM_CHANNELS, _ => 0);
      linkStatistics, gpsSensor := ZERO_LINK_STATISTICS, ZERO_GPS;
      callbacks, port := [], [];
    }

    function GetBaud(): (b: U32)
      reads this
      ensures b == baud
    {
      baud
    }

    /** getChannel, 1-based. */
    function GetChannel(ch: nat): (us: int)
      reads this
      requires 1 <= ch <= NUM_CHANNELS && |channels| == NUM_CHANNELS
      ensures us == channels[ch - 1]
    {
      channels[ch - 1]
    }

    function IsLinkUp(): (up: bool)
      reads this
      ensures up == linkIsUp
    {
      linkIsUp
    }

    function GetPassthroughMode(): (on: bool)
      reads this, rx, rx.buf
      ensures on == InPassthrough(Snapshot())
    {
      passthroughBaud != 0
    }

    method Begin(b: U32)
      requires Valid()
      modifies this
      ensures Valid() && Snapshot() == Begun(old(Snapshot()), baud, b)
    {
      port := port + [PortOp.Begin(if b != 0 then b else baud)];
    }

    method HandleSerialIn(input: seq<Rx>, now: U32)
      requires Valid()
      modifies this, rx, rx.buf
      ensures Valid() && Snapshot() == SerialIn(old(Snapshot()), input, now)
    {
      ghost var start := Snapshot();
      var i := 0;
      while i < |input|
        invariant Valid() && 0 <= i <= |input|
        invariant BytesIn(start, input) == BytesIn(Snapshot(), input[i..])
      {
        var r := input[i];
        ByteReceived(r);
        assert input[i..][0] == r && input[i..][1..] == input[i + 1..];
        i := i + 1;
      }
      assert input[i..] == [];
      CheckPacketTimeout(now);
      CheckLinkDown(now);
    }

    /** One received byte r of handleSerialIn's loop. */
    method ByteReceived(r: Rx)
      requires Valid()
      modifies this, rx, rx.buf
      ensures Valid() && Snapshot() == ByteIn(old(Snapshot()), r)
    {
      ghost var before := Snapshot();
      lastReceive := r.at;
      if GetPassthroughMode() {
        callbacks := callbacks + [OobData(r.b)];
      } else {
        var events := rx.Receive(r.b);
        ReceivedFramesValid(SERIAL, before.rx, r.b);
        Dispatch(events, r.at);
      }
    }

    /** Hand the assembler's events over in order. */
    method Dispatch(events: seq<Event>, t: U32)
      requires Valid() && Dispatchable(events)
      modifies this
      ensures Valid() && Snapshot() == Dispatched(old(Snapshot()), events, t)
    {
      ghost var start := Snapshot();
      var i := 0;
      while i < |events|
        invariant Valid() && 0 <= i <= |events|
        invariant Dispatched(start, events, t) == Dispatched(Snapshot(), events[i..], t)
      {
        assert events[i..][0] == events[i] && events[i..][1..] == events[i + 1..];
        ghost var before := Snapshot();
        match events[i] {
          case Oob(b) =>
            callbacks := callbacks + [OobData(b)];
          case Packet(_, w) =>
            ProcessPacketIn(w, t);
        }
        assert Snapshot() == DispatchedOne(before, events[i], t);
        i := i + 1;
      }
      assert events[i..] == [];
    }

    method ProcessPacketIn(w: seq<Byte>, t: U32)
      requires Valid() && |w| == SERIAL.capacity
      modifies this
      ensures Valid() && Snapshot() == ProcessedPacket(old(Snapshot()), w, t)
    {
      if w[OFFSET_TYPE] == FRAMETYPE_GPS {
        PacketGps(w);
      } else if w[OFFSET_TYPE] == FRAMETYPE_RC_CHANNELS_PACKED {
        PacketChannelsPacked(w, t);
      } else if w[OFFSET_TYPE] == FRAMETYPE_LINK_STATISTICS {
        PacketLinkStatistics(w);
      }
    }

    method PacketChannelsPacked(w: seq<Byte>, t: U32)
      requires Valid() && |w| == SERIAL.capacity
      modifies this
      ensures Valid()
      ensures Snapshot() == old(Snapshot()).(channels := DecodedChannels(w[OFFSET_PAYLOAD..]),
                linkIsUp := true, lastChannelsPacket := t,
                callbacks := old(callbacks) + (if old(linkIsUp) then [] else [LinkUp]) + [PacketChannels])
    {
      channels := UnpackChannels(w[OFFSET_PAYLOAD..]);
      if !linkIsUp {
        callbacks := callbacks + [LinkUp];
      }
      linkIsUp := true;
      lastChannelsPacket := t;
      callbacks := callbacks + [PacketChannels];
    }

    method PacketLinkStatistics(w: seq<Byte>)
      requires Valid() && |w| == SERIAL.capacity
      modifies this
      ensures Valid()
      ensures Snapshot() == old(Snapshot()).(linkStatistics := DecodeLinkStatistics(w[OFFSET_PAYLOAD..]),
                callbacks := old(callbacks) + [Callback.PacketLinkStatistics(DecodeLinkStatistics(w[OFFSET_PAYLOAD..]))])
    {
      linkStatistics := DecodeLinkStatistics(w[OFFSET_PAYLOAD..]);
      callbacks := callbacks + [Callback.PacketLinkStatistics(linkStatistics)];
    }

    method PacketGps(w: seq<Byte>)
      requires Valid() && |w| == SERIAL.capacity
      modifies this
      ensures Valid()
      ensures var g := DecodeGps(w[OFFSET_PAYLOAD..]);
              Snapshot() == old(Snapshot()).(gpsSensor := g, callbacks := old(callbacks) + [Callback.PacketGps(g)])
    {
      ghost var before := Snapshot();
      var g := DecodeGps(w[OFFSET_PAYLOAD..]);
      gpsSensor := g;
      callbacks := callbacks + [Callback.PacketGps(g)];
      assert rx.State() == before.rx;
    }

    method CheckPacketTimeout(now: U32)
      requires Valid()
      modifies this, rx, rx.buf
      ensures Valid() && Snapshot() == PacketTimeoutChecked(old(Snapshot()), now)
    {
      if rx.pos > 0 && Sub32(now, lastReceive) > PACKET_TIMEOUT_MS {
        ghost var before := Snapshot();
        var events := rx.Flush();
        FlushedOnlyOob(SERIAL, before.rx);
        Dispatch(events, now);
      }
    }

    method CheckLinkDown(now: U32)
      requires Valid()
      modifies this
      ensures Valid() && Snapshot() == LinkDownChecked(old(Snapshot()), now)
    {
      if linkIsUp && Sub32(now, lastChannelsPacket) > FAILSAFE_STAGE1_MS {
        callbacks := callbacks + [LinkDown];
        linkIsUp := false;
      }
    }

    method QueuePacket(kind: Byte, payload: seq<Byte>)
      requires Valid() && |payload| < 256
      modifies this
      ensures Valid() && Snapshot() == Queued(old(Snapshot()), kind, payload)
    {
      if GetPassthroughMode() {
        return;
      }
      if |payload| > MAX_PAYLOAD_LEN {
        return;
      }
      port := port + [Write(FrameBytes(SYNC_BYTE, kind, payload))];
    }

    /**
     * queuePacketChannels as the source has it: its flush loop stops once
     * eight or fewer bits are pending, so payload byte 21 is whatever the
     * uninitialised stack byte held, given here as stale (the loop itself is
     * Channels.PackChannelsAsWritten). Channels 1-15 of a fitting table come
     * through; channel 16 only when stale holds its top eight bits. The frame
     * queued is returned in packed.
     */
    method QueuePacketChannels(stale: Byte) returns (packed: seq<Byte>)
      requires Valid()
      modifies this
      ensures |packed| == RC_CHANNELS_PAYLOAD_SIZE && packed[21] == stale
      ensures Valid() && Snapshot() == Queued(old(Snapshot()), FRAMETYPE_RC_CHANNELS_PACKED, packed)
      ensures ChannelsFit(channels) ==>
                forall i :: 0 <= i < NUM_CHANNELS - 1 ==> ChannelRaw(packed, i) == UsToCrsf(channels[i])
      ensures ChannelsFit(channels) ==>
                ChannelRaw(packed, 15) == UsToCrsf(channels[15]) % 8 + 8 * (stale as int)
                && (ChannelRaw(packed, 15) == UsToCrsf(channels[15]) <==> stale as int == UsToCrsf(channels[15]) / 8)
    {
      var c := channels;
      packed := PackChannelsAsWritten(c, stale);
      if ChannelsFit(c) {
        FittingTableFrame(c, packed);
      }
      QueuePacket(FRAMETYPE_RC_CHANNELS_PACKED, packed);
      assert channels == Snapshot().channels == c;
    }

    /**
     * queuePacketChannels with its flush loop running while eight or more
     * bits are pending, so all 22 payload bytes are written; the frame
     * queued is returned in packed.
     */
    method QueuePacketChannelsCorrected() returns (packed: seq<Byte>)
      requires Valid()
      modifies this
      ensures |packed| == RC_CHANNELS_PAYLOAD_SIZE
      ensures Valid() && Snapshot() == Queued(old(Snapshot()), FRAMETYPE_RC_CHANNELS_PACKED, packed)
      ensures ChannelsFit(channels) ==> LeValue(packed) == PackedValue(RawsOf(channels))
      ensures ChannelsFit(channels) ==>
                forall i :: 0 <= i < NUM_CHANNELS ==> ChannelRaw(packed, i) == UsToCrsf(channels[i])
    {
      var c := channels;
      packed := PackChannels(c);
      QueuePacket(FRAMETYPE_RC_CHANNELS_PACKED, packed);
      assert channels == Snapshot().channels == c;
    }

    method SetPassthroughMode(val: bool, b: U32)
      requires Valid()
      modifies this
      ensures Valid() && Snapshot() == PassthroughSet(old(Snapshot()), baud, val, b)
    {
      if val {
        if b == 0 {
          if passthroughBaud == 0 {
            passthroughBaud := baud;
          }
          return;
        }
        passthroughBaud := b;
      } else {
        if passthroughBaud == 0 {
          return;
        }
        if passthroughBaud == baud {
          passthroughBaud := 0;
          return;
        }
        passthroughBaud := 0;
      }
      port := port + [End];
      Begin(passthroughBaud);
    }

    method SetChannel(ch: nat, us: int)
      requires Valid() && 1 <= ch <= NUM_CHANNELS
      modifies this
      ensures Valid() && Snapshot() == ChannelSet(old(Snapshot()), ch, us)
    {
      channels := channels[ch - 1 := us];
    }
  }
}
