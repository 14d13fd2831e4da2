/**
 * The older ArduinoCRSF receiver: the same frame assembler with a 67-byte
 * buffer, frame sizes up to 64 and no out-of-band hook; processPacketIn only
 * looks at frames addressed to the flight controller (0xC8); channel values
 * are scaled with Arduino's map; the link has no callbacks; queuePacket only
 * writes while the link is up. The port is a log of written byte strings.
 */
module Arduino {
  import opened Bytes
  import opened Protocol
  import opened Channels
  import opened Assembler

  const PACKET_TIMEOUT_MS: U32 := 100
  const FAILSAFE_STAGE1_MS: U32 := 300

  /** A byte read from the port and the millis() reading taken right after it. */
  datatype Rx = Rx(b: Byte, at: U32)

  datatype ArduinoState = ArduinoState(
    rx: RxState,
    lastReceive: U32,
    lastChannelsPacket: U32,
    linkIsUp: bool,
    channels: seq<int>,
    linkStatistics: LinkStatistics,
    gpsSensor: GpsSensor,
    baroAltitude: BaroAltitude,
    vario: VarioSensor,
    attitude: AttitudeSensor,
    written: seq<seq<Byte>>)

  predicate Inv(s: ArduinoState)
  {
    Fits(ARDUINO, s.rx) && s.rx.pos < ARDUINO.capacity && |s.channels| == NUM_CHANNELS
  }

  /**
   * A freshly constructed object in static storage: the constructor sets the
   * timestamps and the link flag; the buffer, its cursor, the channels and
   * the sensors hold zero because static storage starts zeroed.
   */
  function Initial(): (s: ArduinoState)
    ensures Inv(s) && !s.linkIsUp && s.rx.pos == 0
  {
    ArduinoState(RxState(seq(ARDUINO.capacity, _ => 0), 0), 0, 0, false, seq(NUM_CHANNELS, _ => 0),
                 ZERO_LINK_STATISTICS, ZERO_GPS, ZERO_BARO, ZERO_VARIO, ZERO_ATTITUDE, [])
  }

  /** processPacketIn on the buffer w: only frames from address 0xC8, five frame types. */
  function ProcessedPacket(s: ArduinoState, w: seq<Byte>, t: U32): (r: ArduinoState)
    requires Inv(s) && |w| == ARDUINO.capacity
    ensures Inv(r) && r.rx == s.rx && r.written == s.written
  {
    var data := w[OFFSET_PAYLOAD..];
    if w[OFFSET_ADDRESS] != ADDRESS_FLIGHT_CONTROLLER then s
    else if w[OFFSET_TYPE] == FRAMETYPE_GPS then s.(gpsSensor := DecodeGps(data))
    else if w[OFFSET_TYPE] == FRAMETYPE_RC_CHANNELS_PACKED then
      s.(channels := ArduinoDecodedChannels(data), linkIsUp := true, lastChannelsPacket := t)
    else if w[OFFSET_TYPE] == FRAMETYPE_LINK_STATISTICS then s.(linkStatistics := DecodeLinkStatistics(data))
    else if w[OFFSET_TYPE] == FRAMETYPE_BARO_ALTITUDE then s.(baroAltitude := DecodeBaroAltitude(data))
    else if w[OFFSET_TYPE] == FRAMETYPE_VARIO then s.(vario := DecodeVario(data))
    else s
  }

  /** What this assembler hands over: frames only, each with the whole 67-byte buffer. */
  predicate Dispatchable(events: seq<Event>)
  {
    forall i :: 0 <= i < |events| ==> events[i].Packet? && |events[i].window| == ARDUINO.capacity
  }

  function Dispatched(s: ArduinoState, events: seq<Event>, t: U32): (r: ArduinoState)
    requires Inv(s) && Dispatchable(events)
    ensures Inv(r) && r.rx == s.rx && r.written == s.written
    decreases |events|
  {
    if events == [] then s else Dispatched(ProcessedPacket(s, events[0].window, t), events[1..], t)
  }

  /** One iteration of the receive loop of handleSerialIn. */
  function ByteIn(s: ArduinoState, r: Rx): (s': ArduinoState)
    requires Inv(s)
    ensures Inv(s') && s'.written == s.written
  {
    var d := Received(ARDUINO, s.rx, r.b);
    ReceivedFramesValid(ARDUINO, s.rx, r.b);
    ReprocessedOnlyPackets(ARDUINO, RxState(s.rx.buf[s.rx.pos := r.b], s.rx.pos + 1));
    Dispatched(s.(lastReceive := r.at, rx := d.st), d.events, r.at)
  }

  function BytesIn(s: ArduinoState, input: seq<Rx>): (s': ArduinoState)
    requires Inv(s)
    ensures Inv(s') && s'.written == s.written
    decreases |input|
  {
    if input == [] then s else BytesIn(ByteIn(s, input[0]), input[1..])
  }

  /** checkPacketTimeout: the flush drops the partial frame without reporting anything. */
  function PacketTimeoutChecked(s: ArduinoState, now: U32): (r: ArduinoState)
    requires Inv(s)
    ensures Inv(r)
  {
    if s.rx.pos > 0 && Sub32(now, s.lastReceive) > PACKET_TIMEOUT_MS then s.(rx := Flushed(ARDUINO, s.rx).st)
    else s
  }

  /** checkLinkDown, without a callback. */
  function LinkDownChecked(s: ArduinoState, now: U32): (r: ArduinoState)
    requires Inv(s)
    ensures Inv(r)
  {
    if s.linkIsUp && Sub32(now, s.lastChannelsPacket) > FAILSAFE_STAGE1_MS then s.(linkIsUp := false) else s
  }

  /** handleSerialIn (and update). */
  function SerialIn(s: ArduinoState, input: seq<Rx>, now: U32): (r: ArduinoState)
    requires Inv(s)
    ensures Inv(r)
  {
    LinkDownChecked(PacketTimeoutChecked(BytesIn(s, input), now), now)
  }

  /** queuePacket: nothing while the link is down or for a payload over 64 bytes. */
  function Queued(s: ArduinoState, addr: Byte, kind: Byte, payload: seq<Byte>): ArduinoState
    requires |payload| < 256
  {
    if !s.linkIsUp || |payload| > MAX_PACKET_LEN then s
    else s.(written := s.written + [FrameBytes(addr, kind, payload)])
  }

  // ---------------------------------------------------------------------
  // Properties

  /** Frames not addressed to the flight controller, and unhandled types, change nothing. */
  lemma AddressFilter(s: ArduinoState, w: seq<Byte>, t: U32)
    requires Inv(s) && |w| == ARDUINO.capacity
    ensures w[OFFSET_ADDRESS] != ADDRESS_FLIGHT_CONTROLLER ==> ProcessedPacket(s, w, t) == s
    ensures (w[OFFSET_TYPE] !in {FRAMETYPE_GPS, FRAMETYPE_RC_CHANNELS_PACKED, FRAMETYPE_LINK_STATISTICS,
                                 FRAMETYPE_BARO_ALTITUDE, FRAMETYPE_VARIO}) ==> ProcessedPacket(s, w, t) == s
    ensures ProcessedPacket(s, w, t).attitude == s.attitude
  {
  }

  /** Only a channels packet from 0xC8 raises the link; it stores sixteen map()-scaled values. */
  lemma ChannelsPacketRaisesLink(s: ArduinoState, w: seq<Byte>, t: U32)
    requires Inv(s) && |w| == ARDUINO.capacity
    ensures var r := ProcessedPacket(s, w, t);
            (r.linkIsUp != s.linkIsUp || r.lastChannelsPacket != s.lastChannelsPacket ==>
               w[OFFSET_ADDRESS] == ADDRESS_FLIGHT_CONTROLLER && w[OFFSET_TYPE] == FRAMETYPE_RC_CHANNELS_PACKED)
    ensures w[OFFSET_ADDRESS] == ADDRESS_FLIGHT_CONTROLLER && w[OFFSET_TYPE] == FRAMETYPE_RC_CHANNELS_PACKED ==>
            var r := ProcessedPacket(s, w, t);
            r.linkIsUp && r.lastChannelsPacket == t
            && (forall i :: 0 <= i < NUM_CHANNELS ==>
                  r.channels[i] == ArduinoChannelUs(ChannelRaw(w[3..25], i)) && 881 <= r.channels[i] <= 2159)
  {
    if w[OFFSET_ADDRESS] == ADDRESS_FLIGHT_CONTROLLER && w[OFFSET_TYPE] == FRAMETYPE_RC_CHANNELS_PACKED {
      var data := w[3..];
      forall i | 0 <= i < NUM_CHANNELS
        ensures ChannelRaw(data, i) == ChannelRaw(w[3..25], i)
        ensures 881 <= ArduinoChannelUs(ChannelRaw(data, i)) <= 2159
      {
        assert data[..22] == w[3..25][..22];
        ArduinoChannelUsRange(ChannelRaw(data, i));
      }
    }
  }

  /** The receiver never reports a byte out of band: the idle flush drops the partial frame silently. */
  lemma SilentFlush(s: ArduinoState, now: U32)
    requires Inv(s)
    ensures Flushed(ARDUINO, s.rx).events == []
    ensures var r := PacketTimeoutChecked(s, now);
            r.rx.pos == (if s.rx.pos > 0 && Sub32(now, s.lastReceive) > PACKET_TIMEOUT_MS then 0 else s.rx.pos)
            && r.(rx := s.rx) == s
  {
    if s.rx.pos > 0 {
      FlushedReports(ARDUINO, s.rx);
    }
  }

  /**
   * The failsafe: the state changes exactly when the link is up and more
   * than 300 ms have passed since the last channels frame; then only
   * linkIsUp changes, to false, and a second check changes nothing.
   */
  lemma LinkDownOnce(s: ArduinoState, t1: U32, t2: U32)
    requires Inv(s)
    ensures var r := LinkDownChecked(s, t1);
            (r != s <==> s.linkIsUp && Sub32(t1, s.lastChannelsPacket) > FAILSAFE_STAGE1_MS)
            && (r != s ==> r == s.(linkIsUp := false))
            && (r != s ==> LinkDownChecked(r, t2) == r)
  {
  }

  /**
   * queuePacket writes only while the link is up and for payloads of at most
   * 64 bytes; payloads of 1..62 bytes come back out of a receiver as the same
   * frame, those of 63 and 64 bytes are written but a receiver turns them away.
   */
  lemma QueuePacketRoundTrip(s: ArduinoState, addr: Byte, kind: Byte, payload: seq<Byte>, st: RxState)
    requires |payload| < 256 && Fits(ARDUINO, st) && st.pos == 0
    ensures Queued(s, addr, kind, payload) == s <==> !s.linkIsUp || |payload| > MAX_PACKET_LEN
    ensures s.linkIsUp && |payload| <= MAX_PACKET_LEN ==>
            Queued(s, addr, kind, payload).written == s.written + [FrameBytes(addr, kind, payload)]
    ensures s.linkIsUp && 1 <= |payload| <= ARDUINO.maxFrameSize - 2 ==>
            var d := Fed(ARDUINO, st, FrameBytes(addr, kind, payload));
            |d.events| == 1 && d.events[0].Packet? && d.events[0].frame == FrameBytes(addr, kind, payload)
    ensures 63 <= |payload| <= 64 ==> Classify(ARDUINO, FrameBytes(addr, kind, payload)) == BadLength
  {
    if s.linkIsUp && |payload| <= MAX_PACKET_LEN {
      assert |Queued(s, addr, kind, payload).written| == |s.written| + 1;
      if 1 <= |payload| <= ARDUINO.maxFrameSize - 2 {
        FrameRoundTrip(ARDUINO, st, addr, kind, payload);
      }
    }
    if 63 <= |payload| <= 64 {
      ArduinoOversizeRejected(addr, kind, payload);
    }
  }

  // ---------------------------------------------------------------------
  // The object

  class ArduinoCrsf {
    const rx: FrameAssembler
    var lastReceive: U32
    var lastChannelsPacket: U32
    var linkIsUp: bool
    var channels: seq<int>
    var linkStatistics: LinkStatistics
    var gpsSensor: GpsSensor
    var baroAltitude: BaroAltitude
    var vario: VarioSensor
    var attitude: AttitudeSensor
    var written: seq<seq<Byte>>

    ghost predicate Valid()
      reads this, rx
    {
      rx.Valid() && rx.cfg == ARDUINO && rx.pos < ARDUINO.capacity && |channels| == NUM_CHANNELS
    }

    function Snapshot(): ArduinoState
      reads this, rx, rx.buf
    {
      ArduinoState(rx.State(), lastReceive, lastChannelsPacket, linkIsUp, channels,
                   linkStatistics, gpsSensor, baroAltitude, vario, attitude, written)
    }

    constructor()
      ensures Valid() && fresh(rx) && fresh(rx.buf) && Snapshot() == Initial()
    {
      ConfigsWellFormed();
      rx := new FrameAssembler(ARDUINO);
      lastReceive, lastChannelsPacket, linkIsUp := 0, 0, false;
      channels := seq(NUM_CHANNELS, _ => 0);
      linkStatistics, gpsSensor, baroAltitude, vario, attitude :=
        ZERO_LINK_STATISTICS, ZERO_GPS, ZERO_BARO, ZERO_VARIO, ZERO_ATTITUDE;
      written := [];
    }

    /** getChannel, 1-based. */
    function GetChannel(ch: nat): (us: int)
      reads this
      requires 1 <= ch <= NUM_CHANNELS && |channels| == NUM_CHANNELS
      ensures us == channels[ch - 1]
    {
      channels[ch - 1]
    }

    function IsLinkUp(): (up: bool)
      reads this
      ensures up == linkIsUp
    {
      linkIsUp
    }

    method HandleSerialIn(input: seq<Rx>, now: U32)
      requires Valid()
      modifies this, rx, rx.buf
      ensures Valid() && Snapshot() == SerialIn(old(Snapshot()), input, now)
    {
      ghost var start := Snapshot();
      var i := 0;
      while i < |input|
        invariant Valid() && 0 <= i <= |input|
        invariant BytesIn(start, input) == BytesIn(Snapshot(), input[i..])
      {
        var r := input[i];
        ByteReceived(r);
        assert input[i..][0] == r && input[i..][1..] == input[i + 1..];
        i := i + 1;
      }
      assert input[i..] == [];
      CheckPacketTimeout(now);
      CheckLinkDown(now);
    }

    /** One received byte r of handleSerialIn's loop. */
    method ByteReceived(r: Rx)
      requires Valid()
      modifies this, rx, rx.buf
      ensures Valid() && Snapshot() == ByteIn(old(Snapshot()), r)
    {
      ghost var before := Snapshot();
      lastReceive := r.at;
      var events := rx.Receive(r.b);
      ReceivedFramesValid(ARDUINO, before.rx, r.b);
      ReprocessedOnlyPackets(ARDUINO, RxState(before.rx.buf[before.rx.pos := r.b], before.rx.pos + 1));
      Dispatch(events, r.at);
    }

    method Dispatch(events: seq<Event>, t: U32)
      requires Valid() && Dispatchable(events)
      modifies this
      ensures Valid() && Snapshot() == Dispatched(old(Snapshot()), events, t)
    {
      ghost var start := Snapshot();
      var i := 0;
      while i < |events|
        invariant Valid() && 0 <= i <= |events|
        invariant Dispatched(start, events, t) == Dispatched(Snapshot(), events[i..], t)
      {
        assert events[i..][0] == events[i] && events[i..][1..] == events[i + 1..];
        ProcessPacketIn(events[i].window, t);
        i := i + 1;
      }
      assert events[i..] == [];
    }

    method ProcessPacketIn(w: seq<Byte>, t: U32)
      requires Valid() && |w| == ARDUINO.capacity
      modifies this
      ensures Valid() && Snapshot() == ProcessedPacket(old(Snapshot()), w, t)
    {
      if w[OFFSET_ADDRESS] == ADDRESS_FLIGHT_CONTROLLER {
        var kind := w[OFFSET_TYPE];
        if kind == FRAMETYPE_GPS {
          PacketGps(w);
        } else if kind == FRAMETYPE_RC_CHANNELS_PACKED {
          PacketChannelsPacked(w, t);
        } else if kind == FRAMETYPE_LINK_STATISTICS {
          PacketLinkStatistics(w);
        } else if kind == FRAMETYPE_BARO_ALTITUDE {
          PacketBaroAltitude(w);
        } else if kind == FRAMETYPE_VARIO {
          PacketVario(w);
        }
      }
    }

    /** The sixteen 11-bit slots, then map() applied to each in place. */
    method PacketChannelsPacked(w: seq<Byte>, t: U32)
      requires Valid() && |w| == ARDUINO.capacity
      modifies this
      ensures Valid()
      ensures Snapshot() == old(Snapshot()).(channels := ArduinoDecodedChannels(w[OFFSET_PAYLOAD..]),
                                             linkIsUp := true, lastChannelsPacket := t)
    {
      var data := w[OFFSET_PAYLOAD..];
      var values := seq(NUM_CHANNELS, i requires 0 <= i < NUM_CHANNELS => ChannelRaw(data, i));
      for i := 0 to NUM_CHANNELS
        invariant |values| == NUM_CHANNELS
        invariant forall k :: 0 <= k < i ==> values[k] == ArduinoChannelUs(ChannelRaw(data, k))
        invariant forall k :: i <= k < NUM_CHANNELS ==> values[k] == ChannelRaw(data, k)
      {
        values := values[i := ArduinoMap(values[i], CHANNEL_VALUE_1000, CHANNEL_VALUE_2000, 1000, 2000)];
      }
      assert values == ArduinoDecodedChannels(data);
      channels := values;
      linkIsUp := true;
      lastChannelsPacket := t;
    }

    method PacketLinkStatistics(w: seq<Byte>)
      requires Valid() && |w| == ARDUINO.capacity
      modifies this
      ensures Valid() && Snapshot() == old(Snapshot()).(linkStatistics := DecodeLinkStatistics(w[OFFSET_PAYLOAD..]))
    {
      linkStatistics := DecodeLinkStatistics(w[OFFSET_PAYLOAD..]);
    }

    method PacketGps(w: seq<Byte>)
      requires Valid() && |w| == ARDUINO.capacity
      modifies this
      ensures Valid() && Snapshot() == old(Snapshot()).(gpsSensor := DecodeGps(w[OFFSET_PAYLOAD..]))
    {
      gpsSensor := DecodeGps(w[OFFSET_PAYLOAD..]);
    }

    method PacketVario(w: seq<Byte>)
      requires Valid() && |w| == ARDUINO.capacity
      modifies this
      ensures Valid() && Snapshot() == old(Snapshot()).(vario := DecodeVario(w[OFFSET_PAYLOAD..]))
    {
      vario := DecodeVario(w[OFFSET_PAYLOAD..]);
    }

    method PacketBaroAltitude(w: seq<Byte>)
      requires Valid() && |w| == ARDUINO.capacity
      modifies this
      ensures Valid() && Snapshot() == old(Snapshot()).(baroAltitude := DecodeBaroAltitude(w[OFFSET_PAYLOAD..]))
    {
      baroAltitude := DecodeBaroAltitude(w[OFFSET_PAYLOAD..]);
    }

    /** Present in the source but never called: processPacketIn has no attitude case. */
    method PacketAttitude(w: seq<Byte>)
      requires Valid() && |w| == ARDUINO.capacity
      modifies this
      ensures Valid() && Snapshot() == old(Snapshot()).(attitude := DecodeAttitude(w[OFFSET_PAYLOAD..]))
    {
      attitude := DecodeAttitude(w[OFFSET_PAYLOAD..]);
    }

    method CheckPacketTimeout(now: U32)
      requires Valid()
      modifies this, rx, rx.buf
      ensures Valid() && Snapshot() == PacketTimeoutChecked(old(Snapshot()), now)
    {
      if rx.pos > 0 && Sub32(now, lastReceive) > PACKET_TIMEOUT_MS {
        var dropped := rx.Flush();
      }
    }

    /** checkLinkDown: the link drops after 300 ms without a channels frame, and nothing else changes. */
    method CheckLinkDown(now: U32)
      requires Valid()
      modifies this
      ensures Valid() && Snapshot() == LinkDownChecked(old(Snapshot()), now)
      ensures linkIsUp <==> old(linkIsUp) && Sub32(now, old(lastChannelsPacket)) <= FAILSAFE_STAGE1_MS
      ensures Snapshot() == old(Snapshot()).(linkIsUp := linkIsUp)
    {
      if linkIsUp && Sub32(now, lastChannelsPacket) > FAILSAFE_STAGE1_MS {
        linkIsUp := false;
      }
    }

    method QueuePacket(addr: Byte, kind: Byte, payload: seq<Byte>)
      requires Valid() && |payload| < 256
      modifies this
      ensures Valid() && Snapshot() == Queued(old(Snapshot()), addr, kind, payload)
    {
      if !linkIsUp {
        return;
      }
      if |payload| > MAX_PACKET_LEN {
        return;
      }
      written := written + [FrameBytes(addr, kind, payload)];
    }
  }
}
