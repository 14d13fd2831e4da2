/**
 * The resynchronising receive-frame assembler shared by CrsfSerial
 * (handleSerialIn, handleByteReceived, shiftRxBuffer, checkPacketTimeout)
 * and the older ArduinoCRSF copy. The two differ only in the buffer
 * capacity, the largest declared frame length accepted and whether a byte
 * dropped on its own is reported out of band; Config carries those three.
 *
 * A frame on the wire is [address, frame size, type, payload..., crc], where
 * frame size counts type, payload and crc, and the crc covers type and payload.
 */
module Assembler {
  import opened Bytes
  import opened Crc
  import Protocol

  datatype Config = Config(capacity: nat, maxFrameSize: nat, reportsOob: bool)

  /** CrsfSerial: a CRSF_MAX_PACKET_SIZE (64) byte buffer, frame sizes up to CRSF_MAX_PAYLOAD_LEN + 2. */
  const SERIAL: Config := Config(Protocol.MAX_PACKET_SIZE, Protocol.MAX_PAYLOAD_LEN + 2, true)
  /** ArduinoCRSF: a CRSF_MAX_PACKET_LEN + 3 (67) byte buffer, frame sizes up to CRSF_MAX_PACKET_LEN. */
  const ARDUINO: Config := Config(Protocol.MAX_PACKET_LEN + 3, Protocol.MAX_PACKET_LEN, false)

  /**
   * A buffer that holds the longest accepted frame, fits a uint8_t cursor and
   * is large enough for the 22-byte channel read at offset 3.
   */
  predicate WellFormed(cfg: Config)
  {
    3 <= cfg.maxFrameSize && cfg.maxFrameSize + 2 <= cfg.capacity && 25 <= cfg.capacity < 256
  }

  lemma ConfigsWellFormed()
    ensures WellFormed(SERIAL) && WellFormed(ARDUINO)
  {
  }

  /** The whole receive array and the cursor `_rxBufPos`. */
  datatype RxState = RxState(buf: seq<Byte>, pos: nat)

  predicate Fits(cfg: Config, st: RxState)
  {
    |st.buf| == cfg.capacity && st.pos <= cfg.capacity
  }

  /** The bytes received and not yet consumed. */
  function Contents(st: RxState): seq<Byte>
    requires st.pos <= |st.buf|
  {
    st.buf[..st.pos]
  }

  /**
   * What the assembler hands to its owner, in order: a byte it dropped on its
   * own (onOobData), or a frame that passed the checks, together with the
   * whole array at that moment, from which the packet handlers read.
   */
  datatype Event = Oob(b: Byte) | Packet(frame: seq<Byte>, window: seq<Byte>)

  datatype Drained = Drained(events: seq<Event>, st: RxState)

  /** shiftRxBuffer(cnt): drop cnt bytes from the front of the buffer. */
  function Shifted(cfg: Config, st: RxState, cnt: nat): (r: Drained)
    requires st.pos <= |st.buf|
    ensures |r.st.buf| == |st.buf|
    ensures r.st.pos == if cnt >= st.pos then 0 else st.pos - cnt
  {
    if cnt >= st.pos then Drained([], RxState(st.buf, 0))
    else
      Drained(if cnt == 1 && cfg.reportsOob then [Oob(st.buf[0])] else [],
              RxState(st.buf[cnt..st.pos] + st.buf[st.pos - cnt..], st.pos - cnt))
  }

  /** The three ways handleByteReceived can judge a buffer of two or more bytes. */
  datatype Verdict = BadLength | Incomplete | BadCrc | FrameOk(size: nat)

  function Classify(cfg: Config, s: seq<Byte>): Verdict
    requires |s| >= 2
  {
    var size: int := s[1];
    if size < 3 || size > cfg.maxFrameSize then BadLength
    else if |s| < size + 2 then Incomplete
    else if Crc8(s[2..size + 1]) == s[size + 1] then FrameOk(size)
    else BadCrc
  }

  /** The verdict on the buffered bytes, read off the whole array, as the loop body reads it. */
  lemma ClassifyInPlace(cfg: Config, st: RxState)
    requires 1 < st.pos <= |st.buf|
    ensures var size: int := st.buf[1];
            Classify(cfg, Contents(st)) ==
              if size < 3 || size > cfg.maxFrameSize then BadLength
              else if st.pos < size + 2 then Incomplete
              else if Crc8(st.buf[2..size + 1]) == st.buf[size + 1] then FrameOk(size)
              else BadCrc
  {
    var s, size: int := Contents(st), st.buf[1];
    assert s[1] == st.buf[1];
    if 3 <= size <= cfg.maxFrameSize && st.pos >= size + 2 {
      assert s[2..size + 1] == st.buf[2..size + 1];
    }
  }

  /** The reprocess loop of handleByteReceived, run to its fixed point. */
  function Reprocessed(cfg: Config, st: RxState): (r: Drained)
    requires st.pos <= |st.buf|
    ensures |r.st.buf| == |st.buf| && r.st.pos <= st.pos
    decreases st.pos
  {
    if st.pos <= 1 then Drained([], st)
    else
      match Classify(cfg, Contents(st))
      case Incomplete => Drained([], st)
      case FrameOk(size) =>
        var d := Shifted(cfg, st, size + 2);
        var rest := Reprocessed(cfg, d.st);
        Drained([Packet(Contents(st)[..size + 2], st.buf)] + d.events + rest.events, rest.st)
      case _ =>
        var d := Shifted(cfg, st, 1);
        var rest := Reprocessed(cfg, d.st);
        Drained(d.events + rest.events, rest.st)
  }

  /** One byte of handleSerialIn outside passthrough: append, reprocess, reset a full buffer. */
  function Received(cfg: Config, st: RxState, b: Byte): (r: Drained)
    requires Fits(cfg, st) && st.pos < cfg.capacity
    ensures Fits(cfg, r.st) && r.st.pos < cfg.capacity
  {
    var d := Reprocessed(cfg, RxState(st.buf[st.pos := b], st.pos + 1));
    if d.st.pos == cfg.capacity then Drained(d.events, RxState(d.st.buf, 0)) else d
  }

  /** The idle flush of checkPacketTimeout: shiftRxBuffer(1) until the buffer is empty. */
  function Flushed(cfg: Config, st: RxState): (r: Drained)
    requires st.pos <= |st.buf|
    ensures |r.st.buf| == |st.buf| && r.st.pos == 0
    decreases st.pos
  {
    if st.pos == 0 then Drained([], st)
    else
      var d := Shifted(cfg, st, 1);
      var rest := Flushed(cfg, d.st);
      Drained(d.events + rest.events, rest.st)
  }

  /** A sequence of bytes fed one at a time through Received. */
  function Fed(cfg: Config, st: RxState, bs: seq<Byte>): (r: Drained)
    requires Fits(cfg, st) && st.pos < cfg.capacity
    ensures Fits(cfg, r.st) && r.st.pos < cfg.capacity
    decreases |bs|
  {
    if bs == [] then Drained([], st)
    else
      var d := Received(cfg, st, bs[0]);
      var rest := Fed(cfg, d.st, bs[1..]);
      Drained(d.events + rest.events, rest.st)
  }

  /** The bytes an event stands for. */
  function EventBytes(e: Event): seq<Byte>
  {
    match e
    case Oob(b) => [b]
    case Packet(f, _) => f
  }

  function Flatten(events: seq<Event>): seq<Byte>
  {
    if events == [] then [] else EventBytes(events[0]) + Flatten(events[1..])
  }

  function OobAll(bs: seq<Byte>): (r: seq<Event>)
    ensures |r| == |bs|
  {
    if bs == [] then [] else [Oob(bs[0])] + OobAll(bs[1..])
  }

  /** The state the reprocess loop stops in: too short to judge, or a plausible frame still arriving. */
  predicate Settled(cfg: Config, s: seq<Byte>)
  {
    |s| <= 1 || (3 <= s[1] <= cfg.maxFrameSize && |s| < (s[1] as int) + 2)
  }

  /** A frame the assembler accepts: plausible size, complete, CRC over type and payload matching. */
  predicate ValidFrame(cfg: Config, f: seq<Byte>)
  {
    |f| >= 2 && 3 <= f[1] <= cfg.maxFrameSize && |f| == (f[1] as int) + 2
    && Crc8(f[2..|f| - 1]) == f[|f| - 1]
  }

  /** The bytes queuePacket writes: address, frame size, type, payload, CRC over type and payload. */
  function FrameBytes(addr: Byte, kind: Byte, payload: seq<Byte>): (f: seq<Byte>)
    requires |payload| + 2 < 256
    ensures |f| == |payload| + 4
  {
    [addr, |payload| + 2, kind] + payload + [Crc8([kind] + payload)]
  }

  // ---------------------------------------------------------------------
  // Properties of the specification

  /** shiftRxBuffer keeps old[cnt..pos), or empties the buffer; only a lone dropped byte is reported. */
  lemma ShiftedContents(cfg: Config, st: RxState, cnt: nat)
    requires st.pos <= |st.buf|
    ensures Contents(Shifted(cfg, st, cnt).st) == if cnt >= st.pos then [] else Contents(st)[cnt..]
    ensures Shifted(cfg, st, cnt).events ==
            if cnt == 1 && 1 < st.pos && cfg.reportsOob then [Oob(Contents(st)[0])] else []
  {
    var r := Shifted(cfg, st, cnt);
    if cnt < st.pos {
      assert Contents(r.st) == st.buf[cnt..st.pos];
    }
  }

  /** With a hook, the events and the bytes left over are exactly the bytes that were buffered. */
  lemma {:induction false} ReprocessedConserves(cfg: Config, st: RxState)
    requires st.pos <= |st.buf| && cfg.reportsOob
    ensures Flatten(Reprocessed(cfg, st).events) + Contents(Reprocessed(cfg, st).st) == Contents(st)
    decreases st.pos
  {
    if st.pos > 1 {
      var c := Contents(st);
      match Classify(cfg, c)
      case Incomplete =>
      case FrameOk(size) =>
        var d := Shifted(cfg, st, size + 2);
        ReprocessedConserves(cfg, d.st);
        ShiftedContents(cfg, st, size + 2);
        ReprocessedFrame(cfg, st, size);
        var front := [Packet(c[..size + 2], st.buf)] + d.events;
        assert front == [Packet(c[..size + 2], st.buf)];
        FlattenOne(Packet(c[..size + 2], st.buf));
        ConcatConserves(front, Reprocessed(cfg, d.st), c, size + 2);
      case _ =>
        var d := Shifted(cfg, st, 1);
        ReprocessedConserves(cfg, d.st);
        ShiftedContents(cfg, st, 1);
        ReprocessedDrop(cfg, st);
        FlattenOne(Oob(c[0]));
        ConcatConserves(d.events, Reprocessed(cfg, d.st), c, 1);
    }
  }

  lemma FlattenOne(e: Event)
    ensures Flatten([e]) == EventBytes(e)
  {
    assert Flatten([e]) == EventBytes(e) + Flatten([]);
  }

  /** Events standing for c[..k], followed by a drain that conserves c[k..], conserve c. */
  lemma ConcatConserves(front: seq<Event>, rest: Drained, c: seq<Byte>, k: nat)
    requires k <= |c| && Flatten(front) == c[..k] && rest.st.pos <= |rest.st.buf|
    requires Flatten(rest.events) + Contents(rest.st) == c[k..]
    ensures Flatten(front + rest.events) + Contents(rest.st) == c
  {
    FlattenConcat(front, rest.events);
    assert c == c[..k] + c[k..];
  }

  /** Regrouping the reports of consecutive steps (a helper of the method proofs). */
  lemma EventsAssoc(a: seq<Event>, b: seq<Event>, c: seq<Event>)
    ensures (a + b) + c == a + (b + c)
  {
  }

  lemma {:induction false} FlattenConcat(a: seq<Event>, b: seq<Event>)
    ensures Flatten(a + b) == Flatten(a) + Flatten(b)
    decreases |a|
  {
    if a != [] {
      assert (a + b)[0] == a[0] && (a + b)[1..] == a[1..] + b;
      assert Flatten(a + b) == EventBytes(a[0]) + Flatten(a[1..] + b);
      FlattenConcat(a[1..], b);
    } else {
      assert a + b == b;
    }
  }

  /** Without a hook (ArduinoCRSF) no event is a dropped byte. */
  lemma {:induction false} ReprocessedOnlyPackets(cfg: Config, st: RxState)
    requires st.pos <= |st.buf| && !cfg.reportsOob
    ensures forall i :: 0 <= i < |Reprocessed(cfg, st).events| ==> Reprocessed(cfg, st).events[i].Packet?
    decreases st.pos
  {
    if st.pos > 1 {
      match Classify(cfg, Contents(st))
      case Incomplete =>
      case FrameOk(size) => ReprocessedOnlyPackets(cfg, Shifted(cfg, st, size + 2).st);
      case _ => ReprocessedOnlyPackets(cfg, Shifted(cfg, st, 1).st);
    }
  }

  /** Every dispatched frame passed the length and CRC checks and sits at the front of the array it is read from. */
  lemma {:induction false} ReprocessedFramesValid(cfg: Config, st: RxState)
    requires st.pos <= |st.buf|
    ensures FramesValid(cfg, Reprocessed(cfg, st).events, |st.buf|)
    decreases st.pos
  {
    if st.pos > 1 {
      match Classify(cfg, Contents(st))
      case Incomplete =>
      case FrameOk(size) =>
        ReprocessedFramesValid(cfg, Shifted(cfg, st, size + 2).st);
        FramesValidFrame(cfg, st, size);
      case _ =>
        var d := Shifted(cfg, st, 1);
        ReprocessedFramesValid(cfg, d.st);
        ReprocessedDrop(cfg, st);
        FramesValidConcat(cfg, d.events, Reprocessed(cfg, d.st).events, |st.buf|);
    }
  }

  /** Every frame among events passed the checks and sits at the front of its window of length n. */
  predicate FramesValid(cfg: Config, events: seq<Event>, n: nat)
  {
    forall i :: 0 <= i < |events| && events[i].Packet? ==>
      ValidFrame(cfg, events[i].frame) && |events[i].window| == n && |events[i].frame| <= n
      && events[i].window[..|events[i].frame|] == events[i].frame
  }

  lemma FramesValidConcat(cfg: Config, a: seq<Event>, b: seq<Event>, n: nat)
    requires forall i :: 0 <= i < |a| ==> a[i].Oob?
    requires FramesValid(cfg, b, n)
    ensures FramesValid(cfg, a + b, n)
  {
    forall i | 0 <= i < |a + b| && (a + b)[i].Packet?
      ensures ValidFrame(cfg, (a + b)[i].frame) && |(a + b)[i].window| == n
    {
      assert i >= |a| && (a + b)[i] == b[i - |a|];
    }
  }

  /** A window that Classify accepts begins with a valid frame of the size it reports. */
  lemma ClassifiedFrameValid(cfg: Config, c: seq<Byte>, size: nat)
    requires |c| >= 2 && Classify(cfg, c) == FrameOk(size)
    ensures size + 2 <= |c| && ValidFrame(cfg, c[..size + 2])
  {
    var f := c[..size + 2];
    assert f[2..|f| - 1] == c[2..size + 1];
  }

  /** The step of ReprocessedFramesValid for a dispatched frame. */
  lemma FramesValidFrame(cfg: Config, st: RxState, size: nat)
    requires 1 < st.pos <= |st.buf| && Classify(cfg, Contents(st)) == FrameOk(size)
    requires FramesValid(cfg, Reprocessed(cfg, Shifted(cfg, st, size + 2).st).events, |st.buf|)
    ensures FramesValid(cfg, Reprocessed(cfg, st).events, |st.buf|)
  {
    var e := DispatchedPacket(cfg, st, size);
    ReprocessedFrameEvents(cfg, st, size);
    FramesValidCons(cfg, e, Reprocessed(cfg, Shifted(cfg, st, size + 2).st).events, |st.buf|);
  }

  /** The packet dispatched for a window Classify accepts: a valid frame at the start of the whole buffer. */
  lemma DispatchedPacket(cfg: Config, st: RxState, size: nat) returns (e: Event)
    requires 1 < st.pos <= |st.buf| && Classify(cfg, Contents(st)) == FrameOk(size)
    ensures size + 2 <= st.pos && e == Packet(Contents(st)[..size + 2], st.buf)
    ensures ValidFrame(cfg, e.frame) && |e.window| == |st.buf| && |e.frame| <= |st.buf|
            && e.window[..|e.frame|] == e.frame
  {
    var c := Contents(st);
    ClassifiedFrameValid(cfg, c, size);
    e := Packet(c[..size + 2], st.buf);
    assert st.buf[..size + 2] == c[..size + 2];
  }

  /** A dispatched frame is reported first, with the whole buffer as its window; the shift reports nothing. */
  lemma ReprocessedFrameEvents(cfg: Config, st: RxState, size: nat)
    requires 1 < st.pos <= |st.buf| && Classify(cfg, Contents(st)) == FrameOk(size)
    ensures Reprocessed(cfg, st).events
            == [Packet(Contents(st)[..size + 2], st.buf)] + Reprocessed(cfg, Shifted(cfg, st, size + 2).st).events
  {
    ReprocessedFrame(cfg, st, size);
    assert Shifted(cfg, st, size + 2).events == [];
  }

  /** A valid frame, or an out-of-band byte, in front of valid frames. */
  lemma FramesValidCons(cfg: Config, e: Event, rest: seq<Event>, n: nat)
    requires e.Packet? ==> ValidFrame(cfg, e.frame) && |e.window| == n && |e.frame| <= n
                           && e.window[..|e.frame|] == e.frame
    requires FramesValid(cfg, rest, n)
    ensures FramesValid(cfg, [e] + rest, n)
  {
    forall i | 0 <= i < |[e] + rest| && ([e] + rest)[i].Packet?
      ensures ValidFrame(cfg, ([e] + rest)[i].frame) && |([e] + rest)[i].window| == n
    {
      if i > 0 {
        assert ([e] + rest)[i] == rest[i - 1];
      }
    }
  }

  /** Received hands over the frames of Reprocessed: valid, each with the whole buffer as its window. */
  lemma ReceivedFramesValid(cfg: Config, st: RxState, b: Byte)
    requires Fits(cfg, st) && st.pos < cfg.capacity
    ensures FramesValid(cfg, Received(cfg, st, b).events, cfg.capacity)
  {
    ReprocessedFramesValid(cfg, RxState(st.buf[st.pos := b], st.pos + 1));
  }

  /** The idle flush only ever drops bytes. */
  lemma {:induction false} FlushedOnlyOob(cfg: Config, st: RxState)
    requires st.pos <= |st.buf|
    ensures forall i :: 0 <= i < |Flushed(cfg, st).events| ==> Flushed(cfg, st).events[i].Oob?
    decreases st.pos
  {
    if st.pos > 0 {
      FlushedOnlyOob(cfg, Shifted(cfg, st, 1).st);
    }
  }

  /** The loop stops only in a settled buffer: at most one byte, or an incomplete plausible frame. */
  lemma {:induction false} ReprocessedSettles(cfg: Config, st: RxState)
    requires st.pos <= |st.buf|
    ensures Settled(cfg, Contents(Reprocessed(cfg, st).st))
    decreases st.pos
  {
    if st.pos > 1 {
      match Classify(cfg, Contents(st))
      case Incomplete =>
      case FrameOk(size) => ReprocessedSettles(cfg, Shifted(cfg, st, size + 2).st);
      case _ => ReprocessedSettles(cfg, Shifted(cfg, st, 1).st);
    }
  }

  /** Hence the "buffer filled" reset of handleSerialIn never fires: the cursor stays below the capacity. */
  lemma ResetUnreachable(cfg: Config, st: RxState, b: Byte)
    requires WellFormed(cfg) && Fits(cfg, st) && st.pos < cfg.capacity
    ensures Reprocessed(cfg, RxState(st.buf[st.pos := b], st.pos + 1)).st.pos < cfg.capacity
    ensures Received(cfg, st, b) == Reprocessed(cfg, RxState(st.buf[st.pos := b], st.pos + 1))
  {
    var pushed := RxState(st.buf[st.pos := b], st.pos + 1);
    var d := Reprocessed(cfg, pushed);
    ReprocessedSettles(cfg, pushed);
    SettledBelowCapacity(cfg, Contents(d.st));
    assert |Contents(d.st)| == d.st.pos;
  }

  /** What the loop leaves is shorter than the array. */
  lemma SettledBelowCapacity(cfg: Config, s: seq<Byte>)
    requires WellFormed(cfg) && Settled(cfg, s)
    ensures |s| < cfg.capacity
  {
  }

  /** The idle flush empties the buffer and reports all but the last buffered byte. */
  lemma {:induction false} FlushedReports(cfg: Config, st: RxState)
    requires 0 < st.pos <= |st.buf|
    ensures Flushed(cfg, st).events == if cfg.reportsOob then OobAll(Contents(st)[..st.pos - 1]) else []
    decreases st.pos
  {
    var d := Shifted(cfg, st, 1);
    ShiftedContents(cfg, st, 1);
    if st.pos > 1 {
      FlushedReports(cfg, d.st);
      var w := Contents(st)[..st.pos - 1];
      assert Contents(d.st)[..d.st.pos - 1] == w[1..];
      assert Flushed(cfg, st).events == d.events + Flushed(cfg, d.st).events;
      if cfg.reportsOob {
        assert OobAll(w) == [Oob(w[0])] + OobAll(w[1..]);
      }
    }
  }

  /** A frame queuePacket writes, fed into an empty assembler, comes out as exactly that one frame. */
  lemma FrameRoundTrip(cfg: Config, st: RxState, addr: Byte, kind: Byte, payload: seq<Byte>)
    requires WellFormed(cfg) && Fits(cfg, st) && st.pos == 0
    requires 1 <= |payload| && |payload| + 2 <= cfg.maxFrameSize
    ensures var r := Fed(cfg, st, FrameBytes(addr, kind, payload));
            |r.events| == 1 && r.events[0].Packet? && r.events[0].frame == FrameBytes(addr, kind, payload)
            && r.st.pos == 0
  {
    var f := FrameBytes(addr, kind, payload);
    FrameBytesShape(addr, kind, payload);
    assert Contents(st) == f[..0];
    FeedRemaining(cfg, st, f, 0);
    assert f[0..] == f;
  }

  /** Feeding the rest of a frame whose first k bytes are buffered. */
  lemma {:induction false} FeedRemaining(cfg: Config, st: RxState, f: seq<Byte>, k: nat)
    requires WellFormed(cfg) && Fits(cfg, st) && st.pos == k
    requires |f| >= 5 && f[1] == |f| - 2 && 3 <= f[1] <= cfg.maxFrameSize
    requires Crc8(f[2..|f| - 1]) == f[|f| - 1]
    requires k < |f| && Contents(st) == f[..k]
    ensures var r := Fed(cfg, st, f[k..]);
            |r.events| == 1 && r.events[0].Packet? && r.events[0].frame == f && r.st.pos == 0
    decreases |f| - k
  {
    var d := Received(cfg, st, f[k]);
    var tail := f[k..];
    assert tail[0] == f[k] && tail[1..] == f[k + 1..];
    assert Fed(cfg, st, tail) == Drained(d.events + Fed(cfg, d.st, f[k + 1..]).events, Fed(cfg, d.st, f[k + 1..]).st);
    if k + 1 < |f| {
      FrameByteWaits(cfg, st, f, k);
      FeedRemaining(cfg, d.st, f, k + 1);
    } else {
      FrameByteCompletes(cfg, st, f, k);
      assert f[k + 1..] == [];
    }
  }

  /** A byte that does not complete the frame is only buffered. */
  lemma FrameByteWaits(cfg: Config, st: RxState, f: seq<Byte>, k: nat)
    requires WellFormed(cfg) && Fits(cfg, st) && st.pos == k
    requires |f| >= 5 && f[1] == |f| - 2 && 3 <= f[1] <= cfg.maxFrameSize
    requires k + 1 < |f| && Contents(st) == f[..k]
    ensures Received(cfg, st, f[k]) == Drained([], RxState(st.buf[k := f[k]], k + 1))
    ensures Contents(Received(cfg, st, f[k]).st) == f[..k + 1]
  {
    var pushed := RxState(st.buf[k := f[k]], k + 1);
    assert Contents(pushed) == f[..k + 1];
    if k + 1 >= 2 {
      assert Contents(pushed)[1] == f[1];
      assert Classify(cfg, Contents(pushed)) == Incomplete;
    }
  }

  /** The byte that completes the frame dispatches it and empties the buffer. */
  lemma FrameByteCompletes(cfg: Config, st: RxState, f: seq<Byte>, k: nat)
    requires WellFormed(cfg) && Fits(cfg, st) && st.pos == k
    requires |f| >= 5 && f[1] == |f| - 2 && 3 <= f[1] <= cfg.maxFrameSize
    requires Crc8(f[2..|f| - 1]) == f[|f| - 1]
    requires k + 1 == |f| && Contents(st) == f[..k]
    ensures Received(cfg, st, f[k]).events == [Packet(f, st.buf[k := f[k]])]
    ensures Received(cfg, st, f[k]).st.pos == 0
  {
    var size: int := f[1];
    var pushed := RxState(st.buf[k := f[k]], k + 1);
    var c := Contents(pushed);
    assert c == f;
    assert c[2..size + 1] == f[2..|f| - 1];
    assert Classify(cfg, c) == FrameOk(size);
    assert c[..size + 2] == f;
    var d := Shifted(cfg, pushed, size + 2);
    assert d.events == [] && d.st.pos == 0;
    assert Reprocessed(cfg, d.st) == Drained([], d.st);
  }

  /** The frame queuePacket builds has the shape FeedRemaining needs. */
  lemma FrameBytesShape(addr: Byte, kind: Byte, payload: seq<Byte>)
    requires |payload| + 2 < 256
    ensures var f := FrameBytes(addr, kind, payload);
            f[1] == |f| - 2 && f[2..|f| - 1] == [kind] + payload && Crc8(f[2..|f| - 1]) == f[|f| - 1]
  {
    var f := FrameBytes(addr, kind, payload);
    assert f[2..|f| - 1] == [kind] + payload;
  }

  /** An empty payload gives frame size 2, and frames above the bound are too long: the first byte is dropped. */
  lemma RejectedSizes(cfg: Config, s: seq<Byte>)
    requires |s| >= 2 && (s[1] <= 2 || s[1] > cfg.maxFrameSize)
    ensures Classify(cfg, s) == BadLength
  {
  }

  /**
   * The size limits as the receivers apply them to a frame queuePacket
   * builds: CrsfSerial accepts payloads of 1 to CRSF_MAX_PAYLOAD_LEN (60)
   * bytes, ArduinoCRSF those of 1 to CRSF_MAX_PACKET_LEN - 2 (62); every
   * other length is a bad length, and an accepted frame is of size |payload| + 2.
   */
  lemma DeclaredLengthLimit(addr: Byte, kind: Byte, payload: seq<Byte>)
    requires |payload| + 2 < 256
    ensures Classify(SERIAL, FrameBytes(addr, kind, payload))
            == if 1 <= |payload| <= Protocol.MAX_PAYLOAD_LEN then FrameOk(|payload| + 2) else BadLength
    ensures Classify(ARDUINO, FrameBytes(addr, kind, payload))
            == if 1 <= |payload| <= Protocol.MAX_PACKET_LEN - 2 then FrameOk(|payload| + 2) else BadLength
  {
  }

  /** ArduinoCRSF's sender accepts payloads of up to 64 bytes; its receiver turns those of 63 and 64 away. */
  lemma ArduinoOversizeRejected(addr: Byte, kind: Byte, payload: seq<Byte>)
    requires 63 <= |payload| <= 64
    ensures Classify(ARDUINO, FrameBytes(addr, kind, payload)) == BadLength
  {
  }

  /** One step of the reprocess loop after a bad length or a CRC mismatch. */
  lemma ReprocessedDrop(cfg: Config, st: RxState)
    requires 1 < st.pos <= |st.buf|
    requires Classify(cfg, Contents(st)) == BadLength || Classify(cfg, Contents(st)) == BadCrc
    ensures var d := Shifted(cfg, st, 1);
            Reprocessed(cfg, st) == Drained(d.events + Reprocessed(cfg, d.st).events, Reprocessed(cfg, d.st).st)
  {
  }

  /** One step of the reprocess loop on a good frame. */
  lemma ReprocessedFrame(cfg: Config, st: RxState, size: nat)
    requires 1 < st.pos <= |st.buf| && Classify(cfg, Contents(st)) == FrameOk(size)
    ensures var d := Shifted(cfg, st, size + 2);
            Reprocessed(cfg, st) ==
            Drained([Packet(Contents(st)[..size + 2], st.buf)] + d.events + Reprocessed(cfg, d.st).events,
                    Reprocessed(cfg, d.st).st)
  {
  }

  /** One step of the idle flush. */
  lemma FlushedStep(cfg: Config, st: RxState)
    requires 0 < st.pos <= |st.buf|
    ensures var d := Shifted(cfg, st, 1);
            Flushed(cfg, st) == Drained(d.events + Flushed(cfg, d.st).events, Flushed(cfg, d.st).st)
  {
  }

  // ---------------------------------------------------------------------
  // The receive buffer itself: the `_rxBuf` array and the `_rxBufPos` cursor

  class FrameAssembler {
    const cfg: Config
    const buf: array<Byte>
    var pos: nat

    ghost predicate Valid()
      reads this
    {
      WellFormed(cfg) && buf.Length == cfg.capacity && pos <= cfg.capacity
    }

    function State(): RxState
      reads this, buf
    {
      RxState(buf[..], pos)
    }

    /** A zeroed buffer and cursor, as an object in static storage starts. */
    constructor(cfg: Config)
      requires WellFormed(cfg)
      ensures Valid() && fresh(buf)
      ensures this.cfg == cfg && State() == RxState(seq(cfg.capacity, _ => 0), 0)
    {
      this.cfg := cfg;
      buf := new Byte[cfg.capacity](_ => 0);
      pos := 0;
    }

    /** shiftRxBuffer: the in-place copy down of the bytes that remain. */
    method Shift(cnt: nat) returns (events: seq<Event>)
      requires Valid()
      modifies this, buf
      ensures Valid()
      ensures Drained(events, State()) == Shifted(cfg, old(State()), cnt)
    {
      if cnt >= pos {
        pos := 0;
        return [];
      }
      events := if cnt == 1 && cfg.reportsOob then [Oob(buf[0])] else [];
      CopyDown(cnt);
      pos := pos - cnt;
    }

    /** The copy loop of shiftRxBuffer: bytes cnt..pos move to the front, the rest stay as they were. */
    method CopyDown(cnt: nat)
      requires Valid() && cnt < pos
      modifies buf
      ensures buf[..] == old(buf[..])[cnt..pos] + old(buf[..])[pos - cnt..]
    {
      ghost var before := buf[..];
      var n := pos - cnt;
      var i := 0;
      while i < n
        invariant 0 <= i <= n
        invariant forall k :: 0 <= k < i ==> buf[k] == before[k + cnt]
        invariant forall k :: i <= k < buf.Length ==> buf[k] == before[k]
      {
        buf[i] := buf[i + cnt];
        i := i + 1;
      }
      ghost var expected := before[cnt..pos] + before[n..];
      assert |expected| == buf.Length;
      forall k | 0 <= k < buf.Length
        ensures buf[k] == expected[k]
      {
        if k < n {
          assert expected[k] == before[cnt..pos][k];
        } else {
          assert expected[k] == before[n..][k - n];
        }
      }
      assert buf[..] == expected;
    }

    /** The append of handleSerialIn: `_rxBuf[_rxBufPos++] = b`. */
    method Append(b: Byte)
      requires Valid() && pos < cfg.capacity
      modifies this, buf
      ensures Valid()
      ensures State() == RxState(old(buf[..])[old(pos) := b], old(pos) + 1)
    {
      buf[pos] := b;
      pos := pos + 1;
    }

    /** handleByteReceived: judge the front of the buffer until nothing more can be done. */
    method HandleByteReceived() returns (events: seq<Event>)
      requires Valid()
      modifies this, buf
      ensures Valid()
      ensures Drained(events, State()) == Reprocessed(cfg, old(State()))
    {
      ghost var start := State();
      events := [];
      var reprocess := true;
      while reprocess
        invariant Valid()
        invariant Reprocessed(cfg, start) ==
                  Drained(events + Reprocessed(cfg, State()).events, Reprocessed(cfg, State()).st)
        invariant !reprocess ==> Reprocessed(cfg, State()) == Drained([], State())
        decreases pos + (if reprocess then 1 else 0)
      {
        ghost var before := events;
        var stepEvents;
        stepEvents, reprocess := Judge();
        events := events + stepEvents;
        ghost var rest := Reprocessed(cfg, State());
        if reprocess {
          EventsAssoc(before, stepEvents, rest.events);
        } else {
          assert events == before;
        }
      }
    }

    /**
     * One pass of the do-while body: drop one byte after a bad length or a
     * CRC mismatch, dispatch and consume a good frame, or wait for more bytes.
     */
    method Judge() returns (events: seq<Event>, reprocess: bool)
      requires Valid()
      modifies this, buf
      ensures Valid()
      ensures reprocess ==> pos < old(pos)
      ensures reprocess ==> Reprocessed(cfg, old(State())) ==
                            Drained(events + Reprocessed(cfg, State()).events, Reprocessed(cfg, State()).st)
      ensures !reprocess ==> State() == old(State()) && events == []
      ensures !reprocess ==> Reprocessed(cfg, State()) == Drained([], State())
    {
      events, reprocess := [], false;
      if pos > 1 {
        ghost var now := State();
        ClassifyInPlace(cfg, now);
        var size: int := buf[1];
        if size < 3 || size > cfg.maxFrameSize {
          assert Classify(cfg, Contents(now)) == BadLength;
          ReprocessedDrop(cfg, now);
          events := Shift(1);
          reprocess := true;
        } else if pos >= size + 2 {
          var inCrc := buf[2 + size - 1];
          var crc := Crc8(buf[2..size + 1]);
          assert now.buf[2..size + 1] == buf[2..size + 1];
          if crc == inCrc {
            assert Classify(cfg, Contents(now)) == FrameOk(size);
            ReprocessedFrame(cfg, now, size);
            var frame, window := buf[..size + 2], buf[..];
            assert frame == Contents(now)[..size + 2];
            var consumed := Shift(size + 2);
            events := [Packet(frame, window)] + consumed;
            reprocess := true;
          } else {
            assert Classify(cfg, Contents(now)) == BadCrc;
            ReprocessedDrop(cfg, now);
            events := Shift(1);
            reprocess := true;
          }
        } else {
          assert Classify(cfg, Contents(now)) == Incomplete;
        }
      }
    }

    /** The "buffer filled" reset of handleSerialIn. */
    method ResetIfFull()
      requires Valid()
      modifies this
      ensures Valid() && pos < cfg.capacity
      ensures pos == if old(pos) == cfg.capacity then 0 else old(pos)
    {
      if pos == cfg.capacity {
        pos := 0;
      }
    }

    /** One received byte outside passthrough. */
    method Receive(b: Byte) returns (events: seq<Event>)
      requires Valid() && pos < cfg.capacity
      modifies this, buf
      ensures Valid() && pos < cfg.capacity
      ensures Drained(events, State()) == Received(cfg, old(State()), b)
    {
      ghost var start := State();
      Append(b);
      ghost var pushed := State();
      assert pushed == RxState(start.buf[start.pos := b], start.pos + 1);
      events := HandleByteReceived();
      ghost var d := Drained(events, State());
      assert d == Reprocessed(cfg, pushed);
      ResetUnreachable(cfg, start, b);
      ResetIfFull();
    }

    /** The flush loop of checkPacketTimeout: `while (_rxBufPos) shiftRxBuffer(1)`. */
    method Flush() returns (events: seq<Event>)
      requires Valid()
      modifies this, buf
      ensures Valid() && pos == 0
      ensures Drained(events, State()) == Flushed(cfg, old(State()))
    {
      ghost var start := State();
      events := [];
      while pos > 0
        invariant Valid()
        invariant Flushed(cfg, start).events == events + Flushed(cfg, State()).events
        invariant Flushed(cfg, start).st == Flushed(cfg, State()).st
        decreases pos
      {
        ghost var before, now := events, State();
        FlushedStep(cfg, now);
        var dropped := Shift(1);
        events := events + dropped;
        EventsAssoc(before, dropped, Flushed(cfg, State()).events);
      }
    }
  }
}
