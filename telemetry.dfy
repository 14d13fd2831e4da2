/**
 * The telemetry example: a flight controller that queues one of four sensor
 * frames through CrsfSerial every 200 ms, in a fixed round robin
 * (battery, cells, temperatures, rpms).
 */
module Telemetry {
  import opened Arith
  import opened Bytes
  import opened Protocol
  import opened Assembler
  import opened Serial

  const TELEM_INTERVAL_MS: U32 := 200
  /** eTlmItem: tlmVbat = 0, tlmCells = 1, tlmTemp = 2, tlmRpms = 3, TLM_COUNT = 4. */
  const TLM_COUNT := 4

  /** sendVbat: 12.3 V, 19.6 A, 1300 mAh used, 15 % left; the whole 8-byte struct. */
  function VbatPayload(): seq<Byte>
  {
    EncodeBattery(123, 196, 1300, 15)
  }

  /** sendCells: source 0 and four cell voltages; source_id plus 4 * 2 bytes. */
  function CellsPayload(): seq<Byte>
  {
    [0] + Field16(3500) + Field16(4350) + Field16(2900) + Field16(3141)
  }

  /** sendTemperatures: source 0 and three temperatures; source_id plus 3 * 2 bytes. */
  function TemperaturesPayload(): seq<Byte>
  {
    [0] + Field16(250) + Field16(-109) + Field16(1051)
  }

  /** sendRpms: source 0 and four 24-bit rpm values; source_id plus 4 * 3 bytes. */
  function RpmsPayload(): seq<Byte>
  {
    [0] + Field24(18000) + Field24(18001) + Field24(18002) + Field24(-18003)
  }

  /** The frame type the switch in checkSendTelemetry sends for an item. */
  function ItemKind(item: nat): Byte
    requires item < TLM_COUNT
  {
    [FRAMETYPE_BATTERY_SENSOR, FRAMETYPE_CELLS, FRAMETYPE_TEMP, FRAMETYPE_RPM][item]
  }

  /** The payload the switch in checkSendTelemetry sends for an item. */
  function ItemPayload(item: nat): seq<Byte>
    requires item < TLM_COUNT
  {
    [VbatPayload(), CellsPayload(), TemperaturesPayload(), RpmsPayload()][item]
  }

  /** The bytes on the wire: every 16- and 24-bit value most significant byte first. */
  lemma VbatImage()
    ensures VbatPayload() == [0x00, 0x7B, 0x00, 0xC4, 0x00, 0x05, 0x14, 0x0F]
  {
    BatteryImage(123, 196, 1300);
  }

  lemma BatteryImage(voltage: int, current: int, capacity: int)
    requires voltage == 123 && current == 196 && capacity == 1300
    ensures EncodeBattery(voltage, current, capacity, 15) == [0x00, 0x7B, 0x00, 0xC4, 0x00, 0x05, 0x14, 0x0F]
  {
    EncodeBatteryImage(voltage, current, capacity, 15);
    DivModUnique(voltage, 256, 0, 0x7B);
    DivModUnique(current, 256, 0, 0xC4);
    DivModUnique(capacity, 256, 5, 0x14);
    DivModUnique(capacity, 0x1_0000, 0, 1300);
    DivModUnique(5, 256, 0, 5);
  }

  lemma CellsImage()
    ensures CellsPayload() == [0x00, 0x0D, 0xAC, 0x10, 0xFE, 0x0B, 0x54, 0x0C, 0x45]
  {
    var x := 4350;
    Field16Image(x);
    assert Field16(4350) == [0x10, 0xFE];
    Field16Image(3500);
    Field16Image(2900);
    Field16Image(3141);
  }

  /** A negative temperature goes out in two's complement. */
  lemma TemperaturesImage()
    ensures TemperaturesPayload() == [0x00, 0x00, 0xFA, 0xFF, 0x93, 0x04, 0x1B]
  {
    var x := -109;
    assert ToU16(x) == 0xFF93;
    BeBytesDigits(0xFF93);
    assert Field16(-109) == [0xFF, 0x93];
    Field16Image(250);
    Field16Image(1051);
  }

  /** A negative rpm goes out as the low 24 bits of its two's complement. */
  lemma NegativeRpmImage(x: int)
    requires x == -18003
    ensures Field24(x) == [0xFF, 0xB9, 0xAD]
  {
    var y := 0xFFB9AD;
    assert ToU32(x) == 0x1_0000_0000 - 18003;
    assert ToU32(x) % 0x100_0000 == y;
    BeBytesDigits(y);
    DivModUnique(y, 256, 0xFFB9, 0xAD);
    DivModUnique(0xFFB9, 256, 0xFF, 0xB9);
    DivModUnique(0xFF, 256, 0, 0xFF);
  }

  lemma RpmsHead(a: int, b: int)
    requires a == 18000 && b == 18001
    ensures [0 as Byte] + Field24(a) + Field24(b) == [0x00, 0x00, 0x46, 0x50, 0x00, 0x46, 0x51]
  {
    Field24Image(a);
    Field24Image(b);
    DivModUnique(a, 256, 0x46, 0x50);
    DivModUnique(b, 256, 0x46, 0x51);
    DivModUnique(a, 0x1_0000, 0, a);
    DivModUnique(b, 0x1_0000, 0, b);
    DivModUnique(0x46, 256, 0, 0x46);
  }

  lemma RpmsTail(c: int, d: int)
    requires c == 18002 && d == -18003
    ensures Field24(c) + Field24(d) == [0x00, 0x46, 0x52, 0xFF, 0xB9, 0xAD]
  {
    Field24Image(c);
    DivModUnique(c, 256, 0x46, 0x52);
    DivModUnique(c, 0x1_0000, 0, c);
    DivModUnique(0x46, 256, 0, 0x46);
    NegativeRpmImage(d);
  }

  lemma RpmsImage()
    ensures RpmsPayload() == [0x00, 0x00, 0x46, 0x50, 0x00, 0x46, 0x51, 0x00, 0x46, 0x52, 0xFF, 0xB9, 0xAD]
  {
    RpmsHead(18000, 18001);
    RpmsTail(18002, -18003);
    assert RpmsPayload() == ([0 as Byte] + Field24(18000) + Field24(18001)) + (Field24(18002) + Field24(-18003));
  }

  /** The sizes passed to queuePacket are 8, 9, 7 and 13: all within its 60-byte limit. */
  lemma PayloadsFit(item: nat)
    requires item < TLM_COUNT
    ensures |ItemPayload(item)| == [8, 9, 7, 13][item]
    ensures 1 <= |ItemPayload(item)| <= MAX_PAYLOAD_LEN
  {
  }

  datatype TelemetryState = TelemetryState(lastSend: U32, tlmItem: nat)

  /** checkSendTelemetry at time now, against the CrsfSerial state s. */
  function TelemetryChecked(t: TelemetryState, s: Serial, now: U32): (r: (TelemetryState, Serial))
    requires t.tlmItem < TLM_COUNT
    ensures r.0.tlmItem < TLM_COUNT
  {
    if Sub32(now, t.lastSend) < TELEM_INTERVAL_MS then (t, s)
    else
      PayloadsFit(t.tlmItem);
      (TelemetryState(now, (t.tlmItem + 1) % TLM_COUNT), Queued(s, ItemKind(t.tlmItem), ItemPayload(t.tlmItem)))
  }

  /**
   * Within 200 ms of the last send nothing happens; otherwise the current
   * item is written as one frame (unless CrsfSerial is in passthrough) and
   * the next item is due.
   */
  lemma SendOrWait(t: TelemetryState, s: Serial, now: U32)
    requires t.tlmItem < TLM_COUNT
    ensures Sub32(now, t.lastSend) < TELEM_INTERVAL_MS ==> TelemetryChecked(t, s, now) == (t, s)
    ensures Sub32(now, t.lastSend) >= TELEM_INTERVAL_MS ==>
            var r := TelemetryChecked(t, s, now);
            r.0.lastSend == now && r.0.tlmItem == (t.tlmItem + 1) % TLM_COUNT
            && r.1.port == s.port + (if InPassthrough(s) then [] else
                                       [Write(FrameBytes(SYNC_BYTE, ItemKind(t.tlmItem), ItemPayload(t.tlmItem)))])
  {
    if Sub32(now, t.lastSend) >= TELEM_INTERVAL_MS {
      var kind, payload := ItemKind(t.tlmItem), ItemPayload(t.tlmItem);
      PayloadsFit(t.tlmItem);
      var r := TelemetryChecked(t, s, now);
      assert r.0 == TelemetryState(now, (t.tlmItem + 1) % TLM_COUNT) && r.1 == Queued(s, kind, payload);
      var st := RxState(seq(SERIAL.capacity, _ => 0), 0);
      QueuePacketRoundTrip(s, kind, payload, st);
    }
  }

  /** A receiver's assembler, starting between frames, hands every item's frame back intact. */
  lemma ItemFrameReassembles(item: nat, st: RxState)
    requires item < TLM_COUNT && Fits(SERIAL, st) && st.pos == 0
    ensures var f := FrameBytes(SYNC_BYTE, ItemKind(item), ItemPayload(item));
            var d := Fed(SERIAL, st, f);
            |d.events| == 1 && d.events[0].Packet? && d.events[0].frame == f
  {
    PayloadsFit(item);
    ConfigsWellFormed();
    FrameRoundTrip(SERIAL, st, SYNC_BYTE, ItemKind(item), ItemPayload(item));
  }

  /** The frame written for an item while CrsfSerial is not in passthrough. */
  function ItemWrite(item: nat): PortOp
    requires item < TLM_COUNT
  {
    PayloadsFit(item);
    Write(FrameBytes(SYNC_BYTE, ItemKind(item), ItemPayload(item)))
  }

  /** A table of the four frames the switch writes: w[x] is the frame written for item x. */
  predicate ItemTable(w: seq<PortOp>)
  {
    |w| == TLM_COUNT && forall x :: 0 <= x < TLM_COUNT ==> w[x] == ItemWrite(x)
  }

  /** op writes a CRSF frame whose type byte, the third, is kind. */
  predicate WritesKind(op: PortOp, kind: Byte)
  {
    op.Write? && |op.bytes| > 2 && op.bytes[2] == kind
  }

  /** The table's frames carry the switch's types: battery, cells, temperatures, rpms. */
  lemma TableKinds(w: seq<PortOp>)
    requires ItemTable(w)
    ensures WritesKind(w[0], FRAMETYPE_BATTERY_SENSOR) && WritesKind(w[1], FRAMETYPE_CELLS)
    ensures WritesKind(w[2], FRAMETYPE_TEMP) && WritesKind(w[3], FRAMETYPE_RPM)
  {
    forall x | 0 <= x < TLM_COUNT
      ensures WritesKind(w[x], ItemKind(x))
    {
      PayloadsFit(x);
    }
  }

  /** The item k places round the switch from item i. */
  function ItemAfter(i: nat, k: nat): (j: nat)
    requires i < TLM_COUNT
    ensures j < TLM_COUNT
    decreases k
  {
    if k == 0 then i else ItemAfter((i + 1) % TLM_COUNT, k - 1)
  }

  /** The frames of k sends in switch order, starting at item i. */
  function Rotation(w: seq<PortOp>, i: nat, k: nat): seq<PortOp>
    requires |w| == TLM_COUNT && i < TLM_COUNT
    decreases k
  {
    if k == 0 then [] else [w[i]] + Rotation(w, (i + 1) % TLM_COUNT, k - 1)
  }

  /** checkSendTelemetry called at each of the given times in turn. */
  function Run(t: TelemetryState, s: Serial, times: seq<U32>): (TelemetryState, Serial)
    requires t.tlmItem < TLM_COUNT
    decreases |times|
  {
    if times == [] then (t, s)
    else
      var r := TelemetryChecked(t, s, times[0]);
      Run(r.0, r.1, times[1..])
  }

  /** A run of calls is the first call followed by the run of the rest. */
  lemma RunCons(t: TelemetryState, s: Serial, times: seq<U32>)
    requires t.tlmItem < TLM_COUNT && times != []
    ensures var r := TelemetryChecked(t, s, times[0]);
            r.0.tlmItem < TLM_COUNT && Run(t, s, times) == Run(r.0, r.1, times[1..])
  {
  }

  /** Every call comes at least 200 ms after the one before it, the first after last. */
  predicate Due(last: U32, times: seq<U32>)
  {
    (|times| > 0 ==> Sub32(times[0], last) >= TELEM_INTERVAL_MS)
    && forall j :: 0 < j < |times| ==> Sub32(times[j], times[j - 1]) >= TELEM_INTERVAL_MS
  }

  /** A due call outside passthrough writes the current item's frame and stays outside passthrough. */
  lemma DueSend(t: TelemetryState, s: Serial, now: U32, w: seq<PortOp>)
    requires t.tlmItem < TLM_COUNT && !InPassthrough(s) && Sub32(now, t.lastSend) >= TELEM_INTERVAL_MS
    requires ItemTable(w)
    ensures var r := TelemetryChecked(t, s, now);
            !InPassthrough(r.1) && r.1.port == s.port + [w[t.tlmItem]]
  {
    SendOrWait(t, s, now);
    PayloadsFit(t.tlmItem);
  }

  /** Every due call outside passthrough writes w's frame for its item and stays outside passthrough. */
  ghost predicate StepsWrite(w: seq<PortOp>)
    requires |w| == TLM_COUNT
  {
    forall t: TelemetryState, s: Serial, now: U32 {:trigger TelemetryChecked(t, s, now)}
      :: t.tlmItem < TLM_COUNT && !InPassthrough(s) && Sub32(now, t.lastSend) >= TELEM_INTERVAL_MS
         ==> !InPassthrough(TelemetryChecked(t, s, now).1)
             && TelemetryChecked(t, s, now).1.port == s.port + [w[t.tlmItem]]
  }

  /** The item table's frames are the ones due calls write. */
  lemma TableSteps(w: seq<PortOp>)
    requires ItemTable(w)
    ensures StepsWrite(w)
  {
    forall t: TelemetryState, s: Serial, now: U32
      | t.tlmItem < TLM_COUNT && !InPassthrough(s) && Sub32(now, t.lastSend) >= TELEM_INTERVAL_MS
      ensures !InPassthrough(TelemetryChecked(t, s, now).1)
              && TelemetryChecked(t, s, now).1.port == s.port + [w[t.tlmItem]]
    {
      DueSend(t, s, now, w);
    }
  }

  /** A due call moves on to the next item and stamps the time. */
  lemma DueItem(t: TelemetryState, s: Serial, now: U32)
    requires t.tlmItem < TLM_COUNT && Sub32(now, t.lastSend) >= TELEM_INTERVAL_MS
    ensures TelemetryChecked(t, s, now).0 == TelemetryState(now, (t.tlmItem + 1) % TLM_COUNT)
  {
  }

  /** The calls after the first are due after the first call's time. */
  lemma DueRest(last: U32, times: seq<U32>)
    requires times != [] && Due(last, times)
    ensures Sub32(times[0], last) >= TELEM_INTERVAL_MS && Due(times[0], times[1..])
  {
    var rest := times[1..];
    if |rest| > 0 {
      assert rest[0] == times[1];
    }
    forall j | 0 < j < |rest|
      ensures Sub32(rest[j], rest[j - 1]) >= TELEM_INTERVAL_MS
    {
      assert rest[j] == times[j + 1] && rest[j - 1] == times[j];
    }
  }

  /** A prefix of due calls is due. */
  lemma DuePrefix(last: U32, times: seq<U32>, k: nat)
    requires k <= |times| && Due(last, times)
    ensures Due(last, times[..k])
  {
    forall j | 0 < j < k
      ensures Sub32(times[..k][j], times[..k][j - 1]) >= TELEM_INTERVAL_MS
    {
      assert times[..k][j] == times[j] && times[..k][j - 1] == times[j - 1];
    }
  }

  /** One due call, as the inductions below use it. */
  lemma RunItemStep(t: TelemetryState, s: Serial, times: seq<U32>)
    requires t.tlmItem < TLM_COUNT && Due(t.lastSend, times) && times != []
    ensures var r := TelemetryChecked(t, s, times[0]);
            r.0 == TelemetryState(times[0], (t.tlmItem + 1) % TLM_COUNT) && Due(r.0.lastSend, times[1..])
            && Run(t, s, times) == Run(r.0, r.1, times[1..])
  {
    DueRest(t.lastSend, times);
    DueItem(t, s, times[0]);
    RunCons(t, s, times);
  }

  /** k due calls leave tlmItem k places further round, in or out of passthrough. */
  lemma {:induction false} RunItem(t: TelemetryState, s: Serial, times: seq<U32>)
    requires t.tlmItem < TLM_COUNT && Due(t.lastSend, times)
    ensures Run(t, s, times).0.tlmItem == ItemAfter(t.tlmItem, |times|)
    decreases |times|
  {
    if times != [] {
      var r1 := TelemetryChecked(t, s, times[0]);
      RunItemStep(t, s, times);
      RunItem(r1.0, r1.1, times[1..]);
    }
  }

  /** One due call outside passthrough, as the induction below uses it. */
  lemma RunStep(t: TelemetryState, s: Serial, times: seq<U32>, w: seq<PortOp>)
    requires t.tlmItem < TLM_COUNT && !InPassthrough(s) && Due(t.lastSend, times) && times != []
    requires |w| == TLM_COUNT && StepsWrite(w)
    ensures var r := TelemetryChecked(t, s, times[0]);
            r.0 == TelemetryState(times[0], (t.tlmItem + 1) % TLM_COUNT) && !InPassthrough(r.1)
            && r.1.port == s.port + [w[t.tlmItem]] && Due(r.0.lastSend, times[1..])
            && Run(t, s, times) == Run(r.0, r.1, times[1..])
  {
    RunItemStep(t, s, times);
  }

  /** The first of k frames in switch order, then the other k - 1. */
  lemma RotationStep(w: seq<PortOp>, i: nat, k: nat)
    requires |w| == TLM_COUNT && i < TLM_COUNT && k > 0
    ensures Rotation(w, i, k) == [w[i]] + Rotation(w, (i + 1) % TLM_COUNT, k - 1)
  {
  }

  lemma PortAssoc(a: seq<PortOp>, b: seq<PortOp>, c: seq<PortOp>)
    ensures a + b + c == a + (b + c)
  {
  }

  /**
   * k due calls outside passthrough write k frames, one per item in switch
   * order from the current one, and stay outside passthrough.
   */
  lemma {:induction false} RunPort(t: TelemetryState, s: Serial, times: seq<U32>, w: seq<PortOp>)
    requires t.tlmItem < TLM_COUNT && !InPassthrough(s) && Due(t.lastSend, times)
    requires |w| == TLM_COUNT && StepsWrite(w)
    ensures !InPassthrough(Run(t, s, times).1)
    ensures Run(t, s, times).1.port == s.port + Rotation(w, t.tlmItem, |times|)
    decreases |times|
  {
    if times != [] {
      var i := t.tlmItem;
      var r1 := TelemetryChecked(t, s, times[0]);
      RunStep(t, s, times, w);
      RunPort(r1.0, r1.1, times[1..], w);
      var tail := Rotation(w, (i + 1) % TLM_COUNT, |times| - 1);
      calc {
        Run(t, s, times).1.port;
        Run(r1.0, r1.1, times[1..]).1.port;
        r1.1.port + tail;
        s.port + [w[i]] + tail;
        { PortAssoc(s.port, [w[i]], tail); }
        s.port + ([w[i]] + tail);
        { RotationStep(w, i, |times|); }
        s.port + Rotation(w, i, |times|);
      }
    }
  }

  /** One place and k - 1 more places round are k places round. */
  lemma ModStep(i: nat, k: nat)
    requires i < TLM_COUNT && k > 0
    ensures ((i + 1) % TLM_COUNT + (k - 1)) % TLM_COUNT == (i + k) % TLM_COUNT
  {
    if i == TLM_COUNT - 1 {
      assert (i + 1) % TLM_COUNT == 0;
      DivModUnique(i + k, TLM_COUNT, 1 + (k - 1) / TLM_COUNT, (k - 1) % TLM_COUNT);
    } else {
      assert (i + 1) % TLM_COUNT == i + 1;
    }
  }

  /** k places round is k added modulo the number of items. */
  lemma {:induction false} ItemAfterMod(i: nat, k: nat)
    requires i < TLM_COUNT
    ensures ItemAfter(i, k) == (i + k) % TLM_COUNT
    decreases k
  {
    if k > 0 {
      ItemAfterMod((i + 1) % TLM_COUNT, k - 1);
      ModStep(i, k);
    }
  }

  /** The switch comes back to an item after four places round, and no sooner. */
  lemma ItemAfterCycle(i: nat)
    requires i < TLM_COUNT
    ensures ItemAfter(i, 4) == i
    ensures forall k :: 1 <= k < 4 ==> ItemAfter(i, k) != i
  {
    forall k | 1 <= k < 4
      ensures ItemAfter(i, k) != i
    {
      ItemAfterMod(i, k);
    }
    ItemAfterMod(i, 4);
  }

  /** Four frames from item i, in switch order. */
  lemma FourItems(w: seq<PortOp>, i: nat)
    requires |w| == TLM_COUNT && i < TLM_COUNT
    ensures Rotation(w, i, 4) == [w[i], w[(i + 1) % TLM_COUNT], w[(i + 2) % TLM_COUNT], w[(i + 3) % TLM_COUNT]]
  {
    var j1, j2, j3 := (i + 1) % TLM_COUNT, (i + 2) % TLM_COUNT, (i + 3) % TLM_COUNT;
    assert (j1 + 1) % TLM_COUNT == j2 && (j2 + 1) % TLM_COUNT == j3;
    assert Rotation(w, j3, 1) == [w[j3]];
    assert Rotation(w, j2, 2) == [w[j2], w[j3]];
    assert Rotation(w, j1, 3) == [w[j1], w[j2], w[j3]];
  }

  /**
   * Four due calls outside passthrough write the four items' frames (w[x]
   * for item x; TableKinds gives their types) in switch order from the
   * current one, and only the fourth brings tlmItem back to where it started.
   */
  lemma RoundRobin(t: TelemetryState, s: Serial, times: seq<U32>, w: seq<PortOp>)
    requires t.tlmItem < TLM_COUNT && !InPassthrough(s) && |times| == 4 && Due(t.lastSend, times)
    requires ItemTable(w)
    ensures Run(t, s, times).0.tlmItem == t.tlmItem
    ensures forall k :: 1 <= k < 4 ==> Run(t, s, times[..k]).0.tlmItem != t.tlmItem
    ensures var i := t.tlmItem;
            Run(t, s, times).1.port == s.port + [w[i], w[(i + 1) % TLM_COUNT], w[(i + 2) % TLM_COUNT], w[(i + 3) % TLM_COUNT]]
  {
    RunItem(t, s, times);
    ItemAfterCycle(t.tlmItem);
    forall k | 1 <= k < 4
      ensures Run(t, s, times[..k]).0.tlmItem != t.tlmItem
    {
      DuePrefix(t.lastSend, times, k);
      RunItem(t, s, times[..k]);
      assert |times[..k]| == k;
    }
    TableSteps(w);
    RunPort(t, s, times, w);
    FourItems(w, t.tlmItem);
  }

  // ---------------------------------------------------------------------
  // The example's functions

  method SendTemperatures(crsf: CrsfSerial)
    requires crsf.Valid()
    modifies crsf
    ensures crsf.Valid() && crsf.Snapshot() == Queued(old(crsf.Snapshot()), FRAMETYPE_TEMP, TemperaturesPayload())
  {
    crsf.QueuePacket(FRAMETYPE_TEMP, TemperaturesPayload());
  }

  method SendRpms(crsf: CrsfSerial)
    requires crsf.Valid()
    modifies crsf
    ensures crsf.Valid() && crsf.Snapshot() == Queued(old(crsf.Snapshot()), FRAMETYPE_RPM, RpmsPayload())
  {
    crsf.QueuePacket(FRAMETYPE_RPM, RpmsPayload());
  }

  method SendCells(crsf: CrsfSerial)
    requires crsf.Valid()
    modifies crsf
    ensures crsf.Valid() && crsf.Snapshot() == Queued(old(crsf.Snapshot()), FRAMETYPE_CELLS, CellsPayload())
  {
    crsf.QueuePacket(FRAMETYPE_CELLS, CellsPayload());
  }

  method SendVbat(crsf: CrsfSerial)
    requires crsf.Valid()
    modifies crsf
    ensures crsf.Valid() && crsf.Snapshot() == Queued(old(crsf.Snapshot()), FRAMETYPE_BATTERY_SENSOR, VbatPayload())
  {
    crsf.QueuePacket(FRAMETYPE_BATTERY_SENSOR, VbatPayload());
  }

  /** The statics of checkSendTelemetry, zero-initialised. */
  class TelemetryScheduler {
    var lastSend: U32
    var tlmItem: nat

    constructor()
      ensures lastSend == 0 && tlmItem == 0
    {
      lastSend, tlmItem := 0, 0;
    }

    method CheckSendTelemetry(crsf: CrsfSerial, now: U32)
      requires crsf.Valid() && tlmItem < TLM_COUNT
      modifies this, crsf
      ensures crsf.Valid() && tlmItem < TLM_COUNT
      ensures var r := TelemetryChecked(TelemetryState(old(lastSend), old(tlmItem)), old(crsf.Snapshot()), now);
              lastSend == r.0.lastSend && tlmItem == r.0.tlmItem && crsf.Snapshot() == r.1
    {
      if Sub32(now, lastSend) < TELEM_INTERVAL_MS {
        return;
      }
      ghost var item := tlmItem;
      lastSend := now;
      if tlmItem == 0 {
        assert ItemKind(item) == FRAMETYPE_BATTERY_SENSOR && ItemPayload(item) == VbatPayload();
        SendVbat(crsf);
      } else if tlmItem == 1 {
        assert ItemKind(item) == FRAMETYPE_CELLS && ItemPayload(item) == CellsPayload();
        SendCells(crsf);
      } else if tlmItem == 2 {
        assert ItemKind(item) == FRAMETYPE_TEMP && ItemPayload(item) == TemperaturesPayload();
        SendTemperatures(crsf);
      } else {
        assert ItemKind(item) == FRAMETYPE_RPM && ItemPayload(item) == RpmsPayload();
        SendRpms(crsf);
      }
      tlmItem := (tlmItem + 1) % TLM_COUNT;
    }
  }
}
