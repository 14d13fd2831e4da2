/**
 * The receiver application (src/main.cpp): eight servo outputs fed from the
 * CRSF channel table through a channel map, a failsafe table applied when
 * the link drops, a smoothed battery voltage reported as a battery sensor
 * frame, and a small command line on the USB serial port that fakes a
 * flight controller's CLI far enough for a configurator to start serial
 * passthrough.
 */
module App {
  import opened Arith
  import opened Bytes
  import opened Protocol
  import opened Assembler
  import opened Serial
  import opened Median

  const NUM_OUTPUTS := 8
  /** Output i follows channel OUTPUT_MAP[i] (1-based); a negative entry inverts that channel. */
  const OUTPUT_MAP: seq<int> := [1, 2, 3, 4, 6, 7, 8, 12]
  /** eFailsafeAction: fsaNoPulses = 0, fsaHold = 1; any other entry is a pulse width in us. */
  const FSA_NO_PULSES := 0
  const FSA_HOLD := 1
  const OUTPUT_FAILSAFE: seq<int> := [1500, 1500, 988, 1500, FSA_HOLD, FSA_HOLD, FSA_HOLD, FSA_NO_PULSES]

  const VBAT_INTERVAL: U32 := 500
  const VBAT_SMOOTH := 5
  /** The battery divider of include/target.h. */
  const VBAT_R1: U32 := 820
  const VBAT_R2: U32 := 120
  /** (1 << 12) - 1: full scale of the 12-bit ADC. */
  const ADC_MAX := 4095

  const SERIAL_IN_BUFF_SIZE := 64
  const PASSTHROUGH_PREFIX := "serialpassthrough 5 "
  /** The 'b', 'l' command payload passthroughBegin sends to reboot the receiver. */
  const REBOOT_PAYLOAD: seq<Byte> := [0x62, 0x6C]

  // ---------------------------------------------------------------------
  // Servo outputs

  predicate ValidMap(m: int)
  {
    1 <= m <= NUM_CHANNELS || 1 <= -m <= NUM_CHANNELS
  }

  /** What packetChannels gives an output mapped to m. */
  function MappedUs(channels: seq<int>, m: int): int
    requires |channels| == NUM_CHANNELS && ValidMap(m)
  {
    if m > 0 then channels[m - 1] else 3000 - channels[-m - 1]
  }

  predicate ValidOutputMap(outputMap: seq<int>)
  {
    |outputMap| == NUM_OUTPUTS && forall i :: 0 <= i < NUM_OUTPUTS ==> ValidMap(outputMap[i])
  }

  /** The whole output table packetChannels writes. */
  function MappedOutputs(outputMap: seq<int>, channels: seq<int>): (r: seq<int>)
    requires ValidOutputMap(outputMap) && |channels| == NUM_CHANNELS
    ensures |r| == NUM_OUTPUTS
  {
    seq(NUM_OUTPUTS, i requires 0 <= i < NUM_OUTPUTS => MappedUs(channels, outputMap[i]))
  }

  /** An inverted mapping mirrors the channel about 1500 us. */
  lemma InvertedMirrors(channels: seq<int>, m: int)
    requires |channels| == NUM_CHANNELS && 1 <= m <= NUM_CHANNELS
    ensures MappedUs(channels, -m) - 1500 == 1500 - MappedUs(channels, m)
    ensures MappedUs(channels, m) == channels[m - 1]
  {
  }

  /** A mapped output stays within the range of its channel, mirrored when inverted. */
  lemma MappedRange(channels: seq<int>, m: int, lo: int, hi: int)
    requires |channels| == NUM_CHANNELS && ValidMap(m)
    requires forall i :: 0 <= i < NUM_CHANNELS ==> lo <= channels[i] <= hi
    ensures m > 0 ==> lo <= MappedUs(channels, m) <= hi
    ensures m < 0 ==> 3000 - hi <= MappedUs(channels, m) <= 3000 - lo
  {
    if m > 0 {
      assert lo <= channels[m - 1] <= hi;
    } else {
      assert lo <= channels[-m - 1] <= hi;
    }
  }

  /** With the configured map: outputs 1-8 carry channels 1, 2, 3, 4, 6, 7, 8 and 12. */
  lemma ConfiguredOutputs(channels: seq<int>)
    requires |channels| == NUM_CHANNELS
    ensures ValidOutputMap(OUTPUT_MAP)
    ensures MappedOutputs(OUTPUT_MAP, channels) == [channels[0], channels[1], channels[2], channels[3],
                                        channels[5], channels[6], channels[7], channels[11]]
  {
  }

  /** The failsafe value of one output: no pulses (0), the current value, or the configured width. */
  function FailsafeUs(action: int, current: int): int
  {
    if action == FSA_NO_PULSES then 0
    else if action == FSA_HOLD then current
    else action
  }

  /** The output table after crsfLinkDown. */
  function FailsafeOutputs(failsafe: seq<int>, outputs: seq<int>): (r: seq<int>)
    requires |failsafe| == NUM_OUTPUTS && |outputs| == NUM_OUTPUTS
    ensures |r| == NUM_OUTPUTS
  {
    seq(NUM_OUTPUTS, i requires 0 <= i < NUM_OUTPUTS => FailsafeUs(failsafe[i], outputs[i]))
  }

  /**
   * With the configured failsafe: outputs 1-4 go to 1500, 1500, 988, 1500,
   * outputs 5-7 hold, output 8 stops pulsing; applying it twice changes nothing.
   */
  lemma ConfiguredFailsafe(outputs: seq<int>)
    requires |outputs| == NUM_OUTPUTS
    ensures FailsafeOutputs(OUTPUT_FAILSAFE, outputs) == [1500, 1500, 988, 1500, outputs[4], outputs[5], outputs[6], 0]
    ensures FailsafeOutputs(OUTPUT_FAILSAFE, FailsafeOutputs(OUTPUT_FAILSAFE, outputs)) == FailsafeOutputs(OUTPUT_FAILSAFE, outputs)
  {
  }

  /** The three failsafe rules for any failsafe table entry. */
  lemma FailsafeRules(action: int, current: int)
    ensures action == FSA_NO_PULSES ==> FailsafeUs(action, current) == 0
    ensures action == FSA_HOLD ==> FailsafeUs(action, current) == current
    ensures action != FSA_NO_PULSES && action != FSA_HOLD ==> FailsafeUs(action, current) == action
    ensures FailsafeUs(action, FailsafeUs(action, current)) == FailsafeUs(action, current)
  {
  }

  // ---------------------------------------------------------------------
  // Battery voltage

  /** 330U * adc * (r1 + r2) / r2 / 4095 in unsigned 32-bit arithmetic, in 10 mV units. */
  function VbatScaled(adc: U32, r1: U32, r2: U32): U32
    requires r2 > 0
  {
    var p := ToU32(ToU32(330 * adc) * ToU32(r1 + r2));
    DivAtMost(p, r2);
    DivAtMost(p / r2, ADC_MAX);
    p / r2 / ADC_MAX
  }

  /** The battery value with the configured divider. */
  function VbatValue(adc: U32): U32
  {
    VbatScaled(adc, VBAT_R1, VBAT_R2)
  }

  /**
   * Nothing wraps for a 12-bit reading when r1 + r2 <= 3178, and then the
   * value is the exact formula; the header's bound "less than 3178" is one
   * short of the largest safe sum.
   */
  lemma VbatExact(adc: U32, r1: U32, r2: U32)
    requires r2 > 0 && adc <= ADC_MAX && r1 + r2 <= 3178
    ensures VbatScaled(adc, r1, r2) == 330 * adc * (r1 + r2) / r2 / ADC_MAX
  {
    var a := 330 * adc;
    assert a <= 1_351_350;
    MulMono(a, 1_351_350, r1 + r2);
    MulMono(r1 + r2, 3178, 1_351_350);
    MulMono(0, a, r1 + r2);
    assert 0 <= a * (r1 + r2) < 0x1_0000_0000;
  }

  /** At full scale a divider sum of 3179 already wraps: 1 instead of 8742. */
  lemma VbatWrapsAt3179()
    ensures 330 * ADC_MAX * 3178 < 0x1_0000_0000 <= 330 * ADC_MAX * 3179
    ensures VbatScaled(ADC_MAX, 3059, 120) == 1
    ensures 330 * ADC_MAX * 3179 / 120 / ADC_MAX == 8742
  {
  }

  /** Any sample gives at most 8740, so scaledVoltage (VBAT_SCALE 1.0) fits uint16_t and equals vbatValue. */
  lemma VbatBound(adc: U32)
    ensures VbatValue(adc) <= 8740
    ensures adc <= ADC_MAX ==> VbatValue(adc) == 330 * adc * 940 / 120 / ADC_MAX <= 2585
  {
    var p := ToU32(330 * adc);
    var t := ToU32(p as int * 940);
    assert VbatValue(adc) == t / 120 / ADC_MAX;
    DivBelow(t, 120, 35_791_395);
    DivBelow(t / 120, ADC_MAX, 8741);
    if adc <= ADC_MAX {
      VbatExact(adc, VBAT_R1, VBAT_R2);
      var x := 330 * adc * 940;
      assert x <= 1_270_269_000;
      DivBelow(x, 120, 10_585_576);
      DivBelow(x / 120, ADC_MAX, 2586);
    }
  }

  /**
   * Five equal full-scale samples smooth to 5460, above the 12-bit range the
   * divider bound assumes; with a sum of 3177, which that bound allows, the
   * product then wraps. The corrected filter returns 4095 and nothing wraps.
   */
  lemma SmoothedOvershootWraps()
    ensures CalcOf(seq(VBAT_SMOOTH, _ => ADC_MAX)) == 5460
    ensures VbatScaled(5460, 3057, 120) != 330 * 5460 * 3177 / 120 / ADC_MAX
    ensures TrimmedMean(seq(VBAT_SMOOTH, _ => ADC_MAX)) == ADC_MAX
    ensures VbatScaled(TrimmedMean(seq(VBAT_SMOOTH, _ => ADC_MAX)), 3057, 120) == 330 * ADC_MAX * 3177 / 120 / ADC_MAX
  {
    var s: seq<U32> := seq(VBAT_SMOOTH, _ => ADC_MAX);
    assert Constant(s);
    CalcConstant(s);
    assert s[0] == ADC_MAX && s[1] == ADC_MAX && s[2] == ADC_MAX && s[3] == ADC_MAX && s[4] == ADC_MAX;
    assert Sum(s, 1) == ADC_MAX;
    assert Sum(s, 2) == 2 * ADC_MAX;
    assert Sum(s, 3) == 3 * ADC_MAX;
    assert Sum(s, 4) == 4 * ADC_MAX;
    assert Sum(s, 5) == 5 * ADC_MAX;
    TrimmedMeanBounds(s);
    VbatExact(ADC_MAX, 3057, 120);
  }

  /** The battery payload checkVbatt queues: the voltage and every other field zero. */
  function VbatPayload(vbat: U32): (p: seq<Byte>)
    ensures |p| == BATTERY_SENSOR_PAYLOAD_SIZE
  {
    EncodeBattery(vbat, 0, 0, 0)
  }

  /** The voltage goes out big-endian in the first two bytes; the rest is zero. */
  lemma VbatPayloadLayout(vbat: U32)
    requires vbat <= 8740
    ensures VbatPayload(vbat) == [vbat / 256, vbat % 256, 0, 0, 0, 0, 0, 0]
    ensures BeValue(VbatPayload(vbat)[0..2]) == vbat
  {
    var z := 0;
    EncodeBatteryImage(vbat, z, z, z);
    assert VbatPayload(vbat)[0..2] == Field16(vbat);
    Field16IsBeBytes(vbat);
    BeValueOfBeBytes(vbat, 2);
    Pow2Values();
  }

  // ---------------------------------------------------------------------
  // The command line

  /** The C string a buffer holds: everything before the first NUL. */
  function CString(s: seq<char>): (r: seq<char>)
    ensures r <= s && '\0' !in r
    ensures |r| < |s| ==> s[|r|] == '\0'
  {
    if s == [] || s[0] == '\0' then [] else [s[0]] + CString(s[1..])
  }

  predicate IsSpace(c: char)
  {
    c == ' ' || c == '\t' || c == '\n' || c == '\U{000B}' || c == '\U{000C}' || c == '\r'
  }

  predicate IsDigit(c: char)
  {
    '0' <= c <= '9'
  }

  function SkipSpace(s: seq<char>): (r: seq<char>)
    ensures |r| <= |s| && r == s[|s| - |r|..] && (r == [] || !IsSpace(r[0]))
  {
    if s != [] && IsSpace(s[0]) then SkipSpace(s[1..]) else s
  }

  /** The leading run of decimal digits. */
  function LeadingDigits(s: seq<char>): (r: seq<char>)
    ensures r <= s && (forall i :: 0 <= i < |r| ==> IsDigit(r[i]))
    ensures |r| < |s| ==> !IsDigit(s[|r|])
  {
    if s != [] && IsDigit(s[0]) then [s[0]] + LeadingDigits(s[1..]) else []
  }

  /** The value of a run of decimal digits, most significant first. */
  function DigitsValue(d: seq<char>): nat
    requires forall i :: 0 <= i < |d| ==> IsDigit(d[i])
  {
    if d == [] then 0
    else
      var c := d[|d| - 1];
      assert IsDigit(c);
      DigitsValue(d[..|d| - 1]) * 10 + (c as int - '0' as int)
  }

  /** atoi: leading white space, an optional sign, then decimal digits. */
  function Atoi(s: seq<char>): int
  {
    var t := SkipSpace(s);
    if t != [] && t[0] == '-' then -(DigitsValue(LeadingDigits(t[1..])) as int)
    else if t != [] && t[0] == '+' then DigitsValue(LeadingDigits(t[1..]))
    else DigitsValue(LeadingDigits(t))
  }

  /** The decimal rendering of n. */
  function Decimal(n: nat): (r: seq<char>)
    ensures |r| > 0 && forall i :: 0 <= i < |r| ==> IsDigit(r[i])
  {
    var d := (('0' as int) + n % 10) as char;
    if n < 10 then [d] else Decimal(n / 10) + [d]
  }

  lemma {:induction false} DigitsValueOfDecimal(n: nat)
    ensures DigitsValue(Decimal(n)) == n
  {
    var r := Decimal(n);
    if n >= 10 {
      DigitsValueOfDecimal(n / 10);
      assert r[..|r| - 1] == Decimal(n / 10);
    }
  }

  lemma {:induction false} LeadingDigitsOfDigits(d: seq<char>, rest: seq<char>)
    requires forall i :: 0 <= i < |d| ==> IsDigit(d[i])
    requires rest == [] || !IsDigit(rest[0])
    ensures LeadingDigits(d + rest) == d
  {
    if d != [] {
      assert (d + rest)[1..] == d[1..] + rest;
      LeadingDigitsOfDigits(d[1..], rest);
    }
  }

  /** Text that starts with a digit is read as its leading digits. */
  lemma AtoiOfDigit(t: seq<char>)
    requires t != [] && IsDigit(t[0])
    ensures Atoi(t) == DigitsValue(LeadingDigits(t))
  {
    assert !IsSpace(t[0]) && t[0] != '-' && t[0] != '+';
    assert SkipSpace(t) == t;
  }

  /** atoi reads back a rendered number that is followed by anything but a digit. */
  lemma AtoiOfDecimal(n: nat, rest: seq<char>)
    requires rest == [] || !IsDigit(rest[0])
    ensures Atoi(Decimal(n) + rest) == n
  {
    var d := Decimal(n);
    var t := d + rest;
    assert t[0] == d[0];
    AtoiOfDigit(t);
    LeadingDigitsOfDigits(d, rest);
    DigitsValueOfDecimal(n);
  }

  datatype Command =
    | FakeCli | ShowSerial | GetProvider | GetInverted | GetHalfduplex
    | Passthrough(baud: U32)
    | Unknown

  /** The strcmp / strncmp chain of handleSerialCommand. */
  function ParseCommand(cmd: seq<char>): Command
  {
    if cmd == "#" then FakeCli
    else if cmd == "serial" then ShowSerial
    else if cmd == "get serialrx_provider" then GetProvider
    else if cmd == "get serialrx_inverted" then GetInverted
    else if cmd == "get serialrx_halfduplex" then GetHalfduplex
    else if |cmd| >= |PASSTHROUGH_PREFIX| && cmd[..|PASSTHROUGH_PREFIX|] == PASSTHROUGH_PREFIX then
      Passthrough(ToU32(Atoi(cmd[|PASSTHROUGH_PREFIX|..])))
    else Unknown
  }

  /** A line that starts with the passthrough prefix matches none of the fixed commands before it. */
  lemma PrefixedIsNoFixedCommand(cmd: seq<char>)
    requires |cmd| >= |PASSTHROUGH_PREFIX| && cmd[..|PASSTHROUGH_PREFIX|] == PASSTHROUGH_PREFIX
    ensures cmd != "#" && cmd != "serial"
    ensures cmd != "get serialrx_provider" && cmd != "get serialrx_inverted" && cmd != "get serialrx_halfduplex"
  {
    assert cmd[0] == PASSTHROUGH_PREFIX[0] == 's';
    assert "get serialrx_provider"[0] == 'g';
    assert "get serialrx_inverted"[0] == 'g';
    assert "get serialrx_halfduplex"[0] == 'g';
  }

  /**
   * Passthrough is requested exactly by a line starting with the 20
   * characters "serialpassthrough 5 ", with the baud rate atoi reads after
   * them.
   */
  lemma PassthroughCommand(cmd: seq<char>)
    ensures ParseCommand(cmd).Passthrough? <==> |cmd| >= 20 && cmd[..20] == PASSTHROUGH_PREFIX
    ensures ParseCommand(cmd).Passthrough? ==> ParseCommand(cmd).baud == ToU32(Atoi(cmd[20..]))
  {
    if |cmd| >= 20 && cmd[..20] == PASSTHROUGH_PREFIX {
      PrefixedIsNoFixedCommand(cmd);
    }
  }

  /** "serialpassthrough 5 115200" asks for 115200: the rate written after the prefix is the one read. */
  lemma PassthroughOfDecimal(n: nat)
    requires n < 0x1_0000_0000
    ensures ParseCommand(PASSTHROUGH_PREFIX + Decimal(n)) == Passthrough(n)
  {
    var c := PASSTHROUGH_PREFIX + Decimal(n);
    assert c[..20] == PASSTHROUGH_PREFIX && c[20..] == Decimal(n) + [];
    PrefixedIsNoFixedCommand(c);
    AtoiOfDecimal(n, []);
  }

  /**
   * What the command line prints in answer to a command other than
   * serialpassthrough: the reply line and, for recognised commands, the
   * prompt. A passthrough line is echoed instead (see Handled).
   */
  function Reply(c: Command): seq<char>
  {
    match c
    case FakeCli => "Fake CLI Mode, type 'exit' or 'help' to do nothing\r\n" + "\r\n" + "# "
    case ShowSerial => "serial 5 64 0 0 0 0\r\n" + "\r\n" + "# "
    case GetProvider => "serialrx_provider = CRSF\r\n" + "\r\n" + "# "
    case GetInverted => "serialrx_inverted = OFF\r\n" + "\r\n" + "# "
    case GetHalfduplex => "serialrx_halfduplex = OFF\r\n" + "\r\n" + "# "
    case Passthrough(_) => ""
    case Unknown => ""
  }

  /** passthroughBegin(baud) against the CrsfSerial state s, whose own baud is crsfBaud. */
  function PassthroughBegun(s: Serial, crsfBaud: U32, baud: U32): Serial
  {
    var s1 := if baud != crsfBaud then Queued(s, FRAMETYPE_COMMAND, REBOOT_PAYLOAD) else s;
    PassthroughSet(s1, crsfBaud, true, baud)
  }

  /**
   * Outside passthrough, the reboot command is written exactly when the
   * requested baud differs from CrsfSerial's own, the port is reopened at the
   * requested baud unless it is 0, and passthrough is on afterwards.
   */
  lemma PassthroughBeginEffect(s: Serial, crsfBaud: U32, baud: U32)
    requires !InPassthrough(s) && crsfBaud != 0
    ensures var r := PassthroughBegun(s, crsfBaud, baud);
            InPassthrough(r) && r.passthroughBaud == (if baud != 0 then baud else crsfBaud)
            && r.port == s.port
                         + (if baud != crsfBaud then [Write(FrameBytes(SYNC_BYTE, FRAMETYPE_COMMAND, REBOOT_PAYLOAD))] else [])
                         + (if baud != 0 then [End, Begin(baud)] else [])
            && r.channels == s.channels && r.rx == s.rx
  {
    var s1 := if baud != crsfBaud then Queued(s, FRAMETYPE_COMMAND, REBOOT_PAYLOAD) else s;
    PassthroughRules(s1, crsfBaud, true, baud);
  }

  /** The command line's own state: the line buffer, its length, the echo flag and what it printed. */
  datatype Cli = Cli(buf: seq<char>, len: nat, echo: bool, console: seq<char>)

  predicate CliInv(a: Cli)
  {
    |a.buf| == SERIAL_IN_BUFF_SIZE && a.len < SERIAL_IN_BUFF_SIZE
  }

  /** handleSerialCommand(cmd): the new command line and CrsfSerial state, and whether passthrough began. */
  function Handled(a: Cli, s: Serial, crsfBaud: U32, cmd: seq<char>): (r: (Cli, Serial, bool))
    ensures r.0.buf == a.buf && r.0.len == a.len
    ensures r.2 <==> ParseCommand(cmd).Passthrough?
    ensures r.2 && crsfBaud != 0 ==> InPassthrough(r.1)
  {
    match ParseCommand(cmd)
    case Passthrough(baud) =>
      (a.(console := a.console + (cmd + "\r\n"), echo := false), PassthroughBegun(s, crsfBaud, baud), true)
    case FakeCli => (a.(console := a.console + Reply(FakeCli), echo := true), s, false)
    case c => (a.(console := a.console + Reply(c)), s, false)
  }

  /** A command other than serialpassthrough only prints, and "#" turns echo on. */
  lemma HandledOutsidePassthrough(a: Cli, s: Serial, crsfBaud: U32, cmd: seq<char>)
    requires !ParseCommand(cmd).Passthrough?
    ensures var c, t := ParseCommand(cmd), Handled(a, s, crsfBaud, cmd);
            t.0 == a.(console := a.console + Reply(c), echo := a.echo || c == FakeCli) && t.1 == s && !t.2
  {
  }

  /** One character of checkSerialInNormal; the flag says the loop returns early. */
  function CharIn(a: Cli, s: Serial, crsfBaud: U32, c: char): (r: (Cli, Serial, bool))
    requires CliInv(a)
    ensures CliInv(r.0)
  {
    var a1 := if a.echo && c != '\n' then a.(console := a.console + [c]) else a;
    if c == '\r' || c == '\n' then
      if a1.len != 0 then
        var buf := a1.buf[a1.len := '\0'];
        Handled(a1.(console := a1.console + ['\n'], buf := buf, len := 0), s, crsfBaud, CString(buf))
      else (a1, s, false)
    else
      var a2 := a1.(buf := a1.buf[a1.len := c], len := a1.len + 1);
      if a2.len >= SERIAL_IN_BUFF_SIZE then (a2.(len := 0), s, false) else (a2, s, false)
  }

  /** checkSerialInNormal over the characters available: the new state and how many were read. */
  function CliIn(a: Cli, s: Serial, crsfBaud: U32, input: seq<char>): (r: (Cli, Serial, nat))
    requires CliInv(a)
    ensures CliInv(r.0) && r.2 <= |input|
    decreases input
  {
    if input == [] then (a, s, 0)
    else
      var (a1, s1, stop) := CharIn(a, s, crsfBaud, input[0]);
      if stop then (a1, s1, 1)
      else
        var (a2, s2, n) := CliIn(a1, s1, crsfBaud, input[1..]);
        (a2, s2, n + 1)
  }

  /** Any character but CR and LF is stored in the line buffer; a line that fills all 64 places is thrown away. */
  lemma CharInStores(a: Cli, s: Serial, crsfBaud: U32, c: char)
    requires CliInv(a) && c != '\r' && c != '\n'
    ensures var t := CharIn(a, s, crsfBaud, c);
            !t.2 && t.1 == s && t.0.buf == a.buf[a.len := c] && t.0.echo == a.echo
            && t.0.len == (if a.len + 1 == SERIAL_IN_BUFF_SIZE then 0 else a.len + 1)
  {
  }

  /** CR or LF on an empty line does nothing but echo. */
  lemma CharInBlankLine(a: Cli, s: Serial, crsfBaud: U32, c: char)
    requires CliInv(a) && (c == '\r' || c == '\n') && a.len == 0
    ensures var t := CharIn(a, s, crsfBaud, c);
            !t.2 && t.1 == s && t.0 == a.(console := a.console + (if a.echo && c == '\r' then ['\r'] else []))
  {
  }

  /**
   * CR or LF after a non-empty line hands the buffer, NUL-terminated, to
   * handleSerialCommand and empties it; the loop stops exactly when that
   * starts passthrough, and a line without NULs is the command itself.
   */
  lemma CharInEndsLine(a: Cli, s: Serial, crsfBaud: U32, c: char)
    requires CliInv(a) && (c == '\r' || c == '\n') && a.len != 0
    ensures var t, cmd := CharIn(a, s, crsfBaud, c), CString(a.buf[a.len := '\0']);
            t.0.len == 0 && t.0.buf == a.buf[a.len := '\0']
            && (t.2 <==> ParseCommand(cmd).Passthrough?)
            && ((forall i :: 0 <= i < a.len ==> a.buf[i] != '\0') ==> cmd == a.buf[..a.len])
  {
    var buf := a.buf[a.len := '\0'];
    var a1 := if a.echo && c != '\n' then a.(console := a.console + [c]) else a;
    var a2 := a1.(console := a1.console + ['\n'], buf := buf, len := 0);
    assert CharIn(a, s, crsfBaud, c) == Handled(a2, s, crsfBaud, CString(buf));
    if forall i :: 0 <= i < a.len ==> a.buf[i] != '\0' {
      CStringOfLine(buf, a.len);
    }
  }

  /** A NUL-free line written before a NUL reads back as that line. */
  lemma {:induction false} CStringOfLine(buf: seq<char>, n: nat)
    requires n < |buf| && buf[n] == '\0' && forall i :: 0 <= i < n ==> buf[i] != '\0'
    ensures CString(buf) == buf[..n]
  {
    if n > 0 {
      CStringOfLine(buf[1..], n - 1);
      assert buf[..n] == [buf[0]] + buf[1..][..n - 1];
    }
  }

  /** One step of CliIn. */
  lemma CliInStep(a: Cli, s: Serial, crsfBaud: U32, input: seq<char>)
    requires CliInv(a) && input != []
    ensures var (a1, s1, stop) := CharIn(a, s, crsfBaud, input[0]);
            CliIn(a, s, crsfBaud, input)
            == if stop then (a1, s1, 1)
               else var r := CliIn(a1, s1, crsfBaud, input[1..]); (r.0, r.1, r.2 + 1)
  {
  }

  /**
   * One character of checkSerialInNormal's loop: if total is what the rest
   * of the input yields from (a0, s0) shifted by consumed characters, then
   * after the character that took (a0, s0) to (a1, s1) it is either the
   * final answer or what the input after it yields from (a1, s1).
   */
  lemma CliInResume(a0: Cli, s0: Serial, crsfBaud: U32, rest: seq<char>,
                    a1: Cli, s1: Serial, stop: bool, total: (Cli, Serial, nat), consumed: nat)
    requires CliInv(a0) && rest != []
    requires var t := CharIn(a0, s0, crsfBaud, rest[0]); a1 == t.0 && s1 == t.1 && stop == t.2
    requires var r := CliIn(a0, s0, crsfBaud, rest);
             total.0 == r.0 && total.1 == r.1 && total.2 == r.2 + consumed
    ensures CliInv(a1)
    ensures stop ==> total.0 == a1 && total.1 == s1 && total.2 == consumed + 1
    ensures !stop ==> var r := CliIn(a1, s1, crsfBaud, rest[1..]);
                      total.0 == r.0 && total.1 == r.1 && total.2 == r.2 + consumed + 1
  {
    CliInStep(a0, s0, crsfBaud, rest);
  }

  /** checkSerialInNormal reads everything available unless a line starts passthrough, and then stops at its end. */
  lemma {:induction false} CliStopsAtPassthrough(a: Cli, s: Serial, crsfBaud: U32, input: seq<char>)
    requires CliInv(a) && crsfBaud != 0
    ensures var r := CliIn(a, s, crsfBaud, input);
            r.2 < |input| ==> 0 < r.2 && InPassthrough(r.1) && (input[r.2 - 1] == '\r' || input[r.2 - 1] == '\n')
    decreases |input|
  {
    if input != [] {
      var t := CharIn(a, s, crsfBaud, input[0]);
      CliInStep(a, s, crsfBaud, input);
      if t.2 {
        StopOnlyInPassthrough(a, s, crsfBaud, input[0]);
      } else {
        CliStopsAtPassthrough(t.0, t.1, crsfBaud, input[1..]);
      }
    }
  }

  /** Only CR or LF ending a passthrough command stops the loop, and CrsfSerial is then in passthrough. */
  lemma StopOnlyInPassthrough(a: Cli, s: Serial, crsfBaud: U32, c: char)
    requires CliInv(a) && crsfBaud != 0
    ensures var r := CharIn(a, s, crsfBaud, c);
            r.2 ==> InPassthrough(r.1) && (c == '\r' || c == '\n')
  {
    if (c == '\r' || c == '\n') && a.len != 0 {
      var buf := a.buf[a.len := '\0'];
      var a1 := if a.echo && c != '\n' then a.(console := a.console + [c]) else a;
      var a2 := a1.(console := a1.console + ['\n'], buf := buf, len := 0);
      assert CharIn(a, s, crsfBaud, c) == Handled(a2, s, crsfBaud, CString(buf));
    }
  }

  // ---------------------------------------------------------------------
  // The application state

  /** g_OutputsUs and g_State; the CrsfSerial object is passed to the methods that use it. */
  class App {
    /** The configuration tables, OUTPUT_MAP and OUTPUT_FAILSAFE as built. */
    const outputMap: seq<int>
    const outputFailsafe: seq<int>
    const outputsUs: array<int>
    const vbatSmooth: MedianAvgFilter
    const serialInBuff: array<char>
    var lastVbatRead: U32
    var vbatValue: U32
    var serialInBuffLen: nat
    var serialEcho: bool
    /** Everything printed on the USB serial port. */
    var console: seq<char>

    ghost predicate Valid()
      reads this, vbatSmooth
    {
      ValidOutputMap(outputMap) && |outputFailsafe| == NUM_OUTPUTS
      && outputsUs.Length == NUM_OUTPUTS && serialInBuff.Length == SERIAL_IN_BUFF_SIZE
      && serialInBuffLen < SERIAL_IN_BUFF_SIZE
      && vbatSmooth.Valid() && vbatSmooth.data.Length == VBAT_SMOOTH
    }

    function CliState(): Cli
      reads this, serialInBuff
    {
      Cli(serialInBuff[..], serialInBuffLen, serialEcho, console)
    }

    /** The zero-initialised statics. */
    constructor()
      ensures Valid() && fresh(outputsUs) && fresh(serialInBuff) && fresh(vbatSmooth) && fresh(vbatSmooth.data)
      ensures outputMap == OUTPUT_MAP && outputFailsafe == OUTPUT_FAILSAFE
      ensures outputsUs[..] == seq(NUM_OUTPUTS, _ => 0) && lastVbatRead == 0 && vbatValue == 0
      ensures vbatSmooth.data[..] == seq(VBAT_SMOOTH, _ => 0) && vbatSmooth.added == 0
      ensures CliState() == Cli(seq(SERIAL_IN_BUFF_SIZE, _ => '\0'), 0, false, [])
    {
      outputMap, outputFailsafe := OUTPUT_MAP, OUTPUT_FAILSAFE;
      outputsUs := new int[NUM_OUTPUTS](_ => 0);
      vbatSmooth := new MedianAvgFilter(VBAT_SMOOTH);
      serialInBuff := new char[SERIAL_IN_BUFF_SIZE](_ => '\0');
      lastVbatRead, vbatValue := 0, 0;
      serialInBuffLen, serialEcho, console := 0, false, [];
    }

    /** servoSetUs: the bookkeeping half; a positive width drives pulses, anything else stops them. */
    method ServoSetUs(servo: nat, usec: int)
      requires Valid() && servo < NUM_OUTPUTS
      modifies outputsUs
      ensures outputsUs[..] == old(outputsUs[..])[servo := usec]
    {
      outputsUs[servo] := usec;
    }

    /** packetChannels */
    method PacketChannels(crsf: CrsfSerial)
      requires Valid() && crsf.Valid()
      modifies outputsUs
      ensures outputsUs[..] == MappedOutputs(outputMap, crsf.channels)
    {
      for out := 0 to NUM_OUTPUTS
        invariant forall i :: 0 <= i < out ==> outputsUs[i] == MappedUs(crsf.channels, outputMap[i])
        invariant forall i :: out <= i < NUM_OUTPUTS ==> outputsUs[i] == old(outputsUs[i])
      {
        var chInput := outputMap[out];
        var usOutput;
        if chInput > 0 {
          usOutput := crsf.GetChannel(chInput);
        } else {
          usOutput := crsf.GetChannel(-chInput);
          usOutput := 3000 - usOutput;
        }
        ServoSetUs(out, usOutput);
      }
      assert outputsUs[..] == MappedOutputs(outputMap, crsf.channels);
    }

    /** crsfLinkDown: the failsafe action of every output. */
    method CrsfLinkDown()
      requires Valid()
      modifies outputsUs
      ensures outputsUs[..] == FailsafeOutputs(outputFailsafe, old(outputsUs[..]))
    {
      for out := 0 to NUM_OUTPUTS
        invariant forall i :: 0 <= i < out ==> outputsUs[i] == FailsafeUs(outputFailsafe[i], old(outputsUs[i]))
        invariant forall i :: out <= i < NUM_OUTPUTS ==> outputsUs[i] == old(outputsUs[i])
      {
        if outputFailsafe[out] == FSA_NO_PULSES {
          ServoSetUs(out, 0);
        } else if outputFailsafe[out] != FSA_HOLD {
          ServoSetUs(out, outputFailsafe[out]);
        }
      }
      assert outputsUs[..] == FailsafeOutputs(outputFailsafe, old(outputsUs[..]));
    }

    /**
     * checkVbatt at time now (milliseconds) with `sample` standing for
     * analogRead(APIN_VBAT): every 100 ms a sample goes into the filter, and
     * every fifth one the smoothed value is converted and queued. The filter
     * is read by MedianAvgFilter.Calc as the source has it, so five equal
     * samples give the overstated value of Median.CalcAllEqualExample.
     */
    method CheckVbatt(crsf: CrsfSerial, now: U32, sample: U32)
      requires Valid() && crsf.Valid()
      modifies this, vbatSmooth, vbatSmooth.data, crsf
      ensures Valid() && crsf.Valid()
      ensures CliState() == old(CliState())
      ensures Sub32(now, old(lastVbatRead)) < VBAT_INTERVAL / VBAT_SMOOTH ==>
              lastVbatRead == old(lastVbatRead) && vbatValue == old(vbatValue)
              && vbatSmooth.data[..] == old(vbatSmooth.data[..]) && vbatSmooth.added == old(vbatSmooth.added)
              && crsf.Snapshot() == old(crsf.Snapshot())
      ensures Sub32(now, old(lastVbatRead)) >= VBAT_INTERVAL / VBAT_SMOOTH ==>
              lastVbatRead == now
              && vbatSmooth.data[..] == old(vbatSmooth.data[..])[old(vbatSmooth.counter) := sample]
              && vbatSmooth.added == old(vbatSmooth.added) + 1
              && (vbatSmooth.added % VBAT_SMOOTH == 0 ==>
                    vbatValue == VbatValue(CalcOf(vbatSmooth.data[..]))
                    && crsf.Snapshot() == Queued(old(crsf.Snapshot()), FRAMETYPE_BATTERY_SENSOR, VbatPayload(vbatValue)))
              && (vbatSmooth.added % VBAT_SMOOTH != 0 ==>
                    vbatValue == old(vbatValue) && crsf.Snapshot() == old(crsf.Snapshot()))
    {
      if Sub32(now, lastVbatRead) < VBAT_INTERVAL / VBAT_SMOOTH {
        return;
      }
      lastVbatRead := now;
      var idx := vbatSmooth.Add(sample);
      if idx != 0 {
        return;
      }
      var adc := vbatSmooth.Calc();
      vbatValue := VbatValue(adc);
      VbatBound(adc);
      // VBAT_SCALE is 1.0 and vbatValue is at most 8740, so the conversion to uint16_t is exact.
      var scaledVoltage := vbatValue;
      crsf.QueuePacket(FRAMETYPE_BATTERY_SENSOR, VbatPayload(scaledVoltage));
    }

    /** passthroughBegin(baud) */
    method PassthroughBegin(crsf: CrsfSerial, baud: U32)
      requires Valid() && crsf.Valid()
      modifies this, crsf
      ensures Valid() && crsf.Valid()
      ensures crsf.Snapshot() == PassthroughBegun(old(crsf.Snapshot()), crsf.baud, baud)
      ensures CliState() == old(CliState()).(echo := false)
      ensures lastVbatRead == old(lastVbatRead) && vbatValue == old(vbatValue)
    {
      if baud != crsf.GetBaud() {
        crsf.QueuePacket(FRAMETYPE_COMMAND, REBOOT_PAYLOAD);
      }
      crsf.SetPassthroughMode(true, baud);
      serialEcho := false;
    }

    /** The serialpassthrough branch of handleSerialCommand: echo the line, then passthroughBegin. */
    method PassthroughLine(crsf: CrsfSerial, cmd: seq<char>)
      requires Valid() && crsf.Valid()
      requires |cmd| >= |PASSTHROUGH_PREFIX| && cmd[..|PASSTHROUGH_PREFIX|] == PASSTHROUGH_PREFIX
      modifies this, crsf
      ensures Valid() && crsf.Valid()
      ensures var baud := ToU32(Atoi(cmd[|PASSTHROUGH_PREFIX|..]));
              CliState() == old(CliState()).(console := old(console) + (cmd + "\r\n"), echo := false)
              && crsf.Snapshot() == PassthroughBegun(old(crsf.Snapshot()), crsf.baud, baud)
      ensures lastVbatRead == old(lastVbatRead) && vbatValue == old(vbatValue)
    {
      var baud := ToU32(Atoi(cmd[|PASSTHROUGH_PREFIX|..]));
      console := console + (cmd + "\r\n");
      PassthroughBegin(crsf, baud);
    }

    /** handleSerialCommand(cmd); the result says whether CrsfSerial went into passthrough. */
    method HandleSerialCommand(crsf: CrsfSerial, cmd: seq<char>) returns (goToPassthrough: bool)
      requires Valid() && crsf.Valid()
      modifies this, crsf
      ensures Valid() && crsf.Valid()
      ensures var t := Handled(old(CliState()), old(crsf.Snapshot()), crsf.baud, cmd);
              CliState() == t.0 && crsf.Snapshot() == t.1 && goToPassthrough == t.2
      ensures lastVbatRead == old(lastVbatRead) && vbatValue == old(vbatValue)
    {
      ghost var a0, s0 := CliState(), crsf.Snapshot();
      ghost var c := ParseCommand(cmd);
      // What the Serial.println calls print, written to the console once at the end.
      var out: seq<char>;
      var prompt := true;
      if cmd == "#" {
        assert c == FakeCli;
        out := "Fake CLI Mode, type 'exit' or 'help' to do nothing\r\n" + "\r\n";
        serialEcho := true;
      } else if cmd == "serial" {
        assert c == ShowSerial;
        out := "serial 5 64 0 0 0 0\r\n" + "\r\n";
      } else if cmd == "get serialrx_provider" {
        assert c == GetProvider;
        out := "serialrx_provider = CRSF\r\n" + "\r\n";
      } else if cmd == "get serialrx_inverted" {
        assert c == GetInverted;
        out := "serialrx_inverted = OFF\r\n" + "\r\n";
      } else if cmd == "get serialrx_halfduplex" {
        assert c == GetHalfduplex;
        out := "serialrx_halfduplex = OFF\r\n" + "\r\n";
      } else if |cmd| >= |PASSTHROUGH_PREFIX| && cmd[..|PASSTHROUGH_PREFIX|] == PASSTHROUGH_PREFIX {
        assert c == Passthrough(ToU32(Atoi(cmd[|PASSTHROUGH_PREFIX|..])));
        PassthroughLine(crsf, cmd);
        return true;
      } else {
        out := "";
        prompt := false;
      }
      if prompt {
        out := out + "# ";
      }
      assert out == Reply(c);
      console := console + out;
      HandledOutsidePassthrough(a0, s0, crsf.baud, cmd);
      return false;
    }

    /** The body of checkSerialInNormal's loop for one character c; stop says it returns. */
    method SerialInChar(crsf: CrsfSerial, c: char) returns (stop: bool)
      requires Valid() && crsf.Valid()
      modifies this, serialInBuff, crsf
      ensures Valid() && crsf.Valid()
      ensures var t := CharIn(old(CliState()), old(crsf.Snapshot()), crsf.baud, c);
              CliState() == t.0 && crsf.Snapshot() == t.1 && stop == t.2
      ensures lastVbatRead == old(lastVbatRead) && vbatValue == old(vbatValue)
    {
      stop := false;
      if serialEcho && c != '\n' {
        console := console + [c];
      }
      if c == '\r' || c == '\n' {
        if serialInBuffLen != 0 {
          console := console + ['\n'];
          serialInBuff[serialInBuffLen] := '\0';
          serialInBuffLen := 0;
          stop := HandleSerialCommand(crsf, CString(serialInBuff[..]));
        }
      } else {
        serialInBuff[serialInBuffLen] := c;
        serialInBuffLen := serialInBuffLen + 1;
        if serialInBuffLen >= SERIAL_IN_BUFF_SIZE {
          serialInBuffLen := 0;
        }
      }
    }

    /**
     * One turn of checkSerialInNormal's loop, read against the whole run:
     * total is what the characters from consumed on yield, shifted by
     * consumed; after this character it is either the answer or what the
     * characters after it yield.
     */
    method SerialInNext(crsf: CrsfSerial, input: seq<char>, consumed: nat, ghost total: (Cli, Serial, nat))
      returns (stop: bool)
      requires Valid() && crsf.Valid() && consumed < |input|
      requires var r := CliIn(CliState(), crsf.Snapshot(), crsf.baud, input[consumed..]);
               total.0 == r.0 && total.1 == r.1 && total.2 == r.2 + consumed
      modifies this, serialInBuff, crsf
      ensures Valid() && crsf.Valid()
      ensures stop ==> total.0 == CliState() && total.1 == crsf.Snapshot() && total.2 == consumed + 1
      ensures !stop ==> var r := CliIn(CliState(), crsf.Snapshot(), crsf.baud, input[consumed + 1..]);
                        total.0 == r.0 && total.1 == r.1 && total.2 == r.2 + consumed + 1
      ensures lastVbatRead == old(lastVbatRead) && vbatValue == old(vbatValue)
    {
      ghost var a0, s0, rest := CliState(), crsf.Snapshot(), input[consumed..];
      var c := input[consumed];
      assert rest[0] == c && rest[1..] == input[consumed + 1..];
      stop := SerialInChar(crsf, c);
      CliInResume(a0, s0, crsf.baud, rest, CliState(), crsf.Snapshot(), stop, total, consumed);
    }

    /** checkSerialInNormal over the characters available; consumed counts those it read. */
    method CheckSerialInNormal(crsf: CrsfSerial, input: seq<char>) returns (consumed: nat)
      requires Valid() && crsf.Valid()
      modifies this, serialInBuff, crsf
      ensures Valid() && crsf.Valid()
      ensures var t := CliIn(old(CliState()), old(crsf.Snapshot()), crsf.baud, input);
              CliState() == t.0 && crsf.Snapshot() == t.1 && consumed == t.2
      ensures lastVbatRead == old(lastVbatRead) && vbatValue == old(vbatValue)
    {
      ghost var a, s := CliState(), crsf.Snapshot();
      ghost var total := CliIn(a, s, crsf.baud, input);
      consumed := 0;
      assert input[0..] == input;
      while consumed < |input|
        invariant Valid() && crsf.Valid() && consumed <= |input|
        invariant lastVbatRead == old(lastVbatRead) && vbatValue == old(vbatValue)
        invariant var r := CliIn(CliState(), crsf.Snapshot(), crsf.baud, input[consumed..]);
                  total.0 == r.0 && total.1 == r.1 && total.2 == r.2 + consumed
      {
        var stop := SerialInNext(crsf, input, consumed, total);
        consumed := consumed + 1;
        if stop {
          return;
        }
      }
    }
  }
}
