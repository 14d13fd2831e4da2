/**
 * The handset example: CrsfSerial driving a transmitter module. All channels
 * start at 1500 us; every 4 ms the mixer moves channel 1 up by 1 us and
 * channel 8 up by 2 us, going back to 988 us past 2012 us, and the channel
 * table is queued as one RC channels frame.
 */
module Handset {
  import opened Arith
  import opened Bytes
  import opened Protocol
  import opened Channels
  import opened Serial

  const CHANNEL_SEND_INTERVAL_US: U32 := 4000
  const HANDSET_BAUD: U32 := 921600
  const MIXER_LOW := 988
  const MIXER_HIGH := 2012
  const SETUP_US := 1500

  /** One mixer step: the channel value plus step as an unsigned int, back to 988 once above 2012. */
  function Mixed(us: int, step: nat): (v: int)
    ensures 0 <= v <= MIXER_HIGH
    ensures 0 <= us + step <= MIXER_HIGH ==> v == us + step
    ensures MIXER_HIGH < us + step < 0x1_0000_0000 ==> v == MIXER_LOW
    ensures -0x1_0000_0000 + MIXER_HIGH < us + step < 0 ==> v == MIXER_LOW
  {
    var val := ToU32(us + step);
    if val > MIXER_HIGH then MIXER_LOW else val
  }

  /** The channel table after one pass of the mixer: mixer(1, 1) then mixer(8, 2). */
  function Ticked(channels: seq<int>): (r: seq<int>)
    requires |channels| == NUM_CHANNELS
    ensures |r| == NUM_CHANNELS
  {
    var c := channels[0 := Mixed(channels[0], 1)];
    c[7 := Mixed(c[7], 2)]
  }

  /** The channel table after k passes. */
  function TickedTimes(channels: seq<int>, k: nat): (r: seq<int>)
    requires |channels| == NUM_CHANNELS
    ensures |r| == NUM_CHANNELS
  {
    if k == 0 then channels else Ticked(TickedTimes(channels, k - 1))
  }

  /** k mixer steps on one value. */
  function MixedTimes(us: int, step: nat, k: nat): int
  {
    if k == 0 then us else Mixed(MixedTimes(us, step, k - 1), step)
  }

  predicate InMixerRange(channels: seq<int>)
  {
    forall i :: 0 <= i < |channels| ==> MIXER_LOW <= channels[i] <= MIXER_HIGH
  }

  /** The table setupCrsfChannels leaves behind. */
  function SetupChannels(): (r: seq<int>)
    ensures |r| == NUM_CHANNELS
  {
    seq(NUM_CHANNELS, _ => SETUP_US)
  }

  /** Values the mixer can produce convert into the 11-bit CRSF range. */
  lemma MixerRangeFits(channels: seq<int>)
    requires InMixerRange(channels)
    ensures ChannelsFit(channels)
    ensures forall i :: 0 <= i < |channels| ==> CHANNEL_VALUE_MIN <= UsToCrsf(channels[i]) <= CHANNEL_VALUE_MAX
  {
    forall i | 0 <= i < |channels|
      ensures CHANNEL_VALUE_MIN <= UsToCrsf(channels[i]) <= CHANNEL_VALUE_MAX
      ensures 0 <= UsToCrsf(channels[i]) < 2048
    {
      UsToCrsfRange(channels[i]);
    }
  }

  /** A pass of the mixer keeps the table in [988, 2012] and touches channels 1 and 8 only. */
  lemma TickedKeepsRange(channels: seq<int>)
    requires |channels| == NUM_CHANNELS && InMixerRange(channels)
    ensures InMixerRange(Ticked(channels)) && ChannelsFit(Ticked(channels))
    ensures forall i :: 0 <= i < NUM_CHANNELS && i != 0 && i != 7 ==> Ticked(channels)[i] == channels[i]
    ensures Ticked(channels)[0] == if channels[0] < MIXER_HIGH then channels[0] + 1 else MIXER_LOW
    ensures Ticked(channels)[7] == if channels[7] + 2 <= MIXER_HIGH then channels[7] + 2 else MIXER_LOW
  {
    MixerRangeFits(Ticked(channels));
  }

  /** One step from step * m above 988: up by step, or back to 988 from the top, 2012. */
  lemma MixerStep(step: nat, m: nat)
    requires step > 0 && 1024 % step == 0 && m <= 1024 / step
    ensures Mixed(MIXER_LOW + step * m, step) == MIXER_LOW + step * ((m + 1) % (1024 / step + 1))
  {
    var p := 1024 / step + 1;
    assert 1024 == step * (p - 1);
    MulDistrib(m, 1, step);
    if m < p - 1 {
      MulMono(m + 1, p - 1, step);
      MulMono(0, m + 1, step);
      DivModUnique(m + 1, p, 0, m + 1);
    } else {
      DivModUnique(m + 1, p, 1, 0);
    }
  }

  /** (x + 1) mod p from x mod p. */
  lemma ModSucc(x: nat, p: nat)
    requires p > 0
    ensures (x + 1) % p == (x % p + 1) % p
  {
    var q, m := x / p, x % p;
    assert x + 1 == q * p + (m + 1);
    if m + 1 < p {
      DivModUnique(x + 1, p, q, m + 1);
      DivModUnique(m + 1, p, 0, m + 1);
    } else {
      MulDistrib(q, 1, p);
      DivModUnique(x + 1, p, q + 1, 0);
      DivModUnique(m + 1, p, 1, 0);
    }
  }

  /**
   * Starting at step * j above 988, a value that step divides 1024 into
   * climbs by step each pass and wraps with period 1024 / step + 1.
   */
  lemma {:induction false} MixerCycle(step: nat, j: nat, k: nat)
    requires step > 0 && 1024 % step == 0 && j <= 1024 / step
    ensures MixedTimes(MIXER_LOW + step * j, step, k) == MIXER_LOW + step * ((j + k) % (1024 / step + 1))
  {
    var p := 1024 / step + 1;
    if k == 0 {
      DivModUnique(j, p, 0, j);
    } else {
      MixerCycle(step, j, k - 1);
      var m := (j + k - 1) % p;
      MixerStep(step, m);
      ModSucc(j + k - 1, p);
    }
  }

  /** After k passes a channel holds its start value mixed k times. */
  lemma {:induction false} TickedTimesChannels(channels: seq<int>, k: nat)
    requires |channels| == NUM_CHANNELS
    ensures var c := TickedTimes(channels, k);
            c[0] == MixedTimes(channels[0], 1, k) && c[7] == MixedTimes(channels[7], 2, k)
            && forall i :: 0 <= i < NUM_CHANNELS && i != 0 && i != 7 ==> c[i] == channels[i]
  {
    if k > 0 {
      TickedTimesChannels(channels, k - 1);
    }
  }

  /**
   * What the handset sends on its k-th channels frame after setup: channel 1
   * cycles through 988..2012 one step at a time, channel 8 two at a time,
   * the others stay at 1500 (raw 992). With the pack loop as written, the
   * sixteenth channel comes through only if the stale last byte is 992 / 8 == 124.
   */
  lemma HandsetTable(k: nat)
    ensures var c := TickedTimes(SetupChannels(), k);
            c[0] == MIXER_LOW + (512 + k) % 1025 && c[7] == MIXER_LOW + 2 * ((256 + k) % 513)
            && (forall i :: 0 <= i < NUM_CHANNELS && i != 0 && i != 7 ==> c[i] == SETUP_US)
            && InMixerRange(c) && ChannelsFit(c)
    ensures UsToCrsf(SETUP_US) == CHANNEL_VALUE_MID && UsToCrsf(SETUP_US) / 8 == 124
  {
    var s := SetupChannels();
    TickedTimesChannels(s, k);
    MixerCycle(1, 512, k);
    MixerCycle(2, 256, k);
    var c := TickedTimes(s, k);
    assert c[0] == MIXER_LOW + (512 + k) % 1025;
    assert c[7] == MIXER_LOW + 2 * ((256 + k) % 513);
    MulMono(0, (256 + k) % 513, 2);
    MulMono((256 + k) % 513, 512, 2);
    assert InMixerRange(c);
    MixerRangeFits(c);
  }

  // ---------------------------------------------------------------------
  // The example's functions

  /** The mixer lambda of checkSendChannels. */
  method Mix(crsf: CrsfSerial, ch: nat, step: nat)
    requires crsf.Valid() && 1 <= ch <= NUM_CHANNELS
    modifies crsf
    ensures crsf.Valid()
    ensures crsf.Snapshot() == ChannelSet(old(crsf.Snapshot()), ch, Mixed(old(crsf.channels[ch - 1]), step))
  {
    var val := ToU32(crsf.GetChannel(ch) + step);
    if val > MIXER_HIGH {
      val := MIXER_LOW;
    }
    crsf.SetChannel(ch, val);
  }

  /** setupCrsfChannels: every channel to 1500 us, nothing else touched. */
  method SetupCrsfChannels(crsf: CrsfSerial)
    requires crsf.Valid()
    modifies crsf
    ensures crsf.Valid() && crsf.Snapshot() == old(crsf.Snapshot()).(channels := SetupChannels())
  {
    for ch := 1 to NUM_CHANNELS + 1
      invariant crsf.Valid()
      invariant crsf.Snapshot() == old(crsf.Snapshot()).(channels := crsf.channels)
      invariant forall i :: 0 <= i < ch - 1 ==> crsf.channels[i] == SETUP_US
    {
      crsf.SetChannel(ch, SETUP_US);
    }
    assert crsf.channels == SetupChannels();
  }

  /** The static lastSend of checkSendChannels, zero-initialised. */
  class ChannelScheduler {
    var lastSend: U32

    constructor()
      ensures lastSend == 0
    {
      lastSend := 0;
    }

    /**
     * checkSendChannels at time now (microseconds), queuing through
     * CrsfSerial.QueuePacketChannels as written, whose last payload byte is
     * the stale stack byte stale; the frame queued is returned in packed.
     */
    method CheckSendChannels(crsf: CrsfSerial, now: U32, stale: Byte) returns (packed: seq<Byte>)
      requires crsf.Valid()
      modifies this, crsf
      ensures crsf.Valid()
      ensures Sub32(now, old(lastSend)) < CHANNEL_SEND_INTERVAL_US ==>
              lastSend == old(lastSend) && crsf.Snapshot() == old(crsf.Snapshot())
      ensures Sub32(now, old(lastSend)) >= CHANNEL_SEND_INTERVAL_US ==>
              lastSend == now && |packed| == RC_CHANNELS_PAYLOAD_SIZE && packed[21] == stale
              && crsf.Snapshot() == Queued(old(crsf.Snapshot()).(channels := Ticked(old(crsf.channels))),
                                           FRAMETYPE_RC_CHANNELS_PACKED, packed)
      ensures Sub32(now, old(lastSend)) >= CHANNEL_SEND_INTERVAL_US && InMixerRange(old(crsf.channels)) ==>
              var c := Ticked(old(crsf.channels));
              (forall i :: 0 <= i < NUM_CHANNELS - 1 ==> ChannelRaw(packed, i) == UsToCrsf(c[i]))
              && (ChannelRaw(packed, 15) == UsToCrsf(c[15]) <==> stale as int == UsToCrsf(c[15]) / 8)
    {
      packed := [];
      if Sub32(now, lastSend) < CHANNEL_SEND_INTERVAL_US {
        return;
      }
      lastSend := now;
      ghost var before := crsf.Snapshot();
      Mix(crsf, 1, 1);
      Mix(crsf, 8, 2);
      assert crsf.channels == Ticked(before.channels);
      if InMixerRange(before.channels) {
        TickedKeepsRange(before.channels);
      }
      packed := crsf.QueuePacketChannels(stale);
    }
  }
}
