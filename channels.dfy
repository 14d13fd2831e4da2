/**
 * The RC channels payload: sixteen 11-bit values packed least significant
 * bit first into 22 bytes. Channel i occupies bits 11*i .. 11*i+10 of the
 * payload read as one little-endian number (ChannelRaw). The decoder and
 * both encoders keep the C scratch register and bit count of the source.
 */
module Channels {
  import opened Arith
  import opened Bytes
  import opened Protocol

  /** The number whose 11-bit digits, lowest first, are raws: the sum of raws[i] * 2^(11*i). */
  function PackedValue(raws: seq<nat>): nat
  {
    if raws == [] then 0
    else PackedValue(raws[..|raws| - 1]) + raws[|raws| - 1] * Pow2(11 * (|raws| - 1))
  }

  /** Every value fits in one 11-bit channel slot. */
  predicate AllRaw(raws: seq<nat>)
  {
    forall i :: 0 <= i < |raws| ==> raws[i] < 2048
  }

  /** Channel i of a channels payload: bits 11*i .. 11*i+10 of its 22 bytes, least significant first. */
  function ChannelRaw(payload: seq<Byte>, i: nat): nat
    requires |payload| >= RC_CHANNELS_PAYLOAD_SIZE && i < NUM_CHANNELS
  {
    (LeValue(payload[..RC_CHANNELS_PAYLOAD_SIZE]) / Pow2(11 * i)) % 2048
  }

  /** What packetChannelsPacked stores for channel i: CRSF_to_US of its slot. */
  function ChannelUs(payload: seq<Byte>, i: nat): (us: int)
    requires |payload| >= RC_CHANNELS_PAYLOAD_SIZE && i < NUM_CHANNELS
    ensures 880 <= us <= 2159
  {
    CrsfToUsRange(ChannelRaw(payload, i));
    CrsfToUs(ChannelRaw(payload, i))
  }

  /** The sixteen values packetChannelsPacked stores. */
  function DecodedChannels(payload: seq<Byte>): (r: seq<int>)
    requires |payload| >= RC_CHANNELS_PAYLOAD_SIZE
    ensures |r| == NUM_CHANNELS
    ensures forall i :: 0 <= i < NUM_CHANNELS ==> r[i] == ChannelUs(payload, i)
  {
    seq(NUM_CHANNELS, i requires 0 <= i < NUM_CHANNELS => ChannelUs(payload, i))
  }

  /** What ArduinoCRSF's packetChannelsPacked stores: each slot through map(r, 191, 1792, 1000, 2000). */
  function ArduinoDecodedChannels(payload: seq<Byte>): (r: seq<int>)
    requires |payload| >= RC_CHANNELS_PAYLOAD_SIZE
    ensures |r| == NUM_CHANNELS
    ensures forall i :: 0 <= i < NUM_CHANNELS ==> r[i] == ArduinoChannelUs(ChannelRaw(payload, i))
  {
    seq(NUM_CHANNELS, i requires 0 <= i < NUM_CHANNELS => ArduinoChannelUs(ChannelRaw(payload, i)))
  }

  lemma PackedValueSnoc(raws: seq<nat>, r: nat)
    ensures PackedValue(raws + [r]) == PackedValue(raws) + r * Pow2(11 * |raws|)
  {
    assert (raws + [r])[..|raws|] == raws;
  }

  lemma {:induction false} PackedValueBound(raws: seq<nat>)
    requires AllRaw(raws)
    ensures PackedValue(raws) < Pow2(11 * |raws|)
  {
    if raws != [] {
      var n := |raws| - 1;
      var init := raws[..n];
      assert AllRaw(init);
      PackedValueBound(init);
      var p := Pow2(11 * n);
      assert PackedValue(raws) == PackedValue(init) + raws[n] * p;
      MulMono(raws[n], 2047, p);
      Pow2Add(11 * n, 11);
      assert Pow2(11) == 2048;
      assert Pow2(11 * |raws|) == p * 2048;
    }
  }

  /** Digit i of PackedValue(raws) is raws[i]. */
  lemma {:induction false} PackedValueExtract(raws: seq<nat>, i: nat)
    requires AllRaw(raws) && i < |raws|
    ensures (PackedValue(raws) / Pow2(11 * i)) % 2048 == raws[i]
  {
    var n := |raws| - 1;
    var init := raws[..n];
    assert AllRaw(init);
    PackedValueBound(init);
    var pv := PackedValue(raws);
    if i == n {
      DivModUnique(pv, Pow2(11 * i), raws[n], PackedValue(init));
      DivModUnique(raws[n], 2048, 0, raws[n]);
    } else {
      assert init[i] == raws[i];
      PackedValueExtract(init, i);
      DropHighDigit(PackedValue(init), raws[n], i, n);
    }
  }

  /** Adding a multiple of 2^(11n) leaves every lower 11-bit digit alone. */
  lemma DropHighDigit(x: nat, r: nat, i: nat, n: nat)
    requires i < n
    ensures ((x + r * Pow2(11 * n)) / Pow2(11 * i)) % 2048 == (x / Pow2(11 * i)) % 2048
  {
    var k := 11 * n - 11 * i - 11;
    var pi, pk := Pow2(11 * i), Pow2(k);
    Pow2Split(11 * n, 11 * i, 11 + k);
    Pow2Split(11 + k, 11, k);
    assert Pow2(11) == 2048;
    var m := r * pk;
    MulRegroup(r, Pow2(11 + k), pk, 2048);
    MulRegroup(r, Pow2(11 * n), pi, Pow2(11 + k));
    assert r * Pow2(11 * n) == (m * 2048) * pi;
    DivAddMultiple(x, m * 2048, pi);
    DivAddMultiple(x / pi, m, 2048);
  }

  /** Any 22 bytes whose value is PackedValue(raws) decode, channel by channel, to raws. */
  lemma PackedDecodes(payload: seq<Byte>, raws: seq<nat>)
    requires |payload| == RC_CHANNELS_PAYLOAD_SIZE && |raws| == NUM_CHANNELS && AllRaw(raws)
    requires LeValue(payload) == PackedValue(raws)
    ensures forall i :: 0 <= i < NUM_CHANNELS ==> ChannelRaw(payload, i) == raws[i]
  {
    assert payload[..RC_CHANNELS_PAYLOAD_SIZE] == payload;
    forall i | 0 <= i < NUM_CHANNELS
      ensures ChannelRaw(payload, i) == raws[i]
    {
      PackedValueExtract(raws, i);
    }
  }

  // ---- decoder (packetChannelsPacked) ----

  /**
   * The decoder's state after consuming n bytes and emitting the raw values
   * raws: the consumed bytes are those values followed by the bits still in
   * the scratch register.
   */
  predicate Unpacking(data: seq<Byte>, n: nat, raws: seq<nat>, scratch: nat, bits: nat)
  {
    n <= |data| && AllRaw(raws) && 8 * n == 11 * |raws| + bits && scratch < Pow2(bits)
    && LeValue(data[..n]) == PackedValue(raws) + scratch * Pow2(11 * |raws|)
  }

  /** `scratch |= (*buf++) << bitsInScratch; bitsInScratch += 8` keeps the decoder's state. */
  lemma AbsorbByte(data: seq<Byte>, n: nat, raws: seq<nat>, scratch: nat, bits: nat)
    requires Unpacking(data, n, raws, scratch, bits) && n < |data|
    ensures Unpacking(data, n + 1, raws, BitOr(scratch, Shl(data[n], bits)), bits + 8)
  {
    var d := data[n];
    var a, b := Pow2(11 * |raws|), Pow2(bits);
    BitOrDisjoint(scratch, d, bits);
    AppendByte(data[..n], d);
    assert data[..n + 1] == data[..n] + [d];
    Pow2Split(8 * n, 11 * |raws|, bits);
    AddScaled(PackedValue(raws), scratch, d, a, b, Pow2(8 * n));
    Pow2Split(bits + 8, bits, 8);
    assert Pow2(8) == 256;
    DigitStep(scratch, d, 256, b);
  }

  /** Appending a byte adds it at the next power of 256. */
  lemma AppendByte(s: seq<Byte>, d: Byte)
    ensures LeValue(s + [d]) == LeValue(s) + (d as int) * Pow2(8 * |s|)
  {
    var x: int := d;
    LeValueConcat(s, [d]);
    assert [d][1..] == [];
    assert LeValue([d]) == x;
    assert LeValue(s + [d]) == LeValue(s) + LeValue([d]) * Pow2(8 * |s|);
  }

  /** Taking `scratch & inputMask` out and shifting by 11 keeps the decoder's state. */
  lemma EmitChannel(data: seq<Byte>, n: nat, raws: seq<nat>, scratch: nat, bits: nat)
    requires Unpacking(data, n, raws, scratch, bits) && bits >= 11
    ensures Unpacking(data, n, raws + [scratch % 2048], scratch / 2048, bits - 11)
  {
    var base := 11 * |raws|;
    var a := Pow2(base);
    var lo, hi := scratch % 2048, scratch / 2048;
    PackedValueSnoc(raws, lo);
    Pow2Split(base + 11, base, 11);
    Pow2Split(bits, 11, bits - 11);
    assert Pow2(11) == 2048;
    assert scratch == lo + hi * 2048;
    MulDistrib(lo, hi * 2048, a);
    MulRegroup(hi, Pow2(base + 11), a, 2048);
    var raws' := raws + [lo];
    assert AllRaw(raws');
    DivBelow(scratch, 2048, Pow2(bits - 11));
  }

  /**
   * packetChannelsPacked's unpack loop over the 22 bytes at data: channel i
   * becomes CRSF_to_US of its raw value. Only the first 22 bytes are read.
   */
  method UnpackChannels(data: seq<Byte>) returns (channels: seq<int>)
    requires |data| >= RC_CHANNELS_PAYLOAD_SIZE
    ensures |channels| == NUM_CHANNELS
    ensures forall i :: 0 <= i < NUM_CHANNELS ==> channels[i] == CrsfToUs(ChannelRaw(data, i))
    ensures forall i :: 0 <= i < NUM_CHANNELS ==> 880 <= channels[i] <= 2159
    ensures channels == DecodedChannels(data)
  {
    var n := 0;
    var scratch: nat := 0;
    var bitsInScratch: nat := 0;
    ghost var raws: seq<nat> := [];
    channels := [];
    var ch := 0;
    while ch < NUM_CHANNELS
      invariant 0 <= ch <= NUM_CHANNELS && |raws| == ch && |channels| == ch
      invariant bitsInScratch < 8 && Unpacking(data, n, raws, scratch, bitsInScratch)
      invariant forall i :: 0 <= i < ch ==> channels[i] == CrsfToUs(raws[i])
    {
      while bitsInScratch < BITS_PER_CHANNEL
        invariant bitsInScratch < 19 && Unpacking(data, n, raws, scratch, bitsInScratch)
      {
        AbsorbByte(data, n, raws, scratch, bitsInScratch);
        scratch := BitOr(scratch, Shl(data[n], bitsInScratch));
        n := n + 1;
        bitsInScratch := bitsInScratch + 8;
      }
      EmitChannel(data, n, raws, scratch, bitsInScratch);
      var raw := scratch % 2048;  // scratch & inputMask
      channels := channels + [CrsfToUs(raw)];
      raws := raws + [raw];
      scratch := scratch / 2048;  // scratch >>= 11
      bitsInScratch := bitsInScratch - BITS_PER_CHANNEL;
      ch := ch + 1;
    }
    UnpackedDecodes(data, n, raws, scratch, bitsInScratch);
    forall i | 0 <= i < NUM_CHANNELS
      ensures 880 <= channels[i] <= 2159
    {
      CrsfToUsRange(raws[i]);
    }
  }

  /** When all sixteen values are out, exactly 22 bytes were consumed and they decode to raws. */
  lemma UnpackedDecodes(data: seq<Byte>, n: nat, raws: seq<nat>, scratch: nat, bits: nat)
    requires Unpacking(data, n, raws, scratch, bits) && bits < 8 && |raws| == NUM_CHANNELS
    ensures forall i :: 0 <= i < NUM_CHANNELS ==> ChannelRaw(data, i) == raws[i]
  {
    assert n == RC_CHANNELS_PAYLOAD_SIZE && bits == 0 && scratch == 0;
    assert data[..n][..RC_CHANNELS_PAYLOAD_SIZE] == data[..RC_CHANNELS_PAYLOAD_SIZE];
    PackedDecodes(data[..n], raws);
  }

  // ---- encoders (queuePacketChannels) ----

  /** `(uint32_t)US_to_CRSF(us)`: the raw value as the packer holds it. */
  function CrsfValue(us: int): U32
  {
    ToU32(UsToCrsf(us))
  }

  /** The raw values the packer takes from a channel table. */
  function RawsOf(channels: seq<int>): (raws: seq<nat>)
    ensures |raws| == |channels|
    ensures forall i :: 0 <= i < |channels| ==> raws[i] == CrsfValue(channels[i])
  {
    seq(|channels|, i requires 0 <= i < |channels| => CrsfValue(channels[i]))
  }

  /** Every channel converts to a raw value that fits its 11-bit slot. */
  predicate ChannelsFit(channels: seq<int>)
  {
    forall i :: 0 <= i < |channels| ==> 0 <= UsToCrsf(channels[i]) < 2048
  }

  /**
   * The packer's state after taking the raw values raws and writing out: the
   * written bytes followed by the scratch register hold exactly those values.
   */
  predicate Packing(out: seq<Byte>, raws: seq<nat>, scratch: nat, bits: nat)
  {
    8 * |out| + bits == 11 * |raws| && scratch < Pow2(bits)
    && LeValue(out) + scratch * Pow2(8 * |out|) == PackedValue(raws)
  }

  /** `scratch |= crsfVal << bitsInScratch; bitsInScratch += 11` keeps the packer's state. */
  lemma AbsorbChannel(out: seq<Byte>, raws: seq<nat>, scratch: U32, bits: nat, raw: U32)
    requires Packing(out, raws, scratch, bits) && raw < 2048 && bits <= 8
    ensures Packing(out, raws + [raw], Or32(scratch, Shl32(raw, bits)), bits + 11)
  {
    var b, o := Pow2(bits), Pow2(8 * |out|);
    Pow2Mono(bits, 8);
    assert Pow2(8) == 256;
    MulMono(raw, 2047, b);
    MulMono(b, 256, 2047);
    assert Shl32(raw, bits) == raw * b;
    BitOrDisjoint(scratch, raw, bits);
    assert Or32(scratch, Shl32(raw, bits)) == scratch + raw * b;
    Pow2Split(bits + 11, bits, 11);
    assert Pow2(11) == 2048;
    DigitStep(scratch, raw, 2048, b);
    PackedValueSnoc(raws, raw);
    Pow2Split(11 * |raws|, 8 * |out|, bits);
    AddScaled(LeValue(out), scratch, raw, o, b, Pow2(11 * |raws|));
  }

  /** `*pbuf++ = scratch; scratch >>= 8; bitsInScratch -= 8` keeps the packer's state. */
  lemma EmitByte(out: seq<Byte>, raws: seq<nat>, scratch: nat, bits: nat)
    requires Packing(out, raws, scratch, bits) && bits >= 8
    ensures Packing(out + [scratch % 256], raws, scratch / 256, bits - 8)
  {
    var lo, hi := scratch % 256, scratch / 256;
    var o := Pow2(8 * |out|);
    LeValueConcat(out, [lo]);
    assert LeValue([lo]) == lo + 256 * LeValue([]);
    Pow2Split(8 * (|out| + 1), 8 * |out|, 8);
    Pow2Split(bits, 8, bits - 8);
    assert Pow2(8) == 256;
    assert scratch == lo + hi * 256;
    MulDistrib(lo, hi * 256, o);
    MulRegroup(hi, Pow2(8 * (|out| + 1)), o, 256);
    DivBelow(scratch, 256, Pow2(bits - 8));
  }

  /**
   * queuePacketChannels' pack loop as written: a byte is flushed only while
   * more than 8 bits are held, so the last 8 bits stay in the scratch
   * register and payload byte 21 keeps whatever the stack held (stale).
   */
  method PackChannelsAsWritten(channels: seq<int>, stale: Byte) returns (packed: seq<Byte>)
    requires |channels| == NUM_CHANNELS
    ensures |packed| == RC_CHANNELS_PAYLOAD_SIZE && packed[21] == stale
    ensures ChannelsFit(channels) ==>
              LeValue(packed[..21]) == PackedValue(RawsOf(channels)) % Pow2(168)
  {
    ghost var raws := RawsOf(channels);
    ghost var fit := ChannelsFit(channels);
    assert fit ==> AllRaw(raws);
    ghost var done: seq<nat> := [];
    var out: seq<Byte> := [];
    var scratch: U32 := 0;
    var bitsInScratch: nat := 0;
    var ch := 0;
    while ch < NUM_CHANNELS
      invariant 0 <= ch <= NUM_CHANNELS && done == raws[..ch]
      invariant bitsInScratch <= 8 && (ch > 0 ==> bitsInScratch >= 1)
      invariant 8 * |out| + bitsInScratch == 11 * ch
      invariant fit ==> Packing(out, done, scratch, bitsInScratch)
    {
      var crsfVal := CrsfValue(channels[ch]);
      if fit {
        AbsorbChannel(out, done, scratch, bitsInScratch, crsfVal);
      }
      scratch := Or32(scratch, Shl32(crsfVal, bitsInScratch));
      done := done + [crsfVal];
      bitsInScratch := bitsInScratch + BITS_PER_CHANNEL;
      while bitsInScratch > 8
        invariant 1 <= bitsInScratch && 8 * |out| + bitsInScratch == 11 * (ch + 1)
        invariant fit ==> Packing(out, done, scratch, bitsInScratch)
      {
        if fit {
          EmitByte(out, done, scratch, bitsInScratch);
        }
        out := out + [scratch % 256];  // *pbuf++ = scratch
        scratch := scratch / 256;      // scratch >>= 8
        bitsInScratch := bitsInScratch - 8;
      }
      ch := ch + 1;
    }
    assert |out| == 21;
    packed := out + [stale];
    assert packed[..21] == out;
    if fit {
      assert done == raws;
      PackedPrefix(out, raws, scratch, bitsInScratch);
    }
  }

  /** 21 written bytes of a packing are the low 168 bits of the packed value. */
  lemma PackedPrefix(out: seq<Byte>, raws: seq<nat>, scratch: U32, bits: nat)
    requires Packing(out, raws, scratch, bits) && |out| == 21
    ensures LeValue(out) == PackedValue(raws) % Pow2(168)
  {
    DivModUnique(PackedValue(raws), Pow2(168), scratch, LeValue(out));
  }

  /** The same loop flushing while at least 8 bits are held, so all 22 bytes are written. */
  method PackChannels(channels: seq<int>) returns (packed: seq<Byte>)
    requires |channels| == NUM_CHANNELS
    ensures |packed| == RC_CHANNELS_PAYLOAD_SIZE
    ensures ChannelsFit(channels) ==> LeValue(packed) == PackedValue(RawsOf(channels))
    ensures ChannelsFit(channels) ==>
              forall i :: 0 <= i < NUM_CHANNELS ==> ChannelRaw(packed, i) == UsToCrsf(channels[i])
  {
    ghost var raws := RawsOf(channels);
    ghost var fit := ChannelsFit(channels);
    assert fit ==> AllRaw(raws);
    ghost var done: seq<nat> := [];
    var out: seq<Byte> := [];
    var scratch: U32 := 0;
    var bitsInScratch: nat := 0;
    var ch := 0;
    while ch < NUM_CHANNELS
      invariant 0 <= ch <= NUM_CHANNELS && done == raws[..ch]
      invariant bitsInScratch < 8
      invariant 8 * |out| + bitsInScratch == 11 * ch
      invariant fit ==> Packing(out, done, scratch, bitsInScratch)
    {
      var crsfVal := CrsfValue(channels[ch]);
      if fit {
        AbsorbChannel(out, done, scratch, bitsInScratch, crsfVal);
      }
      scratch := Or32(scratch, Shl32(crsfVal, bitsInScratch));
      done := done + [crsfVal];
      bitsInScratch := bitsInScratch + BITS_PER_CHANNEL;
      while bitsInScratch >= 8
        invariant 8 * |out| + bitsInScratch == 11 * (ch + 1)
        invariant fit ==> Packing(out, done, scratch, bitsInScratch)
      {
        if fit {
          EmitByte(out, done, scratch, bitsInScratch);
        }
        out := out + [scratch % 256];
        scratch := scratch / 256;
        bitsInScratch := bitsInScratch - 8;
      }
      ch := ch + 1;
    }
    packed := out;
    if fit {
      assert done == raws;
      PackedRoundTrip(channels, packed, scratch, bitsInScratch);
    }
  }

  /** A completed packing of channels that fit decodes back to their raw values. */
  lemma PackedRoundTrip(channels: seq<int>, packed: seq<Byte>, scratch: nat, bits: nat)
    requires |channels| == NUM_CHANNELS && ChannelsFit(channels) && bits < 8
    requires Packing(packed, RawsOf(channels), scratch, bits)
    ensures |packed| == RC_CHANNELS_PAYLOAD_SIZE && LeValue(packed) == PackedValue(RawsOf(channels))
    ensures forall i :: 0 <= i < NUM_CHANNELS ==> ChannelRaw(packed, i) == UsToCrsf(channels[i])
  {
    var raws := RawsOf(channels);
    assert AllRaw(raws);
    assert |packed| == 22 && bits == 0 && scratch == 0;
    PackedDecodes(packed, raws);
  }

  /**
   * With the stale byte 21, channel 16 decodes to its low 3 bits plus eight
   * times the stale byte; it is right only if the stale byte happens to equal
   * the top 8 bits of its raw value.
   */
  lemma LastChannelFromStaleByte(packed: seq<Byte>, raws: seq<nat>)
    requires |packed| == RC_CHANNELS_PAYLOAD_SIZE && |raws| == NUM_CHANNELS && AllRaw(raws)
    requires LeValue(packed[..21]) == PackedValue(raws) % Pow2(168)
    ensures ChannelRaw(packed, 15) == raws[15] % 8 + 8 * (packed[21] as int)
    ensures ChannelRaw(packed, 15) == raws[15] <==> packed[21] == raws[15] / 8
  {
    var raws' := StaleRepacked(packed, raws);
    PackedDecodes(packed, raws');
    assert ChannelRaw(packed, 15) == raws'[15];
    SplitAtEight(raws[15], packed[21]);
  }

  /**
   * Whatever the last byte holds, channels 1 to 15 come out as packed: the
   * payload is then the packing of the same values with channel 16 replaced
   * by its low 3 bits plus 8 times that byte.
   */
  lemma EarlyChannelsIntact(packed: seq<Byte>, raws: seq<nat>)
    requires |packed| == RC_CHANNELS_PAYLOAD_SIZE && |raws| == NUM_CHANNELS && AllRaw(raws)
    requires LeValue(packed[..21]) == PackedValue(raws) % Pow2(168)
    ensures forall i :: 0 <= i < NUM_CHANNELS - 1 ==> ChannelRaw(packed, i) == raws[i]
  {
    var raws' := StaleRepacked(packed, raws);
    PackedDecodes(packed, raws');
    forall i | 0 <= i < NUM_CHANNELS - 1
      ensures ChannelRaw(packed, i) == raws[i]
    {
      assert raws'[i] == raws[i];
    }
  }

  /**
   * A frame packed as queuePacketChannels does from a table that fits 11
   * bits: channels 1-15 decode to their CRSF values, channel 16 only when the
   * stale last byte happens to hold its top eight bits.
   */
  lemma FittingTableFrame(c: seq<int>, packed: seq<Byte>)
    requires |c| == NUM_CHANNELS && ChannelsFit(c) && |packed| == RC_CHANNELS_PAYLOAD_SIZE
    requires LeValue(packed[..21]) == PackedValue(RawsOf(c)) % Pow2(168)
    ensures forall i :: 0 <= i < NUM_CHANNELS - 1 ==> ChannelRaw(packed, i) == UsToCrsf(c[i])
    ensures ChannelRaw(packed, 15) == UsToCrsf(c[15]) % 8 + 8 * (packed[21] as int)
    ensures ChannelRaw(packed, 15) == UsToCrsf(c[15]) <==> packed[21] as int == UsToCrsf(c[15]) / 8
  {
    var raws := RawsOf(c);
    assert AllRaw(raws);
    EarlyChannelsIntact(packed, raws);
    LastChannelFromStaleByte(packed, raws);
  }

  /** A payload whose first 21 bytes are packed from raws is the packing of raws with channel 16 taken from byte 21. */
  lemma StaleRepacked(packed: seq<Byte>, raws: seq<nat>) returns (raws': seq<nat>)
    requires |packed| == RC_CHANNELS_PAYLOAD_SIZE && |raws| == NUM_CHANNELS && AllRaw(raws)
    requires LeValue(packed[..21]) == PackedValue(raws) % Pow2(168)
    ensures |raws'| == NUM_CHANNELS && raws'[15] == raws[15] % 8 + 8 * (packed[21] as int)
    ensures forall i :: 0 <= i < NUM_CHANNELS - 1 ==> raws'[i] == raws[i]
    ensures AllRaw(raws') && LeValue(packed) == PackedValue(raws')
  {
    raws' := TopByteRepacked(packed, raws, 21, 168, 15);
  }

  /** StaleRepacked with the byte count m, its bit count and the index k of the last value left symbolic. */
  lemma TopByteRepacked(packed: seq<Byte>, raws: seq<nat>, m: nat, bits: nat, k: nat) returns (raws': seq<nat>)
    requires m > 0 && |packed| == m + 1 && |raws| == k + 1 && AllRaw(raws)
    requires bits == 8 * m && 11 * k + 3 == bits
    requires LeValue(packed[..m]) == PackedValue(raws) % Pow2(bits)
    ensures raws' == raws[..k] + [raws[k] % 8 + 8 * (packed[m] as int)]
    ensures AllRaw(raws') && LeValue(packed) == PackedValue(raws')
  {
    var t: nat := packed[m];
    var init, r := raws[..k], raws[k];
    var last: nat := r % 8 + 8 * t;
    raws' := init + [last];
    assert AllRaw(raws') by {
      assert AllRaw(init);
      assert last < 2048;
    }
    var low := LowBitsOfLast(raws);
    TopByte(packed, m);
    PackedValueSnoc(init, last);
    var p := Pow2(8 * m - 3);
    assert p == Pow2(11 * |init|);
    RepackLast(LeValue(packed), low, PackedValue(init), r % 8, t, p);
  }

  /** Moving the top byte's bits onto the last value's low bits, with the slot weight p left symbolic. */
  lemma RepackLast(whole: int, low: int, init: int, lowBits: int, t: int, p: int)
    requires whole == low + (8 * t) * p && low == init + lowBits * p
    ensures whole == init + (lowBits + 8 * t) * p
  {
    MulDistrib(lowBits, 8 * t, p);
  }

  lemma SplitAtEight(r: nat, top: nat)
    ensures r % 8 + 8 * top == r <==> top == r / 8
  {
    assert r == r % 8 + 8 * (r / 8);
  }

  /** The bits of a packed value below the last value's bit 3: all but the last value, and its low 3 bits. */
  lemma LowBitsOfLast(raws: seq<nat>) returns (low: nat)
    requires |raws| > 0 && AllRaw(raws)
    ensures var k := |raws| - 1;
      PackedValue(raws[..k]) < Pow2(11 * k)
      && low == PackedValue(raws[..k]) + (raws[k] % 8) * Pow2(11 * k)
      && PackedValue(raws) % Pow2(11 * k + 3) == low
  {
    var k := |raws| - 1;
    var r := raws[k];
    var init := raws[..k];
    assert AllRaw(init);
    PackedValueBound(init);
    var p, q := Pow2(11 * k), Pow2(11 * k + 3);
    Pow2Split(11 * k + 3, 11 * k, 3);
    assert Pow2(3) == 8;
    low := PackedValue(init) + (r % 8) * p;
    assert PackedValue(raws) == PackedValue(init) + r * p;
    AddScaled(PackedValue(init), r % 8, r / 8, p, 8, q);
    assert r % 8 + (r / 8) * 8 == r;
    DigitStep(PackedValue(init), r % 8, 8, p);
    DivModUnique(PackedValue(raws), q, r / 8, low);
  }

  /** The last byte of a byte string, at index m, sits above all the others. */
  lemma TopByte(s: seq<Byte>, m: nat)
    requires m > 0 && |s| == m + 1
    ensures LeValue(s) == LeValue(s[..m]) + (8 * (s[m] as int)) * Pow2(8 * m - 3)
  {
    var top: int := s[m];
    assert s == s[..m] + [s[m]];
    AppendByte(s[..m], s[m]);
    Pow2Split(8 * m, 8 * m - 3, 3);
    assert Pow2(3) == 8;
    MulRegroup(top, Pow2(8 * m), Pow2(8 * m - 3), 8);
  }
}
