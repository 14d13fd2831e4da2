/**
 * The frame check: CRC-8 with generator polynomial 0xD5 (the constructor's
 * `_crc(0xd5)`), processed most significant bit first from an initial value
 * of 0, with no final inversion. The Crc8 class of the library is not part of
 * this model; this definition is the assumed one (it is the CRC-8 of ETSI EN
 * 302 307-1, DVB-S2, section 5.1.4).
 */
module Crc {
  import opened Bytes

  const POLY: bv8 := 0xD5

  /** k rounds of shift-and-conditionally-xor on the CRC register. */
  function ShiftRounds(c: bv8, k: nat): bv8
    decreases k
  {
    if k == 0 then c
    else ShiftRounds(if c & 0x80 != 0 then (c << 1) ^ POLY else c << 1, k - 1)
  }

  /** The CRC register after absorbing one more byte. */
  function Absorb(c: bv8, b: Byte): bv8
  {
    ShiftRounds(c ^ (b as bv8), 8)
  }

  function Update(c: bv8, s: seq<Byte>): bv8
    decreases |s|
  {
    if s == [] then c else Update(Absorb(c, s[0]), s[1..])
  }

  /** Crc8::calc over a byte range. */
  function Crc8(s: seq<Byte>): Byte
  {
    Update(0, s) as int
  }
}
