/**
 * Bytes, fixed-width unsigned integers, byte order and the byte-swap helpers
 * of crsf_protocol.h. The targets (STM32, RP2040) are little-endian, so the
 * helpers htobe16/be16toh/htobe32/be32toh are the byte-reversing branch of
 * their #if, and a multi-byte integer sits in memory least significant first.
 */
module Bytes {
  import opened Arith

  type Byte = x: int | 0 <= x < 0x100
  type U16 = x: int | 0 <= x < 0x1_0000
  type U32 = x: int | 0 <= x < 0x1_0000_0000

  /** Conversion of any integer to uint32_t (C: reduction modulo 2^32). */
  function ToU32(x: int): (r: U32)
    ensures 0 <= x < 0x1_0000_0000 ==> r == x
    ensures (r - x) % 0x1_0000_0000 == 0
  {
    x % 0x1_0000_0000
  }

  /** Conversion of any integer to uint16_t. */
  function ToU16(x: int): (r: U16)
    ensures 0 <= x < 0x1_0000 ==> r == x
    ensures x < 0 && -0x1_0000 <= x ==> r == x + 0x1_0000
  {
    x % 0x1_0000
  }

  /** uint32_t `a - b`, as the millis() differences compute it. */
  function Sub32(a: U32, b: U32): (r: U32)
    ensures a >= b ==> r == a - b
    ensures a < b ==> r == a + 0x1_0000_0000 - b
  {
    ToU32(a - b)
  }

  /** uint32_t `a | b`. */
  function Or32(a: U32, b: U32): (r: U32)
    ensures r == BitOr(a, b)
  {
    Pow2Values();
    BitOrBound(a, b, 32);
    BitOr(a, b)
  }

  /** uint32_t `x << k`: the bits shifted past bit 31 are lost. */
  function Shl32(x: U32, k: nat): (r: U32)
    ensures x * Pow2(k) < 0x1_0000_0000 ==> r == x * Pow2(k)
  {
    ToU32(x * Pow2(k))
  }

  /** Two's-complement reading of the low `bits` bits of x, as int16_t/int32_t do. */
  function ToSigned(x: nat, bits: nat): (r: int)
    requires bits > 0 && x < Pow2(bits)
    ensures -(Pow2(bits - 1) as int) <= r < Pow2(bits - 1)
    ensures x < Pow2(bits - 1) <==> r == x
  {
    assert Pow2(bits) == 2 * Pow2(bits - 1);
    if x >= Pow2(bits - 1) then x - Pow2(bits) else x
  }

  function Reverse<T>(s: seq<T>): (r: seq<T>)
    ensures |r| == |s|
    ensures forall i :: 0 <= i < |s| ==> r[i] == s[|s| - 1 - i]
  {
    if s == [] then [] else Reverse(s[1..]) + [s[0]]
  }

  lemma ReverseReverse<T>(s: seq<T>)
    ensures Reverse(Reverse(s)) == s
  {
  }

  /** The value of a byte string read least significant byte first. */
  function LeValue(s: seq<Byte>): (r: nat)
    ensures r < Pow2(8 * |s|)
  {
    if s == [] then 0
    else
      var rest := LeValue(s[1..]);
      Pow2Split(8 * |s|, 8, 8 * (|s| - 1));
      assert Pow2(8) == 256;
      DigitStep(s[0], rest, Pow2(8 * (|s| - 1)), 256);
      s[0] + 256 * rest
  }

  /** The value of a byte string read most significant byte first (network order). */
  function BeValue(s: seq<Byte>): (r: nat)
    ensures r < Pow2(8 * |s|)
  {
    LeValue(Reverse(s))
  }

  /** The n low-order bytes of x, least significant first: how the CPU stores an integer. */
  function LeBytes(x: nat, n: nat): (r: seq<Byte>)
    ensures |r| == n
  {
    if n == 0 then [] else [x % 256] + LeBytes(x / 256, n - 1)
  }

  /** The n low-order bytes of x, most significant first: network byte order. */
  function BeBytes(x: nat, n: nat): (r: seq<Byte>)
    ensures |r| == n
  {
    Reverse(LeBytes(x, n))
  }

  /** Two and three bytes of network order, written out digit by digit. */
  lemma BeBytesDigits(x: nat)
    ensures BeBytes(x, 2) == [(x / 256) % 256, x % 256]
    ensures BeBytes(x, 3) == [(x / 256 / 256) % 256, (x / 256) % 256, x % 256]
  {
    assert LeBytes(x, 2) == [x % 256] + LeBytes(x / 256, 1);
    assert LeBytes(x / 256, 1) == [(x / 256) % 256] + LeBytes(x / 256 / 256, 0);
    assert LeBytes(x, 3) == [x % 256] + LeBytes(x / 256, 2);
    assert LeBytes(x / 256, 2) == [(x / 256) % 256] + LeBytes(x / 256 / 256, 1);
    assert LeBytes(x / 256 / 256, 1) == [(x / 256 / 256) % 256] + LeBytes(x / 256 / 256 / 256, 0);
  }

  lemma {:induction false} LeValueOfLeBytes(x: nat, n: nat)
    ensures LeValue(LeBytes(x, n)) == x % Pow2(8 * n)
  {
    if n > 0 {
      var q, r0 := x / 256, x % 256;
      LeValueOfLeBytes(q, n - 1);
      var p := Pow2(8 * (n - 1));
      Pow2Add(8, 8 * (n - 1));
      Pow2Values();
      assert Pow2(8 * n) == 256 * p;
      assert LeValue(LeBytes(x, n)) == r0 + 256 * LeValue(LeBytes(q, n - 1));
      SplitStep(x, p);
    }
  }

  lemma SplitStep(x: nat, p: nat)
    requires p > 0
    ensures x % (256 * p) == x % 256 + 256 * ((x / 256) % p)
  {
    var q, r0 := x / 256, x % 256;
    var a, b := q / p, q % p;
    assert x == 256 * q + r0;
    assert q == a * p + b;
    assert 256 * q == a * (256 * p) + 256 * b;
    assert x == a * (256 * p) + (r0 + 256 * b);
    assert 256 * b <= 256 * p - 256;
    DivModUnique(x, 256 * p, a, r0 + 256 * b);
  }

  lemma {:induction false} LeBytesOfLeValue(s: seq<Byte>)
    ensures LeBytes(LeValue(s), |s|) == s
  {
    if s != [] {
      DivAddMultiple(s[0], LeValue(s[1..]), 256);
      LeBytesOfLeValue(s[1..]);
    }
  }

  lemma {:induction false} LeValueConcat(a: seq<Byte>, b: seq<Byte>)
    ensures LeValue(a + b) == LeValue(a) + LeValue(b) * Pow2(8 * |a|)
  {
    if a == [] {
      assert a + b == b;
    } else {
      assert (a + b)[1..] == a[1..] + b;
      LeValueConcat(a[1..], b);
      var p := Pow2(8 * (|a| - 1));
      Pow2Add(8, 8 * (|a| - 1));
      Pow2Values();
      assert Pow2(8 * |a|) == 256 * p;
      ConcatStep(a[0], LeValue(a[1..]), LeValue(b), LeValue(a[1..] + b), p);
    }
  }

  lemma ConcatStep(a0: int, la: int, lb: int, lt: int, p: int)
    requires lt == la + lb * p
    ensures a0 + 256 * lt == (a0 + 256 * la) + lb * (256 * p)
  {
  }

  lemma BeValueOfBeBytes(x: nat, n: nat)
    ensures BeValue(BeBytes(x, n)) == x % Pow2(8 * n)
  {
    ReverseReverse(LeBytes(x, n));
    LeValueOfLeBytes(x, n);
  }

  lemma BeBytesOfBeValue(s: seq<Byte>)
    ensures BeBytes(BeValue(s), |s|) == s
  {
    LeBytesOfLeValue(Reverse(s));
    ReverseReverse(s);
  }

  // ---- the byte-swap helpers (crsf_protocol.h, little-endian branch) ----

  /** __builtin_bswap16: the two bytes of x in the opposite order. */
  function Bswap16(x: U16): (r: U16)
  {
    Pow2Values();
    LeValue(Reverse(LeBytes(x, 2)))
  }

  /** __builtin_bswap32: the four bytes of x in the opposite order. */
  function Bswap32(x: U32): (r: U32)
  {
    Pow2Values();
    LeValue(Reverse(LeBytes(x, 4)))
  }

  function Htobe16(x: U16): U16 { Bswap16(x) }
  function Be16toh(x: U16): U16 { Bswap16(x) }
  function Htobe32(x: U32): U32 { Bswap32(x) }
  function Be32toh(x: U32): U32 { Bswap32(x) }

  /** htobe24(int val): htobe32 of val converted to uint32_t, shifted right by 8. */
  function Htobe24(v: int): (r: U32)
  {
    Htobe32(ToU32(v)) / 256
  }

  /** Swapping the bytes of a 2-byte value reverses its memory image. */
  lemma Bswap16Image(x: U16)
    ensures LeBytes(Bswap16(x), 2) == Reverse(LeBytes(x, 2))
  {
    LeBytesOfLeValue(Reverse(LeBytes(x, 2)));
  }

  /** Swapping the bytes of a 4-byte value reverses its memory image. */
  lemma Bswap32Image(x: U32)
    ensures LeBytes(Bswap32(x), 4) == Reverse(LeBytes(x, 4))
  {
    LeBytesOfLeValue(Reverse(LeBytes(x, 4)));
  }

  lemma Be16RoundTrip(x: U16)
    ensures Be16toh(Htobe16(x)) == x
    ensures Htobe16(Be16toh(x)) == x
  {
    Bswap16Twice(x);
  }

  lemma Bswap16Twice(x: U16)
    ensures Bswap16(Bswap16(x)) == x
  {
    var y := Bswap16(x);
    var z := Bswap16(y);
    Bswap16Image(x);
    Bswap16Image(y);
    ReverseReverse(LeBytes(x, 2));
    assert LeBytes(z, 2) == LeBytes(x, 2);
    Pow2Values();
    LeBytesInjective(z, x, 2);
  }

  lemma Be32RoundTrip(x: U32)
    ensures Be32toh(Htobe32(x)) == x
    ensures Htobe32(Be32toh(x)) == x
  {
    Bswap32Twice(x);
  }

  lemma Bswap32Twice(x: U32)
    ensures Bswap32(Bswap32(x)) == x
  {
    var y := Bswap32(x);
    var z := Bswap32(y);
    Bswap32Image(x);
    Bswap32Image(y);
    ReverseReverse(LeBytes(x, 4));
    assert LeBytes(z, 4) == LeBytes(x, 4);
    Pow2Values();
    LeBytesInjective(z, x, 4);
  }

  lemma LeBytesInjective(a: nat, b: nat, n: nat)
    requires a < Pow2(8 * n) && b < Pow2(8 * n)
    requires LeBytes(a, n) == LeBytes(b, n)
    ensures a == b
  {
    LeValueOfLeBytes(a, n);
    LeValueOfLeBytes(b, n);
    DivModUnique(a, Pow2(8 * n), 0, a);
    DivModUnique(b, Pow2(8 * n), 0, b);
  }

  /**
   * htobe16 stores x in network order: the memory image of htobe16(x) is the
   * big-endian encoding of x.
   */
  lemma Htobe16Image(x: U16)
    ensures LeBytes(Htobe16(x), 2) == BeBytes(x, 2)
  {
    Bswap16Image(x);
  }

  /**
   * Reading a big-endian field the way the decoders do (load the bytes as a
   * native little-endian integer, then be16toh/be32toh) gives the value of the
   * bytes taken most significant first.
   */
  lemma Be16LoadIsBeValue(w: seq<Byte>)
    requires |w| == 2
    ensures Be16toh(LoadU16(w)) == BeValue(w)
  {
    LeBytesOfLeValue(w);
  }

  lemma Be32LoadIsBeValue(w: seq<Byte>)
    requires |w| == 4
    ensures Be32toh(LoadU32(w)) == BeValue(w)
  {
    LeBytesOfLeValue(w);
  }

  /** A native (little-endian) load of a uint16_t from two bytes of memory. */
  function LoadU16(w: seq<Byte>): (r: U16)
    requires |w| == 2
    ensures LeBytes(r, 2) == w
  {
    Pow2Values();
    LeBytesOfLeValue(w);
    LeValue(w)
  }

  /** A native (little-endian) load of a uint32_t from four bytes of memory. */
  function LoadU32(w: seq<Byte>): (r: U32)
    requires |w| == 4
    ensures LeBytes(r, 4) == w
  {
    Pow2Values();
    LeBytesOfLeValue(w);
    LeValue(w)
  }

  /**
   * htobe24: the top byte is zero, and the three low bytes of its memory image
   * are the big-endian encoding of the low 24 bits of v.
   */
  lemma Htobe24Image(v: int)
    ensures Htobe24(v) < Pow2(24)
    ensures LeBytes(Htobe24(v), 3) == BeBytes(ToU32(v) % Pow2(24), 3)
  {
    var u := ToU32(v);
    var img := LeBytes(u, 4);
    Bswap32Image(u);
    var sw := Htobe32(u);
    assert LeBytes(sw, 4) == Reverse(img);
    Pow2Values();
    LeValueOfLeBytes(sw, 4);
    DivBelow(sw, 256, Pow2(24));
    // LeBytes(sw, 4) == [sw % 256] + LeBytes(sw / 256, 3)
    assert LeBytes(sw / 256, 3) == Reverse(img)[1..];
    // and the low three bytes of u, reversed, are that tail
    assert img[..3] == LeBytes(u, 3) by { LeBytesPrefix(u, 3, 1); }
    var low := img[..3];
    assert Reverse(img)[1..] == [img[2], img[1], img[0]] == [low[2], low[1], low[0]] == Reverse(low);
    LeBytesMod(u, 3);
  }

  lemma {:induction false} LeBytesPrefix(x: nat, n: nat, k: nat)
    ensures LeBytes(x, n + k)[..n] == LeBytes(x, n)
  {
    if n > 0 {
      LeBytesPrefix(x / 256, n - 1, k);
      assert LeBytes(x, n + k)[..n] == [x % 256] + LeBytes(x / 256, n - 1 + k)[..n - 1];
    }
  }

  lemma Pow2Values()
    ensures Pow2(8) == 0x100 && Pow2(16) == 0x1_0000
    ensures Pow2(24) == 0x100_0000 && Pow2(32) == 0x1_0000_0000
  {
    assert Pow2(8) == 0x100;
    Pow2Add(8, 8);
    Pow2Add(16, 8);
    Pow2Add(16, 16);
  }

  lemma LeBytesMod(x: nat, n: nat)
    ensures LeBytes(x, n) == LeBytes(x % Pow2(8 * n), n)
  {
    LeValueOfLeBytes(x, n);
    LeBytesOfLeValue(LeBytes(x, n));
  }
}
