/**
 * Pixel values and the integer arithmetic of blend.cpp: the two alpha
 * combiners, the per-channel blend, and the C++ conversions that the
 * source applies to their results (truncation to uint16_t and uint8_t,
 * the arithmetic right shift of a possibly negative int).
 */
module Pixels {

  /** The value range of a C++ uint8_t; memory is modelled as bytes. */
  type byte = x: int | 0 <= x < 256

  /** A pen: one RGBA colour, each channel an unsigned byte. In memory it is
      the four bytes r, g, b, a in that order. */
  datatype Pen = Pen(r: byte, g: byte, b: byte, a: byte)

  /** The value range of a C++ uint32_t. */
  type u32 = x: int | 0 <= x < 0x1_0000_0000

  /** Reduction modulo 2^32: what uint32_t arithmetic does to a result. */
  function Wrap32(x: int): (r: u32)
    ensures 0 <= x < 0x1_0000_0000 ==> r == x
  {
    x % 0x1_0000_0000
  }

  /** Storing into a uint16_t keeps the low 16 bits. */
  function ToU16(x: int): (r: nat)
    ensures r < 0x10000
    ensures 0 <= x < 0x10000 ==> r == x
  {
    x % 0x10000
  }

  /** Storing into (or passing as) a uint8_t keeps the low 8 bits. */
  function ToU8(x: int): (r: byte)
    ensures 0 <= x < 256 ==> r == x
  {
    x % 256
  }

  /** `x >> 8` on a (possibly negative) int: an arithmetic shift, that is
      division by 256 rounded towards minus infinity. */
  function Asr8(x: int): (r: int)
    ensures 256 * r <= x < 256 * r + 256
  {
    x / 256
  }

  /** x * y on uint32_t operands: the product modulo 2^32. */
  function Mul32(x: u32, y: u32): u32
  {
    Wrap32(x * y)
  }

  /** alpha(a1, a2) of line 20: the product of a1 + 1 and a2 + 1 in
      uint32_t arithmetic, divided by 256. */
  function Alpha2(a1: u32, a2: u32): u32
  {
    Mul32(Wrap32(a1 + 1), Wrap32(a2 + 1)) / 256
  }

  /** alpha(a1, a2, a3) of line 24: the product of a1 + 1, a2 + 1 and
      a3 + 1 in uint32_t arithmetic, divided by 65536. */
  function Alpha3(a1: u32, a2: u32, a3: u32): u32
  {
    Mul32(Mul32(Wrap32(a1 + 1), Wrap32(a2 + 1)), Wrap32(a3 + 1)) / 65536
  }

  /** blend(s, d, a) of line 28: d moved towards s by a/256 of the way,
      rounded, computed in int after the usual promotions and returned as
      a uint8_t. */
  function Blend(s: byte, d: byte, a: byte): byte
  {
    ToU8(BlendInt(s, d, a))
  }

  /** Channel k of a pen in memory order: 0 red, 1 green, 2 blue, 3 alpha. */
  function Channel(p: Pen, k: nat): byte
    requires k < 4
  {
    if k == 0 then p.r else if k == 1 then p.g else if k == 2 then p.b else p.a
  }

  /** Byte k of an endless run of RGB888 pixels of colour p: r, g, b, r, g, ...
      (stated by recursion on the pixel, so that proofs unfold it one pixel
      at a time; RgbByteChannel gives the closed form). */
  function RgbByte(p: Pen, k: nat): byte
  {
    if k < 3 then Channel(p, k) else RgbByte(p, k - 3)
  }

  /** Byte k of the run is channel k mod 3 of the pen. */
  lemma {:induction false} RgbByteChannel(p: Pen, k: nat)
    ensures RgbByte(p, k) == Channel(p, k % 3)
    decreases k
  {
    if k >= 3 {
      RgbByteChannel(p, k - 3);
    }
  }

  // ---------------------------------------------------------------------
  // Properties of the combiners

  lemma MulMono(x: int, y: int, z: int)
    requires 0 <= x <= y && 0 <= z
    ensures x * z <= y * z
  {
  }

  /** Scaling a bounded value by a factor of at most 256 stays below the
      scaled bound, and reaches it only from the bound itself and the
      full factor. */
  lemma {:induction false} ScaledBound(u: int, z: int, top: int)
    requires 0 <= u <= top && 1 <= z <= 256 && 1 <= top
    ensures u * z <= top * 256
    ensures u * z == top * 256 <==> u == top && z == 256
  {
    MulMono(u, top, z);
    MulMono(z, 256, top);
    if u < top {
      MulMono(u, top - 1, z);
      MulMono(z, 256, top - 1);
    } else if z < 256 {
      MulMono(z, 255, top);
    }
  }

  /** A uint32_t product of a value of at most `top` and a factor between 1
      and 256 does not wrap when top * 256 fits, and it reaches top * 256
      exactly from top and 256. */
  lemma {:induction false} ScaledProduct(u: u32, z: u32, top: int)
    requires u <= top && 1 <= z <= 256 && 1 <= top && top * 256 < 0x1_0000_0000
    ensures Mul32(u, z) == u * z <= top * 256
    ensures Mul32(u, z) == top * 256 <==> u == top && z == 256
  {
    ScaledBound(u, z, top);
  }

  /** For byte inputs the 2-argument combiner never exceeds 256, it is 256
      exactly when both inputs are 255, and no uint32_t wrap-around occurs. */
  lemma {:induction false} Alpha2OfBytes(a1: u32, a2: u32)
    requires a1 <= 255 && a2 <= 255
    ensures Alpha2(a1, a2) <= 256
    ensures Alpha2(a1, a2) == 256 <==> a1 == 255 && a2 == 255
    ensures Alpha2(a1, a2) == ((a1 + 1) * (a2 + 1)) / 256
  {
    ScaledProduct(a1 + 1, a2 + 1, 256);
  }

  /** For byte inputs the 3-argument combiner never exceeds 256, it is 256
      exactly when all three inputs are 255, and no wrap-around occurs. */
  lemma {:induction false} Alpha3OfBytes(a1: u32, a2: u32, a3: u32)
    requires a1 <= 255 && a2 <= 255 && a3 <= 255
    ensures Alpha3(a1, a2, a3) <= 256
    ensures Alpha3(a1, a2, a3) == 256 <==> a1 == 255 && a2 == 255 && a3 == 255
    ensures Alpha3(a1, a2, a3) == ((a1 + 1) * (a2 + 1) * (a3 + 1)) / 65536
  {
    ScaledProduct(a1 + 1, a2 + 1, 256);
    var p2 := Mul32(a1 + 1, a2 + 1);
    ScaledProduct(p2, a3 + 1, 65536);
  }

  /** An opaque pen on an opaque surface combines to 256, not 255: the
      chain stays opaque only because every caller tests `a >= 255`. */
  lemma OpaqueCombinesTo256()
    ensures Alpha2(255, 255) == 256
    ensures Alpha3(255, 255, 255) == 256
  {
  }

  /** On a surface whose global alpha is 255 the combined alpha is the pen's
      alpha plus one: even a pen with alpha 0 yields 1, not 0. */
  lemma {:induction false} OpaqueSurfaceAddsOne(x: u32)
    requires x <= 255
    ensures Alpha2(x, 255) == x + 1
  {
    ScaledProduct(x + 1, 256, 256);
  }

  /** Line 350 feeds an already combined alpha (up to 256) back into the
      2-argument combiner: the result can reach 257, whose uint8_t value
      is 1. */
  lemma {:induction false} Recombined(a: u32, m: u32)
    requires a <= 256 && m <= 255
    ensures Alpha2(a, m) <= 257
    ensures Alpha2(a, m) == 257 <==> a == 256 && m == 255
  {
    ScaledProduct(a + 1, m + 1, 257);
  }

  // ---------------------------------------------------------------------
  // Properties of the blend

  /** Alpha 0 leaves the destination byte exactly as it was. */
  lemma BlendZero(s: byte, d: byte)
    ensures Blend(s, d, 0) == d
  {
  }

  /** The blend before its uint8_t conversion: d plus the rounded, scaled
      difference. */
  function BlendInt(s: byte, d: byte, a: byte): int
  {
    d + Asr8(a * (s - d) + 127)
  }

  /** The scaled difference a * k keeps the sign of k and does not exceed
      255 times it. */
  lemma {:induction false} ScaledDifference(a: byte, k: int)
    ensures k >= 0 ==> 0 <= a * k <= 255 * k
    ensures k < 0 ==> 255 * k <= a * k <= 0
  {
    if k >= 0 {
      MulMono(a, 255, k);
    } else {
      var m := -k;
      MulMono(a, 255, m);
      assert a * k == -(a * m);
      assert 255 * k == -(255 * m);
    }
  }

  lemma {:induction false} BlendIntBetween(s: byte, d: byte, a: byte)
    ensures d <= s ==> d <= BlendInt(s, d, a) <= s
    ensures s <= d ==> s <= BlendInt(s, d, a) <= d
  {
    ScaledDifference(a, s - d);
  }

  /** For every alpha the blended byte lies between the destination and the
      source byte, both included; in particular the uint8_t conversion
      never wraps a blend around. */
  lemma {:induction false} BlendBetween(s: byte, d: byte, a: byte)
    ensures d <= s ==> d <= Blend(s, d, a) <= s
    ensures s <= d ==> s <= Blend(s, d, a) <= d
  {
    BlendIntBetween(s, d, a);
    var x := BlendInt(s, d, a);
    assert 0 <= x < 256;
    assert Blend(s, d, a) == ToU8(x);
  }

  /** Blending a byte into itself changes nothing. */
  lemma BlendSame(s: byte, a: byte)
    ensures Blend(s, s, a) == s
  {
  }

  /** Full alpha does not always reproduce the source: the rounding term
      127 is half of 256, not of 255, so the endpoints miss by one. */
  lemma FullAlphaMissesEndpoints()
    ensures Blend(255, 0, 255) == 254
    ensures Blend(0, 255, 255) == 1
  {
  }
}
