/**
 * The fill runs of blend.cpp (lines 241-402): `count` pixels of a surface,
 * starting at pixel `off`, are painted with one pen. Each run is named
 * after the source's function for its pixel format.
 */
module Fill {
  import opened Pixels
  import opened Words
  import opened Surfaces
  import opened RgbRuns

  // ---------------------------------------------------------------------
  // One pixel at a time

  /** The body of the RGBA8888 loops: the pixel at byte q receives the fill
      with combined alpha a. */
  method RgbaPixel(pen: Pen, d: array<byte>, j: nat, a: nat)
    requires 4 * j + 4 <= d.Length
    modifies d
    ensures forall k :: 0 <= k < 4 ==> RgbaAt(d, j, k) == RgbaFillByte(pen, a, k, old(RgbaAt(d, j, k)))
    ensures forall i :: 0 <= i < d.Length && !(4 * j <= i < 4 * j + 4) ==> d[i] == old(d[i])
  {
    var q := 4 * j;
    if a >= 255 {
      d[q] := pen.r;
      d[q + 1] := pen.g;
      d[q + 2] := pen.b;
      d[q + 3] := 255;
    } else if a > 0 {
      d[q] := Blend(pen.r, d[q], a);
      d[q + 1] := Blend(pen.g, d[q + 1], a);
      d[q + 2] := Blend(pen.b, d[q + 2], a);
      d[q + 3] := Blend(pen.a, d[q + 3], a);
    }
  }

  /** The body of the per-pixel RGB888 loops: the pixel at byte q receives
      the colour under the three-way rule with combined alpha a. */
  method RgbPixel(pen: Pen, d: array<byte>, j: nat, a: nat)
    requires 3 * j + 3 <= d.Length
    modifies d
    ensures forall k :: 0 <= k < 3 ==> RgbAt(d, j, k) == Over(Channel(pen, k), a, old(RgbAt(d, j, k)))
    ensures forall i :: 0 <= i < d.Length && !(3 * j <= i < 3 * j + 3) ==> d[i] == old(d[i])
  {
    var q := 3 * j;
    if a >= 255 {
      d[q] := pen.r;
      d[q + 1] := pen.g;
      d[q + 2] := pen.b;
    } else if a > 0 {
      d[q] := Blend(pen.r, d[q], a);
      d[q + 1] := Blend(pen.g, d[q + 1], a);
      d[q + 2] := Blend(pen.b, d[q + 2], a);
    }
  }

  // ---------------------------------------------------------------------
  // RGBA8888 destination

  /** fill RGBA_RGBA (lines 241-259): every pixel of the run gets the
      combined alpha of the pen, its mask byte and the surface, and is then
      written opaque (alpha byte 255), blended channel by channel, or left
      alone. The do-while needs a count of at least one. */
  method RgbaRgba(pen: Pen, dest: Surface, off: nat, cnt: nat)
    requires cnt >= 1 && 4 * (off + cnt) <= dest.data.Length
    requires dest.mask.Some? ==> off + cnt <= dest.mask.value.Length
    requires MaskApart(dest)
    modifies dest.data
    ensures forall j, k :: off <= j < off + cnt && 0 <= k < 4 ==>
      RgbaAt(dest.data, j, k) == RgbaFillByte(pen, FillAlpha(pen, dest, j), k, old(RgbaAt(dest.data, j, k)))
    ensures forall i :: 0 <= i < dest.data.Length && !(4 * off <= i < 4 * (off + cnt)) ==>
      dest.data[i] == old(dest.data[i])
  {
    var d := dest.data;
    var j := off;
    while j < off + cnt
      invariant off <= j <= off + cnt
      invariant forall j', k :: off <= j' < j && 0 <= k < 4 ==>
        RgbaAt(d, j', k) == RgbaFillByte(pen, FillAlpha(pen, dest, j'), k, old(RgbaAt(d, j', k)))
      invariant forall i :: 0 <= i < d.Length && !(4 * off <= i < 4 * j) ==> d[i] == old(d[i])
    {
      // the combined alpha of line 245: three-argument with a mask byte,
      // two-argument without
      var a := FillAlpha(pen, dest, j);
      RgbaPixel(pen, d, j, a);
      j := j + 1;
    }
  }

  // ---------------------------------------------------------------------
  // RGB888 destination, per-pixel version

  /** fill RGBA_RGB_OPTIMIZED (lines 261-324). With a mask every pixel
      follows the three-way rule with its own combined alpha (a do-while:
      at least one pixel). Without a mask the alpha is the same for the
      whole run: opaque runs are written two pixels at a time as three
      16-bit stores and then one pixel at a time, translucent runs are
      blended pixel by pixel (a zero alpha blends too, which leaves the
      bytes as they were). Either way the result is the three-way rule on
      every pixel. */
  method RgbaRgbOptimized(pen: Pen, dest: Surface, off: nat, cnt: nat)
    requires 3 * (off + cnt) <= dest.data.Length
    requires dest.mask.Some? ==> cnt >= 1 && off + cnt <= dest.mask.value.Length
    requires MaskApart(dest)
    modifies dest.data
    ensures forall j, k :: off <= j < off + cnt && 0 <= k < 3 ==>
      RgbAt(dest.data, j, k) == Over(Channel(pen, k), FillAlpha(pen, dest, j), old(RgbAt(dest.data, j, k)))
    ensures forall i :: 0 <= i < dest.data.Length && !(3 * off <= i < 3 * (off + cnt)) ==>
      dest.data[i] == old(dest.data[i])
  {
    var d := dest.data;
    if dest.mask.Some? {
      MaskedRgbPixels(pen, dest, off, cnt);
    } else {
      var a := FillAlpha(pen, dest, off);   // the two-argument alpha, line 283
      if a >= 255 {
        var duals := cnt / 2;
        var j := off;
        if duals > 0 {
          SolidDuals(pen, d, off, duals);
          j := off + 2 * duals;   // the odd pixel, if any, is left for the tail loop
        }
        SolidPixels(pen, d, j, off + cnt);
      } else {
        BlendedPixels(pen, d, off, cnt, a);
      }
    }
  }

  /** The masked loop of fill RGBA_RGB_OPTIMIZED. */
  method MaskedRgbPixels(pen: Pen, dest: Surface, off: nat, cnt: nat)
    requires 3 * (off + cnt) <= dest.data.Length
    requires dest.mask.Some? && off + cnt <= dest.mask.value.Length
    requires MaskApart(dest)
    modifies dest.data
    ensures forall j, k :: off <= j < off + cnt && 0 <= k < 3 ==>
      RgbAt(dest.data, j, k) == Over(Channel(pen, k), FillAlpha(pen, dest, j), old(RgbAt(dest.data, j, k)))
    ensures forall i :: 0 <= i < dest.data.Length && !(3 * off <= i < 3 * (off + cnt)) ==>
      dest.data[i] == old(dest.data[i])
  {
    var d := dest.data;
    var j := off;
    while j < off + cnt
      invariant off <= j <= off + cnt
      invariant forall j', k :: off <= j' < j && 0 <= k < 3 ==>
        RgbAt(d, j', k) == Over(Channel(pen, k), FillAlpha(pen, dest, j'), old(RgbAt(d, j', k)))
      invariant forall i :: 0 <= i < d.Length && !(3 * off <= i < 3 * j) ==> d[i] == old(d[i])
    {
      RgbPixel(pen, d, j, FillAlpha(pen, dest, j));
      j := j + 1;
    }
  }

  /** Stores a 16-bit word at byte q, low byte first. */
  method StoreHalf(d: array<byte>, q: nat, h: nat)
    requires q + 2 <= d.Length && h < 0x1_0000
    modifies d
    ensures d[q] == HalfByte(h, 0) && d[q + 1] == HalfByte(h, 1)
    ensures forall i :: 0 <= i < d.Length && i != q && i != q + 1 ==> d[i] == old(d[i])
  {
    d[q] := HalfByte(h, 0);
    d[q + 1] := HalfByte(h, 1);
  }

  /** The pair loop of fill RGBA_RGB_OPTIMIZED: each round stores the three
      16-bit words (g << 8) | r, (r << 8) | b and (b << 8) | g, which
      little-endian are the bytes r g b r g b of two pixels. */
  method SolidDuals(pen: Pen, d: array<byte>, off: nat, duals: nat)
    requires 3 * off + 6 * duals <= d.Length
    modifies d
    ensures forall j, k :: off <= j < off + 2 * duals && 0 <= k < 3 ==> RgbAt(d, j, k) == Channel(pen, k)
    ensures forall i :: 0 <= i < d.Length && !(3 * off <= i < 3 * off + 6 * duals) ==> d[i] == old(d[i])
  {
    var uW1, uW2, uW3 := Half(pen.g, pen.r), Half(pen.r, pen.b), Half(pen.b, pen.g);
    var n, j := duals, off;
    while n > 0
      invariant 0 <= n <= duals && j == off + 2 * (duals - n)
      invariant forall j', k :: off <= j' < j && 0 <= k < 3 ==> RgbAt(d, j', k) == Channel(pen, k)
      invariant forall i :: 0 <= i < d.Length && !(3 * off <= i < 3 * j) ==> d[i] == old(d[i])
    {
      StoreDual(pen, d, j, uW1, uW2, uW3);
      n, j := n - 1, j + 2;
    }
  }

  /** One round of the pair loop (lines 298-300): three 16-bit stores at
      pixel j. */
  method StoreDual(pen: Pen, d: array<byte>, j: nat, uW1: nat, uW2: nat, uW3: nat)
    requires 3 * j + 6 <= d.Length
    requires uW1 == Half(pen.g, pen.r) && uW2 == Half(pen.r, pen.b) && uW3 == Half(pen.b, pen.g)
    modifies d
    ensures forall k :: 0 <= k < 3 ==> RgbAt(d, j, k) == Channel(pen, k) && RgbAt(d, j + 1, k) == Channel(pen, k)
    ensures forall i :: 0 <= i < d.Length && !(3 * j <= i < 3 * j + 6) ==> d[i] == old(d[i])
  {
    HalfBytes(pen.g, pen.r);
    HalfBytes(pen.r, pen.b);
    HalfBytes(pen.b, pen.g);
    var q := 3 * j;
    StoreHalf(d, q, uW1);
    StoreHalf(d, q + 2, uW2);
    StoreHalf(d, q + 4, uW3);
    assert d[q] == pen.r && d[q + 1] == pen.g;
    assert d[q + 2] == pen.b && d[q + 3] == pen.r;
    assert d[q + 4] == pen.g && d[q + 5] == pen.b;
    SolidPixelAt(pen, d, j);
    SolidPixelAt(pen, d, j + 1);
  }

  /** Pixel j holds the colour once its three bytes do. */
  lemma SolidPixelAt(pen: Pen, d: array<byte>, j: nat)
    requires 3 * j + 3 <= d.Length
    requires d[3 * j] == pen.r && d[3 * j + 1] == pen.g && d[3 * j + 2] == pen.b
    ensures forall k :: 0 <= k < 3 ==> RgbAt(d, j, k) == Channel(pen, k)
  {
    forall k | 0 <= k < 3
      ensures RgbAt(d, j, k) == Channel(pen, k)
    {
      if k == 0 {} else if k == 1 {} else {}
    }
  }

  /** The one-pixel loop after the pair loop (lines 306-309): pixels
      lo .. hi-1 receive the colour. */
  method SolidPixels(pen: Pen, d: array<byte>, lo: nat, hi: nat)
    requires lo <= hi && 3 * hi <= d.Length
    modifies d
    ensures forall j, k :: lo <= j < hi && 0 <= k < 3 ==> RgbAt(d, j, k) == Channel(pen, k)
    ensures forall i :: 0 <= i < d.Length && !(3 * lo <= i < 3 * hi) ==> d[i] == old(d[i])
  {
    var j := lo;
    while j < hi
      invariant lo <= j <= hi
      invariant forall j', k :: lo <= j' < j && 0 <= k < 3 ==> RgbAt(d, j', k) == Channel(pen, k)
      invariant forall i :: 0 <= i < d.Length && !(3 * lo <= i < 3 * j) ==> d[i] == old(d[i])
    {
      RgbPixel(pen, d, j, 255);
      j := j + 1;
    }
  }

  /** The translucent loop of fill RGBA_RGB_OPTIMIZED: every pixel is
      blended with the same alpha, zero included. */
  method BlendedPixels(pen: Pen, d: array<byte>, off: nat, cnt: nat, a: byte)
    requires 3 * (off + cnt) <= d.Length && a < 255
    modifies d
    ensures forall j, k :: off <= j < off + cnt && 0 <= k < 3 ==>
      RgbAt(d, j, k) == Over(Channel(pen, k), a, old(RgbAt(d, j, k)))
    ensures forall i :: 0 <= i < d.Length && !(3 * off <= i < 3 * (off + cnt)) ==> d[i] == old(d[i])
  {
    var j := off;
    while j < off + cnt
      invariant off <= j <= off + cnt
      invariant forall j', k :: off <= j' < j && 0 <= k < 3 ==>
        RgbAt(d, j', k) == Over(Channel(pen, k), a, old(RgbAt(d, j', k)))
      invariant forall i :: 0 <= i < d.Length && !(3 * off <= i < 3 * j) ==> d[i] == old(d[i])
    {
      var q := 3 * j;
      d[q] := Blend(pen.r, d[q], a);
      d[q + 1] := Blend(pen.g, d[q + 1], a);
      d[q + 2] := Blend(pen.b, d[q + 2], a);
      forall k | 0 <= k < 3
        ensures RgbAt(d, j, k) == Over(Channel(pen, k), a, old(RgbAt(d, j, k)))
      {
        BlendZero(Channel(pen, k), old(RgbAt(d, j, k)));
        if k == 0 {} else if k == 1 {} else {}
      }
      j := j + 1;
    }
  }

  // ---------------------------------------------------------------------
  // RGB888 destination, the version the dispatcher uses

  /** The alignment of pixel `off` of a surface: the address of its first
      byte modulo 4. */
  function RunPhase(dest: Surface, off: nat): (p: nat)
    ensures p < 4
  {
    (dest.phase + 3 * off) % 4
  }

  /** The alpha the masked path of fill RGBA_RGB hands to blend_rgba_rgb:
      the surface-level alpha (at most 256) combined once more with the
      mask byte, stored as uint16_t and then passed as a uint8_t. */
  function MaskedAlphaAsWritten(pen: Pen, dest: Surface, j: nat): byte
    reads MaskFrame(dest)
    requires dest.mask.Some? && j < dest.mask.value.Length
  {
    ToU8(ToU16(Alpha2(ToU16(Alpha2(pen.a, dest.alpha)), dest.mask.value[j])))
  }

  /** The as-written masked alpha on an opaque surface under a fully set
      mask byte: a pen of alpha 255 combines to 256 and then to 257, stored
      as 1; a pen of alpha 254 combines to 255 and then to 256, stored as
      0. Both pixels should be opaque, and both are left nearly or exactly
      as they were. */
  lemma {:induction false} MaskedAlphaWraps(pen: Pen, dest: Surface, j: nat)
    requires dest.mask.Some? && j < dest.mask.value.Length
    requires dest.alpha == 255 && dest.mask.value[j] == 255 && pen.a >= 254
    ensures FillAlpha(pen, dest, j) >= 255
    ensures MaskedAlphaAsWritten(pen, dest, j) == if pen.a == 255 then 1 else 0
  {
    Alpha3OfBytes(pen.a, 255, 255);
    OpaqueSurfaceAddsOne(pen.a);
    assert Alpha2(pen.a + 1, 255) == pen.a + 2 by {
      ScaledProduct(pen.a + 2, 256, 257);
    }
  }

  /** fill RGBA_RGB as written (lines 326-355). Without a mask the run goes
      to the accelerator when the surface asks for it (the bytes are then
      the hardware's business), otherwise to copy_rgba_rgb_opt when the
      combined alpha is opaque and to blend_rgba_rgb when it is not, with
      the alignment faults of those routines. With a mask every pixel is
      blended, with no three-way rule, at MaskedAlphaAsWritten. The
      masked do-while and copy_rgba_rgb_opt need at least one pixel. */
  method RgbaRgb(pen: Pen, dest: Surface, acc: Accelerator, off: nat, c: nat)
    requires 3 * (off + c) <= dest.data.Length
    requires dest.mask.Some? ==> off + c <= dest.mask.value.Length
    requires MaskApart(dest)
    requires c >= 1 || (dest.mask.None? && (dest.useDma2d || FillAlpha(pen, dest, off) < 255))
    modifies dest.data, acc
    ensures dest.mask.None? && dest.useDma2d ==>
      acc.requests == old(acc.requests) + [Dma2dRequest(pen, off, c)] &&
      (forall i :: 0 <= i < dest.data.Length && !(3 * off <= i < 3 * (off + c)) ==>
        dest.data[i] == old(dest.data[i]))
    ensures !(dest.mask.None? && dest.useDma2d) ==> acc.requests == old(acc.requests)
    ensures dest.mask.None? && !dest.useDma2d && FillAlpha(pen, dest, off) >= 255 ==>
      forall i :: 0 <= i < dest.data.Length ==>
        dest.data[i] == (if 3 * off <= i < 3 * off + Span(c, RunPhase(dest, off))
                         then CopiedByte(pen, c, RunPhase(dest, off), i - 3 * off) else old(dest.data[i]))
    ensures dest.mask.None? && !dest.useDma2d && FillAlpha(pen, dest, off) < 255 ==>
      forall i :: 0 <= i < dest.data.Length ==>
        dest.data[i] == (if 3 * off <= i < 3 * off + Span(c, RunPhase(dest, off))
                         then Blend(RgbByte(pen, i - 3 * off), old(dest.data[i]), FillAlpha(pen, dest, off))
                         else old(dest.data[i]))
    ensures dest.mask.Some? ==>
      (forall j, k :: off <= j < off + c && 0 <= k < 3 ==>
        RgbAt(dest.data, j, k) == Blend(Channel(pen, k), old(RgbAt(dest.data, j, k)), MaskedAlphaAsWritten(pen, dest, j))) &&
      (forall i :: 0 <= i < dest.data.Length && !(3 * off <= i < 3 * (off + c)) ==>
        dest.data[i] == old(dest.data[i]))
  {
    var d := dest.data;
    var a := ToU16(Alpha2(pen.a, dest.alpha));   // FillAlpha(pen, dest, off) when there is no mask
    if dest.mask.None? {
      if a >= 255 {
        if dest.useDma2d {
          acc.RgbaRgb(pen, d, off, c);
        } else {
          CopyRgbaRgbOpt(pen, d, 3 * off, RunPhase(dest, off), c);
        }
      } else {
        if dest.useDma2d {
          acc.RgbaRgb(pen, d, off, c);
        } else {
          BlendRgbaRgb(pen, d, 3 * off, RunPhase(dest, off), a, c);
        }
      }
    } else {
      MaskedBlendAsWritten(pen, dest, off, c);
    }
  }

  /** The masked loop of fill RGBA_RGB as written: each pixel is handed to
      blend_rgba_rgb as a run of one with the recombined alpha. */
  method MaskedBlendAsWritten(pen: Pen, dest: Surface, off: nat, c: nat)
    requires 3 * (off + c) <= dest.data.Length
    requires dest.mask.Some? && off + c <= dest.mask.value.Length
    requires MaskApart(dest)
    modifies dest.data
    ensures forall j, k :: off <= j < off + c && 0 <= k < 3 ==>
      RgbAt(dest.data, j, k) == Blend(Channel(pen, k), old(RgbAt(dest.data, j, k)), MaskedAlphaAsWritten(pen, dest, j))
    ensures forall i :: 0 <= i < dest.data.Length && !(3 * off <= i < 3 * (off + c)) ==>
      dest.data[i] == old(dest.data[i])
  {
    var d := dest.data;
    var a := ToU16(Alpha2(pen.a, dest.alpha));   // computed before the mask test
    var j := off;
    while j < off + c
      invariant off <= j <= off + c
      invariant forall j', k :: off <= j' < j && 0 <= k < 3 ==>
        RgbAt(d, j', k) == Blend(Channel(pen, k), old(RgbAt(d, j', k)), MaskedAlphaAsWritten(pen, dest, j'))
      invariant forall i :: 0 <= i < d.Length && !(3 * off <= i < 3 * j) ==> d[i] == old(d[i])
    {
      // lines 350-351: the surface alpha combined with the mask byte is
      // handed to blend_rgba_rgb for a run of one pixel
      var ma := ToU16(Alpha2(a, dest.mask.value[j]));
      BlendOnePixel(pen, d, j, ToU8(ma));
      j := j + 1;
    }
  }

  /** blend_rgba_rgb(pen, d, a, 1) on pixel j, in pixel terms. */
  method BlendOnePixel(pen: Pen, d: array<byte>, j: nat, a: byte)
    requires 3 * j + 3 <= d.Length
    modifies d
    ensures forall k :: 0 <= k < 3 ==> RgbAt(d, j, k) == Blend(Channel(pen, k), old(RgbAt(d, j, k)), a)
    ensures forall i :: 0 <= i < d.Length && !(3 * j <= i < 3 * j + 3) ==> d[i] == old(d[i])
  {
    BlendPixels(pen, d, 3 * j, a, 1);
    assert RgbByte(pen, 0) == pen.r && RgbByte(pen, 1) == pen.g && RgbByte(pen, 2) == pen.b;
    assert d[3 * j] == Blend(pen.r, old(d[3 * j]), a);
    assert d[3 * j + 1] == Blend(pen.g, old(d[3 * j + 1]), a);
    assert d[3 * j + 2] == Blend(pen.b, old(d[3 * j + 2]), a);
  }

  /** fill RGBA_RGB with its three faults corrected: the run routines write
      all 3c bytes (the Fixed routines of RgbRuns) and the masked path
      applies the three-way rule with alpha(pen.a, mask, surface.alpha), as
      fill RGBA_RGB_OPTIMIZED does. Unless the accelerator takes the run,
      the result is the three-way rule on every pixel, which is what
      RgbaRgbOptimized computes. */
  method RgbaRgbFixed(pen: Pen, dest: Surface, acc: Accelerator, off: nat, c: nat)
    requires 3 * (off + c) <= dest.data.Length
    requires dest.mask.Some? ==> off + c <= dest.mask.value.Length
    requires MaskApart(dest)
    requires c >= 1 || (dest.mask.None? && (dest.useDma2d || FillAlpha(pen, dest, off) < 255))
    modifies dest.data, acc
    ensures dest.mask.None? && dest.useDma2d ==>
      acc.requests == old(acc.requests) + [Dma2dRequest(pen, off, c)] &&
      (forall i :: 0 <= i < dest.data.Length && !(3 * off <= i < 3 * (off + c)) ==>
        dest.data[i] == old(dest.data[i]))
    ensures !(dest.mask.None? && dest.useDma2d) ==>
      acc.requests == old(acc.requests) &&
      (forall j, k :: off <= j < off + c && 0 <= k < 3 ==>
        RgbAt(dest.data, j, k) == Over(Channel(pen, k), FillAlpha(pen, dest, j), old(RgbAt(dest.data, j, k)))) &&
      (forall i :: 0 <= i < dest.data.Length && !(3 * off <= i < 3 * (off + c)) ==>
        dest.data[i] == old(dest.data[i]))
  {
    var d := dest.data;
    var a := FillAlpha(pen, dest, off);
    if dest.mask.None? {
      if dest.useDma2d {
        acc.RgbaRgb(pen, d, off, c);
      } else if a >= 255 {
        CopyRgbaRgbOptFixed(pen, d, 3 * off, RunPhase(dest, off), c);
        forall j, k | off <= j < off + c && 0 <= k < 3
          ensures RgbAt(d, j, k) == Over(Channel(pen, k), FillAlpha(pen, dest, j), old(RgbAt(d, j, k)))
        {
          PixelBytes(pen, j - off);
          assert 3 * j + k - 3 * off == 3 * (j - off) + k;
        }
      } else {
        BlendRgbaRgbFixed(pen, d, 3 * off, RunPhase(dest, off), a, c);
        forall j, k | off <= j < off + c && 0 <= k < 3
          ensures RgbAt(d, j, k) == Over(Channel(pen, k), FillAlpha(pen, dest, j), old(RgbAt(d, j, k)))
        {
          PixelBytes(pen, j - off);
          assert 3 * j + k - 3 * off == 3 * (j - off) + k;
          BlendZero(Channel(pen, k), old(RgbAt(d, j, k)));
        }
      }
    } else {
      MaskedRgbPixels(pen, dest, off, c);
    }
  }

  // ---------------------------------------------------------------------
  // Palette8 and Mask8 destinations

  /** fill P_P (lines 385-394): a pen whose alpha byte (the palette index)
      is not 0 writes that index into every pixel of the run; index 0 is
      transparent and leaves the run as it was. */
  method PP(pen: Pen, dest: Surface, off: nat, cnt: nat)
    requires cnt >= 1 && off + cnt <= dest.data.Length
    modifies dest.data
    ensures forall i :: 0 <= i < dest.data.Length ==>
      dest.data[i] == (if off <= i < off + cnt && pen.a != 0 then pen.a else old(dest.data[i]))
  {
    var d := dest.data;
    var q := off;
    while q < off + cnt
      invariant off <= q <= off + cnt
      invariant forall i :: 0 <= i < d.Length ==>
        d[i] == (if off <= i < q && pen.a != 0 then pen.a else old(d[i]))
    {
      if pen.a != 0 {
        d[q] := pen.a;
      }
      q := q + 1;
    }
  }

  /** fill M_M (lines 396-402): every mask byte of the run is blended
      towards the pen's alpha with the surface's global alpha. */
  method MM(pen: Pen, dest: Surface, off: nat, cnt: nat)
    requires cnt >= 1 && off + cnt <= dest.data.Length
    modifies dest.data
    ensures forall i :: 0 <= i < dest.data.Length ==>
      dest.data[i] == (if off <= i < off + cnt then Blend(pen.a, old(dest.data[i]), dest.alpha) else old(dest.data[i]))
  {
    var d := dest.data;
    var q := off;
    while q < off + cnt
      invariant off <= q <= off + cnt
      invariant forall i :: 0 <= i < d.Length ==>
        d[i] == (if off <= i < q then Blend(pen.a, old(d[i]), dest.alpha) else old(d[i]))
    {
      d[q] := Blend(pen.a, d[q], dest.alpha);
      q := q + 1;
    }
  }
}
