/**
 * The copy runs of blend.cpp (lines 405-497): `cnt` pixels of a source
 * surface, from pixel `soff` on and `step` pixels apart, are drawn onto a
 * destination surface from pixel `doff` on. The per-pixel rule is the
 * fill rule with the pen read from the source.
 */
module Copy {
  import opened Pixels
  import opened Surfaces
  import opened Fill

  /** The source pixel read for the i-th destination pixel when the
      source position advances by `step` each time. */
  function SrcPixel(soff: nat, step: int, i: nat): int
  {
    soff + i * step
  }

  /** Every source pixel a run of `cnt` reads exists. */
  predicate SourceCovers(src: Surface, soff: nat, step: int, cnt: nat)
  {
    forall i :: 0 <= i < cnt ==> InSource(src, SrcPixel(soff, step, i))
  }

  /** The pen read for the i-th destination pixel. */
  function CopyPen(src: Surface, soff: nat, step: int, i: nat): Pen
    reads src.data
    requires InSource(src, SrcPixel(soff, step, i))
  {
    SourcePen(src, SrcPixel(soff, step, i))
  }

  /** Every byte a run of `cnt` reads from an 8-bit source exists. */
  predicate ByteSourceCovers(src: Surface, soff: nat, step: int, cnt: nat)
  {
    forall i :: 0 <= i < cnt ==> 0 <= SrcPixel(soff, step, i) < src.data.Length
  }

  /** The source pixels lie on a line, so a run reads only existing pixels
      as soon as its first and its last one exist, whichever the
      direction of the step. */
  lemma {:induction false} CoversByEnds(src: Surface, soff: nat, step: int, cnt: nat)
    requires cnt >= 1 && InSource(src, soff) && InSource(src, SrcPixel(soff, step, cnt - 1))
    ensures SourceCovers(src, soff, step, cnt)
  {
    forall i | 0 <= i < cnt
      ensures InSource(src, SrcPixel(soff, step, i))
    {
      if step >= 0 {
        MulMono(i, cnt - 1, step);
      } else {
        MulMono(i, cnt - 1, -step);
        assert i * step == -(i * -step);
        assert (cnt - 1) * step == -((cnt - 1) * -step);
      }
    }
  }

  // ---------------------------------------------------------------------
  // RGB888 destination

  /** The per-pixel loop of copy RGBA_RGB, reading the source `step` pixels
      apart: every destination pixel follows the three-way rule with the
      pen read from the source and its own combined alpha. */
  method RgbPixelsFrom(src: Surface, soff: nat, step: int, dest: Surface, doff: nat, cnt: nat)
    requires cnt >= 1 && 3 * (doff + cnt) <= dest.data.Length
    requires dest.mask.Some? ==> doff + cnt <= dest.mask.value.Length
    requires MaskApart(dest) && src.data != dest.data
    requires SourceCovers(src, soff, step, cnt)
    modifies dest.data
    ensures forall j, k :: doff <= j < doff + cnt && 0 <= k < 3 ==>
      RgbAt(dest.data, j, k) == Over(Channel(CopyPen(src, soff, step, j - doff), k),
                                     FillAlpha(CopyPen(src, soff, step, j - doff), dest, j),
                                     old(RgbAt(dest.data, j, k)))
    ensures forall i :: 0 <= i < dest.data.Length && !(3 * doff <= i < 3 * (doff + cnt)) ==>
      dest.data[i] == old(dest.data[i])
  {
    var d := dest.data;
    var s: int := soff;
    var j := doff;
    while j < doff + cnt
      invariant doff <= j <= doff + cnt && s == SrcPixel(soff, step, j - doff)
      invariant forall j', k :: doff <= j' < j && 0 <= k < 3 ==>
        RgbAt(d, j', k) == Over(Channel(CopyPen(src, soff, step, j' - doff), k),
                                FillAlpha(CopyPen(src, soff, step, j' - doff), dest, j'),
                                old(RgbAt(d, j', k)))
      invariant forall i :: 0 <= i < d.Length && !(3 * doff <= i < 3 * j) ==> d[i] == old(d[i])
    {
      // line 411: the palette entry of a Palette8 source, or the source pixel itself
      var pen := SourcePen(src, s);
      RgbPixel(pen, d, j, FillAlpha(pen, dest, j));
      assert SrcPixel(soff, step, j + 1 - doff) == s + step;
      s, j := s + step, j + 1;
    }
  }

  /** copy RGBA_RGB as written (lines 430-475). Its masked and unmasked
      branches have the same body, and the source advance at lines 452 and 472
      moves on by one source pixel whatever src_step says: the run reads source
      pixels soff, soff + 1, ... */
  method RgbaRgb(src: Surface, soff: nat, dest: Surface, doff: nat, cnt: nat, step: int)
    requires cnt >= 1 && 3 * (doff + cnt) <= dest.data.Length
    requires dest.mask.Some? ==> doff + cnt <= dest.mask.value.Length
    requires MaskApart(dest) && src.data != dest.data
    requires SourceCovers(src, soff, 1, cnt)
    modifies dest.data
    ensures forall j, k :: doff <= j < doff + cnt && 0 <= k < 3 ==>
      RgbAt(dest.data, j, k) == Over(Channel(CopyPen(src, soff, 1, j - doff), k),
                                     FillAlpha(CopyPen(src, soff, 1, j - doff), dest, j),
                                     old(RgbAt(dest.data, j, k)))
    ensures forall i :: 0 <= i < dest.data.Length && !(3 * doff <= i < 3 * (doff + cnt)) ==>
      dest.data[i] == old(dest.data[i])
  {
    RgbPixelsFrom(src, soff, 1, dest, doff, cnt);
  }

  /** copy RGBA_RGB with src_step honoured: pixel i of the run is read from
      source pixel soff + i * step, so a step of -1 mirrors the source. */
  method RgbaRgbFixed(src: Surface, soff: nat, dest: Surface, doff: nat, cnt: nat, step: int)
    requires cnt >= 1 && 3 * (doff + cnt) <= dest.data.Length
    requires dest.mask.Some? ==> doff + cnt <= dest.mask.value.Length
    requires MaskApart(dest) && src.data != dest.data
    requires SourceCovers(src, soff, step, cnt)
    modifies dest.data
    ensures forall j, k :: doff <= j < doff + cnt && 0 <= k < 3 ==>
      RgbAt(dest.data, j, k) == Over(Channel(CopyPen(src, soff, step, j - doff), k),
                                     FillAlpha(CopyPen(src, soff, step, j - doff), dest, j),
                                     old(RgbAt(dest.data, j, k)))
    ensures forall i :: 0 <= i < dest.data.Length && !(3 * doff <= i < 3 * (doff + cnt)) ==>
      dest.data[i] == old(dest.data[i])
  {
    RgbPixelsFrom(src, soff, step, dest, doff, cnt);
  }

  // ---------------------------------------------------------------------
  // RGBA8888 destination

  /** Byte k of the i-th four-byte slot from byte `base`. */
  function Slot(d: array<byte>, base: nat, i: nat, k: nat): byte
    reads d
    requires k < 4 && base + 4 * i + k < d.Length
  {
    d[base + 4 * i + k]
  }

  /** Byte k of a slot after the copy rule with combined alpha a: the colour
      channels follow the three-way rule, the fourth byte is kept by an
      opaque pixel and blended towards `fourth` by a translucent one. */
  function RgbaCopyByte(pen: Pen, fourth: byte, a: nat, k: nat, prev: byte): byte
    requires k < 4
  {
    if k < 3 then Over(Channel(pen, k), a, prev)
    else if a >= 255 || a == 0 then prev
    else Blend(fourth, prev, a)
  }

  /** The body of the copy RGBA_RGBA loop on the slot at byte q. */
  method RgbaCopyPixel(pen: Pen, fourth: byte, d: array<byte>, base: nat, i: nat, a: nat)
    requires base + 4 * i + 4 <= d.Length
    modifies d
    ensures forall k :: 0 <= k < 4 ==> Slot(d, base, i, k) == RgbaCopyByte(pen, fourth, a, k, old(Slot(d, base, i, k)))
    ensures forall x :: 0 <= x < d.Length && !(base + 4 * i <= x < base + 4 * i + 4) ==> d[x] == old(d[x])
  {
    var q := base + 4 * i;
    if a >= 255 {
      d[q] := pen.r;
      d[q + 1] := pen.g;
      d[q + 2] := pen.b;
    } else if a > 0 {
      d[q] := Blend(pen.r, d[q], a);
      d[q + 1] := Blend(pen.g, d[q + 1], a);
      d[q + 2] := Blend(pen.b, d[q + 2], a);
      d[q + 3] := Blend(fourth, d[q + 3], a);
    }
    forall k | 0 <= k < 4
      ensures Slot(d, base, i, k) == RgbaCopyByte(pen, fourth, a, k, old(Slot(d, base, i, k)))
    {
      if k == 0 {} else if k == 1 {} else if k == 2 {} else {}
    }
  }

  /** The loop of copy RGBA_RGBA: slot i (from byte `base`) receives source
      pixel soff + i * step with the combined alpha of destination pixel
      doff + i; the fourth byte is blended towards the pen's blue channel
      (`blue`) or its alpha. */
  method RgbaSlotsFrom(src: Surface, soff: nat, step: int, dest: Surface, doff: nat, base: nat, cnt: nat, blue: bool)
    requires cnt >= 1 && base + 4 * cnt <= dest.data.Length
    requires dest.mask.Some? ==> doff + cnt <= dest.mask.value.Length
    requires MaskApart(dest) && src.data != dest.data
    requires SourceCovers(src, soff, step, cnt)
    modifies dest.data
    ensures forall i, k :: 0 <= i < cnt && 0 <= k < 4 ==>
      Slot(dest.data, base, i, k) ==
        RgbaCopyByte(CopyPen(src, soff, step, i), Fourth(CopyPen(src, soff, step, i), blue),
                     FillAlpha(CopyPen(src, soff, step, i), dest, doff + i), k, old(Slot(dest.data, base, i, k)))
    ensures forall x :: 0 <= x < dest.data.Length && !(base <= x < base + 4 * cnt) ==>
      dest.data[x] == old(dest.data[x])
  {
    var d := dest.data;
    var s: int := soff;
    var i := 0;
    while i < cnt
      invariant 0 <= i <= cnt && s == SrcPixel(soff, step, i)
      invariant forall i', k :: 0 <= i' < i && 0 <= k < 4 ==>
        Slot(d, base, i', k) ==
          RgbaCopyByte(CopyPen(src, soff, step, i'), Fourth(CopyPen(src, soff, step, i'), blue),
                       FillAlpha(CopyPen(src, soff, step, i'), dest, doff + i'), k, old(Slot(d, base, i', k)))
      invariant forall x :: 0 <= x < d.Length && !(base <= x < base + 4 * i) ==> d[x] == old(d[x])
    {
      var pen := SourcePen(src, s);
      RgbaCopyPixel(pen, Fourth(pen, blue), d, base, i, FillAlpha(pen, dest, doff + i));
      assert SrcPixel(soff, step, i + 1) == s + step;
      s, i := s + step, i + 1;
    }
  }

  /** The channel the fourth byte is blended towards. */
  function Fourth(pen: Pen, blue: bool): byte
  {
    if blue then pen.b else pen.a
  }

  /** copy RGBA_RGBA as written (lines 405-428): the destination address
      starts at byte 3 * doff although the pixels are four bytes wide, the
      fourth byte of a translucent pixel is blended towards the pen's blue
      channel, and the source advances one pixel at a time whatever
      src_step says. */
  method RgbaRgba(src: Surface, soff: nat, dest: Surface, doff: nat, cnt: nat, step: int)
    requires cnt >= 1 && 3 * doff + 4 * cnt <= dest.data.Length
    requires dest.mask.Some? ==> doff + cnt <= dest.mask.value.Length
    requires MaskApart(dest) && src.data != dest.data
    requires SourceCovers(src, soff, 1, cnt)
    modifies dest.data
    ensures forall i, k :: 0 <= i < cnt && 0 <= k < 4 ==>
      Slot(dest.data, 3 * doff, i, k) ==
        RgbaCopyByte(CopyPen(src, soff, 1, i), CopyPen(src, soff, 1, i).b,
                     FillAlpha(CopyPen(src, soff, 1, i), dest, doff + i), k, old(Slot(dest.data, 3 * doff, i, k)))
    ensures forall x :: 0 <= x < dest.data.Length && !(3 * doff <= x < 3 * doff + 4 * cnt) ==>
      dest.data[x] == old(dest.data[x])
  {
    RgbaSlotsFrom(src, soff, 1, dest, doff, 3 * doff, cnt, true);
  }

  /** The first byte the as-written copy RGBA_RGBA writes (the red channel
      of its slot 0) is byte (3 * doff) % 4 of destination pixel
      (3 * doff) / 4, an earlier pixel than doff as soon as doff is
      positive. With doff = 1 the red channel lands on the alpha byte of
      pixel 0. */
  lemma StrideStartsInEarlierPixel(d: array<byte>, doff: nat)
    requires doff >= 1 && 3 * doff + 4 <= d.Length
    ensures (3 * doff) / 4 < doff
    ensures Slot(d, 3 * doff, 0, 0) == RgbaAt(d, (3 * doff) / 4, (3 * doff) % 4)
    ensures doff == 1 ==> Slot(d, 3 * doff, 0, 0) == RgbaAt(d, 0, 3)
  {
  }

  /** The fourth byte of a translucent pixel: blended towards the blue
      channel (0 here) as written, an opaque destination pixel under half
      coverage loses half its alpha; blended towards the pen's alpha, it
      stays opaque. */
  lemma FourthByteTowardsBlue()
    ensures RgbaCopyByte(Pen(0, 0, 0, 255), Fourth(Pen(0, 0, 0, 255), true), 128, 3, 255) == 127
    ensures RgbaCopyByte(Pen(0, 0, 0, 255), Fourth(Pen(0, 0, 0, 255), false), 128, 3, 255) == 255
  {
  }

  /** A run read with any step other than 1 differs, from its second pixel
      on, from the run the as-written copies read. */
  lemma {:induction false} StepIgnored(soff: nat, step: int, i: nat)
    requires step != 1 && i >= 1
    ensures SrcPixel(soff, step, i) != SrcPixel(soff, 1, i)
  {
    if step > 1 {
      MulMono(1, step - 1, i);
      assert i * step == i * (step - 1) + i;
    } else {
      MulMono(0, 1 - step, i);
      assert i * step == i - i * (1 - step);
      assert i * (1 - step) >= i by {
        MulMono(1, 1 - step, i);
      }
    }
  }

  /** copy RGBA_RGBA with its three faults corrected: pixel doff + i of the
      destination (bytes 4 * (doff + i) ..) receives source pixel
      soff + i * step, and the fourth byte of a translucent pixel is
      blended towards the pen's alpha. */
  method RgbaRgbaFixed(src: Surface, soff: nat, dest: Surface, doff: nat, cnt: nat, step: int)
    requires cnt >= 1 && 4 * (doff + cnt) <= dest.data.Length
    requires dest.mask.Some? ==> doff + cnt <= dest.mask.value.Length
    requires MaskApart(dest) && src.data != dest.data
    requires SourceCovers(src, soff, step, cnt)
    modifies dest.data
    ensures forall j, k :: doff <= j < doff + cnt && 0 <= k < 4 ==>
      RgbaAt(dest.data, j, k) ==
        RgbaCopyByte(CopyPen(src, soff, step, j - doff), CopyPen(src, soff, step, j - doff).a,
                     FillAlpha(CopyPen(src, soff, step, j - doff), dest, j), k, old(RgbaAt(dest.data, j, k)))
    ensures forall x :: 0 <= x < dest.data.Length && !(4 * doff <= x < 4 * (doff + cnt)) ==>
      dest.data[x] == old(dest.data[x])
  {
    RgbaSlotsFrom(src, soff, step, dest, doff, 4 * doff, cnt, false);
    forall j, k | doff <= j < doff + cnt && 0 <= k < 4
      ensures RgbaAt(dest.data, j, k) ==
        RgbaCopyByte(CopyPen(src, soff, step, j - doff), CopyPen(src, soff, step, j - doff).a,
                     FillAlpha(CopyPen(src, soff, step, j - doff), dest, j), k, old(RgbaAt(dest.data, j, k)))
    {
      assert RgbaAt(dest.data, j, k) == Slot(dest.data, 4 * doff, j - doff, k);
      assert old(RgbaAt(dest.data, j, k)) == old(Slot(dest.data, 4 * doff, j - doff, k));
    }
  }

  // ---------------------------------------------------------------------
  // Palette8 and Mask8 destinations

  /** copy P_P (lines 477-487): each palette index read from the source
      replaces the destination byte unless it is 0, the transparent index;
      the source advances by src_step. */
  method PP(src: Surface, soff: nat, dest: Surface, doff: nat, cnt: nat, step: int)
    requires cnt >= 1 && doff + cnt <= dest.data.Length
    requires src.data != dest.data && ByteSourceCovers(src, soff, step, cnt)
    modifies dest.data
    ensures forall x :: 0 <= x < dest.data.Length ==>
      dest.data[x] == (if doff <= x < doff + cnt && src.data[SrcPixel(soff, step, x - doff)] != 0
                       then src.data[SrcPixel(soff, step, x - doff)] else old(dest.data[x]))
  {
    var d := dest.data;
    var s: int := soff;
    var q := doff;
    while q < doff + cnt
      invariant doff <= q <= doff + cnt && s == SrcPixel(soff, step, q - doff)
      invariant forall x :: 0 <= x < d.Length ==>
        d[x] == (if doff <= x < q && src.data[SrcPixel(soff, step, x - doff)] != 0
                 then src.data[SrcPixel(soff, step, x - doff)] else old(d[x]))
    {
      if src.data[s] != 0 {
        d[q] := src.data[s];
      }
      assert SrcPixel(soff, step, q + 1 - doff) == s + step;
      q, s := q + 1, s + step;
    }
  }

  /** copy M_M (lines 489-497): each destination mask byte is blended
      towards the source mask byte with the destination's global alpha;
      the source advances by src_step. */
  method MM(src: Surface, soff: nat, dest: Surface, doff: nat, cnt: nat, step: int)
    requires cnt >= 1 && doff + cnt <= dest.data.Length
    requires src.data != dest.data && ByteSourceCovers(src, soff, step, cnt)
    modifies dest.data
    ensures forall x :: 0 <= x < dest.data.Length ==>
      dest.data[x] == (if doff <= x < doff + cnt
                       then Blend(src.data[SrcPixel(soff, step, x - doff)], old(dest.data[x]), dest.alpha)
                       else old(dest.data[x]))
  {
    var d := dest.data;
    var s: int := soff;
    var q := doff;
    while q < doff + cnt
      invariant doff <= q <= doff + cnt && s == SrcPixel(soff, step, q - doff)
      invariant forall x :: 0 <= x < d.Length ==>
        d[x] == (if doff <= x < q then Blend(src.data[SrcPixel(soff, step, x - doff)], old(d[x]), dest.alpha)
                 else old(d[x]))
    {
      d[q] := Blend(src.data[s], d[q], dest.alpha);
      assert SrcPixel(soff, step, q + 1 - doff) == s + step;
      q, s := q + 1, s + step;
    }
  }
}
