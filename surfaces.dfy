/**
 * The surfaces the blend runs read and write, and the per-pixel rule they
 * all share: combine the pen's alpha with the surface's global alpha (and
 * the mask byte, when the surface has a mask), then write the colour, blend
 * it in, or leave the pixel alone.
 */
module Surfaces {
  import opened Pixels
  import opened Wrappers

  /** A destination or source surface as the blend runs see it. `data` is
      the pixel buffer, `mask` the buffer of the optional Mask8 surface
      attached to it, `palette` the optional 256-entry palette of a Palette8
      surface. `phase` is the address of data[0] modulo 4, which decides
      where the word-aligned fast paths start. */
  datatype Surface = Surface(
    data: array<byte>,
    mask: Option<array<byte>>,
    alpha: byte,
    palette: Option<seq<Pen>>,
    useDma2d: bool,
    phase: nat)

  /** The mask buffer, as a frame. */
  function MaskFrame(s: Surface): set<object>
  {
    if s.mask.Some? then {s.mask.value} else {}
  }

  /** A surface whose mask (if any) is a buffer of its own, distinct from
      the pixel data the runs write. */
  predicate MaskApart(s: Surface)
  {
    s.mask.Some? ==> s.mask.value != s.data
  }

  /** The alpha a fill run uses for pixel j, stored as the source does into
      a uint16_t: alpha(pen.a, mask[j], surface.alpha) with a mask,
      alpha(pen.a, surface.alpha) without. */
  function FillAlpha(pen: Pen, dest: Surface, j: nat): nat
    reads MaskFrame(dest)
    requires dest.mask.Some? ==> j < dest.mask.value.Length
  {
    ToU16(if dest.mask.Some? then Alpha3(pen.a, dest.mask.value[j], dest.alpha) else Alpha2(pen.a, dest.alpha))
  }

  /** The three-way rule every per-pixel loop applies to one colour byte:
      at alpha 255 or more the colour is written, at a positive alpha it is
      blended in, at alpha 0 the byte is left as it was. */
  function Over(s: byte, a: nat, prev: byte): byte
  {
    if a >= 255 then s else if a > 0 then Blend(s, prev, a) else prev
  }

  /** Byte k of an RGBA8888 pixel after a fill with combined alpha a: an
      opaque fill stores the colour with alpha byte 255, a translucent one
      blends all four channels including the pen's alpha. */
  function RgbaFillByte(pen: Pen, a: nat, k: nat, prev: byte): byte
    requires k < 4
  {
    if k == 3 && a >= 255 then 255 else Over(Channel(pen, k), a, prev)
  }

  /** Channel k of pixel j of an RGB888 buffer (three bytes per pixel). */
  function RgbAt(d: array<byte>, j: nat, k: nat): byte
    reads d
    requires k < 3 && 3 * j + k < d.Length
  {
    d[3 * j + k]
  }

  /** Channel k of pixel j of an RGBA8888 buffer (four bytes per pixel). */
  function RgbaAt(d: array<byte>, j: nat, k: nat): byte
    reads d
    requires k < 4 && 4 * j + k < d.Length
  {
    d[4 * j + k]
  }

  /** Pixel x exists in a source surface: a byte of a Palette8 source
      (whose palette has its 256 entries) or four bytes of an RGBA8888
      source. */
  predicate InSource(src: Surface, x: int)
  {
    0 <= x &&
    if src.palette.Some? then x < src.data.Length && |src.palette.value| == 256
    else 4 * x + 4 <= src.data.Length
  }

  /** The pen of source pixel x: the palette entry named by byte x of a
      Palette8 source, or the four bytes of pixel x of an RGBA8888 source
      read as a pen. */
  function SourcePen(src: Surface, x: int): Pen
    reads src.data
    requires InSource(src, x)
  {
    if src.palette.Some? then src.palette.value[src.data[x]]
    else Pen(src.data[4 * x], src.data[4 * x + 1], src.data[4 * x + 2], src.data[4 * x + 3])
  }

  /** A request handed to the DMA2D accelerator: fill `count` RGB888 pixels
      of the destination from pixel `offset` with the pen. */
  datatype Dma2dRequest = Dma2dRequest(pen: Pen, offset: nat, count: nat)

  /** The accelerator's interface as the software sees it: the requests it
      has been given, in order. The hardware writes the pixels of a request
      into the destination; which values it writes there is not part of
      this model, only that it writes nothing outside the run. */
  class Accelerator {
    var requests: seq<Dma2dRequest>

    constructor()
      ensures requests == []
    {
      requests := [];
    }

    /** `blit::api.dma2d_RGBA_RGB(pen, dest, off, cnt)`: the request is
        recorded, and the destination may change inside the run of RGB888
        pixels it names and nowhere else. */
    method RgbaRgb(pen: Pen, d: array<byte>, offset: nat, count: nat)
      requires 3 * (offset + count) <= d.Length
      modifies this, d
      ensures requests == old(requests) + [Dma2dRequest(pen, offset, count)]
      ensures forall i :: 0 <= i < d.Length && !(3 * offset <= i < 3 * (offset + count)) ==> d[i] == old(d[i])
    {
      requests := requests + [Dma2dRequest(pen, offset, count)];
    }
  }

  // ---------------------------------------------------------------------
  // Properties of the per-pixel rule

  /** The combined alpha of a fill never exceeds 256, so the uint16_t store
      keeps it. It counts as opaque (255 or more) exactly when the inputs
      together fall short of full opacity by at most one step: a pen alpha
      of 254 on an opaque surface is already drawn as a solid colour. */
  lemma {:induction false} FillAlphaRange(pen: Pen, dest: Surface, j: nat)
    requires dest.mask.Some? ==> j < dest.mask.value.Length
    ensures FillAlpha(pen, dest, j) <= 256
    ensures dest.mask.None? ==> (FillAlpha(pen, dest, j) >= 255 <==> pen.a + dest.alpha >= 509)
    ensures dest.mask.Some? ==> (FillAlpha(pen, dest, j) >= 255 <==> pen.a + dest.mask.value[j] + dest.alpha >= 764)
  {
    if dest.mask.Some? {
      Alpha3OfBytes(pen.a, dest.mask.value[j], dest.alpha);
      Alpha3Opaque(pen.a, dest.mask.value[j], dest.alpha);
    } else {
      Alpha2OfBytes(pen.a, dest.alpha);
      Alpha2Opaque(pen.a, dest.alpha);
    }
  }

  /** The 2-argument combiner reaches 255 exactly when its byte inputs add
      up to 509 or more. */
  lemma {:induction false} Alpha2Opaque(a1: byte, a2: byte)
    ensures Alpha2(a1, a2) >= 255 <==> a1 + a2 >= 509
  {
    Alpha2OfBytes(a1, a2);
    var x, y := a1 + 1, a2 + 1;
    if a1 + a2 >= 509 {
      assert (x == 256 && y == 256) || (x == 255 && y == 256) || (x == 256 && y == 255);
    } else if a1 <= 253 {
      MulMono(x, 254, y);
      MulMono(y, 256, 254);
    } else if a2 <= 253 {
      MulMono(y, 254, x);
      MulMono(x, 256, 254);
    } else {
      assert x == 255 && y == 255;
    }
  }

  /** The 3-argument combiner reaches 255 exactly when its byte inputs add
      up to 764 or more. */
  lemma {:induction false} Alpha3Opaque(a1: byte, a2: byte, a3: byte)
    ensures Alpha3(a1, a2, a3) >= 255 <==> a1 + a2 + a3 >= 764
  {
    Alpha3OfBytes(a1, a2, a3);
    var x, y, z := a1 + 1, a2 + 1, a3 + 1;
    var p2 := x * y;
    ScaledBound(x, y, 256);
    if a1 + a2 + a3 >= 764 {
      assert p2 == 65536 || p2 == 65280;
      assert p2 == 65280 ==> z == 256;
    } else if a1 + a2 >= 509 {
      Alpha2Opaque(a1, a2);
      assert z <= 254 || (z == 255 && p2 == 65280);
      if z <= 254 {
        MulMono(z, 254, p2);
        MulMono(p2, 65536, 254);
      }
    } else {
      Alpha2Opaque(a1, a2);
      Alpha2OfBytes(a1, a2);
      assert p2 < 65280;
      MulMono(p2, 65279, z);
      MulMono(z, 256, 65279);
    }
  }
}
