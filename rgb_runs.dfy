/**
 * The RGB888 run writers of blend.cpp: blend_rgba_rgb, copy_rgba_rgb and
 * copy_rgba_rgb_opt. Each writes c pixels of one pen colour, three bytes
 * per pixel, starting at byte `start` of the buffer.
 *
 * Memory is an array of bytes. The source tests the machine address it
 * writes to for 4-byte alignment; here that address, modulo 4, is the
 * explicit parameter `phase` (the address of byte `start`), so the
 * address of byte q is aligned exactly when (phase + q - start) % 4 == 0.
 *
 * For runs of five pixels or more the source packs the colour into a
 * rotating 32-bit word and stores whole words. The methods named as in
 * the source model that code as written; the methods ending in `Fixed`
 * are the corrected routines, proved to write exactly what the naive byte
 * loop writes, for every run length and every alignment phase.
 */
module RgbRuns {
  import opened Pixels
  import opened Words

  /** Bytes written one at a time before the address reaches a multiple of
      four, for a start address with the given phase. */
  function Lead(phase: nat): (n: nat)
    requires phase < 4
    ensures n < 4 && (phase + n) % 4 == 0
  {
    (4 - phase) % 4
  }

  /** The alignment loop stops at the lead count and not before. */
  lemma LeadIsFirstAligned(phase: nat, j: nat)
    requires phase < 4 && j <= Lead(phase)
    ensures (phase + j) % 4 == 0 <==> j == Lead(phase)
  {
  }

  /** How many bytes, counted from the start, the word-storing routines as
      written actually touch: all 3c for at most four pixels, otherwise
      the leading bytes and the whole words, but never the trailing bytes.
      The run is complete exactly when no trailing bytes remain. */
  function Span(c: nat, phase: nat): (n: nat)
    requires phase < 4
    ensures n <= 3 * c && 3 * c - n < 4
    ensures n == 3 * c <==> c <= 4 || (3 * c - Lead(phase)) % 4 == 0
  {
    if c <= 4 then 3 * c else Lead(phase) + 4 * ((3 * c - Lead(phase)) / 4)
  }

  /** Twelve-byte groups and single words together cover the same whole
      words as single words alone. */
  lemma {:induction false} GroupsThenWords(n: nat)
    ensures 12 * (n / 12) + 4 * ((n - 12 * (n / 12)) / 4) == 4 * (n / 4)
  {
    var g := n / 12;
    var r := n - 12 * g;
    assert 0 <= r < 12;
    assert n == 4 * (3 * g) + r;
    assert n / 4 == 3 * g + r / 4;
  }

  /** The byte the copy routines as written leave at offset k of a run of
      c pixels: the alignment prologue stores the top-byte mask of the
      word, whose uint8_t value is 0, instead of the colour byte. */
  function CopiedByte(p: Pen, c: nat, phase: nat, k: nat): byte
    requires phase < 4
  {
    if c > 4 && k < Lead(phase) then 0 else RgbByte(p, k)
  }

  /** When the copy routines as written agree with the naive byte loop:
      always for at most four pixels, and for longer runs exactly when the
      start is aligned and 3c is a multiple of four (for a pen whose red
      byte is not 0, since otherwise a zeroed lead byte goes unseen). */
  lemma {:induction false} WordPathsAgreeWithBytes(p: Pen, c: nat, phase: nat)
    requires phase < 4
    ensures c <= 4 || (phase == 0 && (3 * c) % 4 == 0) ==>
      Span(c, phase) == 3 * c && forall k :: 0 <= k < 3 * c ==> CopiedByte(p, c, phase, k) == RgbByte(p, k)
    ensures p.r != 0 && Span(c, phase) == 3 * c && (forall k :: 0 <= k < 3 * c ==> CopiedByte(p, c, phase, k) == RgbByte(p, k)) ==>
      c <= 4 || (phase == 0 && (3 * c) % 4 == 0)
  {
    if c > 4 && phase != 0 && p.r != 0 {
      assert Lead(phase) > 0;
      assert CopiedByte(p, c, phase, 0) != RgbByte(p, 0);
    }
  }

  /** Five pixels at offset 1 of an RGB888 buffer whose start is
      word-aligned (so the run starts at phase 3): the copy as written
      zeroes the first byte and leaves the last two bytes of the run
      unwritten. */
  lemma FivePixelsAtPhaseThree()
    ensures Lead(3) == 1 && Span(5, 3) == 13
    ensures CopiedByte(Pen(10, 20, 30, 255), 5, 3, 0) == 0 && RgbByte(Pen(10, 20, 30, 255), 0) == 10
  {
  }

  /** A little-endian store of one word at byte q. */
  method StoreWord(mem: array<byte>, q: nat, w: Word)
    requires q + 4 <= mem.Length
    modifies mem
    ensures mem[q] == ByteOf(w, 0) && mem[q + 1] == ByteOf(w, 1)
    ensures mem[q + 2] == ByteOf(w, 2) && mem[q + 3] == ByteOf(w, 3)
    ensures forall i :: 0 <= i < mem.Length && !(q <= i < q + 4) ==> mem[i] == old(mem[i])
  {
    mem[q] := ByteOf(w, 0);
    mem[q + 1] := ByteOf(w, 1);
    mem[q + 2] := ByteOf(w, 2);
    mem[q + 3] := ByteOf(w, 3);
  }

  /** The word store of blend_rgba_rgb: each of the four masked fields of
      the source word s32 blended into the same field of the destination
      word dd32, the results ORed back into one word. */
  function BlendWord(s32: Word, dd32: Word, a: byte): Word
  {
    Pack(Blend(ByteOf(s32, 0), ByteOf(dd32, 0), a),
         Blend(ByteOf(s32, 1), ByteOf(dd32, 1), a),
         Blend(ByteOf(s32, 2), ByteOf(dd32, 2), a),
         Blend(ByteOf(s32, 3), ByteOf(dd32, 3), a))
  }

  /** At a pixel boundary the run continues with red, green and blue. */
  lemma {:induction false} PixelBytes(p: Pen, j: nat)
    ensures RgbByte(p, 3 * j) == p.r && RgbByte(p, 3 * j + 1) == p.g && RgbByte(p, 3 * j + 2) == p.b
  {
    if j > 0 {
      PixelBytes(p, j - 1);
    }
  }

  /** The short-run loop of blend_rgba_rgb (also its single-pixel case):
      `c` pixels, three blended byte stores each. */
  method BlendPixels(p: Pen, d: array<byte>, start: nat, a: byte, c: nat)
    requires start + 3 * c <= d.Length
    modifies d
    ensures forall i :: 0 <= i < d.Length ==>
      d[i] == (if start <= i < start + 3 * c then Blend(RgbByte(p, i - start), old(d[i]), a) else old(d[i]))
  {
    var n, q := c, start;
    while n > 0
      invariant 0 <= n <= c && q == start + 3 * (c - n)
      invariant forall i :: 0 <= i < d.Length ==>
        d[i] == (if start <= i < q then Blend(RgbByte(p, i - start), old(d[i]), a) else old(d[i]))
    {
      PixelBytes(p, c - n);
      d[q] := Blend(p.r, d[q], a);
      d[q + 1] := Blend(p.g, d[q + 1], a);
      d[q + 2] := Blend(p.b, d[q + 2], a);
      q, n := q + 3, n - 1;
    }
  }

  /** The short-run loop of the copy routines (also their single-pixel
      case): `c` pixels written as r, g, b. */
  method CopyPixels(p: Pen, d: array<byte>, start: nat, c: nat)
    requires start + 3 * c <= d.Length
    modifies d
    ensures forall i :: 0 <= i < d.Length ==>
      d[i] == (if start <= i < start + 3 * c then RgbByte(p, i - start) else old(d[i]))
  {
    var n, q := c, start;
    while n > 0
      invariant 0 <= n <= c && q == start + 3 * (c - n)
      invariant forall i :: 0 <= i < d.Length ==>
        d[i] == (if start <= i < q then RgbByte(p, i - start) else old(d[i]))
    {
      PixelBytes(p, c - n);
      d[q] := p.r;
      d[q + 1] := p.g;
      d[q + 2] := p.b;
      q, n := q + 3, n - 1;
    }
  }

  /** blend_rgba_rgb as written (lines 31-89): the bytes of the first
      Span(c, phase) positions are blended with the colour, everything
      else, including the trailing bytes of a long run, is left as it
      was. */
  method BlendRgbaRgb(p: Pen, d: array<byte>, start: nat, phase: nat, a: byte, c: nat)
    requires phase < 4 && start + 3 * c <= d.Length
    modifies d
    ensures forall i :: 0 <= i < d.Length ==>
      d[i] == (if start <= i < start + Span(c, phase) then Blend(RgbByte(p, i - start), old(d[i]), a) else old(d[i]))
  {
    if c <= 4 {
      BlendPixels(p, d, start, a, c);
      return;
    }
    var q, s32 := BlendWords(p, d, start, phase, a, c);
    // the trailing loop restarts from the run end, so it never runs
  }

  /** The corrected blend_rgba_rgb: the trailing loop starts where the
      words end, so every one of the 3c bytes is blended. */
  method BlendRgbaRgbFixed(p: Pen, d: array<byte>, start: nat, phase: nat, a: byte, c: nat)
    requires phase < 4 && start + 3 * c <= d.Length
    modifies d
    ensures forall i :: 0 <= i < d.Length ==>
      d[i] == (if start <= i < start + 3 * c then Blend(RgbByte(p, i - start), old(d[i]), a) else old(d[i]))
  {
    if c <= 4 {
      BlendPixels(p, d, start, a, c);
      return;
    }
    var q, s32 := BlendWords(p, d, start, phase, a, c);
    // the trailing loop restarts where the words ended
    BlendTail(p, d, start, q, start + 3 * c, s32, a);
  }

  /** The trailing loop of the corrected blend_rgba_rgb: the at most three
      bytes after the last word are blended from the low bytes of s32,
      shifting it down after each. */
  method BlendTail(p: Pen, d: array<byte>, start: nat, q0: nat, de: nat, s32: Word, a: byte)
    requires start <= q0 <= de <= d.Length && de - q0 < 4 && s32 == RunWord(p, q0 - start)
    modifies d
    ensures forall i :: 0 <= i < d.Length ==>
      d[i] == (if q0 <= i < de then Blend(RgbByte(p, i - start), old(d[i]), a) else old(d[i]))
  {
    var q, w := q0, s32;
    while q < de
      invariant q0 <= q <= de
      invariant de - q > 0 ==> ByteOf(w, 0) == RgbByte(p, q - start)
      invariant de - q > 1 ==> ByteOf(w, 1) == RgbByte(p, q - start + 1)
      invariant de - q > 2 ==> ByteOf(w, 2) == RgbByte(p, q - start + 2)
      invariant forall i :: 0 <= i < d.Length ==>
        d[i] == (if q0 <= i < q then Blend(RgbByte(p, i - start), old(d[i]), a) else old(d[i]))
    {
      d[q] := Blend(Lo8(And(w, LowByteMask)), d[q], a);
      w, q := Shr8(w), q + 1;
    }
  }

  /** Lines 51-82 of blend_rgba_rgb for a run of more than four pixels:
      build the RGBR word, blend single bytes up to alignment, then blend
      whole words; returns the byte where the words end and the rotated
      source word at that point. */
  method BlendWords(p: Pen, d: array<byte>, start: nat, phase: nat, a: byte, c: nat) returns (q: nat, s32: Word)
    requires phase < 4 && start + 3 * c <= d.Length && c > 4
    modifies d
    ensures q == start + Span(c, phase) && s32 == RunWord(p, Span(c, phase))
    ensures forall i :: 0 <= i < d.Length ==>
      d[i] == (if start <= i < q then Blend(RgbByte(p, i - start), old(d[i]), a) else old(d[i]))
  {
    q, s32 := BlendLead(p, d, start, phase, a);
    var de := start + 3 * c;
    ghost var k := Lead(phase);
    // d < de holds here: the run is longer than the three lead bytes.
    var c32 := (de - q) / 4;
    ghost var n := 3 * c - Lead(phase);
    assert de - q == n;
    while c32 > 0
      invariant 0 <= c32 && Lead(phase) <= k && k + 4 * c32 == Lead(phase) + 4 * (n / 4) && q == start + k
      invariant s32 == RunWord(p, k)
      invariant forall i :: 0 <= i < d.Length ==>
        d[i] == (if start <= i < q then Blend(RgbByte(p, i - start), old(d[i]), a) else old(d[i]))
    {
      BlendWordAt(p, d, start, q, s32, a);
      RotateRunWord(p, k);
      s32, q, k, c32 := Rotate(s32), q + 4, k + 4, c32 - 1;
    }
    assert Span(c, phase) == Lead(phase) + 4 * (n / 4);
  }

  /** The alignment prologue of blend_rgba_rgb (lines 51-62): the RGBR word
      is built and bytes are blended one at a time, rotating the word after
      each, until the address is 4-byte aligned. */
  method BlendLead(p: Pen, d: array<byte>, start: nat, phase: nat, a: byte) returns (q: nat, s32: Word)
    requires phase < 4 && start + 3 <= d.Length
    modifies d
    ensures q == start + Lead(phase) && s32 == RunWord(p, Lead(phase))
    ensures forall i :: 0 <= i < d.Length ==>
      d[i] == (if start <= i < q then Blend(RgbByte(p, i - start), old(d[i]), a) else old(d[i]))
  {
    s32 := Rgbr(p);
    RgbrIsRunWord(p);
    q := start;
    ghost var k := 0;
    while (phase + (q - start)) % 4 != 0
      invariant k <= Lead(phase) && q == start + k
      invariant s32 == RunWord(p, k)
      invariant forall i :: 0 <= i < d.Length ==>
        d[i] == (if start <= i < q then Blend(RgbByte(p, i - start), old(d[i]), a) else old(d[i]))
      decreases Lead(phase) - k
    {
      LeadIsFirstAligned(phase, k);
      d[q] := Blend(Lo8(And(s32, LowByteMask)), d[q], a);
      RotateRunWord(p, k);
      s32, q, k := Rotate(s32), q + 1, k + 1;
    }
    LeadIsFirstAligned(phase, k);
  }

  /** One pass of the word loop of blend_rgba_rgb: load the destination
      word at q, blend the run word s32 into it and store it back. */
  method BlendWordAt(p: Pen, d: array<byte>, start: nat, q: nat, s32: Word, a: byte)
    requires start <= q && q + 4 <= d.Length && s32 == RunWord(p, q - start)
    modifies d
    ensures forall i :: 0 <= i < d.Length ==>
      d[i] == (if q <= i < q + 4 then Blend(RgbByte(p, i - start), old(d[i]), a) else old(d[i]))
  {
    var dd32 := Pack(d[q], d[q + 1], d[q + 2], d[q + 3]);
    StoreWord(d, q, BlendWord(s32, dd32, a));
    ghost var k := q - start;
    assert d[q] == Blend(RgbByte(p, k), old(d[q]), a);
    assert d[q + 1] == Blend(RgbByte(p, k + 1), old(d[q + 1]), a);
    assert d[q + 2] == Blend(RgbByte(p, k + 2), old(d[q + 2]), a);
    assert d[q + 3] == Blend(RgbByte(p, k + 3), old(d[q + 3]), a);
  }

  // ---------------------------------------------------------------------
  // copy_rgba_rgb and copy_rgba_rgb_opt

  /** copy_rgba_rgb as written (lines 91-139). For a run of more than four
      pixels the lead bytes are zeroed and the trailing bytes are not
      written: the first Span(c, phase) bytes hold CopiedByte, everything
      else is left as it was. The do-while of the short case needs c >= 1. */
  method CopyRgbaRgb(p: Pen, d: array<byte>, start: nat, phase: nat, c: nat)
    requires phase < 4 && start + 3 * c <= d.Length && c >= 1
    modifies d
    ensures forall i :: 0 <= i < d.Length ==>
      d[i] == (if start <= i < start + Span(c, phase) then CopiedByte(p, c, phase, i - start) else old(d[i]))
  {
    if c <= 4 {
      CopyPixels(p, d, start, c);
      return;
    }
    var q, s32 := CopyLead(p, d, start, phase);
    var de := start + 3 * c;
    // d < de holds here: the run is longer than the three lead bytes.
    q, s32 := CopyWords(p, d, start, q, s32, (de - q) / 4);
    // the trailing loop restarts from the run end, so it never runs
  }

  /** copy_rgba_rgb_opt as written (lines 141-203): twelve-byte groups of
      three words first, then single words; it writes exactly what
      copy_rgba_rgb writes, zeroed lead bytes and missing trailing bytes
      included. */
  method CopyRgbaRgbOpt(p: Pen, d: array<byte>, start: nat, phase: nat, c: nat)
    requires phase < 4 && start + 3 * c <= d.Length && c >= 1
    modifies d
    ensures forall i :: 0 <= i < d.Length ==>
      d[i] == (if start <= i < start + Span(c, phase) then CopiedByte(p, c, phase, i - start) else old(d[i]))
  {
    if c <= 4 {
      CopyPixels(p, d, start, c);
      return;
    }
    var q, s32 := CopyLead(p, d, start, phase);
    q, s32 := CopyGroupsThenWords(p, d, start, q, s32, start + 3 * c);
    // the trailing loop restarts from the run end, so it never runs
  }

  /** The corrected copy_rgba_rgb: the lead bytes store the word's low byte and the
      trailing loop starts where the words end, so the run is the naive
      r, g, b pattern for every length and alignment. */
  method CopyRgbaRgbFixed(p: Pen, d: array<byte>, start: nat, phase: nat, c: nat)
    requires phase < 4 && start + 3 * c <= d.Length && c >= 1
    modifies d
    ensures forall i :: 0 <= i < d.Length ==>
      d[i] == (if start <= i < start + 3 * c then RgbByte(p, i - start) else old(d[i]))
  {
    if c <= 4 {
      CopyPixels(p, d, start, c);
      return;
    }
    var q, s32 := CopyLeadFixed(p, d, start, phase);
    var de := start + 3 * c;
    q, s32 := CopyWords(p, d, start, q, s32, (de - q) / 4);
    // the trailing loop restarts where the words ended
    CopyTail(p, d, start, q, de, s32);
  }

  /** The corrected copy_rgba_rgb_opt, with the same two corrections. */
  method CopyRgbaRgbOptFixed(p: Pen, d: array<byte>, start: nat, phase: nat, c: nat)
    requires phase < 4 && start + 3 * c <= d.Length && c >= 1
    modifies d
    ensures forall i :: 0 <= i < d.Length ==>
      d[i] == (if start <= i < start + 3 * c then RgbByte(p, i - start) else old(d[i]))
  {
    if c <= 4 {
      CopyPixels(p, d, start, c);
      return;
    }
    var q, s32 := CopyLeadFixed(p, d, start, phase);
    var de := start + 3 * c;
    q, s32 := CopyGroupsThenWords(p, d, start, q, s32, de);
    // the trailing loop restarts where the words ended
    CopyTail(p, d, start, q, de, s32);
  }

  /** The alignment prologue of the copy routines as written: each lead
      byte receives the top-byte mask of the word, whose uint8_t value is 0. */
  method CopyLead(p: Pen, d: array<byte>, start: nat, phase: nat) returns (q: nat, s32: Word)
    requires phase < 4 && start + 3 <= d.Length
    modifies d
    ensures q == start + Lead(phase) && s32 == RunWord(p, Lead(phase))
    ensures forall i :: 0 <= i < d.Length ==> d[i] == (if start <= i < q then 0 else old(d[i]))
  {
    s32 := Rgbr(p);
    RgbrIsRunWord(p);
    q := start;
    ghost var k := 0;
    while (phase + (q - start)) % 4 != 0
      invariant k <= Lead(phase) && q == start + k
      invariant s32 == RunWord(p, k)
      invariant forall i :: 0 <= i < d.Length ==> d[i] == (if start <= i < q then 0 else old(d[i]))
      decreases Lead(phase) - k
    {
      LeadIsFirstAligned(phase, k);
      TopMaskStoresZero(s32);
      d[q] := Lo8(And(s32, TopByteMask));
      RotateRunWord(p, k);
      s32, q, k := Rotate(s32), q + 1, k + 1;
    }
    LeadIsFirstAligned(phase, k);
  }

  /** The corrected alignment prologue: each lead byte receives the low
      byte of the rotating word. */
  method CopyLeadFixed(p: Pen, d: array<byte>, start: nat, phase: nat) returns (q: nat, s32: Word)
    requires phase < 4 && start + 3 <= d.Length
    modifies d
    ensures q == start + Lead(phase) && s32 == RunWord(p, Lead(phase))
    ensures forall i :: 0 <= i < d.Length ==> d[i] == (if start <= i < q then RgbByte(p, i - start) else old(d[i]))
  {
    s32 := Rgbr(p);
    RgbrIsRunWord(p);
    q := start;
    ghost var k := 0;
    while (phase + (q - start)) % 4 != 0
      invariant k <= Lead(phase) && q == start + k
      invariant s32 == RunWord(p, k)
      invariant forall i :: 0 <= i < d.Length ==> d[i] == (if start <= i < q then RgbByte(p, i - start) else old(d[i]))
      decreases Lead(phase) - k
    {
      LeadIsFirstAligned(phase, k);
      d[q] := Lo8(And(s32, LowByteMask));
      RotateRunWord(p, k);
      s32, q, k := Rotate(s32), q + 1, k + 1;
    }
    LeadIsFirstAligned(phase, k);
  }

  /** One word store of the run word: the four run bytes at q. */
  method CopyWordAt(p: Pen, d: array<byte>, start: nat, q: nat, w: Word)
    requires start <= q && q + 4 <= d.Length && w == RunWord(p, q - start)
    modifies d
    ensures forall i :: 0 <= i < d.Length ==>
      d[i] == (if q <= i < q + 4 then RgbByte(p, i - start) else old(d[i]))
  {
    StoreWord(d, q, w);
    ghost var k := q - start;
    assert d[q] == RgbByte(p, k) && d[q + 1] == RgbByte(p, k + 1);
    assert d[q + 2] == RgbByte(p, k + 2) && d[q + 3] == RgbByte(p, k + 3);
  }

  /** The single-word loop: `count` words, rotating the word after each. */
  method CopyWords(p: Pen, d: array<byte>, start: nat, q0: nat, s0: Word, count: nat) returns (q: nat, s32: Word)
    requires start <= q0 && q0 + 4 * count <= d.Length && s0 == RunWord(p, q0 - start)
    modifies d
    ensures q == q0 + 4 * count && s32 == RunWord(p, q - start)
    ensures forall i :: 0 <= i < d.Length ==>
      d[i] == (if q0 <= i < q then RgbByte(p, i - start) else old(d[i]))
  {
    var c32 := count;
    q, s32 := q0, s0;
    while c32 > 0
      invariant 0 <= c32 && q + 4 * c32 == q0 + 4 * count && q0 <= q
      invariant s32 == RunWord(p, q - start)
      invariant forall i :: 0 <= i < d.Length ==>
        d[i] == (if q0 <= i < q then RgbByte(p, i - start) else old(d[i]))
    {
      CopyWordAt(p, d, start, q, s32);
      RotateRunWord(p, q - start);
      s32, q, c32 := Rotate(s32), q + 4, c32 - 1;
    }
  }

  /** Lines 172-196 of copy_rgba_rgb_opt: as many groups of the three
      words dw1, dw2, dw3 as twelve-byte blocks fit, then as many single
      words as four-byte blocks still fit, from
      the unrotated s32; the whole words end at the same place as with
      single words alone. */
  method CopyGroupsThenWords(p: Pen, d: array<byte>, start: nat, q0: nat, s0: Word, de: nat) returns (q: nat, s32: Word)
    requires start <= q0 <= de <= d.Length && s0 == RunWord(p, q0 - start)
    modifies d
    ensures q == q0 + 4 * ((de - q0) / 4) && s32 == RunWord(p, q - start)
    ensures forall i :: 0 <= i < d.Length ==>
      d[i] == (if q0 <= i < q then RgbByte(p, i - start) else old(d[i]))
  {
    q := CopyGroups(p, d, start, q0, s0, (de - q0) / 12);
    var g := (q - q0) / 12;
    assert q == q0 + 12 * g;
    RunWordPeriod(p, q0 - start, 4 * g);
    GroupsThenWords(de - q0);
    q, s32 := CopyWords(p, d, start, q, s0, (de - q) / 4);
  }

  /** Lines 172-185 of copy_rgba_rgb_opt: dw2 and dw3 are built from dw1
      with the 16-bit mask step, then c96 groups of the three words are
      stored. */
  method CopyGroups(p: Pen, d: array<byte>, start: nat, q0: nat, s0: Word, c96: nat) returns (q: nat)
    requires start <= q0 && q0 + 12 * c96 <= d.Length && s0 == RunWord(p, q0 - start)
    modifies d
    ensures q == q0 + 12 * c96
    ensures forall i :: 0 <= i < d.Length ==>
      d[i] == (if q0 <= i < q then RgbByte(p, i - start) else old(d[i]))
  {
    q := q0;
    if c96 > 0 {
      var dw1 := s0;
      var dw2 := NextOfGroup(dw1);
      var dw3 := NextOfGroup(dw2);
      ghost var k := q0 - start;
      NextOfGroupIsRotate(dw1);
      NextOfGroupIsRotate(dw2);
      RotateRunWord(p, k);
      RotateRunWord(p, k + 4);
      var n := c96;
      while n > 0
        invariant 0 <= n && q + 12 * n == q0 + 12 * c96 && q0 <= q && k == q - start
        invariant dw1 == RunWord(p, k) && dw2 == RunWord(p, k + 4) && dw3 == RunWord(p, k + 8)
        invariant forall i :: 0 <= i < d.Length ==>
          d[i] == (if q0 <= i < q then RgbByte(p, i - start) else old(d[i]))
      {
        CopyGroupAt(p, d, start, q, dw1, dw2, dw3);
        RunWordPeriod(p, k, 4);
        RunWordPeriod(p, k + 4, 4);
        RunWordPeriod(p, k + 8, 4);
        q, n, k := q + 12, n - 1, k + 12;
      }
    }
  }

  /** One pass of the group loop (lines 184-186 of blend.cpp): three
      consecutive word stores, twelve run bytes at q. */
  method CopyGroupAt(p: Pen, d: array<byte>, start: nat, q: nat, dw1: Word, dw2: Word, dw3: Word)
    requires start <= q && q + 12 <= d.Length
    requires dw1 == RunWord(p, q - start) && dw2 == RunWord(p, q - start + 4) && dw3 == RunWord(p, q - start + 8)
    modifies d
    ensures forall i :: 0 <= i < d.Length ==>
      d[i] == (if q <= i < q + 12 then RgbByte(p, i - start) else old(d[i]))
  {
    CopyWordAt(p, d, start, q, dw1);
    CopyWordAt(p, d, start, q + 4, dw2);
    CopyWordAt(p, d, start, q + 8, dw3);
  }

  /** The trailing loop of the corrected copy routines: the at most three
      bytes after the last word are the low bytes of s32, shifted down
      after each store. */
  method CopyTail(p: Pen, d: array<byte>, start: nat, q0: nat, de: nat, s32: Word)
    requires start <= q0 <= de <= d.Length && de - q0 < 4 && s32 == RunWord(p, q0 - start)
    modifies d
    ensures forall i :: 0 <= i < d.Length ==>
      d[i] == (if q0 <= i < de then RgbByte(p, i - start) else old(d[i]))
  {
    var q, w := q0, s32;
    while q < de
      invariant q0 <= q <= de
      invariant de - q > 0 ==> ByteOf(w, 0) == RgbByte(p, q - start)
      invariant de - q > 1 ==> ByteOf(w, 1) == RgbByte(p, q - start + 1)
      invariant de - q > 2 ==> ByteOf(w, 2) == RgbByte(p, q - start + 2)
      invariant forall i :: 0 <= i < d.Length ==>
        d[i] == (if q0 <= i < q then RgbByte(p, i - start) else old(d[i]))
    {
      d[q] := Lo8(And(w, LowByteMask));
      w, q := Shr8(w), q + 1;
    }
  }
}
