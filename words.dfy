/**
 * The 32-bit and 16-bit words that the RGB888 fast paths of blend.cpp
 * build and store. The target is little-endian: a word stored at byte
 * address q puts its low byte at q and its high byte at q + 3.
 *
 * Words are uint32_t values held as integers. The source only applies
 * shifts by whole bytes, masks of whole bytes and ORs of fields that do
 * not overlap, so each of those is written as the arithmetic it performs
 * (a right shift by 8 is division by 256, a mask keeping the low k bytes
 * is a remainder, an OR of disjoint fields is a sum).
 */
module Words {
  import opened Pixels

  /** A uint32_t as its four little-endian bytes: b0 is the low byte and the
      one a store puts at the lowest address. */
  datatype Word = Word(b0: byte, b1: byte, b2: byte, b3: byte)

  /** The numeric value of a word. */
  function Value(w: Word): (v: u32)
    ensures v % 0x100 == w.b0
  {
    w.b0 + 0x100 * w.b1 + 0x1_0000 * w.b2 + 0x100_0000 * w.b3
  }

  /** Byte k (0 = lowest) of a word, i.e. the byte a store puts at q + k;
      also the k-th byte field of the word masked out and shifted down. */
  function ByteOf(w: Word, k: nat): byte
    requires k < 4
  {
    if k == 0 then w.b0 else if k == 1 then w.b1 else if k == 2 then w.b2 else w.b3
  }

  /** A mask made of whole bytes, as every mask in the RGB888 paths is. */
  predicate IsByteMask(m: Word)
  {
    (m.b0 == 0 || m.b0 == 0xff) && (m.b1 == 0 || m.b1 == 0xff) &&
    (m.b2 == 0 || m.b2 == 0xff) && (m.b3 == 0 || m.b3 == 0xff)
  }

  /** `w & m` for a whole-byte mask m. */
  function And(w: Word, m: Word): (r: Word)
    requires IsByteMask(m)
  {
    Word(if m.b0 == 0 then 0 else w.b0, if m.b1 == 0 then 0 else w.b1,
         if m.b2 == 0 then 0 else w.b2, if m.b3 == 0 then 0 else w.b3)
  }

  /** Two words with no set bit in common: in every byte one of them is 0. */
  predicate Disjoint(x: Word, y: Word)
  {
    (x.b0 == 0 || y.b0 == 0) && (x.b1 == 0 || y.b1 == 0) &&
    (x.b2 == 0 || y.b2 == 0) && (x.b3 == 0 || y.b3 == 0)
  }

  /** `x | y` for words with no set bit in common, as every OR in the RGB888
      paths is: each byte is the one that is not zero. */
  function Or(x: Word, y: Word): Word
    requires Disjoint(x, y)
  {
    Word(x.b0 + y.b0, x.b1 + y.b1, x.b2 + y.b2, x.b3 + y.b3)
  }

  /** `w >> 8`. */
  function Shr8(w: Word): Word
  {
    Word(w.b1, w.b2, w.b3, 0)
  }

  /** `w << 16`, the high half shifted out. */
  function Shl16(w: Word): Word
  {
    Word(0, 0, w.b0, w.b1)
  }

  /** `w << 24`, the three high bytes shifted out. */
  function Shl24(w: Word): Word
  {
    Word(0, 0, 0, w.b0)
  }

  /** A byte widened to a word. */
  function FromByte(x: byte): Word
  {
    Word(x, 0, 0, 0)
  }

  /** uint8_t(w) and uint16_t(w): the low byte, the low two bytes. */
  function Lo8(w: Word): byte
  {
    w.b0
  }

  function Lo16(w: Word): Word
  {
    Word(w.b0, w.b1, 0, 0)
  }

  const LowByteMask := Word(0xff, 0, 0, 0)          // 0x000000ff
  const SecondByteMask := Word(0, 0xff, 0, 0)       // 0x0000ff00
  const Low24Mask := Word(0xff, 0xff, 0xff, 0)      // 0x00ffffff
  const TopByteMask := Word(0, 0, 0, 0xff)          // 0xff000000

  /** The word whose little-endian bytes are x0, x1, x2, x3. */
  function Pack(x0: byte, x1: byte, x2: byte, x3: byte): Word
  {
    Word(x0, x1, x2, x3)
  }

  /** The rotation at line 61 of blend.cpp: the word moves down by one
      byte, and its new low byte is copied into the top byte. */
  function Rotate(w: Word): Word
  {
    Or(Shr8(w), Shl24(FromByte(Lo8(And(Shr8(w), LowByteMask)))))
  }

  /** The pen's four bytes read as one word (line 52 of blend.cpp). */
  function PenWord(p: Pen): Word
  {
    Pack(p.r, p.g, p.b, p.a)
  }

  /** The masking at line 52 of blend.cpp: the pen word keeps its three
      low bytes, and red is copied into the top byte where alpha was. */
  function Rgbr(p: Pen): Word
  {
    Or(And(PenWord(p), Low24Mask), Shl24(And(PenWord(p), LowByteMask)))
  }

  /** The word holding bytes k .. k+3 of an endless RGB888 run of colour p. */
  function RunWord(p: Pen, k: nat): Word
  {
    Pack(RgbByte(p, k), RgbByte(p, k + 1), RgbByte(p, k + 2), RgbByte(p, k + 3))
  }

  /** The next word of the twelve-byte group (lines 181-182 of blend.cpp):
      the word moves down by one byte and its second byte goes to the top,
      taken through a 16-bit mask rather than by a rotation. */
  function NextOfGroup(w: Word): Word
  {
    Or(Shr8(w), Shl16(Lo16(And(w, SecondByteMask))))
  }

  /** The 16-bit word whose high byte is hi and whose low byte is lo. */
  function Half(hi: byte, lo: byte): nat
  {
    0x100 * hi + lo
  }

  /** Byte k (0 or 1) of a 16-bit word stored little-endian. */
  function HalfByte(h: nat, k: nat): byte
    requires h < 0x1_0000 && k < 2
  {
    if k == 0 then h % 0x100 else h / 0x100
  }

  // ---------------------------------------------------------------------

  /** The byte view agrees with the numeric one: byte k is the k-th base-256
      digit of the value, so the word really is a little-endian uint32_t. */
  lemma {:induction false} ValueDigits(w: Word)
    ensures Value(w) % 0x100 == ByteOf(w, 0)
    ensures (Value(w) / 0x100) % 0x100 == ByteOf(w, 1)
    ensures (Value(w) / 0x1_0000) % 0x100 == ByteOf(w, 2)
    ensures Value(w) / 0x100_0000 == ByteOf(w, 3)
  {
    var v := Value(w);
    assert v == w.b0 + 0x100 * (w.b1 + 0x100 * (w.b2 + 0x100 * w.b3));
    assert v / 0x100 == w.b1 + 0x100 * (w.b2 + 0x100 * w.b3);
    assert v / 0x1_0000 == w.b2 + 0x100 * w.b3;
  }

  /** Rotating the packed word of x0 .. x3 gives the packed word of
      x1, x2, x3, x1. */
  lemma RotatePack(x0: byte, x1: byte, x2: byte, x3: byte)
    ensures Rotate(Pack(x0, x1, x2, x3)) == Pack(x1, x2, x3, x1)
  {
  }

  /** The group step of line 181 is the same rotation. */
  lemma NextOfGroupIsRotate(w: Word)
    ensures NextOfGroup(w) == Rotate(w)
  {
  }

  /** The run pattern repeats every three bytes. */
  lemma {:induction false} RunWordPeriod(p: Pen, k: nat, n: nat)
    ensures RunWord(p, k + 3 * n) == RunWord(p, k)
    ensures RgbByte(p, k + 3 * n) == RgbByte(p, k)
    decreases n
  {
    if n > 0 {
      RunWordPeriod(p, k, n - 1);
      assert RgbByte(p, k + 3 * n) == RgbByte(p, k + 3 * (n - 1));
      assert RgbByte(p, k + 3 * n + 1) == RgbByte(p, k + 3 * (n - 1) + 1);
      assert RgbByte(p, k + 3 * n + 2) == RgbByte(p, k + 3 * (n - 1) + 2);
      assert RgbByte(p, k + 3 * n + 3) == RgbByte(p, k + 3 * (n - 1) + 3);
    }
  }

  /** The RGBR word is the run word at position 0. */
  lemma {:induction false} RgbrIsRunWord(p: Pen)
    ensures Rgbr(p) == RunWord(p, 0)
  {
    assert RgbByte(p, 0) == p.r && RgbByte(p, 1) == p.g;
    assert RgbByte(p, 2) == p.b && RgbByte(p, 3) == p.r;
  }

  /** One rotation advances the run word by one byte position; since the
      pattern has period three this is also a four-byte advance, which is
      why the word loops rotate once per stored word. */
  lemma {:induction false} RotateRunWord(p: Pen, k: nat)
    ensures Rotate(RunWord(p, k)) == RunWord(p, k + 1)
    ensures Rotate(RunWord(p, k)) == RunWord(p, k + 4)
  {
    RunWordPeriod(p, k, 1);
    RunWordPeriod(p, k + 1, 1);
  }

  /** The lead-byte store at line 115 of blend.cpp keeps only the top byte
      of the word and then converts it to a uint8_t, whose value is the low
      byte: the stored byte is 0 whatever the word holds. */
  lemma TopMaskStoresZero(w: Word)
    ensures Lo8(And(w, TopByteMask)) == 0
  {
  }

  /** A 16-bit word stored little-endian puts lo first and hi second. */
  lemma HalfBytes(hi: byte, lo: byte)
    ensures Half(hi, lo) < 0x1_0000
    ensures HalfByte(Half(hi, lo), 0) == lo && HalfByte(Half(hi, lo), 1) == hi
  {
  }
}
