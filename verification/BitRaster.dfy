/** The RAM view's bit picture: every visible bit of memory drawn as a block of pixels. */
module BitRaster {
  import opened Optional
  import opened Bits
  import OverlaySpec

  /** What part of memory is shown: rows of rowBytes bytes, from firstBit to lastBit of each, in blocks. */
  datatype View = View(firstBit: nat, lastBit: nat, rows: nat, rowBytes: nat, bitPx: nat, rowPx: nat)

  predicate IsView(v: View) {
    v.firstBit <= v.lastBit < v.rowBytes * 8 && v.bitPx > 0 && v.rowPx > 0
  }

  function BitCount(v: View): (n: int) { v.lastBit - v.firstBit + 1 }

  function Width(v: View): int { BitCount(v) * v.bitPx }

  function Height(v: View): int { v.rows * v.rowPx }

  function Area(v: View): int { Height(v) * Width(v) }

  lemma WidthPositive(v: View)
    requires IsView(v)
    ensures Width(v) >= v.bitPx > 0
  {
    MulAtLeast(BitCount(v), v.bitPx);
  }

  /** Which memory row the texture pixel at index q shows. */
  function CellRow(v: View, q: nat): int
    requires IsView(v)
  {
    WidthPositive(v);
    q / Width(v) / v.rowPx
  }

  /** Which visible bit of its row the texture pixel at index q shows. */
  function CellBit(v: View, q: nat): int
    requires IsView(v)
  {
    WidthPositive(v);
    q % Width(v) / v.bitPx
  }

  // ---------- Index arithmetic ----------

  /** A run of pixels of one texture row is an interval of indices. */
  lemma SpanIsRow(q: nat, w: nat, y: nat, x: nat, n: nat)
    requires w > 0 && x + n <= w
    ensures y * w + x <= q < y * w + x + n <==> q / w == y && x <= q % w < x + n
  {
    assert q == q / w * w + q % w;
    if y * w + x <= q < y * w + x + n {
      DivModUnique(q, w, y, q - y * w);
    }
  }

  lemma BlockIsQuotient(x: nat, m: nat, k: nat)
    requires m > 0
    ensures k * m <= x < k * m + m <==> x / m == k
  {
    assert x == x / m * m + x % m;
    if k * m <= x < k * m + m {
      DivModUnique(x, m, k, x - k * m);
    }
  }

  /** The k-th of n parts of size m ends within the whole. */
  lemma PartFits(k: nat, n: nat, m: nat)
    requires k < n
    ensures k * m + m <= n * m
  {
    assert (n - k - 1) * m >= 0;
    assert n * m == (k + 1) * m + (n - k - 1) * m;
  }

  lemma CellInView(v: View, q: nat)
    requires IsView(v) && q < Area(v)
    ensures 0 <= CellRow(v, q) < v.rows && 0 <= CellBit(v, q) < BitCount(v)
  {
    WidthPositive(v);
    QuotientBelow(q, Width(v), Height(v));
    QuotientBelow(q / Width(v), v.rowPx, v.rows);
    QuotientBelow(q % Width(v), v.bitPx, BitCount(v));
  }

  // ---------- Which bits are visible ----------

  /** The view of a window viewW pixels wide that is scrolled by scrollX pixels: none if it is past the last bit. */
  function ViewOf(scrollX: nat, viewW: int, bitPx: nat, rowPx: nat, rows: nat, rowBytes: nat): Option<View>
    requires bitPx > 0 && rowPx > 0
  {
    var width := if viewW < 1 then 1 else viewW;
    var first, end, total := scrollX / bitPx, (scrollX + width - 1) / bitPx, rowBytes * 8;
    var reached := if end < first then first else end;
    var last := if reached >= total then total - 1 else reached;
    if last - first + 1 <= 0 then None else Some(View(first, last, rows, rowBytes, bitPx, rowPx))
  }

  lemma QuotientAtLeast(x: nat, m: nat, k: nat)
    requires m > 0
    ensures x / m >= k <==> x >= k * m
  {
    assert x == x / m * m + x % m;
    if x / m < k {
      QuotientGap(x / m, k, m);
    } else {
      assert (x / m - k) * m >= 0;
    }
  }

  lemma QuotientGap(a: nat, b: nat, m: nat)
    requires a < b && m > 0
    ensures a * m + m <= b * m
  {
    assert (b - a - 1) * m >= 0;
  }

  /** The visible bits are exactly the bits of a row of which at least one pixel column lies in the window. */
  lemma ViewShowsTheWindow(scrollX: nat, viewW: int, bitPx: nat, rowPx: nat, rows: nat, rowBytes: nat, bit: nat)
    requires bitPx > 0 && rowPx > 0
    ensures var v, width := ViewOf(scrollX, viewW, bitPx, rowPx, rows, rowBytes), if viewW < 1 then 1 else viewW;
            && (v.Some? ==> IsView(v.value))
            && (v.Some? && v.value.firstBit <= bit <= v.value.lastBit <==>
                bit < rowBytes * 8 && bit * bitPx < scrollX + width && scrollX < bit * bitPx + bitPx)
  {
    var width := if viewW < 1 then 1 else viewW;
    QuotientAtLeast(scrollX + width - 1, bitPx, bit);
    QuotientAtLeast(scrollX, bitPx, bit + 1);
    QuotientAtLeast(scrollX + width - 1, bitPx, scrollX / bitPx);
    assert scrollX / bitPx * bitPx <= scrollX;
    assert (bit + 1) * bitPx == bit * bitPx + bitPx;
  }

  // ---------- The picture ----------

  function HighBit(k: nat): (p: nat)
    requires k < 8
    ensures p > 0
  {
    [0x80, 0x40, 0x20, 0x10, 0x08, 0x04, 0x02, 0x01][k]
  }

  /** Bit k of a byte, the most significant first: value & (0x80 >> k) */
  predicate BitSet(value: nat, k: nat)
    requires k < 8
  {
    value / HighBit(k) % 2 == 1
  }

  /** Bit k of a byte is the one that remains of `value & 2^(7-k)`. */
  lemma BitSetIs(value: nat, k: nat)
    requires k < 8
    ensures BitSet(value, k) <==> BitAnd(value, Pow2(7 - k)) != 0
  {
    PowersOfTwo();
    AndWithPower(value, 7 - k);
  }

  lemma PowersOfTwo()
    ensures Pow2(0) == 1 && Pow2(1) == 2 && Pow2(2) == 4 && Pow2(3) == 8
    ensures Pow2(4) == 16 && Pow2(5) == 32 && Pow2(6) == 64 && Pow2(7) == 128
  {
    assert Pow2(3) == 8;
    assert Pow2(5) == 32;
  }

  lemma {:induction false} AndWithPower(value: nat, n: nat)
    ensures BitAnd(value, Pow2(n)) != 0 <==> value / Pow2(n) % 2 == 1
  {
    if n == 0 {
      assert BitAnd(value / 2, 0) == 0;
    } else {
      assert Pow2(n) / 2 == Pow2(n - 1) && Pow2(n) % 2 == 0;
      AndWithPower(value / 2, n - 1);
      HalvedTwice(value, Pow2(n - 1));
    }
  }

  lemma HalvedTwice(value: nat, p: nat)
    requires p > 0
    ensures value / 2 / p == value / (2 * p)
  {
    var q := value / 2 / p;
    assert value / 2 == q * p + value / 2 % p;
    assert value == (2 * p) * q + (2 * (value / 2 % p) + value % 2);
    DivModUnique(value, 2 * p, q, 2 * (value / 2 % p) + value % 2);
  }

  /** The blitter's tags of the 16-bit words from the even address at or below the base address on. */
  datatype Tags = Tags(enabled: bool, baseAddr: u32, words: seq<nat>)

  const LIT_COLOR := 0xfff2_b43c

  function WordCount(baseAddr: u32, bytes: nat): nat {
    (baseAddr % 2 + bytes + 1) / 2
  }

  /** The colour of the lit bits of the byte at an offset from the base address. */
  function ByteColor(t: Tags, offset: nat): nat {
    var i := (t.baseAddr % 2 + offset) / 2;
    if t.enabled && i < |t.words| && t.words[i] != 0 then 0xff00_0000 + OverlaySpec.Rgb(t.words[i]) else LIT_COLOR
  }

  /** The tag looked up is that of the word the byte lies in, at even and odd base addresses alike. */
  lemma TagIsOfTheBytesWord(baseAddr: u32, offset: nat, bytes: nat)
    requires offset < bytes
    ensures var i, tagBase := (baseAddr % 2 + offset) / 2, baseAddr - baseAddr % 2;
            && i < WordCount(baseAddr, bytes) && (offset + 1 == bytes ==> i + 1 == WordCount(baseAddr, bytes))
            && tagBase + 2 * i <= baseAddr + offset < tagBase + 2 * i + 2 && (tagBase + 2 * i) % 2 == 0
  {
  }

  function ByteIndex(v: View, row: nat, bit: nat): nat {
    row * v.rowBytes + (v.firstBit + bit) / 8
  }

  ghost predicate HasData(v: View, data: seq<nat>) {
    |data| == v.rows * v.rowBytes
  }

  lemma ByteInData(v: View, row: nat, byte: nat)
    requires row < v.rows && byte < v.rowBytes
    ensures row * v.rowBytes + byte < v.rows * v.rowBytes
  {
    PartFits(row, v.rows, v.rowBytes);
  }

  /** The colour of visible bit `bit` of row `row`: 0 if it is clear. */
  function BitColor(v: View, data: seq<nat>, t: Tags, row: nat, bit: nat): nat
    requires IsView(v) && HasData(v, data) && row < v.rows && bit < BitCount(v)
  {
    ByteInData(v, row, (v.firstBit + bit) / 8);
    if BitSet(data[ByteIndex(v, row, bit)], (v.firstBit + bit) % 8) then ByteColor(t, ByteIndex(v, row, bit)) else 0
  }

  /** The colour of texture pixel q. */
  function PixelColor(v: View, data: seq<nat>, t: Tags, q: nat): nat
    requires IsView(v) && HasData(v, data) && q < Area(v)
  {
    CellInView(v, q);
    BitColor(v, data, t, CellRow(v, q), CellBit(v, q))
  }

  // ---------- Drawing ----------

  method FillSpan(pixels: array<nat>, start: nat, n: nat, color: nat)
    requires start + n <= pixels.Length
    modifies pixels
    ensures forall q :: 0 <= q < pixels.Length ==> pixels[q] == if start <= q < start + n then color else old(pixels[q])
  {
    for fillX := 0 to n
      invariant forall q :: 0 <= q < pixels.Length ==> pixels[q] == if start <= q < start + fillX then color else old(pixels[q])
    {
      pixels[start + fillX] := color;
    }
  }

  lemma RowSpanFits(v: View, y: nat, x: nat)
    requires IsView(v) && y < Height(v) && x + v.bitPx <= Width(v)
    ensures y * Width(v) + x + v.bitPx <= Area(v)
  {
    PartFits(y, Height(v), Width(v));
  }

  lemma BlockFits(v: View, row: nat, bit: nat)
    requires IsView(v) && row < v.rows && bit < BitCount(v)
    ensures row * v.rowPx + v.rowPx <= Height(v) && bit * v.bitPx + v.bitPx <= Width(v)
  {
    PartFits(row, v.rows, v.rowPx);
    PartFits(bit, BitCount(v), v.bitPx);
  }

  /** The texture rows y0 to y1 of the columns of one visible bit. */
  predicate InBlock(v: View, q: nat, bit: nat, y0: int, y1: int)
    requires IsView(v)
  {
    WidthPositive(v);
    CellBit(v, q) == bit && y0 <= q / Width(v) < y1
  }

  lemma BlockRow(v: View, q: nat, bit: nat, y: nat)
    requires IsView(v) && bit < BitCount(v)
    ensures var start := y * Width(v) + bit * v.bitPx;
            start <= q < start + v.bitPx <==> InBlock(v, q, bit, y, y + 1)
  {
    WidthPositive(v);
    BlockFits(v.(rows := 1), 0, bit);
    SpanIsRow(q, Width(v), y, bit * v.bitPx, v.bitPx);
    BlockIsQuotient(q % Width(v), v.bitPx, bit);
  }

  lemma WholeBlock(v: View, q: nat, row: nat, bit: nat)
    requires IsView(v)
    ensures InBlock(v, q, bit, row * v.rowPx, row * v.rowPx + v.rowPx) <==> CellRow(v, q) == row && CellBit(v, q) == bit
  {
    WidthPositive(v);
    BlockIsQuotient(q / Width(v), v.rowPx, row);
  }

  /** Draws the block of one lit bit. */
  method FillBlock(v: View, pixels: array<nat>, row: nat, bit: nat, color: nat)
    requires IsView(v) && row < v.rows && bit < BitCount(v) && pixels.Length == Area(v)
    modifies pixels
    ensures forall q :: 0 <= q < pixels.Length ==>
              pixels[q] == if CellRow(v, q) == row && CellBit(v, q) == bit then color else old(pixels[q])
  {
    hide Width, Height, Area, CellRow, CellBit, InBlock;
    BlockFits(v, row, bit);
    var dstX, dstRow0 := bit * v.bitPx, row * v.rowPx;
    forall q: nat ensures !InBlock(v, q, bit, dstRow0, dstRow0) {
      EmptyBlock(v, q, bit, dstRow0);
    }
    for fillY := 0 to v.rowPx
      invariant forall q :: 0 <= q < pixels.Length ==>
                  pixels[q] == if InBlock(v, q, bit, dstRow0, dstRow0 + fillY) then color else old(pixels[q])
    {
      var dstRow := dstRow0 + fillY;
      RowSpanFits(v, dstRow, dstX);
      FillSpan(pixels, dstRow * Width(v) + dstX, v.bitPx, color);
      forall q | 0 <= q < pixels.Length
        ensures InBlock(v, q, bit, dstRow0, dstRow + 1) <==>
                InBlock(v, q, bit, dstRow0, dstRow) || dstRow * Width(v) + dstX <= q < dstRow * Width(v) + dstX + v.bitPx
      {
        BlockRow(v, q, bit, dstRow);
        BlockGrows(v, q, bit, dstRow0, dstRow);
      }
    }
    forall q | 0 <= q < pixels.Length
      ensures InBlock(v, q, bit, dstRow0, dstRow0 + v.rowPx) <==> CellRow(v, q) == row && CellBit(v, q) == bit
    {
      WholeBlock(v, q, row, bit);
    }
  }

  lemma EmptyBlock(v: View, q: nat, bit: nat, y: int)
    requires IsView(v)
    ensures !InBlock(v, q, bit, y, y)
  {
  }

  lemma BlockGrows(v: View, q: nat, bit: nat, y0: int, y: int)
    requires IsView(v) && y0 <= y
    ensures InBlock(v, q, bit, y0, y + 1) <==> InBlock(v, q, bit, y0, y) || InBlock(v, q, bit, y, y + 1)
  {
  }

  /** The byte a visible bit lies in, and its place there. */
  function ByteOf(v: View, bit: int): int { (v.firstBit + bit) / 8 }

  function PlaceOf(v: View, bit: int): int { (v.firstBit + bit) % 8 }

  /** Pixel q shows a lit bit of the given byte of a row, among the byte's first n bits. */
  predicate ShowsByte(v: View, q: nat, row: nat, byte: nat, value: nat, n: nat)
    requires IsView(v)
  {
    CellRow(v, q) == row && ByteOf(v, CellBit(v, q)) == byte && PlaceOf(v, CellBit(v, q)) < n && BitSet(value, PlaceOf(v, CellBit(v, q)))
  }

  /** One more bit of the byte is taken in, if it is visible and set. */
  lemma ShowsStep(v: View, q: nat, row: nat, byte: nat, value: nat, n: nat)
    requires IsView(v) && q < Area(v) && n < 8
    ensures var local := byte * 8 - v.firstBit + n;
            ShowsByte(v, q, row, byte, value, n + 1) <==>
            || ShowsByte(v, q, row, byte, value, n)
            || (0 <= local < BitCount(v) && BitSet(value, n) && CellRow(v, q) == row && CellBit(v, q) == local)
  {
    CellInView(v, q);
  }

  /** A byte that is zero, or lies outside the view, shows nothing: the skip conditions lose no pixel. */
  lemma SkippedByte(v: View, q: nat, row: nat, byte: nat, value: nat)
    requires IsView(v) && q < Area(v)
    requires value == 0 || byte * 8 - v.firstBit >= BitCount(v) || byte * 8 - v.firstBit + 8 <= 0
    ensures !ShowsByte(v, q, row, byte, value, 8)
  {
    CellInView(v, q);
  }

  lemma ShowsNothing(v: View, q: nat, row: nat, byte: nat, value: nat)
    requires IsView(v)
    ensures !ShowsByte(v, q, row, byte, value, 0)
  {
  }

  /** The bits of one byte. */
  method DrawByte(v: View, pixels: array<nat>, row: nat, byte: nat, value: nat, color: nat)
    requires IsView(v) && row < v.rows && pixels.Length == Area(v)
    modifies pixels
    ensures forall q :: 0 <= q < pixels.Length ==>
              pixels[q] == if ShowsByte(v, q, row, byte, value, 8) then color else old(pixels[q])
  {
    hide ShowsByte, Area, CellRow, CellBit;
    var localBitStart := byte * 8 - v.firstBit;
    if value == 0 || localBitStart >= BitCount(v) || localBitStart + 8 <= 0 {
      forall q | 0 <= q < pixels.Length ensures !ShowsByte(v, q, row, byte, value, 8) {
        SkippedByte(v, q, row, byte, value);
      }
      return;
    }
    forall q | 0 <= q < pixels.Length ensures !ShowsByte(v, q, row, byte, value, 0) {
      ShowsNothing(v, q, row, byte, value);
    }
    for bitIndex := 0 to 8
      invariant forall q :: 0 <= q < pixels.Length ==>
                  pixels[q] == if ShowsByte(v, q, row, byte, value, bitIndex) then color else old(pixels[q])
    {
      forall q | 0 <= q < pixels.Length
        ensures ShowsByte(v, q, row, byte, value, bitIndex + 1) <==>
                || ShowsByte(v, q, row, byte, value, bitIndex)
                || (0 <= localBitStart + bitIndex < BitCount(v) && BitSet(value, bitIndex) &&
                    CellRow(v, q) == row && CellBit(v, q) == localBitStart + bitIndex)
      {
        ShowsStep(v, q, row, byte, value, bitIndex);
      }
      var localBit := localBitStart + bitIndex;
      if localBit < 0 || localBit >= BitCount(v) || !BitSet(value, bitIndex) {
        continue;
      }
      FillBlock(v, pixels, row, localBit, color);
    }
  }

  /** Pixel q of the row is finished once its byte has been drawn. */
  predicate RowDrawn(v: View, data: seq<nat>, t: Tags, q: nat, row: nat, endByte: int, pixel: nat)
    requires IsView(v) && HasData(v, data) && q < Area(v)
  {
    CellInView(v, q);
    pixel == if CellRow(v, q) == row && ByteOf(v, CellBit(v, q)) < endByte then PixelColor(v, data, t, q) else 0
  }

  lemma RowBegins(v: View, data: seq<nat>, t: Tags, q: nat, row: nat)
    requires IsView(v) && HasData(v, data) && q < Area(v)
    ensures RowDrawn(v, data, t, q, row, v.firstBit / 8, 0)
  {
    CellInView(v, q);
  }

  lemma RowStep(v: View, data: seq<nat>, t: Tags, q: nat, row: nat, byte: nat, before: nat)
    requires IsView(v) && HasData(v, data) && q < Area(v) && row < v.rows && byte < v.rowBytes
    requires RowDrawn(v, data, t, q, row, byte, before)
    ensures row * v.rowBytes + byte < |data|
    ensures var i := row * v.rowBytes + byte;
            RowDrawn(v, data, t, q, row, byte + 1, if ShowsByte(v, q, row, byte, data[i], 8) then ByteColor(t, i) else before)
  {
    ByteInData(v, row, byte);
    CellInView(v, q);
  }

  lemma RowEnds(v: View, data: seq<nat>, t: Tags, q: nat, row: nat, pixel: nat)
    requires IsView(v) && HasData(v, data) && q < Area(v)
    requires RowDrawn(v, data, t, q, row, v.lastBit / 8 + 1, pixel)
    ensures pixel == if CellRow(v, q) == row then PixelColor(v, data, t, q) else 0
  {
    CellInView(v, q);
  }

  /** One row of memory; pixels outside it keep their colour. */
  method DrawRow(v: View, data: seq<nat>, t: Tags, pixels: array<nat>, row: nat)
    requires IsView(v) && HasData(v, data) && row < v.rows && pixels.Length == Area(v)
    requires forall q :: 0 <= q < pixels.Length && CellRow(v, q) == row ==> pixels[q] == 0
    modifies pixels
    ensures forall q :: 0 <= q < pixels.Length ==>
              pixels[q] == if CellRow(v, q) == row then PixelColor(v, data, t, q) else old(pixels[q])
  {
    hide ShowsByte, Area, CellRow, CellBit, RowDrawn, PixelColor, ByteColor, HasData;
    ghost var before := pixels[..];
    forall q | 0 <= q < pixels.Length ensures RowDrawn(v, data, t, q, row, v.firstBit / 8, 0) {
      RowBegins(v, data, t, q, row);
    }
    for byteIndex := v.firstBit / 8 to v.lastBit / 8 + 1
      invariant forall q :: 0 <= q < pixels.Length ==>
                  if CellRow(v, q) == row then RowDrawn(v, data, t, q, row, byteIndex, pixels[q]) else pixels[q] == before[q]
    {
      var i := row * v.rowBytes + byteIndex;
      ghost var mid := pixels[..];
      assert i < |data| by { DataHas(v, data, row, byteIndex); }
      DrawByte(v, pixels, row, byteIndex, data[i], ByteColor(t, i));
      forall q | 0 <= q < pixels.Length
        ensures if CellRow(v, q) == row then RowDrawn(v, data, t, q, row, byteIndex + 1, pixels[q]) else pixels[q] == before[q]
      {
        if CellRow(v, q) == row {
          RowStep(v, data, t, q, row, byteIndex, mid[q]);
        } else {
          OtherRow(v, q, row, byteIndex, data[i]);
        }
      }
    }
    forall q | 0 <= q < pixels.Length && CellRow(v, q) == row ensures pixels[q] == PixelColor(v, data, t, q) {
      RowEnds(v, data, t, q, row, pixels[q]);
    }
  }

  lemma OtherRow(v: View, q: nat, row: nat, byte: nat, value: nat)
    requires IsView(v) && CellRow(v, q) != row
    ensures !ShowsByte(v, q, row, byte, value, 8)
  {
  }

  lemma DataHas(v: View, data: seq<nat>, row: nat, byte: nat)
    requires IsView(v) && HasData(v, data) && row < v.rows && byte <= v.lastBit / 8
    ensures 0 <= row * v.rowBytes && row * v.rowBytes + byte < |data|
  {
    ByteInData(v, row, byte);
  }

  /** The picture is right at every pixel: its bit's colour if the bit is set, else 0. */
  method Rasterise(v: View, data: seq<nat>, t: Tags, pixels: array<nat>)
    requires IsView(v) && HasData(v, data) && pixels.Length == Area(v)
    modifies pixels
    ensures forall q :: 0 <= q < pixels.Length ==> pixels[q] == PixelColor(v, data, t, q)
  {
    hide Area, CellRow, CellBit, PixelColor, HasData;
    for q := 0 to pixels.Length
      invariant forall k :: 0 <= k < q ==> pixels[k] == 0
    {
      pixels[q] := 0;
    }
    forall q | 0 <= q < pixels.Length ensures 0 <= CellRow(v, q) < v.rows {
      CellInView(v, q);
    }
    for row := 0 to v.rows
      invariant forall q :: 0 <= q < pixels.Length ==>
                  pixels[q] == if CellRow(v, q) < row then PixelColor(v, data, t, q) else 0
    {
      DrawRow(v, data, t, pixels, row);
    }
  }

  /**
   The same, said of the column and row of a texture pixel: which bit of which byte it shows, the most
   significant first, and in which colour.
   */
  lemma PixelAt(v: View, data: seq<nat>, t: Tags, x: nat, y: nat)
    requires IsView(v) && HasData(v, data) && x < Width(v) && y < Height(v)
    ensures 0 <= y * Width(v) + x < Area(v)
    ensures y / v.rowPx < v.rows && x / v.bitPx < BitCount(v)
    ensures PixelColor(v, data, t, y * Width(v) + x) == BitColor(v, data, t, y / v.rowPx, x / v.bitPx)
    ensures var bit := v.firstBit + x / v.bitPx;
            var offset := y / v.rowPx * v.rowBytes + bit / 8;
            var word := (t.baseAddr % 2 + offset) / 2;
            && 0 <= offset < |data|
            && PixelColor(v, data, t, y * Width(v) + x) ==
               if BitAnd(data[offset], Pow2(7 - bit % 8)) == 0 then 0
               else if t.enabled && word < |t.words| && t.words[word] != 0 then 0xff00_0000 + OverlaySpec.Rgb(t.words[word])
               else 0xfff2_b43c
  {
    hide BitAnd, Pow2, BitColor, PixelColor, Area, Width, Height, BitCount, HasData, IsView;
    PixelCell(v, data, t, x, y);
    BitShown(v, data, t, y / v.rowPx, x / v.bitPx);
  }

  lemma PixelCell(v: View, data: seq<nat>, t: Tags, x: nat, y: nat)
    requires IsView(v) && HasData(v, data) && x < Width(v) && y < Height(v)
    ensures v.rowPx > 0 && v.bitPx > 0 && 0 <= y * Width(v) + x < Area(v)
    ensures 0 <= y / v.rowPx < v.rows && 0 <= x / v.bitPx < BitCount(v)
    ensures PixelColor(v, data, t, y * Width(v) + x) == BitColor(v, data, t, y / v.rowPx, x / v.bitPx)
  {
    hide BitColor, Area, Width, Height, CellRow, CellBit;
    CellAt(v, x, y);
    CellInView(v, y * Width(v) + x);
  }

  lemma CellAt(v: View, x: nat, y: nat)
    requires IsView(v) && x < Width(v) && y < Height(v)
    ensures v.rowPx > 0 && v.bitPx > 0 && 0 <= y * Width(v) + x < Area(v)
    ensures CellRow(v, y * Width(v) + x) == y / v.rowPx && CellBit(v, y * Width(v) + x) == x / v.bitPx
  {
    hide Width, Height;
    IndexFits(v, x, y);
    DivModUnique(y * Width(v) + x, Width(v), y, x);
  }

  lemma IndexFits(v: View, x: nat, y: nat)
    requires IsView(v) && x < Width(v) && y < Height(v)
    ensures 0 <= y * Width(v) && y * Width(v) + x < Area(v)
  {
    hide Width, Height;
    PartFits(y, Height(v), Width(v));
  }

  lemma BitShown(v: View, data: seq<nat>, t: Tags, row: nat, k: nat)
    requires IsView(v) && HasData(v, data) && row < v.rows && k < BitCount(v)
    ensures var bit := v.firstBit + k;
            var offset := row * v.rowBytes + bit / 8;
            var word := (t.baseAddr % 2 + offset) / 2;
            && 0 <= offset < |data|
            && BitColor(v, data, t, row, k) ==
               if BitAnd(data[offset], Pow2(7 - bit % 8)) == 0 then 0
               else if t.enabled && word < |t.words| && t.words[word] != 0 then 0xff00_0000 + OverlaySpec.Rgb(t.words[word])
               else 0xfff2_b43c
  {
    hide BitSet, BitAnd, Pow2;
    var bit := v.firstBit + k;
    ByteInData(v, row, bit / 8);
    assert ByteIndex(v, row, k) == row * v.rowBytes + bit / 8;
    BitSetIs(data[ByteIndex(v, row, k)], bit % 8);
  }
}
