/** The monochrome flush: 16-bit pixels are thresholded to one bit and packed into pages of
    eight rows, one byte per column of a page, top row in the least significant bit. */
module MonoPage {
  import opened Octets
  import opened Buffers
  import Display

  /** The byte of page memory that holds pixel `(x, y)`. */
  function ByteOf(width: nat, x: nat, y: nat): nat {
    Times(y / 8, width) + x
  }

  lemma ByteInside(width: nat, pages: nat, x: nat, y: nat)
    requires x < width && y < 8 * pages
    ensures ByteOf(width, x, y) < Times(pages, width)
  {
    TimesBelow(y / 8, pages, width);
  }

  /** Different pixels of a panel have different bits. */
  lemma BitsDistinct(width: nat, x: nat, y: nat, u: nat, v: nat)
    requires x < width && u < width
    requires ByteOf(width, x, y) == ByteOf(width, u, v) && y % 8 == v % 8
    ensures x == u && y == v
  {
    if y / 8 < v / 8 {
      TimesBelow(y / 8, v / 8, width);
    } else if v / 8 < y / 8 {
      TimesBelow(v / 8, y / 8, width);
    }
  }

  lemma Regroup(width: nat, q: nat, r: nat)
    ensures width * (8 * q + r) == 8 * (q * width) + width * r
  {
    assert width * (8 * q + r) == width * (8 * q) + width * r;
    assert width * (8 * q) == 8 * (q * width);
  }

  lemma SmallRemainder(width: nat, r: nat)
    requires r < 8
    ensures width * r <= 7 * width
  {
    assert width * r + width * (7 - r) == width * 7;
    assert 0 <= width * (7 - r);
  }

  /** The buffer's size in whole pages and a remainder. */
  lemma BufferSize(width: nat, q: nat, r: nat)
    requires r < 8
    ensures Times(width, 8 * q + r) == 8 * Times(q, width) + width * r
    ensures width * r <= 7 * width
  {
    TimesIsProduct(width, 8 * q + r);
    TimesIsProduct(q, width);
    Regroup(width, q, r);
    SmallRemainder(width, r);
  }

  /** `width * height / 8` bytes hold every pixel of the panel exactly when the height is a
      whole number of pages. */
  lemma PageBufferSuffices(width: nat, height: nat)
    requires 0 < width && 0 < height
    ensures (forall x: nat, y: nat | x < width && y < height :: ByteOf(width, x, y) < Times(width, height) / 8)
            <==> height % 8 == 0
  {
    var q, r := height / 8, height % 8;
    BufferSize(width, q, r);
    if r == 0 {
      forall x: nat, y: nat | x < width && y < height
        ensures ByteOf(width, x, y) < Times(width, height) / 8
      {
        ByteInside(width, q, x, y);
      }
    } else {
      assert (height - 1) / 8 == q;
      assert ByteOf(width, width - 1, height - 1) == Times(q, width) + width - 1;
    }
  }

  predicate Lit(page: seq<bv8>, width: nat, x: nat, y: nat)
    requires ByteOf(width, x, y) < |page|
  {
    ByteBits(page[ByteOf(width, x, y)])[y % 8]
  }

  /** In words: bit `y % 8` of byte `y / 8 * width + x`. */
  lemma LitMeans(page: seq<bv8>, width: nat, x: nat, y: nat)
    requires ByteOf(width, x, y) < |page|
    ensures y / 8 * width + x == ByteOf(width, x, y)
    ensures Lit(page, width, x, y) <==> (page[y / 8 * width + x] >> (y % 8)) & 1 == 1
  {
    TimesIsProduct(y / 8, width);
    ExtractBit(page[ByteOf(width, x, y)], y % 8);
  }

  /** Or-ing in a pixel's mask lights that pixel and no other. */
  lemma PlotOne(page: seq<bv8>, width: nat, x: nat, y: nat, u: nat, v: nat)
    requires x < width && u < width
    requires ByteOf(width, x, y) < |page| && ByteOf(width, u, v) < |page|
    ensures var i := ByteOf(width, x, y);
            Lit(page[i := page[i] | Mask(y % 8)], width, u, v) == ((u == x && v == y) || Lit(page, width, u, v))
  {
    var i := ByteOf(width, x, y);
    if ByteOf(width, u, v) == i {
      SetBit(page[i], y % 8, v % 8);
      if y % 8 == v % 8 {
        BitsDistinct(width, x, y, u, v);
      }
    }
  }

  /** The pixel lies in the area, before `(nextX, nextY)` in row order, and is not black. */
  predicate Plotted(area: Display.Area, pixels: seq<bv16>, nextX: int, nextY: int, x: int, y: int)
    requires area.x1 <= area.x2 && area.y1 <= area.y2 && Holds(|pixels|, 0, area.Width(), area.Width(), area.Height())
  {
    && area.x1 <= x <= area.x2 && area.y1 <= y <= area.y2
    && (y < nextY || (y == nextY && x < nextX))
    && PixelOf(area, pixels, x, y) != 0
  }

  function PixelOf(area: Display.Area, pixels: seq<bv16>, x: int, y: int): bv16
    requires area.x1 <= x <= area.x2 && area.y1 <= y <= area.y2
    requires Holds(|pixels|, 0, area.Width(), area.Width(), area.Height())
  {
    RowInside(|pixels|, 0, area.Width(), area.Width(), area.Height(), y - area.y1);
    pixels[Times(y - area.y1, area.Width()) + (x - area.x1)]
  }

  lemma PixelMeans(area: Display.Area, pixels: seq<bv16>, x: int, y: int)
    requires area.x1 <= x <= area.x2 && area.y1 <= y <= area.y2
    requires Holds(|pixels|, 0, area.Width(), area.Width(), area.Height())
    ensures 0 <= (y - area.y1) * (area.x2 - area.x1 + 1) + (x - area.x1) < |pixels|
    ensures PixelOf(area, pixels, x, y) == pixels[(y - area.y1) * (area.x2 - area.x1 + 1) + (x - area.x1)]
  {
    RowInside(|pixels|, 0, area.Width(), area.Width(), area.Height(), y - area.y1);
    TimesIsProduct(y - area.y1, area.Width());
  }

  /** Of the pixels that have a bit in the page buffer, exactly the plotted ones are lit. */
  ghost predicate Packed(page: seq<bv8>, width: nat, area: Display.Area, pixels: seq<bv16>, nextX: int, nextY: int)
    requires area.x1 <= area.x2 && area.y1 <= area.y2 && Holds(|pixels|, 0, area.Width(), area.Width(), area.Height())
  {
    forall x: nat, y: nat | x < width && ByteOf(width, x, y) < |page| ::
      Lit(page, width, x, y) == Plotted(area, pixels, nextX, nextY, x, y)
  }

  /** What the packer needs of its caller: the area lies on the panel's columns, its last pixel
      has a byte in the page buffer, and the rendered pixels cover it. */
  ghost predicate AreaFits(area: Display.Area, width: nat, size: nat, length: nat) {
    && 0 <= area.x1 <= area.x2 < width && 0 <= area.y1 <= area.y2
    && ByteOf(width, area.x2, area.y2) < size
    && Holds(length, 0, area.Width(), area.Width(), area.Height())
  }

  /** Then every pixel of the area has one. */
  lemma AreaInside(area: Display.Area, width: nat, size: nat, length: nat, x: nat, y: nat)
    requires AreaFits(area, width, size, length) && area.x1 <= x <= area.x2 && area.y1 <= y <= area.y2
    ensures ByteOf(width, x, y) < size
  {
    TimesMonotone(y / 8, area.y2 / 8, width);
  }

  /** On a panel of whole pages with a buffer of `width * height / 8` bytes every area of the
      panel fits. */
  lemma WholePagesFit(area: Display.Area, width: nat, height: nat, length: nat)
    requires 0 <= area.x1 <= area.x2 < width && 0 <= area.y1 <= area.y2 < height && height % 8 == 0
    requires Holds(length, 0, area.Width(), area.Width(), area.Height())
    ensures AreaFits(area, width, Times(width, height) / 8, length)
  {
    PageBufferSuffices(width, height);
  }

  lemma BlankPacked(page: seq<bv8>, width: nat, area: Display.Area, pixels: seq<bv16>)
    requires AreaFits(area, width, |page|, |pixels|)
    requires forall i | 0 <= i < |page| :: page[i] == 0
    ensures Packed(page, width, area, pixels, area.x1, area.y1)
  {
  }

  /** Plotting the next pixel in row order, or skipping it when it is black. */
  lemma PackedStep(page: seq<bv8>, now: seq<bv8>, width: nat, area: Display.Area, pixels: seq<bv16>, x: nat, y: nat)
    requires AreaFits(area, width, |page|, |pixels|)
    requires Packed(page, width, area, pixels, x, y)
    requires area.x1 <= x <= area.x2 && area.y1 <= y <= area.y2 && ByteOf(width, x, y) < |page|
    requires var i := ByteOf(width, x, y);
             now == if PixelOf(area, pixels, x, y) != 0 then page[i := page[i] | Mask(y % 8)] else page
    ensures Packed(now, width, area, pixels, x + 1, y)
  {
    forall u: nat, v: nat | u < width && ByteOf(width, u, v) < |now|
      ensures Lit(now, width, u, v) == Plotted(area, pixels, x + 1, y, u, v)
    {
      PlotOne(page, width, x, y, u, v);
    }
  }

  lemma NextLine(page: seq<bv8>, width: nat, area: Display.Area, pixels: seq<bv16>, y: nat)
    requires AreaFits(area, width, |page|, |pixels|)
    requires Packed(page, width, area, pixels, area.x2 + 1, y)
    ensures Packed(page, width, area, pixels, area.x1, y + 1)
  {
  }

  /** flush_mono_page_pack, for any panel height: every write lands inside the page buffer, and
      afterwards bit `y % 8` of byte `y / 8 * width + x` is set exactly for the non-black pixels
      of the area. */
  method Pack(page: array<bv8>, width: nat, area: Display.Area, src: array<bv16>)
    requires AreaFits(area, width, page.Length, src.Length)
    modifies page
    ensures forall x: nat, y: nat | x < width && ByteOf(width, x, y) < page.Length ::
              Lit(page[..], width, x, y) <==>
              area.x1 <= x <= area.x2 && area.y1 <= y <= area.y2 && PixelOf(area, src[..], x, y) != 0
  {
    ghost var pixels := src[..];
    var w := area.Width();
    forall i | 0 <= i < page.Length {
      page[i] := 0;
    }
    BlankPacked(page[..], width, area, pixels);
    for y := area.y1 to area.y2 + 1
      invariant src[..] == pixels && Packed(page[..], width, area, pixels, area.x1, y)
    {
      var row := Times(y - area.y1, w);
      for x := area.x1 to area.x2 + 1
        invariant src[..] == pixels && Packed(page[..], width, area, pixels, x, y)
      {
        PackPixel(page, width, area, src, row, x, y);
      }
      NextLine(page[..], width, area, pixels, y);
    }
  }

  /** The body of the inner loop. */
  method PackPixel(page: array<bv8>, width: nat, area: Display.Area, src: array<bv16>, row: nat, x: nat, y: nat)
    requires AreaFits(area, width, page.Length, src.Length)
    requires area.x1 <= x <= area.x2 && area.y1 <= y <= area.y2 && row == Times(y - area.y1, area.Width())
    requires Packed(page[..], width, area, src[..], x, y)
    modifies page
    ensures Packed(page[..], width, area, src[..], x + 1, y)
  {
    ghost var before, pixels := page[..], src[..];
    RowInside(src.Length, 0, area.Width(), area.Width(), area.Height(), y - area.y1);
    AreaInside(area, width, page.Length, src.Length, x, y);
    if src[row + (x - area.x1)] != 0 {
      page[Times(y / 8, width) + x] := page[Times(y / 8, width) + x] | Mask(y % 8);
    }
    PackedStep(before, page[..], width, area, pixels, x, y);
  }
}
