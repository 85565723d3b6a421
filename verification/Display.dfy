/** The pixel flush of the display layer: dirty areas are copied band by band into a scratch
    buffer, byte-swapped where the panel wants it, and handed to the panel driver; without a
    usable scratch buffer each row is swapped in place, sent, and swapped back. */
module Display {
  import opened Basics
  import opened Gram
  import opened Buffers
  import opened Panel

  datatype PanelKind = Rgb565 | MonoPage | Rgb565Native

  datatype Area = Area(x1: int, y1: int, x2: int, y2: int) {
    function Width(): int {
      x2 - x1 + 1
    }

    function Height(): int {
      y2 - y1 + 1
    }
  }

  predicate WantsByteSwap(kind: PanelKind) {
    kind == Rgb565
  }

  // ---------------------------------------------------------------- byte order

  /** Position `i` exchanged with its neighbour in the same pixel. */
  function Partner(i: nat, n: nat): (j: nat)
    requires i < n
    ensures j < n
  {
    if i % 2 == 1 then i - 1 else if i + 1 < n then i + 1 else i
  }

  /** The two bytes of every 16-bit pixel exchanged. */
  function Swapped(bytes: seq<Byte>): (s: seq<Byte>)
    ensures |s| == |bytes|
  {
    seq(|bytes|, i requires 0 <= i < |bytes| => bytes[Partner(i, |bytes|)])
  }

  lemma SwapUndoesSwap(bytes: seq<Byte>)
    ensures Swapped(Swapped(bytes)) == bytes
  {
    forall i | 0 <= i < |bytes|
      ensures Swapped(Swapped(bytes))[i] == bytes[i]
    {
      assert Partner(Partner(i, |bytes|), |bytes|) == i;
    }
  }

  /** Swapping works pixel by pixel. */
  lemma SwapSlice(bytes: seq<Byte>, a: nat, b: nat)
    requires a <= b <= |bytes| && a % 2 == 0 && b % 2 == 0
    ensures Swapped(bytes)[a..b] == Swapped(bytes[a..b])
  {
  }

  /** The order the panel receives a pixel's bytes in. */
  function PixelSent(swap: bool, pixel: Pixel): Pixel {
    if swap && |pixel| == 2 then [pixel[1], pixel[0]] else pixel
  }

  function RowSentAs(swap: bool, row: seq<Pixel>): seq<Pixel> {
    seq(|row|, i requires 0 <= i < |row| => PixelSent(swap, row[i]))
  }

  function ImageSentAs(swap: bool, image: seq<seq<Pixel>>): seq<seq<Pixel>> {
    seq(|image|, r requires 0 <= r < |image| => RowSentAs(swap, image[r]))
  }

  function BytesSent(swap: bool, bytes: seq<Byte>): (s: seq<Byte>)
    ensures |s| == |bytes|
  {
    if swap then Swapped(bytes) else bytes
  }

  lemma FirstPixelSent(swap: bool, bytes: seq<Byte>)
    requires |bytes| >= 2 && |bytes| % 2 == 0
    ensures BytesSent(swap, bytes)[2..] == BytesSent(swap, bytes[2..])
    ensures BytesSent(swap, bytes)[..2] == PixelSent(swap, bytes[..2])
  {
    SwapSlice(bytes, 2, |bytes|);
    assert bytes[2..|bytes|] == bytes[2..] && Swapped(bytes)[2..|bytes|] == Swapped(bytes)[2..];
  }

  /** Swapping a row's bytes swaps each of its pixels. */
  lemma {:induction false} SplitSent(swap: bool, bytes: seq<Byte>, w: nat)
    requires |bytes| == Times(w, 2)
    ensures Split(BytesSent(swap, bytes), 2) == RowSentAs(swap, Split(bytes, 2))
  {
    if w > 0 {
      SplitSent(swap, bytes[2..], w - 1);
      TimesIsProduct(w, 2);
      FirstPixelSent(swap, bytes);
      assert RowSentAs(swap, Split(bytes, 2)) == [PixelSent(swap, bytes[..2])] + RowSentAs(swap, Split(bytes[2..], 2));
    }
  }

  /** `n` bytes at `a` brought into the panel's byte order where they lie. */
  function SentAt(swap: bool, bytes: seq<Byte>, a: nat, n: nat): (s: seq<Byte>)
    requires a + n <= |bytes|
    ensures |s| == |bytes| && s[..a] == bytes[..a] && s[a..a + n] == BytesSent(swap, bytes[a..a + n])
    ensures s[a + n..] == bytes[a + n..]
  {
    bytes[..a] + BytesSent(swap, bytes[a..a + n]) + bytes[a + n..]
  }

  lemma SentTwice(swap: bool, bytes: seq<Byte>, a: nat, n: nat)
    requires a + n <= |bytes|
    ensures SentAt(swap, SentAt(swap, bytes, a, n), a, n) == bytes
  {
    SwapUndoesSwap(bytes[a..a + n]);
    SameParts(SentAt(swap, SentAt(swap, bytes, a, n), a, n), bytes, a, a + n);
  }

  /** lv_draw_sw_rgb565_swap. */
  method SwapInPlace(buf: array<Byte>, start: nat, pixels: nat)
    requires start + 2 * pixels <= buf.Length
    modifies buf
    ensures buf[start..start + 2 * pixels] == Swapped(old(buf[start..start + 2 * pixels]))
    ensures buf[..start] == old(buf[..start])
    ensures buf[start + 2 * pixels..] == old(buf[start + 2 * pixels..])
  {
    for i := 0 to pixels
      invariant forall k :: 0 <= k < 2 * i ==> buf[start + k] == old(buf[start + Partner(k, 2 * pixels)])
      invariant forall k :: 0 <= k < buf.Length && !(start <= k < start + 2 * i) ==> buf[k] == old(buf[k])
    {
      var j := start + 2 * i;
      buf[j], buf[j + 1] := buf[j + 1], buf[j];
    }
  }

  method Memcpy(dst: array<Byte>, to: nat, src: array<Byte>, from: nat, n: nat)
    requires dst != src && to + n <= dst.Length && from + n <= src.Length
    modifies dst
    ensures dst[to..to + n] == src[from..from + n]
    ensures dst[..to] == old(dst[..to]) && dst[to + n..] == old(dst[to + n..])
  {
    forall i | 0 <= i < n {
      dst[to + i] := src[from + i];
    }
  }

  // ---------------------------------------------------------------- bands

  lemma CopiedSlice(to: seq<Byte>, src: seq<Byte>, from: nat, n: nat, a: nat, b: nat)
    requires n <= |to| && from + n <= |src| && to[..n] == src[from..from + n] && a <= b <= n
    ensures to[a..b] == src[from + a..from + b]
  {
    forall i | a <= i < b
      ensures to[i] == src[from + i]
    {
      assert to[..n][i] == src[from..from + n][i];
    }
  }

  /** Equal prefixes have equal slices. */
  lemma SliceOfPrefix(bytes: seq<Byte>, other: seq<Byte>, n: nat, a: nat, b: nat)
    requires n <= |bytes| && n <= |other| && bytes[..n] == other[..n] && a <= b <= n
    ensures bytes[a..b] == other[a..b]
  {
    forall i | a <= i < b
      ensures bytes[i] == other[i]
    {
      assert bytes[..n][i] == other[..n][i];
    }
  }

  lemma SwappedSlice(now: seq<Byte>, buf: seq<Byte>, n: nat, a: nat, b: nat)
    requires n <= |now| && n <= |buf| && now[..n] == Swapped(buf[..n])
    requires a <= b <= n && a % 2 == 0 && b % 2 == 0
    ensures now[a..b] == Swapped(buf[a..b])
  {
    SwapSlice(buf[..n], a, b);
    assert now[..n][a..b] == now[a..b] && buf[..n][a..b] == buf[a..b];
  }

  /** The first `k` rows of a packed buffer are source rows `row`, `row + 1`, ..., in the
      byte order given. */
  ghost predicate BandHeld(swap: bool, buf: seq<Byte>, rowBytes: nat, k: nat,
                           px: seq<Byte>, stride: nat, h: nat, row: nat)
  {
    && Holds(|px|, 0, stride, rowBytes, h) && row + k <= h && Times(k, rowBytes) <= |buf|
    && forall r :: 0 <= r < k ==> RowHeld(swap, buf, rowBytes, r, px, stride, h, row)
  }

  ghost predicate RowHeld(swap: bool, buf: seq<Byte>, rowBytes: nat, r: nat,
                          px: seq<Byte>, stride: nat, h: nat, row: nat)
    requires Holds(|px|, 0, stride, rowBytes, h) && row + r < h
  {
    && Times(r, rowBytes) + rowBytes <= |buf|
    && buf[Times(r, rowBytes)..Times(r, rowBytes) + rowBytes]
       == BytesSent(swap, RowAt(px, 0, stride, rowBytes, h, row + r))
  }

  /** A packed buffer holding a band shows that band of the image. */
  lemma BandShows(swap: bool, buf: seq<Byte>, w: nat, k: nat, px: seq<Byte>, stride: nat, h: nat, row: nat)
    requires BandHeld(swap, buf, Times(w, 2), k, px, stride, h, row) && k > 0
    ensures Holds(|buf|, 0, Times(w, 2), Times(w, 2), k)
    ensures Image(buf, 0, Times(w, 2), Times(w, 2), k, 2)
            == ImageSentAs(swap, Image(px, 0, stride, Times(w, 2), h, 2))[row..row + k]
  {
    var rb := Times(w, 2);
    var image := Image(px, 0, stride, rb, h, 2);
    forall r | 0 <= r < k
      ensures Image(buf, 0, rb, rb, k, 2)[r] == ImageSentAs(swap, image)[row + r]
    {
      assert RowHeld(swap, buf, rb, r, px, stride, h, row);
      ImageAt(buf, 0, rb, rb, k, 2, r);
      ImageAt(px, 0, stride, rb, h, 2, row + r);
      SplitSent(swap, RowAt(px, 0, stride, rb, h, row + r), w);
    }
  }

  /** Swapping the packed band swaps every row in it. */
  lemma BandSwapped(buf: seq<Byte>, now: seq<Byte>, w: nat, k: nat, px: seq<Byte>, stride: nat, h: nat, row: nat)
    requires BandHeld(false, buf, Times(w, 2), k, px, stride, h, row)
    requires |now| == |buf| && now[..Times(k, Times(w, 2))] == Swapped(buf[..Times(k, Times(w, 2))])
    ensures BandHeld(true, now, Times(w, 2), k, px, stride, h, row)
  {
    var rb := Times(w, 2);
    var n := Times(k, rb);
    forall r | 0 <= r < k
      ensures RowHeld(true, now, rb, r, px, stride, h, row)
    {
      TimesBelow(r, k, rb);
      RowSwapped(buf, now, n, w, r, px, stride, h, row);
    }
  }

  lemma RowSwapped(buf: seq<Byte>, now: seq<Byte>, n: nat, w: nat, r: nat, px: seq<Byte>, stride: nat, h: nat, row: nat)
    requires Holds(|px|, 0, stride, Times(w, 2), h) && row + r < h
    requires RowHeld(false, buf, Times(w, 2), r, px, stride, h, row)
    requires Times(r, Times(w, 2)) + Times(w, 2) <= n <= |buf| == |now| && now[..n] == Swapped(buf[..n])
    ensures RowHeld(true, now, Times(w, 2), r, px, stride, h, row)
  {
    var a, rb := Times(r, Times(w, 2)), Times(w, 2);
    TimesIsProduct(w, 2);
    EvenRows(r, w, rb);
    SwappedRow(now, buf, n, a, rb, RowAt(px, 0, stride, rb, h, row + r));
  }

  lemma SwappedRow(now: seq<Byte>, buf: seq<Byte>, n: nat, a: nat, rb: nat, bytes: seq<Byte>)
    requires n <= |now| && n <= |buf| && now[..n] == Swapped(buf[..n])
    requires a + rb <= n && a % 2 == 0 && rb % 2 == 0 && buf[a..a + rb] == bytes
    ensures now[a..a + rb] == Swapped(bytes)
  {
    SwappedSlice(now, buf, n, a, a + rb);
  }

  lemma {:induction false} EvenRows(k: nat, w: nat, rb: nat)
    requires rb == 2 * w
    ensures Times(k, rb) == 2 * Times(k, w) && Times(k, rb) % 2 == 0
  {
    if k > 0 {
      EvenRows(k - 1, w, rb);
    }
  }

  /** As many rows as fit the scratch buffer, at least one. */
  method MaxRows(size: nat, w: nat, rowBytes: nat) returns (n: nat)
    requires 0 < w && rowBytes == Times(w, 2) <= size
    ensures 0 < n && Times(n, rowBytes) <= size < Times(n + 1, rowBytes)
  {
    TimesIsProduct(w, 2);
    n := size / rowBytes;
    TimesIsProduct(n, rowBytes);
    Quotient(size, rowBytes);
  }

  lemma Quotient(a: nat, b: nat)
    requires 0 < b
    ensures a / b * b <= a < a / b * b + b && (b <= a ==> 0 < a / b)
  {
    assert a == a / b * b + a % b;
  }

  // ---------------------------------------------------------------- the display object

  /** Scratch size chosen by open: at least 40 lines, at most the whole panel. */
  function BandLines(bufLines: nat, height: nat): (lines: nat)
    ensures lines <= height && (0 < height ==> 0 < lines)
    ensures height >= 40 ==> lines >= 40
    ensures 0 < bufLines && lines < height ==> lines >= bufLines
    ensures height <= 40 ==> lines == height
    ensures lines > 40 ==> lines <= bufLines
  {
    var asked := if bufLines > 0 then bufLines else 20;
    var lines := if asked > 40 then asked else 40;
    if lines > height then height else lines
  }

  /** The first `k` rows appear; if the bus may fail, each of those pixels may still be the
      earlier one. */
  ghost predicate Shown(healthy: bool, job: Job, k: nat, now: Memory) {
    match job
    case Job(g, x, y, image) => k <= |image| && Drew(healthy, Job(g, x, y, image[..k]), now)
  }

  lemma AllShown(healthy: bool, job: Job, now: Memory)
    requires Shown(healthy, job, |job.image|, now)
    ensures Drew(healthy, job, now)
  {
    assert job.image[..|job.image|] == job.image;
  }

  /** A draw call below the rows already shown adds its rows. */
  lemma NextBand(healthy: bool, ok: bool, job: Job, row: nat, band: nat, part: Job, now: Memory)
    requires row + band <= |job.image| && (healthy ==> ok)
    requires Shown(healthy, job, row, part.before)
    requires part.x == job.x && part.y == job.y + row && part.image == job.image[row..row + band]
    requires Drew(ok, part, now)
    ensures Shown(healthy, job, row + band, now)
  {
    var upper, lower := job.image[..row], job.image[row..row + band];
    assert upper + lower == job.image[..row + band];
    BlitBelow(job.before, job.x, job.y, upper, lower);
    BlendedBelow(job.before, job.x, job.y, upper, lower, part.before, now);
  }

  // ---------------------------------------------------------------- what a viewer sees

  lemma SentPixel(swap: bool, image: seq<seq<Pixel>>, r: nat, i: nat, b0: Byte, b1: Byte)
    requires r < |image| && i < |image[r]| && image[r][i] == [b0, b1]
    ensures |ImageSentAs(swap, image)[r]| == |image[r]|
    ensures ImageSentAs(swap, image)[r][i] == if swap then [b1, b0] else [b0, b1]
  {
  }

  /** Pixel `i` of row `r` as it is sent: the two bytes rendered for it, in the panel's order. */
  lemma PixelOfFlush(swap: bool, image: seq<seq<Pixel>>, pixels: seq<Byte>, stride: nat, w: nat, h: nat,
                     r: nat, i: nat)
    requires Holds(|pixels|, 0, stride, Times(w, 2), h) && r < h && i < w
    requires image == ImageSentAs(swap, Image(pixels, 0, stride, Times(w, 2), h, 2))
    ensures var o := Times(r, stride) + 2 * i;
            && o + 2 <= |pixels| && |image[r]| == w
            && image[r][i] == if swap then [pixels[o + 1], pixels[o]] else [pixels[o], pixels[o + 1]]
  {
    var o := Times(r, stride) + 2 * i;
    var rendered := Image(pixels, 0, stride, Times(w, 2), h, 2);
    TimesIsProduct(i, 2);
    ImagePixel(rendered, pixels, 0, stride, Times(w, 2), h, 2, w, r, i);
    assert pixels[o..o + 2] == [pixels[o], pixels[o + 1]];
    SentPixel(swap, rendered, r, i, pixels[o], pixels[o + 1]);
  }

  lemma WidthOfFlush(swap: bool, image: seq<seq<Pixel>>, pixels: seq<Byte>, stride: nat, w: nat, h: nat, r: nat)
    requires Holds(|pixels|, 0, stride, Times(w, 2), h) && r < h
    requires image == ImageSentAs(swap, Image(pixels, 0, stride, Times(w, 2), h, 2))
    ensures |image| == h && |image[r]| == w
  {
    RowWidth(Image(pixels, 0, stride, Times(w, 2), h, 2), pixels, 0, stride, Times(w, 2), h, 2, w, r);
  }

  /** Pixel by pixel: inside the rectangle the panel holds the two bytes rendered for that
      place, swapped where the panel wants it, and outside what it held before. */
  lemma PixelShown(g: Memory, x: int, y: int, image: seq<seq<Pixel>>, pixels: seq<Byte>, stride: nat, w: nat, h: nat,
                   swap: bool, px: int, py: int)
    requires Holds(|pixels|, 0, stride, Times(w, 2), h)
    requires image == ImageSentAs(swap, Image(pixels, 0, stride, Times(w, 2), h, 2))
    ensures if x <= px < x + w && y <= py < y + h then
              var o := Times(py - y, stride) + 2 * (px - x);
              && o + 2 <= |pixels|
              && At(Blit(g, x, y, image), px, py)
                 == Some(if swap then [pixels[o + 1], pixels[o]] else [pixels[o], pixels[o + 1]])
            else
              At(Blit(g, x, y, image), px, py) == At(g, px, py)
  {
    BlitAt(g, x, y, image, px, py);
    if y <= py < y + h {
      WidthOfFlush(swap, image, pixels, stride, w, h, py - y);
      if x <= px < x + w {
        PixelOfFlush(swap, image, pixels, stride, w, h, py - y, px - x);
      }
    }
  }

  /** What a viewer sees at `(px, py)` after `w` by `h` rendered pixels were flushed to `(x, y)`:
      the two bytes of the pixel rendered for that place, the second first on an RGB565 panel
      and in the rendered order on a native one, and around them what was there before. If the
      bus may fail, a pixel may also be the earlier one. */
  ghost predicate ViewerSees(kind: PanelKind, healthy: bool, g: Memory, x: int, y: int, w: nat, h: nat,
                             pixels: seq<Byte>, stride: nat, now: Memory, px: int, py: int)
  {
    if x <= px < x + w && y <= py < y + h then
      var o := Times(py - y, stride) + 2 * (px - x);
      && o + 2 <= |pixels|
      && (|| (!healthy && At(now, px, py) == At(g, px, py))
          || At(now, px, py) == Some(if kind == Rgb565 then [pixels[o + 1], pixels[o]]
                                     else [pixels[o], pixels[o + 1]]))
    else
      At(now, px, py) == At(g, px, py)
  }

  lemma FlushedPixel(kind: PanelKind, healthy: bool, job: Job, w: nat, h: nat, pixels: seq<Byte>, stride: nat,
                     now: Memory, px: int, py: int)
    requires Holds(|pixels|, 0, stride, Times(w, 2), h)
    requires job.image == ImageSentAs(WantsByteSwap(kind), Image(pixels, 0, stride, Times(w, 2), h, 2))
    requires Drew(healthy, job, now)
    ensures ViewerSees(kind, healthy, job.before, job.x, job.y, w, h, pixels, stride, now, px, py)
  {
    var Job(g, x, y, image) := job;
    PixelShown(g, x, y, image, pixels, stride, w, h, WantsByteSwap(kind), px, py);
    assert At(now, px, py) == At(g, px, py) || At(now, px, py) == At(Blit(g, x, y, image), px, py);
  }

  /** What a viewer sees everywhere. */
  ghost predicate RenderedAppears(kind: PanelKind, healthy: bool, g: Memory, x: int, y: int, w: nat, h: nat,
                          pixels: seq<Byte>, stride: nat, now: Memory)
  {
    forall px, py :: ViewerSees(kind, healthy, g, x, y, w, h, pixels, stride, now, px, py)
  }

  lemma FlushedPixels(kind: PanelKind, healthy: bool, job: Job, w: nat, h: nat, pixels: seq<Byte>, stride: nat,
                      now: Memory)
    requires Holds(|pixels|, 0, stride, Times(w, 2), h)
    requires job.image == ImageSentAs(WantsByteSwap(kind), Image(pixels, 0, stride, Times(w, 2), h, 2))
    requires Drew(healthy, job, now)
    ensures RenderedAppears(kind, healthy, job.before, job.x, job.y, w, h, pixels, stride, now)
  {
    forall px, py
      ensures ViewerSees(kind, healthy, job.before, job.x, job.y, w, h, pixels, stride, now, px, py)
    {
      FlushedPixel(kind, healthy, job, w, h, pixels, stride, now, px, py);
    }
  }

  class Display {
    const driver: Driver
    const kind: PanelKind
    const flushBuf: array?<Byte>

    ghost predicate Valid() {
      driver.Valid() && driver.fbBitsPerPixel == 16
    }

    /** A panel of two-byte pixels whose stride for the full width is given; products are taken
        in 32 bits. For a colour panel the scratch buffer holds a row of any area of the panel,
        for a monochrome one it is the page buffer. */
    constructor (driver: Driver, kind: PanelKind, width: nat, height: nat, bufLines: nat, stride: nat)
      requires driver.Valid() && driver.fbBitsPerPixel == 16
      requires 0 < height && Times(width, 2) <= stride
      ensures Valid() && this.driver == driver && this.kind == kind
      ensures flushBuf != null && fresh(flushBuf)
      ensures kind == MonoPage ==> flushBuf.Length == Times(width, height) % 0x1_0000_0000 / 8
      ensures kind != MonoPage && Times(BandLines(bufLines, height), stride) < 0x1_0000_0000 ==>
                && flushBuf.Length == Times(BandLines(bufLines, height), stride)
                && forall w: nat :: w <= width ==> Times(w, 2) <= flushBuf.Length
    {
      this.driver, this.kind := driver, kind;
      var lines := BandLines(bufLines, height);
      var size := if kind == MonoPage then Times(width, height) % 0x1_0000_0000 / 8
                  else Times(lines, stride) % 0x1_0000_0000;
      flushBuf := new Byte[size](_ => 0);
      TimesMonotone(1, lines, stride);
      assert Times(1, stride) == Times(0, stride) + stride;
      forall w: nat | w <= width
        ensures Times(w, 2) <= stride
      {
        TimesMonotone(w, width, 2);
      }
    }

    /** The gap-shifted area lies within the panel's coordinates. */
    ghost predicate OnPanel(area: Area)
      reads driver
    {
      && 0 <= area.x1 <= area.x2 && 0 <= area.x1 + driver.xGap && area.x2 + driver.xGap < 65536
      && 0 <= area.y1 <= area.y2 && 0 <= area.y1 + driver.yGap && area.y2 + driver.yGap < 65536
    }

    /** The rendered pixels cover the area. */
    ghost predicate Flushable(area: Area, length: nat, stride: nat)
      reads driver
    {
      OnPanel(area) && Holds(length, 0, stride, Times(area.Width(), 2), area.Height())
    }

    /** The picture the panel has to show for the rendered pixels. */
    ghost function Wanted(area: Area, pixels: seq<Byte>, stride: nat): (image: seq<seq<Pixel>>)
      reads driver
      requires Flushable(area, |pixels|, stride)
      ensures |image| == area.Height()
    {
      ImageSentAs(WantsByteSwap(kind), Image(pixels, 0, stride, Times(area.Width(), 2), area.Height(), 2))
    }

    /** What a flush of the area is asked to do. */
    ghost function Asked(area: Area, pixels: seq<Byte>, stride: nat): (job: Job)
      reads driver, driver.io
      requires Flushable(area, |pixels|, stride)
      ensures Asks(area, job)
    {
      Job(driver.io.lcd.gram, area.x1 + driver.xGap, area.y1 + driver.yGap, Wanted(area, pixels, stride))
    }

    /** Where and how high the picture is. */
    ghost predicate Asks(area: Area, job: Job)
      reads driver
    {
      job.x == area.x1 + driver.xGap && job.y == area.y1 + driver.yGap && |job.image| == area.Height()
    }

    /** A draw call within the panel. */
    method DrawPart(xStart: int, yStart: int, xEnd: int, yEnd: int, data: array<Byte>, offset: nat, ghost part: Job)
      returns (ok: bool)
      requires Valid() && 0 <= xStart < xEnd && 0 <= yStart < yEnd
      requires driver.Covered(xStart, yStart, xEnd, yEnd, data.Length, offset)
      requires part == driver.Asked(xStart, yStart, xEnd, yEnd, data[..], offset)
      requires Fits(xStart + driver.xGap, xEnd - xStart) && Fits(yStart + driver.yGap, yEnd - yStart)
      modifies driver.io
      ensures Drew(ok, part, driver.io.lcd.gram) && (driver.io.healthy ==> ok)
    {
      ok := driver.DrawBitmap(xStart, yStart, xEnd, yEnd, data, offset, part);
    }

    lemma PartAsked(area: Area, row: nat, band: nat, bytes: seq<Byte>, offset: nat, part: Job)
      requires Valid() && OnPanel(area) && 0 < band && row + band <= area.Height()
      requires Holds(|bytes|, offset, Times(area.Width(), 2), Times(area.Width(), 2), band)
      requires part.before == driver.io.lcd.gram
      requires part.x == area.x1 + driver.xGap && part.y == area.y1 + driver.yGap + row
      requires part.image == Image(bytes, offset, Times(area.Width(), 2), Times(area.Width(), 2), band, 2)
      ensures var xs, ys, xe, ye := area.x1, area.y1 + row, area.x2 + 1, area.y1 + row + band;
              && driver.Covered(xs, ys, xe, ye, |bytes|, offset)
              && part == driver.Asked(xs, ys, xe, ye, bytes, offset)
              && Fits(xs + driver.xGap, xe - xs) && Fits(ys + driver.yGap, ye - ys)
    {
      FitsAsIs(area.x1 + driver.xGap, area.x2 + 1 - area.x1);
      FitsAsIs(area.y1 + row + driver.yGap, band);
    }

    /** Sends rows held in `data` below the `row` rows already sent. */
    method SendBand(area: Area, row: nat, band: nat, data: array<Byte>, offset: nat,
                    ghost job: Job)
      requires Valid() && OnPanel(area) && Asks(area, job)
      requires 0 < band && row + band <= area.Height()
      requires Holds(data.Length, offset, Times(area.Width(), 2), Times(area.Width(), 2), band)
      requires Image(data[..], offset, Times(area.Width(), 2), Times(area.Width(), 2), band, 2)
               == job.image[row..row + band]
      requires Shown(driver.io.healthy, job, row, driver.io.lcd.gram)
      modifies driver.io
      ensures Shown(driver.io.healthy, job, row + band, driver.io.lcd.gram)
    {
      ghost var part := Job(driver.io.lcd.gram, job.x, job.y + row, job.image[row..row + band]);
      var top := area.y1 + row;
      PartAsked(area, row, band, data[..], offset, part);
      var ok := DrawPart(area.x1, top, area.x2 + 1, top + band, data, offset, part);
      NextBand(driver.io.healthy, ok, job, row, band, part, driver.io.lcd.gram);
    }

    /** Packs `band` source rows into the scratch buffer. */
    method CopyBand(px: array<Byte>, stride: nat, rowBytes: nat, ghost h: nat, row: nat, band: nat)
      requires flushBuf != null && px != flushBuf
      requires Holds(px.Length, 0, stride, rowBytes, h) && row + band <= h && Times(band, rowBytes) <= flushBuf.Length
      modifies flushBuf
      ensures BandHeld(false, flushBuf[..], rowBytes, band, px[..], stride, h, row)
    {
      if stride == rowBytes {
        WholeBandFits(px.Length, rowBytes, h, row, band);
        Memcpy(flushBuf, 0, px, Times(row, stride), Times(band, rowBytes));
        WholeBandHeld(flushBuf[..], rowBytes, band, px[..], h, row);
      } else {
        for r := 0 to band
          invariant BandHeld(false, flushBuf[..], rowBytes, r, px[..], stride, h, row)
        {
          ghost var before := flushBuf[..];
          TimesBelow(r, band, rowBytes);
          RowInside(px.Length, 0, stride, rowBytes, h, row + r);
          Memcpy(flushBuf, Times(r, rowBytes), px, Times(row + r, stride), rowBytes);
          OneMoreRow(before, flushBuf[..], rowBytes, r, px[..], stride, h, row);
        }
      }
    }

    /** The band in the scratch buffer is brought into the panel's byte order. */
    method SwapBand(px: array<Byte>, areaW: nat, ghost stride: nat, ghost h: nat, ghost row: nat, band: nat)
      requires flushBuf != null && px != flushBuf
      requires BandHeld(false, flushBuf[..], Times(areaW, 2), band, px[..], stride, h, row)
      modifies flushBuf
      ensures BandHeld(WantsByteSwap(kind), flushBuf[..], Times(areaW, 2), band, px[..], stride, h, row)
    {
      if WantsByteSwap(kind) {
        ghost var before := flushBuf[..];
        TimesIsProduct(areaW, 2);
        EvenRows(band, areaW, Times(areaW, 2));
        SwapInPlace(flushBuf, 0, Times(band, areaW));
        BandSwapped(before, flushBuf[..], areaW, band, px[..], stride, h, row);
      }
    }

    /** One pass of the band loop. */
    method OneBand(area: Area, px: array<Byte>, areaW: nat, rowBytes: nat, stride: nat, row: nat, band: nat,
                   ghost job: Job)
      requires Valid() && px != flushBuf && Flushable(area, px.Length, stride)
      requires Asks(area, job) && job.image == Wanted(area, px[..], stride)
      requires areaW == area.Width() && rowBytes == Times(areaW, 2)
      requires flushBuf != null && Times(band, rowBytes) <= flushBuf.Length && 0 < band && row + band <= area.Height()
      requires Shown(driver.io.healthy, job, row, driver.io.lcd.gram)
      modifies driver.io, flushBuf
      ensures Shown(driver.io.healthy, job, row + band, driver.io.lcd.gram)
    {
      CopyBand(px, stride, rowBytes, area.Height(), row, band);
      SwapBand(px, areaW, stride, area.Height(), row, band);
      BandShows(WantsByteSwap(kind), flushBuf[..], areaW, band, px[..], stride, area.Height(), row);
      SendBand(area, row, band, flushBuf, 0, job);
    }

    method FlushBand(area: Area, px: array<Byte>, areaW: nat, areaH: nat, rowBytes: nat, stride: nat, ghost job: Job)
      requires Valid() && px != flushBuf && Flushable(area, px.Length, stride)
      requires Asks(area, job) && job.image == Wanted(area, px[..], stride) && job.before == driver.io.lcd.gram
      requires areaW == area.Width() && areaH == area.Height() && rowBytes == Times(areaW, 2)
      requires flushBuf != null && rowBytes <= flushBuf.Length
      modifies driver.io, flushBuf
      ensures Shown(driver.io.healthy, job, areaH, driver.io.lcd.gram)
    {
      ghost var source := px[..];
      var maxRows := MaxRows(flushBuf.Length, areaW, rowBytes);
      var row := 0;
      ghost var done := 0;
      NothingYet(driver.io.healthy, job);
      while row < areaH
        invariant done == if row < areaH then row else areaH
        invariant px[..] == source && Shown(driver.io.healthy, job, done, driver.io.lcd.gram)
      {
        var band := areaH - row;
        if band > maxRows {
          band := maxRows;
        }
        TimesMonotone(band, maxRows, rowBytes);
        OneBand(area, px, areaW, rowBytes, stride, row, band, job);
        row, done := row + maxRows, row + band;
      }
    }

    method SwapIfWanted(buf: array<Byte>, start: nat, pixels: nat)
      requires start + 2 * pixels <= buf.Length
      modifies buf
      ensures buf[..] == SentAt(WantsByteSwap(kind), old(buf[..]), start, 2 * pixels)
    {
      ghost var before := buf[..];
      if WantsByteSwap(kind) {
        SwapInPlace(buf, start, pixels);
      }
      SameParts(buf[..], SentAt(WantsByteSwap(kind), before, start, 2 * pixels), start, start + 2 * pixels);
    }

    /** The row is swapped where it lies and sent. */
    method SwapAndSend(area: Area, px: array<Byte>, areaW: nat, row: nat, rowPtr: nat, ghost job: Job)
      requires Valid() && OnPanel(area) && Asks(area, job)
      requires areaW == area.Width() && row < area.Height() && rowPtr + 2 * areaW <= px.Length
      requires job.image[row] == RowSentAs(WantsByteSwap(kind), Split(px[rowPtr..rowPtr + 2 * areaW], 2))
      requires Shown(driver.io.healthy, job, row, driver.io.lcd.gram)
      modifies driver.io, px
      ensures px[..] == SentAt(WantsByteSwap(kind), old(px[..]), rowPtr, 2 * areaW)
      ensures Shown(driver.io.healthy, job, row + 1, driver.io.lcd.gram)
    {
      RowShows(WantsByteSwap(kind), areaW, px[..], rowPtr, job.image, row);
      SwapIfWanted(px, rowPtr, areaW);
      ghost var sent := px[..];
      SendBand(area, row, 1, px, rowPtr, job);
      assert px[..] == sent;
    }

    /** One pass of the fallback loop: the row is swapped where it lies, sent, and swapped back. */
    method OneRow(area: Area, px: array<Byte>, areaW: nat, row: nat, rowPtr: nat, ghost job: Job)
      requires Valid() && OnPanel(area) && Asks(area, job)
      requires areaW == area.Width() && row < area.Height() && rowPtr + 2 * areaW <= px.Length
      requires job.image[row] == RowSentAs(WantsByteSwap(kind), Split(px[rowPtr..rowPtr + 2 * areaW], 2))
      requires Shown(driver.io.healthy, job, row, driver.io.lcd.gram)
      modifies driver.io, px
      ensures px[..] == old(px[..])
      ensures Shown(driver.io.healthy, job, row + 1, driver.io.lcd.gram)
    {
      SentTwice(WantsByteSwap(kind), px[..], rowPtr, 2 * areaW);
      SwapAndSend(area, px, areaW, row, rowPtr, job);
      ghost var shown := driver.io.lcd.gram;
      SwapIfWanted(px, rowPtr, areaW);
      assert driver.io.lcd.gram == shown;
    }

    method FlushRow(area: Area, px: array<Byte>, areaW: nat, areaH: nat, stride: nat, ghost job: Job)
      requires Valid() && px != flushBuf && Flushable(area, px.Length, stride)
      requires Asks(area, job) && job.image == Wanted(area, px[..], stride) && job.before == driver.io.lcd.gram
      requires areaW == area.Width() && areaH == area.Height()
      modifies driver.io, px
      ensures px[..] == old(px[..])
      ensures Shown(driver.io.healthy, job, areaH, driver.io.lcd.gram)
    {
      NothingYet(driver.io.healthy, job);
      for row := 0 to areaH
        invariant px[..] == old(px[..])
        invariant Shown(driver.io.healthy, job, row, driver.io.lcd.gram)
      {
        WantedRow(area, px[..], stride, row);
        OneRow(area, px, areaW, row, Times(row, stride), job);
      }
    }

    lemma WantedRow(area: Area, pixels: seq<Byte>, stride: nat, row: nat)
      requires Flushable(area, |pixels|, stride) && row < area.Height()
      ensures Times(row, stride) + 2 * area.Width() <= |pixels|
      ensures Wanted(area, pixels, stride)[row]
              == RowSentAs(WantsByteSwap(kind),
                           Split(pixels[Times(row, stride)..Times(row, stride) + 2 * area.Width()], 2))
    {
      TimesIsProduct(area.Width(), 2);
      ImageAt(pixels, 0, stride, Times(area.Width(), 2), area.Height(), 2, row);
    }

    /** Whatever the scratch size, a flush shows the rendered pixels on the gap-shifted
        area, leaves the rest of the panel alone, and gives the pixels back unchanged. */
    method FlushRgb565(area: Area, px: array<Byte>, stride: nat)
      requires Valid() && px != flushBuf && Flushable(area, px.Length, stride)
      modifies driver.io, px
      modifies if flushBuf == null then {} else {flushBuf}
      ensures px[..] == old(px[..])
      ensures Drew(driver.io.healthy, old(Asked(area, px[..], stride)), driver.io.lcd.gram)
      ensures RenderedAppears(kind, driver.io.healthy, old(driver.io.lcd.gram), area.x1 + driver.xGap,
                      area.y1 + driver.yGap, area.Width(), area.Height(), px[..], stride, driver.io.lcd.gram)
    {
      var areaW, areaH := area.Width(), area.Height();
      var rowBytes := Times(areaW, 2);
      ghost var job := Asked(area, px[..], stride);
      if flushBuf != null && flushBuf.Length >= rowBytes {
        FlushBand(area, px, areaW, areaH, rowBytes, stride, job);
      } else {
        FlushRow(area, px, areaW, areaH, stride, job);
      }
      AllShown(driver.io.healthy, job, driver.io.lcd.gram);
      FlushedPixels(kind, driver.io.healthy, job, areaW, areaH, px[..], stride, driver.io.lcd.gram);
    }
  }

  // ---------------------------------------------------------------- loop steps

  lemma NothingYet(healthy: bool, job: Job)
    ensures Shown(healthy, job, 0, job.before)
  {
    WholeBlitBlends(job.before, job.x, job.y, job.image[..0]);
  }

  lemma WholeBandFits(length: nat, rowBytes: nat, h: nat, row: nat, band: nat)
    requires Holds(length, 0, rowBytes, rowBytes, h) && row + band <= h
    ensures Times(row, rowBytes) + Times(band, rowBytes) <= length || band == 0 == h
    ensures band == 0 && h > 0 ==> Times(row, rowBytes) <= length
  {
    TimesAdd(row, band, rowBytes);
    TimesMonotone(row + band, h, rowBytes);
  }

  lemma HoldRow(buf: seq<Byte>, rowBytes: nat, r: nat, px: seq<Byte>, stride: nat, h: nat, row: nat, a: nat, from: nat)
    requires Holds(|px|, 0, stride, rowBytes, h) && row + r < h
    requires a == Times(r, rowBytes) && from == Times(row + r, stride)
    requires a + rowBytes <= |buf| && from + rowBytes <= |px|
    requires buf[a..a + rowBytes] == px[from..from + rowBytes]
    ensures RowHeld(false, buf, rowBytes, r, px, stride, h, row)
  {
  }

  lemma RowOfBandHeld(buf: seq<Byte>, rowBytes: nat, k: nat, r: nat, px: seq<Byte>, h: nat, row: nat, n: nat, from: nat)
    requires Holds(|px|, 0, rowBytes, rowBytes, h) && r < k && row + k <= h
    requires n == Times(k, rowBytes) <= |buf| && from == Times(row, rowBytes) && from + n <= |px|
    requires buf[..n] == px[from..from + n]
    ensures RowHeld(false, buf, rowBytes, r, px, rowBytes, h, row)
  {
    var a := Times(r, rowBytes);
    TimesBelow(r, k, rowBytes);
    TimesAdd(row, r, rowBytes);
    CopiedSlice(buf, px, from, n, a, a + rowBytes);
    HoldRow(buf, rowBytes, r, px, rowBytes, h, row, a, from + a);
  }

  /** With no padding one copy moves the whole band. */
  lemma WholeBandHeld(buf: seq<Byte>, rowBytes: nat, k: nat, px: seq<Byte>, h: nat, row: nat)
    requires Holds(|px|, 0, rowBytes, rowBytes, h) && row + k <= h && Times(k, rowBytes) <= |buf|
    requires Times(row, rowBytes) + Times(k, rowBytes) <= |px|
    requires buf[..Times(k, rowBytes)] == px[Times(row, rowBytes)..Times(row, rowBytes) + Times(k, rowBytes)]
    ensures BandHeld(false, buf, rowBytes, k, px, rowBytes, h, row)
  {
    forall r | 0 <= r < k
      ensures RowHeld(false, buf, rowBytes, r, px, rowBytes, h, row)
    {
      RowOfBandHeld(buf, rowBytes, k, r, px, h, row, Times(k, rowBytes), Times(row, rowBytes));
    }
  }

  lemma OneMoreRow(before: seq<Byte>, buf: seq<Byte>, rowBytes: nat, k: nat,
                   px: seq<Byte>, stride: nat, h: nat, row: nat)
    requires BandHeld(false, before, rowBytes, k, px, stride, h, row) && row + k < h && |before| == |buf|
    requires Times(k, rowBytes) + rowBytes <= |buf| && Times(row + k, stride) + rowBytes <= |px|
    requires buf[..Times(k, rowBytes)] == before[..Times(k, rowBytes)]
    requires buf[Times(k, rowBytes)..Times(k, rowBytes) + rowBytes]
             == px[Times(row + k, stride)..Times(row + k, stride) + rowBytes]
    ensures BandHeld(false, buf, rowBytes, k + 1, px, stride, h, row)
  {
    var n := Times(k, rowBytes);
    forall r | 0 <= r < k
      ensures RowHeld(false, buf, rowBytes, r, px, stride, h, row)
    {
      assert RowHeld(false, before, rowBytes, r, px, stride, h, row);
      TimesBelow(r, k, rowBytes);
      SliceOfPrefix(buf, before, n, Times(r, rowBytes), Times(r, rowBytes) + rowBytes);
    }
    assert RowHeld(false, buf, rowBytes, k, px, stride, h, row);
  }

  /** A row brought into the panel's byte order where it lies shows the row wanted. */
  lemma RowShows(swap: bool, w: nat, px: seq<Byte>, at: nat, image: seq<seq<Pixel>>, row: nat)
    requires at + 2 * w <= |px| && row < |image|
    requires image[row] == RowSentAs(swap, Split(px[at..at + 2 * w], 2))
    ensures Times(w, 2) == 2 * w && Holds(|px|, at, Times(w, 2), Times(w, 2), 1)
    ensures Image(SentAt(swap, px, at, 2 * w), at, Times(w, 2), Times(w, 2), 1, 2) == image[row..row + 1]
  {
    TimesIsProduct(w, 2);
    SplitSent(swap, px[at..at + 2 * w], w);
    SoleRow(SentAt(swap, px, at, 2 * w), at, Times(w, 2), 2);
    assert image[row..row + 1] == [image[row]];
  }

  lemma SameParts(a: seq<Byte>, b: seq<Byte>, i: nat, j: nat)
    requires |a| == |b| && i <= j <= |a|
    requires a[..i] == b[..i] && a[i..j] == b[i..j] && a[j..] == b[j..]
    ensures a == b
  {
    assert a == a[..i] + a[i..j] + a[j..];
    assert b == b[..i] + b[i..j] + b[j..];
  }
}
