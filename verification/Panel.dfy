/** The ILI and ST7735 panel drivers: a controller with a write window and a write pointer,
    and the two row-by-row CASET/RASET/RAMWR loops over it. */
module Panel {
  import opened Basics
  import opened Gram
  import opened Buffers

  datatype Command = COLMOD | CASET | RASET

  /** The controller: memory, write window, write pointer, bytes taken per pixel. */
  datatype Lcd = Lcd(gram: Memory, x0: int, x1: int, y0: int, y1: int, px: int, py: int, pixelBytes: nat)

  function Word(hi: int, lo: int): int {
    256 * hi + lo
  }

  function Obey(lcd: Lcd, cmd: Command, params: seq<Byte>): Lcd {
    match cmd
    case COLMOD =>
      if |params| != 1 then lcd
      else lcd.(pixelBytes := if params[0] % 8 == 5 then 2 else if params[0] % 8 == 6 then 3 else 0)
    case CASET =>
      if |params| != 4 then lcd
      else lcd.(x0 := Word(params[0], params[1]), x1 := Word(params[2], params[3]))
    case RASET =>
      if |params| != 4 then lcd
      else lcd.(y0 := Word(params[0], params[1]), y1 := Word(params[2], params[3]))
  }

  /** One pixel goes to the pointer, which then steps through the window. */
  function Put(lcd: Lcd, pixel: Pixel): Lcd {
    lcd.(gram := lcd.gram[(lcd.px, lcd.py) := pixel],
         px := if lcd.px < lcd.x1 then lcd.px + 1 else lcd.x0,
         py := if lcd.px < lcd.x1 then lcd.py else if lcd.py < lcd.y1 then lcd.py + 1 else lcd.y0)
  }

  function PutAll(lcd: Lcd, pixels: seq<Pixel>): Lcd {
    if pixels == [] then lcd else Put(PutAll(lcd, pixels[..|pixels| - 1]), pixels[|pixels| - 1])
  }

  /** RAMWR: the pointer returns to the window's corner and the pixels follow. */
  function RamWrite(lcd: Lcd, bytes: seq<Byte>): Lcd {
    var home := lcd.(px := lcd.x0, py := lcd.y0);
    if lcd.pixelBytes == 0 then home else PutAll(home, Split(bytes, lcd.pixelBytes))
  }

  /** Pixels that fit one row of the window are painted on that row. */
  lemma {:induction false} PutRow(lcd: Lcd, pixels: seq<Pixel>)
    requires lcd.px == lcd.x0 && lcd.py == lcd.y0 && |pixels| <= lcd.x1 - lcd.x0 + 1
    ensures var after := PutAll(lcd, pixels);
            && after.gram == Paint(lcd.gram, lcd.x0, lcd.y0, pixels)
            && after.x0 == lcd.x0 && after.x1 == lcd.x1
            && (|pixels| <= lcd.x1 - lcd.x0 ==> after.px == lcd.x0 + |pixels| && after.py == lcd.y0)
  {
    if pixels != [] {
      PutRow(lcd, pixels[..|pixels| - 1]);
    }
  }

  /** The controller's end of the bus. A failed parameter transfer may have moved the
      window, a failed pixel transfer may have delivered some of its bytes. */
  class PanelIo {
    const healthy: bool
    var lcd: Lcd

    constructor (healthy: bool, lcd: Lcd)
      ensures this.healthy == healthy && this.lcd == lcd
    {
      this.healthy := healthy;
      this.lcd := lcd;
    }

    method TxParam(cmd: Command, params: seq<Byte>) returns (ok: bool)
      modifies this
      ensures ok ==> lcd == Obey(old(lcd), cmd, params)
      ensures !ok ==> lcd.gram == old(lcd).gram
      ensures healthy ==> ok
    {
      ok := *;
      if ok || healthy {
        ok, lcd := true, Obey(lcd, cmd, params);
      } else {
        var wild: Lcd := *;
        lcd := wild.(gram := lcd.gram);
      }
    }

    method TxColor(bytes: seq<Byte>) returns (ok: bool)
      modifies this
      ensures exists n :: 0 <= n <= |bytes| && (ok ==> n == |bytes|) && lcd == RamWrite(old(lcd), bytes[..n])
      ensures healthy ==> ok
    {
      var n: nat :| n <= |bytes|;
      ok := *;
      if ok || healthy {
        ok, n := true, |bytes|;
      }
      lcd := RamWrite(lcd, bytes[..n]);
    }
  }

  // ---------------------------------------------------------------- one row

  /** The `(v >> 8) & 0xFF` and `v & 0xFF` of the window parameters. */
  function Hi(v: int): Byte {
    (v / 256) % 256
  }

  function Lo(v: int): Byte {
    v % 256
  }

  /** A window coordinate travels modulo 2^16. */
  lemma WindowCodec(v: int)
    ensures Word(Hi(v), Lo(v)) == v % 65536
  {
  }

  lemma NextLineWraps(y: int, r: nat)
    requires y % 65536 + r < 65536
    ensures (y + r) % 65536 == y % 65536 + r
  {
  }

  function WindowParams(first: int, last: int): seq<Byte> {
    [Hi(first), Lo(first), Hi(last), Lo(last)]
  }

  /** The controller before a row's RAMWR. */
  function Ready(lcd: Lcd, colmod: Byte, xs: int, xe: int, y: int): Lcd {
    Obey(Obey(Obey(lcd, COLMOD, [colmod]), CASET, WindowParams(xs, xe - 1)), RASET, WindowParams(y, y))
  }

  lemma ReadyWindow(lcd: Lcd, colmod: Byte, xs: int, xe: int, y: int)
    ensures var r := Ready(lcd, colmod, xs, xe, y);
            && r.gram == lcd.gram && r.x0 == xs % 65536 && r.x1 == (xe - 1) % 65536 && r.y0 == y % 65536
            && r.pixelBytes == if colmod % 8 == 5 then 2 else if colmod % 8 == 6 then 3 else 0
  {
    WindowCodec(xs);
    WindowCodec(xe - 1);
    WindowCodec(y);
  }

  /** What a row transfer leaves: the row painted, or part of it. */
  ghost predicate RowSent(ok: bool, before: Memory, x: int, y: int, row: seq<Pixel>, now: Memory) {
    if ok then now == Paint(before, x, y, row)
    else exists k :: 0 <= k <= |row| && now == Paint(before, x, y, row[..k])
  }

  lemma NothingSent(g: Memory, x: int, y: int, row: seq<Pixel>)
    ensures RowSent(false, g, x, y, row, g)
  {
    assert Paint(g, x, y, row[..0]) == g;
  }

  /** Pixel format, a one-row window, then pixels: they land on that row, and so does any
      part of them that gets through. */
  lemma RowDelivered(ok: bool, lcd: Lcd, n: nat, w: nat, x: int, y: int, bytes: seq<Byte>, m: nat)
    requires lcd.x0 == x && lcd.x1 == x + w - 1 && lcd.y0 == y && lcd.pixelBytes == n > 0
    requires |bytes| == Times(w, n) && m <= |bytes| && (ok ==> m == |bytes|)
    ensures RowSent(ok, lcd.gram, x, y, Split(bytes, n), RamWrite(lcd, bytes[..m]).gram)
  {
    SplitCount(bytes, n, w);
    var k := SplitPrefix(bytes, n, m);
    PutRow(lcd.(px := x, py := y), Split(bytes, n)[..k]);
    assert ok ==> bytes[..m] == bytes;
  }

  // ---------------------------------------------------------------- whole bitmaps

  /** A picture to appear with its corner at `(x, y)` over earlier panel contents. */
  datatype Job = Job(before: Memory, x: int, y: int, image: seq<seq<Pixel>>)

  /** A draw call leaves the whole image on success and, whatever failed, nothing but image
      pixels over the old contents. */
  ghost predicate Drew(ok: bool, job: Job, now: Memory) {
    match job
    case Job(g, x, y, image) =>
      && (ok ==> now == Blit(g, x, y, image))
      && Blended(g, Blit(g, x, y, image), now)
  }

  /** `r` rows have been sent; where they land is known if the picture fits the coordinates. */
  ghost predicate Sending(job: Job, fits: bool, r: nat, now: Memory) {
    match job
    case Job(g, x, y, image) => r <= |image| && (fits ==> now == Blit(g, x, y, image[..r]))
  }

  lemma RowDrawn(ok: bool, job: Job, r: nat, now: Memory)
    requires r < |job.image|
    requires RowSent(ok, Blit(job.before, job.x, job.y, job.image[..r]), job.x, job.y + r, job.image[r], now)
    ensures ok ==> Sending(job, true, r + 1, now)
    ensures !ok ==> Drew(ok, job, now)
  {
    var Job(g, x, y, image) := job;
    if ok {
      assert image[..r + 1][..r] == image[..r];
    } else {
      var k :| 0 <= k <= |image[r]| && now == Paint(Blit(g, x, y, image[..r]), x, y + r, image[r][..k]);
      PartialBlit(g, x, y, image, r, k);
    }
  }

  lemma AllSent(job: Job, ok: bool, now: Memory)
    requires Sending(job, true, |job.image|, now)
    ensures Drew(ok, job, now)
  {
    assert job.image[..|job.image|] == job.image;
    WholeBlitBlends(job.before, job.x, job.y, job.image);
  }

  /** `n` coordinates from `v` on do not run over the end of the controller's 16 bits. */
  predicate Fits(v: int, n: nat) {
    v % 65536 + n <= 65536
  }

  lemma FitsAsIs(v: int, n: nat)
    requires 0 <= v && v + n <= 65536 && 0 < n
    ensures v % 65536 == v && Fits(v, n)
  {
  }

  lemma LineOfRow(job: Job, fits: bool, ys: int, h: nat, row: nat)
    requires job.y == ys % 65536 && (fits ==> Fits(ys, h)) && row < h
    ensures fits ==> job.y + row == (ys + row) % 65536
  {
    if fits {
      NextLineWraps(ys, row);
    }
  }

  class Driver {
    const io: PanelIo
    const st7735: bool
    const fbBitsPerPixel: nat
    const colmodVal: Byte
    var xGap: int
    var yGap: int

    ghost predicate Valid() {
      || (fbBitsPerPixel == 16 && colmodVal == if st7735 then 0x05 else 0x55)
      || (fbBitsPerPixel == 24 && colmodVal == if st7735 then 0x06 else 0x66)
    }

    function PixelBytes(): (n: nat)
      requires Valid()
      ensures n == if fbBitsPerPixel == 16 then 2 else 3
    {
      fbBitsPerPixel / 8
    }

    /** bits_per_pixel of the panel configuration: 16, or 18 carried in 24. */
    constructor (io: PanelIo, st7735: bool, wide: bool)
      ensures Valid() && this.io == io && this.st7735 == st7735 && fbBitsPerPixel == if wide then 24 else 16
      ensures xGap == 0 && yGap == 0
    {
      this.io, this.st7735 := io, st7735;
      fbBitsPerPixel := if wide then 24 else 16;
      colmodVal := if wide then (if st7735 then 0x06 else 0x66) else if st7735 then 0x05 else 0x55;
      xGap, yGap := 0, 0;
    }

    method SetGap(xGap: int, yGap: int)
      modifies this`xGap, this`yGap
      ensures this.xGap == xGap && this.yGap == yGap
    {
      this.xGap, this.yGap := xGap, yGap;
    }

    /** COLMOD, CASET, RASET: pixel format and a one-row window. */
    method SetWindow(xStart: int, xEnd: int, yFirst: int, yLast: int) returns (ok: bool)
      requires Valid() && yFirst == yLast
      modifies io
      ensures io.lcd.gram == old(io.lcd.gram)
      ensures ok ==> io.lcd.x0 == xStart % 65536 && io.lcd.x1 == (xEnd - 1) % 65536 && io.lcd.y0 == yFirst % 65536
      ensures ok ==> io.lcd.pixelBytes == PixelBytes()
      ensures io.healthy ==> ok
    {
      ghost var start := io.lcd;
      ok := io.TxParam(COLMOD, [colmodVal]);
      if ok {
        ok := io.TxParam(CASET, WindowParams(xStart, xEnd - 1));
        if ok {
          ok := io.TxParam(RASET, WindowParams(yFirst, yLast));
          ReadyWindow(start, colmodVal, xStart, xEnd, yFirst);
        }
      }
    }

    /** The four transfers both loops make for a row of `w` pixels: unless its columns run over
        the end of the 16-bit coordinates, the row is painted at `(x, y)`. */
    method SendRow(xStart: int, xEnd: int, yFirst: int, yLast: int, bytes: seq<Byte>, ghost x: int, ghost y: int)
      returns (ok: bool)
      requires Valid() && xStart < xEnd && yFirst == yLast
      requires |bytes| == Times(xEnd - xStart, PixelBytes())
      requires x == xStart % 65536 && y == yFirst % 65536
      modifies io
      ensures x + (xEnd - xStart) <= 65536 ==>
                RowSent(ok, old(io.lcd.gram), x, y, Split(bytes, PixelBytes()), io.lcd.gram)
      ensures io.healthy ==> ok
    {
      NothingSent(io.lcd.gram, x, y, Split(bytes, PixelBytes()));
      ok := SetWindow(xStart, xEnd, yFirst, yLast);
      if !ok {
        return;
      }
      ghost var ready := io.lcd;
      ok := io.TxColor(bytes);
      ghost var m :| 0 <= m <= |bytes| && (ok ==> m == |bytes|) && io.lcd == RamWrite(ready, bytes[..m]);
      if x + (xEnd - xStart) <= 65536 {
        NextLineWraps(xStart, xEnd - xStart - 1);
        RowDelivered(ok, ready, PixelBytes(), xEnd - xStart, x, y, bytes, m);
      }
    }

    /** One loop pass: the bytes of row `r` of the job are sent below the rows before it. */
    method SendImageRow(xs: int, xe: int, yFirst: int, yLast: int, bytes: seq<Byte>,
                        ghost job: Job, ghost fits: bool, ghost r: nat)
      returns (ok: bool)
      requires Valid() && xs < xe && yFirst == yLast && |bytes| == Times(xe - xs, PixelBytes())
      requires r < |job.image| && job.image[r] == Split(bytes, PixelBytes())
      requires fits ==> job.x == xs % 65536 && Fits(xs, xe - xs) && job.y + r == yFirst % 65536
      requires Sending(job, fits, r, io.lcd.gram)
      modifies io
      ensures ok ==> Sending(job, fits, r + 1, io.lcd.gram)
      ensures !ok && fits ==> Drew(ok, job, io.lcd.gram)
      ensures io.healthy ==> ok
    {
      ok := SendRow(xs, xe, yFirst, yLast, bytes, xs % 65536, yFirst % 65536);
      if fits {
        RowDrawn(ok, job, r, io.lcd.gram);
      }
    }

    /** The loop of panel_ili_draw_bitmap, coordinates already shifted by the gap. */
    method IliRows(xs: int, w: nat, ys: int, h: nat, data: array<Byte>, offset: nat, rowBytes: nat,
                   ghost job: Job, ghost fits: bool)
      returns (ok: bool)
      requires Valid() && 0 < w && rowBytes == Times(w, PixelBytes())
      requires Holds(data.Length, offset, rowBytes, rowBytes, h)
      requires job.before == io.lcd.gram && job.x == xs % 65536 && job.y == ys % 65536
      requires job.image == Image(data[..], offset, rowBytes, rowBytes, h, PixelBytes())
      requires fits == (Fits(xs, w) && Fits(ys, h))
      modifies io
      ensures fits ==> Drew(ok, job, io.lcd.gram)
      ensures io.healthy ==> ok
    {
      ghost var bytes, row := data[..], 0;
      var src, y := offset, ys;
      while y < ys + h
        invariant row <= h && y == ys + row && src == offset + Times(row, rowBytes)
        invariant data[..] == bytes && Sending(job, fits, row, io.lcd.gram)
      {
        NextRow(bytes, offset, rowBytes, h, PixelBytes(), row, src, job.image);
        assert data[src..src + rowBytes] == bytes[src..src + rowBytes];
        LineOfRow(job, fits, ys, h, row);
        ok := SendImageRow(xs, xs + w, y, y, data[src..src + rowBytes], job, fits, row);
        if !ok {
          return;
        }
        src := src + rowBytes;
        y, row := y + 1, row + 1;
      }
      ok := io.TxParam(COLMOD, [colmodVal]);
      if fits {
        AllSent(job, ok, io.lcd.gram);
      }
    }

    /** The loop of blusys_st7735_panel_draw_bitmap; max_rows_per_tx is one. */
    method St7735Rows(xs: int, w: nat, ys: int, h: nat, data: array<Byte>, offset: nat, rowBytes: nat,
                   ghost job: Job, ghost fits: bool)
      returns (ok: bool)
      requires Valid() && 0 < w && rowBytes == Times(w, PixelBytes())
      requires Holds(data.Length, offset, rowBytes, rowBytes, h)
      requires job.before == io.lcd.gram && job.x == xs % 65536 && job.y == ys % 65536
      requires job.image == Image(data[..], offset, rowBytes, rowBytes, h, PixelBytes())
      requires fits == (Fits(xs, w) && Fits(ys, h))
      modifies io
      ensures fits ==> Drew(ok, job, io.lcd.gram)
      ensures io.healthy ==> ok
    {
      ghost var bytes := data[..];
      var src, row := offset, 0;
      while row < h
        invariant row <= h && src == offset + Times(row, rowBytes)
        invariant data[..] == bytes && Sending(job, fits, row, io.lcd.gram)
      {
        var chunkRows := if h - row > 1 then 1 else h - row;
        assert chunkRows == 1;
        NextRow(bytes, offset, rowBytes, h, PixelBytes(), row, src, job.image);
        var len := rowBytes;
        assert data[src..src + len] == bytes[src..src + rowBytes];
        var y := ys + row;
        LineOfRow(job, fits, ys, h, row);
        ok := SendImageRow(xs, xs + w, y, y + chunkRows - 1, data[src..src + len], job, fits, row);
        if !ok {
          return;
        }
        src, row := src + len, row + 1;
      }
      ok := io.TxParam(COLMOD, [colmodVal]);
      if fits {
        AllSent(job, ok, io.lcd.gram);
      }
    }

    /** The bytes of the rows a draw call sends. */
    ghost predicate Covered(xStart: int, yStart: int, xEnd: int, yEnd: int, length: nat, offset: nat)
      requires Valid() && xStart < xEnd && yStart < yEnd
    {
      var rowBytes := Times(xEnd - xStart, PixelBytes());
      Holds(length, offset, rowBytes, rowBytes, yEnd - yStart)
    }

    /** The image those bytes show. */
    ghost function Source(xStart: int, yStart: int, xEnd: int, yEnd: int, bytes: seq<Byte>, offset: nat)
      : (image: seq<seq<Pixel>>)
      requires Valid() && xStart < xEnd && yStart < yEnd && Covered(xStart, yStart, xEnd, yEnd, |bytes|, offset)
      ensures |image| == yEnd - yStart
    {
      var rowBytes := Times(xEnd - xStart, PixelBytes());
      Image(bytes, offset, rowBytes, rowBytes, yEnd - yStart, PixelBytes())
    }

    /** What a draw call is asked to do. */
    ghost function Asked(xStart: int, yStart: int, xEnd: int, yEnd: int, bytes: seq<Byte>, offset: nat): (job: Job)
      reads this, io
      requires Valid() && xStart < xEnd && yStart < yEnd && Covered(xStart, yStart, xEnd, yEnd, |bytes|, offset)
    {
      Job(io.lcd.gram, (xStart + xGap) % 65536, (yStart + yGap) % 65536,
          Source(xStart, yStart, xEnd, yEnd, bytes, offset))
    }

    /** blusys_lcd_draw_bitmap: argument check, gap shift, then the panel's own loop. The image
        in the buffer appears at the gap-shifted corner, taken modulo 2^16, unless it runs over
        the end of the controller's coordinates. */
    method DrawBitmap(xStart: int, yStart: int, xEnd: int, yEnd: int, data: array<Byte>, offset: nat, ghost job: Job)
      returns (ok: bool)
      requires Valid()
      requires 0 <= xStart < xEnd && 0 <= yStart < yEnd ==>
                 && Covered(xStart, yStart, xEnd, yEnd, data.Length, offset)
                 && job == Asked(xStart, yStart, xEnd, yEnd, data[..], offset)
      modifies io
      ensures !(0 <= xStart < xEnd && 0 <= yStart < yEnd) ==> !ok && unchanged(io)
      ensures 0 <= xStart < xEnd && 0 <= yStart < yEnd ==>
                && (Fits(xStart + xGap, xEnd - xStart) && Fits(yStart + yGap, yEnd - yStart) ==>
                      Drew(ok, job, io.lcd.gram))
                && (io.healthy ==> ok)
    {
      if xStart < 0 || yStart < 0 || xEnd <= xStart || yEnd <= yStart {
        ok := false;
      } else {
        var xs, w, ys, h := xStart + xGap, xEnd - xStart, yStart + yGap, yEnd - yStart;
        var rowBytes := Times(w, PixelBytes());
        if st7735 {
          ok := St7735Rows(xs, w, ys, h, data, offset, rowBytes, job, Fits(xs, w) && Fits(ys, h));
        } else {
          ok := IliRows(xs, w, ys, h, data, offset, rowBytes, job, Fits(xs, w) && Fits(ys, h));
        }
      }
    }
  }

  /** Pixel `(px, py)` after `w` by `h` packed pixels of `n` bytes were drawn at `(x, y)`: its own
      bytes, or the old contents around them. */
  ghost predicate BytesAt(g: Memory, x: int, y: int, w: nat, h: nat, rowBytes: nat, n: nat, bytes: seq<Byte>,
                          now: Memory, px: int, py: int)
  {
    if x <= px < x + w && y <= py < y + h then
      var o := Times(py - y, rowBytes) + Times(px - x, n);
      o + n <= |bytes| && At(now, px, py) == Some(bytes[o..o + n])
    else
      At(now, px, py) == At(g, px, py)
  }

  ghost predicate Appears(g: Memory, x: int, y: int, w: nat, h: nat, rowBytes: nat, n: nat, bytes: seq<Byte>,
                          now: Memory)
  {
    forall px, py :: BytesAt(g, x, y, w, h, rowBytes, n, bytes, now, px, py)
  }

  lemma InsideBlit(g: Memory, x: int, y: int, w: nat, h: nat, n: nat, bytes: seq<Byte>, rowBytes: nat,
                   image: seq<seq<Pixel>>, px: int, py: int)
    requires n > 0 && rowBytes == Times(w, n) && Holds(|bytes|, 0, rowBytes, rowBytes, h)
    requires image == Image(bytes, 0, rowBytes, rowBytes, h, n) && x <= px < x + w && y <= py < y + h
    ensures var o := Times(py - y, rowBytes) + Times(px - x, n);
            o + n <= |bytes| && At(Blit(g, x, y, image), px, py) == Some(bytes[o..o + n])
  {
    ImagePixel(image, bytes, 0, rowBytes, rowBytes, h, n, w, py - y, px - x);
    BlitAt(g, x, y, image, px, py);
  }

  lemma OutsideBlit(g: Memory, x: int, y: int, w: nat, h: nat, n: nat, bytes: seq<Byte>, rowBytes: nat,
                    image: seq<seq<Pixel>>, px: int, py: int)
    requires n > 0 && rowBytes == Times(w, n) && Holds(|bytes|, 0, rowBytes, rowBytes, h)
    requires image == Image(bytes, 0, rowBytes, rowBytes, h, n) && !(x <= px < x + w && y <= py < y + h)
    ensures At(Blit(g, x, y, image), px, py) == At(g, px, py)
  {
    BlitAt(g, x, y, image, px, py);
    if y <= py < y + h {
      RowWidth(image, bytes, 0, rowBytes, rowBytes, h, n, w, py - y);
    }
  }

  lemma BlitAppears(g: Memory, x: int, y: int, w: nat, h: nat, rowBytes: nat, n: nat, bytes: seq<Byte>,
                    image: seq<seq<Pixel>>)
    requires n > 0 && rowBytes == Times(w, n) && Holds(|bytes|, 0, rowBytes, rowBytes, h)
    requires image == Image(bytes, 0, rowBytes, rowBytes, h, n)
    ensures Appears(g, x, y, w, h, rowBytes, n, bytes, Blit(g, x, y, image))
  {
    forall px, py
      ensures BytesAt(g, x, y, w, h, rowBytes, n, bytes, Blit(g, x, y, image), px, py)
    {
      if x <= px < x + w && y <= py < y + h {
        InsideBlit(g, x, y, w, h, n, bytes, rowBytes, image, px, py);
      } else {
        OutsideBlit(g, x, y, w, h, n, bytes, rowBytes, image, px, py);
      }
    }
  }

  /** Opening a panel with configured offsets and drawing: on a working bus every pixel of the
      image appears moved by the offsets, and nothing else changes. */
  method OpenAndDraw(io: PanelIo, st7735: bool, wide: bool, xOffset: int, yOffset: int,
                     xStart: int, yStart: int, xEnd: int, yEnd: int, data: array<Byte>)
    returns (driver: Driver)
    requires io.healthy && 0 <= xStart < xEnd && 0 <= yStart < yEnd
    requires var rowBytes := Times(xEnd - xStart, if wide then 3 else 2);
             Holds(data.Length, 0, rowBytes, rowBytes, yEnd - yStart)
    requires 0 <= xStart + xOffset && xEnd + xOffset <= 65536 && 0 <= yStart + yOffset && yEnd + yOffset <= 65536
    modifies io
    ensures Appears(old(io.lcd.gram), xStart + xOffset, yStart + yOffset, xEnd - xStart, yEnd - yStart,
                    Times(xEnd - xStart, if wide then 3 else 2), if wide then 3 else 2, data[..], io.lcd.gram)
  {
    driver := new Driver(io, st7735, wide);
    if xOffset != 0 || yOffset != 0 {
      driver.SetGap(xOffset, yOffset);
    }
    ghost var job := driver.Asked(xStart, yStart, xEnd, yEnd, data[..], 0);
    FitsAsIs(xStart + xOffset, xEnd - xStart);
    FitsAsIs(yStart + yOffset, yEnd - yStart);
    var ok := driver.DrawBitmap(xStart, yStart, xEnd, yEnd, data, 0, job);
    BlitAppears(job.before, xStart + xOffset, yStart + yOffset, xEnd - xStart, yEnd - yStart,
                Times(xEnd - xStart, if wide then 3 else 2), if wide then 3 else 2, data[..], job.image);
  }
}
