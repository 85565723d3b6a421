/** Panel memory and what it means to copy an image onto a rectangle of it. */
module Gram {
  import opened Basics

  /** The bytes of one pixel, two or three of them. */
  type Pixel = seq<Byte>

  type Memory = map<(int, int), Pixel>

  function At(g: Memory, x: int, y: int): Option<Pixel> {
    if (x, y) in g then Some(g[(x, y)]) else None
  }

  /** Writes a run of pixels on row `y` from column `x`. */
  function Paint(g: Memory, x: int, y: int, pixels: seq<Pixel>): Memory {
    if pixels == [] then g
    else Paint(g, x, y, pixels[..|pixels| - 1])[(x + |pixels| - 1, y) := pixels[|pixels| - 1]]
  }

  /** Copies an image, top row first, with its top left corner at `(x, y)`. */
  function Blit(g: Memory, x: int, y: int, rows: seq<seq<Pixel>>): Memory {
    if rows == [] then g
    else Paint(Blit(g, x, y, rows[..|rows| - 1]), x, y + |rows| - 1, rows[|rows| - 1])
  }

  ghost predicate Covers(x: int, y: int, rows: seq<seq<Pixel>>, px: int, py: int) {
    y <= py < y + |rows| && x <= px < x + |rows[py - y]|
  }

  lemma {:induction false} PaintAt(g: Memory, x: int, y: int, pixels: seq<Pixel>, px: int, py: int)
    ensures At(Paint(g, x, y, pixels), px, py) ==
            if py == y && x <= px < x + |pixels| then Some(pixels[px - x]) else At(g, px, py)
  {
    if pixels != [] {
      PaintAt(g, x, y, pixels[..|pixels| - 1], px, py);
    }
  }

  /** Every covered pixel shows the image, every other pixel is as before. */
  lemma {:induction false} BlitAt(g: Memory, x: int, y: int, rows: seq<seq<Pixel>>, px: int, py: int)
    ensures At(Blit(g, x, y, rows), px, py) ==
            if Covers(x, y, rows, px, py) then Some(rows[py - y][px - x]) else At(g, px, py)
  {
    if rows != [] {
      var n := |rows| - 1;
      BlitAt(g, x, y, rows[..n], px, py);
      PaintAt(Blit(g, x, y, rows[..n]), x, y + n, rows[n], px, py);
    }
  }

  /** Two blits, one below the other, are one. */
  lemma {:induction false} BlitBelow(g: Memory, x: int, y: int, upper: seq<seq<Pixel>>, lower: seq<seq<Pixel>>)
    ensures Blit(Blit(g, x, y, upper), x, y + |upper|, lower) == Blit(g, x, y, upper + lower)
    decreases |lower|
  {
    if lower == [] {
      assert upper + lower == upper;
    } else {
      var n := |lower| - 1;
      BlitBelow(g, x, y, upper, lower[..n]);
      assert (upper + lower)[..|upper| + n] == upper + lower[..n];
    }
  }

  lemma OneRow(g: Memory, x: int, y: int, row: seq<Pixel>)
    ensures Blit(g, x, y, [row]) == Paint(g, x, y, row)
  {
    assert [row][..0] == [];
  }

  // ---------------------------------------------------------------- interrupted copies

  /** Each pixel of `now` is either as in `before` or as in `after`. */
  ghost predicate Blended(before: Memory, after: Memory, now: Memory) {
    forall x, y :: At(now, x, y) == At(before, x, y) || At(now, x, y) == At(after, x, y)
  }

  /** Stopping a blit after some rows and part of the next changes nothing outside the
      rectangle and puts nothing but image pixels inside. */
  lemma PartialBlit(g: Memory, x: int, y: int, rows: seq<seq<Pixel>>, k: nat, n: nat)
    requires k < |rows| && n <= |rows[k]|
    ensures Blended(g, Blit(g, x, y, rows), Paint(Blit(g, x, y, rows[..k]), x, y + k, rows[k][..n]))
  {
    forall px, py
      ensures var now := At(Paint(Blit(g, x, y, rows[..k]), x, y + k, rows[k][..n]), px, py);
              now == At(g, px, py) || now == At(Blit(g, x, y, rows), px, py)
    {
      BlitAt(g, x, y, rows, px, py);
      BlitAt(g, x, y, rows[..k], px, py);
      PaintAt(Blit(g, x, y, rows[..k]), x, y + k, rows[k][..n], px, py);
    }
  }

  lemma WholeBlitBlends(g: Memory, x: int, y: int, rows: seq<seq<Pixel>>)
    ensures Blended(g, Blit(g, x, y, rows), Blit(g, x, y, rows))
    ensures Blended(g, Blit(g, x, y, rows), g)
  {
  }

  /** Two interrupted copies of parts of one image, one below the other, are an
      interrupted copy of both parts. */
  lemma BlendedBelow(g: Memory, x: int, y: int, upper: seq<seq<Pixel>>, lower: seq<seq<Pixel>>,
                     mid: Memory, now: Memory)
    requires Blended(g, Blit(g, x, y, upper), mid)
    requires Blended(mid, Blit(mid, x, y + |upper|, lower), now)
    ensures Blended(g, Blit(g, x, y, upper + lower), now)
  {
    var whole := Blit(g, x, y, upper + lower);
    forall px, py
      ensures At(now, px, py) == At(g, px, py) || At(now, px, py) == At(whole, px, py)
    {
      BlitAt(g, x, y, upper, px, py);
      BlitAt(mid, x, y + |upper|, lower, px, py);
      BlitAt(g, x, y, upper + lower, px, py);
    }
  }
}
