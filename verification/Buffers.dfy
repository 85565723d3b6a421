/** Byte buffers read as images: rows at a stride, pixels of two or three bytes. Row offsets
    are products; they are kept as repeated sums so that proofs about them stay linear. */
module Buffers {
  import opened Basics
  import opened Gram

  /** `n * k`. */
  function Times(n: nat, k: nat): nat {
    if n == 0 then 0 else Times(n - 1, k) + k
  }

  lemma {:induction false} TimesIsProduct(n: nat, k: nat)
    ensures Times(n, k) == n * k
  {
    if n > 0 {
      TimesIsProduct(n - 1, k);
    }
  }

  lemma {:induction false} TimesAdd(n: nat, m: nat, k: nat)
    ensures Times(n + m, k) == Times(n, k) + Times(m, k)
  {
    if m > 0 {
      TimesAdd(n, m - 1, k);
    }
  }

  lemma TimesMonotone(n: nat, m: nat, k: nat)
    requires n <= m
    ensures Times(n, k) <= Times(m, k)
  {
    TimesAdd(n, m - n, k);
  }

  lemma TimesBelow(n: nat, m: nat, k: nat)
    requires n < m
    ensures Times(n, k) + k <= Times(m, k)
  {
    TimesMonotone(n + 1, m, k);
  }

  /** The whole pixels of a byte stream. */
  function Split(bytes: seq<Byte>, n: nat): seq<Pixel>
    requires n > 0
  {
    if |bytes| < n then [] else [bytes[..n]] + Split(bytes[n..], n)
  }

  /** A row of `w` pixels of `n` bytes splits into `w` pixels. */
  lemma {:induction false} SplitCount(bytes: seq<Byte>, n: nat, w: nat)
    requires n > 0 && |bytes| == Times(w, n)
    ensures |Split(bytes, n)| == w
  {
    if w > 0 {
      SplitCount(bytes[n..], n, w - 1);
    }
  }

  /** A prefix of the stream holds a prefix of the pixels. */
  lemma {:induction false} SplitPrefix(bytes: seq<Byte>, n: nat, m: nat) returns (k: nat)
    requires n > 0 && m <= |bytes|
    ensures k <= |Split(bytes, n)| && Split(bytes[..m], n) == Split(bytes, n)[..k]
    decreases |bytes|
  {
    if m < n {
      k := 0;
    } else {
      var j := SplitPrefix(bytes[n..], n, m - n);
      assert bytes[..m][..n] == bytes[..n] && bytes[..m][n..] == bytes[n..][..m - n];
      k := j + 1;
    }
  }

  /** `h` rows of `rowBytes`, `stride` apart, starting at `offset`, lie in `length` bytes. */
  predicate Holds(length: nat, offset: nat, stride: nat, rowBytes: nat, h: nat) {
    rowBytes <= stride && (h > 0 ==> offset + Times(h - 1, stride) + rowBytes <= length)
  }

  lemma RowInside(length: nat, offset: nat, stride: nat, rowBytes: nat, h: nat, r: nat)
    requires Holds(length, offset, stride, rowBytes, h) && r < h
    ensures offset + Times(r, stride) + rowBytes <= length
  {
    TimesMonotone(r, h - 1, stride);
  }

  /** The bytes of row `r`. */
  function RowAt(bytes: seq<Byte>, offset: nat, stride: nat, rowBytes: nat, h: nat, r: nat): (row: seq<Byte>)
    requires Holds(|bytes|, offset, stride, rowBytes, h) && r < h
    ensures |row| == rowBytes
  {
    RowInside(|bytes|, offset, stride, rowBytes, h, r);
    bytes[offset + Times(r, stride)..offset + Times(r, stride) + rowBytes]
  }

  /** The image a buffer shows. */
  function Image(bytes: seq<Byte>, offset: nat, stride: nat, rowBytes: nat, h: nat, n: nat): (rows: seq<seq<Pixel>>)
    requires n > 0 && Holds(|bytes|, offset, stride, rowBytes, h)
    ensures |rows| == h
  {
    seq(h, r requires 0 <= r < h => Split(RowAt(bytes, offset, stride, rowBytes, h, r), n))
  }

  lemma ImageAt(bytes: seq<Byte>, offset: nat, stride: nat, rowBytes: nat, h: nat, n: nat, r: nat)
    requires n > 0 && Holds(|bytes|, offset, stride, rowBytes, h) && r < h
    ensures offset + Times(r, stride) + rowBytes <= |bytes|
    ensures Image(bytes, offset, stride, rowBytes, h, n)[r] == Split(RowAt(bytes, offset, stride, rowBytes, h, r), n)
  {
    RowInside(|bytes|, offset, stride, rowBytes, h, r);
  }

  /** An image of one row. */
  lemma SoleRow(bytes: seq<Byte>, at: nat, rowBytes: nat, n: nat)
    requires n > 0 && at + rowBytes <= |bytes|
    ensures Holds(|bytes|, at, rowBytes, rowBytes, 1)
    ensures Image(bytes, at, rowBytes, rowBytes, 1, n) == [Split(bytes[at..at + rowBytes], n)]
  {
    ImageAt(bytes, at, rowBytes, rowBytes, 1, n, 0);
  }

  /** Stepping a source pointer row by row visits the image's rows in order. */
  lemma NextRow(bytes: seq<Byte>, offset: nat, stride: nat, h: nat, n: nat, r: nat, src: nat, image: seq<seq<Pixel>>)
    requires n > 0 && Holds(|bytes|, offset, stride, stride, h) && r < h
    requires image == Image(bytes, offset, stride, stride, h, n) && src == offset + Times(r, stride)
    ensures src + stride <= |bytes| && image[r] == Split(bytes[src..src + stride], n)
    ensures src + stride == offset + Times(r + 1, stride) && Times(1, stride) == stride
  {
    ImageAt(bytes, offset, stride, stride, h, n, r);
    assert Times(1, stride) == Times(0, stride) + stride;
  }

  lemma TailSlice(bytes: seq<Byte>, n: nat, a: nat, b: nat)
    requires n <= |bytes| && a <= b && n + b <= |bytes|
    ensures bytes[n..][a..b] == bytes[n + a..n + b]
  {
  }

  /** Pixel `i` of a row. */
  lemma {:induction false} SplitAt(bytes: seq<Byte>, n: nat, w: nat, i: nat)
    requires n > 0 && |bytes| == Times(w, n) && i < w
    ensures |Split(bytes, n)| == w && Times(i, n) + n <= |bytes|
    ensures Split(bytes, n)[i] == bytes[Times(i, n)..Times(i, n) + n]
  {
    SplitCount(bytes, n, w);
    TimesBelow(i, w, n);
    if i > 0 {
      SplitAt(bytes[n..], n, w - 1, i - 1);
      TailSlice(bytes, n, Times(i - 1, n), Times(i - 1, n) + n);
    }
  }

  lemma SliceOfSlice(bytes: seq<Byte>, a: nat, n: nat, i: nat, j: nat)
    requires a + n <= |bytes| && i <= j <= n
    ensures bytes[a..a + n][i..j] == bytes[a + i..a + j]
  {
    var inner, direct := bytes[a..a + n][i..j], bytes[a + i..a + j];
    forall k | 0 <= k < j - i
      ensures inner[k] == direct[k]
    {
      assert inner[k] == bytes[a..a + n][i + k];
    }
  }

  lemma RowPixel(row: seq<Pixel>, bytes: seq<Byte>, at: nat, rowBytes: nat, n: nat, w: nat, i: nat)
    requires n > 0 && rowBytes == Times(w, n) && at + rowBytes <= |bytes| && i < w
    requires row == Split(bytes[at..at + rowBytes], n)
    ensures |row| == w && at + Times(i, n) + n <= |bytes|
    ensures row[i] == bytes[at + Times(i, n)..at + Times(i, n) + n]
  {
    SplitAt(bytes[at..at + rowBytes], n, w, i);
    SliceOfSlice(bytes, at, rowBytes, Times(i, n), Times(i, n) + n);
  }

  lemma RowOfImage(image: seq<seq<Pixel>>, bytes: seq<Byte>, offset: nat, stride: nat, rowBytes: nat, h: nat,
                   n: nat, r: nat, at: nat)
    requires n > 0 && Holds(|bytes|, offset, stride, rowBytes, h) && r < h && at == offset + Times(r, stride)
    requires image == Image(bytes, offset, stride, rowBytes, h, n)
    ensures at + rowBytes <= |bytes| && image[r] == Split(bytes[at..at + rowBytes], n)
  {
    ImageAt(bytes, offset, stride, rowBytes, h, n, r);
  }

  /** Pixel `i` of row `r` of an image. */
  lemma ImagePixel(image: seq<seq<Pixel>>, bytes: seq<Byte>, offset: nat, stride: nat, rowBytes: nat, h: nat,
                   n: nat, w: nat, r: nat, i: nat)
    requires n > 0 && Holds(|bytes|, offset, stride, rowBytes, h) && r < h && i < w && rowBytes == Times(w, n)
    requires image == Image(bytes, offset, stride, rowBytes, h, n)
    ensures var o := offset + Times(r, stride) + Times(i, n);
            |image[r]| == w && o + n <= |bytes| && image[r][i] == bytes[o..o + n]
  {
    var row, at := image[r], offset + Times(r, stride);
    RowOfImage(image, bytes, offset, stride, rowBytes, h, n, r, at);
    RowPixel(row, bytes, at, rowBytes, n, w, i);
  }

  lemma RowWidth(image: seq<seq<Pixel>>, bytes: seq<Byte>, offset: nat, stride: nat, rowBytes: nat, h: nat,
                 n: nat, w: nat, r: nat)
    requires n > 0 && Holds(|bytes|, offset, stride, rowBytes, h) && r < h && rowBytes == Times(w, n)
    requires image == Image(bytes, offset, stride, rowBytes, h, n)
    ensures |image[r]| == w
  {
    ImageAt(bytes, offset, stride, rowBytes, h, n, r);
    SplitCount(RowAt(bytes, offset, stride, rowBytes, h, r), n, w);
  }
}
