/** Bytes as bit strings, least significant bit first, and the word operations the drivers
    use to test, set and shift single bits. */
module Octets {
  import opened Basics

  /** Bits in transmission order. */
  type Bits = seq<bool>

  function ByteBits(b: bv8): Octet {
    [b & 0x01 != 0, b & 0x02 != 0, b & 0x04 != 0, b & 0x08 != 0,
     b & 0x10 != 0, b & 0x20 != 0, b & 0x40 != 0, b & 0x80 != 0]
  }

  lemma ByteBitsInjective(a: bv8, b: bv8)
    requires ByteBits(a) == ByteBits(b)
    ensures a == b
  {
    assert forall i | 0 <= i < 8 :: ByteBits(a)[i] == ByteBits(b)[i];
    assert ByteBits(a)[0] == ByteBits(b)[0] && ByteBits(a)[1] == ByteBits(b)[1];
    assert ByteBits(a)[2] == ByteBits(b)[2] && ByteBits(a)[3] == ByteBits(b)[3];
    assert ByteBits(a)[4] == ByteBits(b)[4] && ByteBits(a)[5] == ByteBits(b)[5];
    assert ByteBits(a)[6] == ByteBits(b)[6] && ByteBits(a)[7] == ByteBits(b)[7];
  }

  /** The bits a byte buffer puts on the wire. */
  function BitsOf(data: seq<bv8>): (r: Bits)
    ensures |r| == 8 * |data|
  {
    if data == [] then [] else BitsOf(data[..|data| - 1]) + ByteBits(data[|data| - 1])
  }

  lemma {:induction false} BitsOfAt(data: seq<bv8>, i: nat, j: nat)
    requires i < |data| && j < 8
    ensures BitsOf(data)[8 * i + j] == ByteBits(data[i])[j]
  {
    if i < |data| - 1 {
      BitsOfAt(data[..|data| - 1], i, j);
    }
  }

  function Zeros(n: nat): (r: Bits)
    ensures |r| == n
  {
    seq(n, _ => false)
  }

  lemma ShiftRight(b: bv8)
    ensures ByteBits(b >> 1) == ByteBits(b)[1..] + [false]
  {
    var s := b >> 1;
    assert (s & 0x01 != 0) == (b & 0x02 != 0) && (s & 0x02 != 0) == (b & 0x04 != 0);
    assert (s & 0x04 != 0) == (b & 0x08 != 0) && (s & 0x08 != 0) == (b & 0x10 != 0);
    assert (s & 0x10 != 0) == (b & 0x20 != 0) && (s & 0x20 != 0) == (b & 0x40 != 0);
    assert (s & 0x40 != 0) == (b & 0x80 != 0) && (s & 0x80 != 0) == false;
  }

  /** The drivers' `1 << i`. */
  function Mask(i: nat): bv8
    requires i < 8
  {
    match i
    case 0 => 0x01
    case 1 => 0x02
    case 2 => 0x04
    case 3 => 0x08
    case 4 => 0x10
    case 5 => 0x20
    case 6 => 0x40
    case _ => 0x80
  }

  lemma MaskIsShift(i: nat)
    requires i < 8
    ensures Mask(i) == 1 << i
  {
  }

  lemma TestBit(b: bv8, i: nat)
    requires i < 8
    ensures (b & Mask(i) != 0) == ByteBits(b)[i]
  {
  }

  lemma ExtractBit(b: bv8, i: nat)
    requires i < 8
    ensures ((b >> i) & 1 == 1) == ByteBits(b)[i]
  {
  }

  lemma MaskBits(i: nat)
    requires i < 8
    ensures ByteBits(Mask(i)) == Zeros(8)[i := true]
  {
  }

  lemma OrTest(b: bv8, m: bv8, probe: bv8)
    ensures ((b | m) & probe != 0) == (b & probe != 0 || m & probe != 0)
  {
  }

  /** Or-ing in a mask sets one bit. */
  lemma SetBit(b: bv8, i: nat, j: nat)
    requires i < 8 && j < 8
    ensures ByteBits(b | Mask(i))[j] == (i == j || ByteBits(b)[j])
  {
    OrTest(b, Mask(i), Mask(j));
    TestBit(b | Mask(i), j);
    TestBit(b, j);
    TestBit(Mask(i), j);
    MaskBits(i);
  }

  lemma OrMask(b: bv8, i: nat)
    requires i < 8
    ensures ByteBits(b | Mask(i)) == ByteBits(b)[i := true]
  {
    var now, want := ByteBits(b | Mask(i)), ByteBits(b)[i := true];
    forall j | 0 <= j < 8
      ensures now[j] == want[j]
    {
      SetBit(b, i, j);
    }
  }

  lemma SetBitAt(data: seq<bv8>, a: nat, b: nat, i: nat, j: nat)
    requires a < |data| && b < 8 && i < |data| && j < 8
    ensures BitsOf(data[a := data[a] | Mask(b)])[8 * i + j] ==
            ((i == a && j == b) || BitsOf(data)[8 * i + j])
  {
    BitsOfAt(data[a := data[a] | Mask(b)], i, j);
    BitsOfAt(data, i, j);
    if i == a {
      SetBit(data[a], b, j);
    }
  }

  lemma SetBitOfAt(data: seq<bv8>, k: nat, n: nat)
    requires k < 8 * |data| && n < 8 * |data|
    ensures BitsOf(data[k / 8 := data[k / 8] | Mask(k % 8)])[n] == BitsOf(data)[k := true][n]
  {
    var a, b, i, j := k / 8, k % 8, n / 8, n % 8;
    assert k == 8 * a + b && n == 8 * i + j;
    SetBitAt(data, a, b, i, j);
  }

  /** Setting a bit of one byte sets one bit of the buffer. */
  lemma SetBitOf(data: seq<bv8>, k: nat)
    requires k < 8 * |data|
    ensures BitsOf(data[k / 8 := data[k / 8] | Mask(k % 8)]) == BitsOf(data)[k := true]
  {
    var now, want := BitsOf(data[k / 8 := data[k / 8] | Mask(k % 8)]), BitsOf(data)[k := true];
    forall n | 0 <= n < 8 * |data|
      ensures now[n] == want[n]
    {
      SetBitOfAt(data, k, n);
    }
  }

  lemma {:induction false} ZeroBytes(data: seq<bv8>)
    requires forall i | 0 <= i < |data| :: data[i] == 0
    ensures BitsOf(data) == Zeros(8 * |data|)
  {
    if data != [] {
      ZeroBytes(data[..|data| - 1]);
    }
  }
}
