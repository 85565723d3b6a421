/** Seven-segment displays: rendering numbers into segment patterns, right to left, and
    carrying the patterns to a MAX7219 or through a 74HC595 shift register. */
module SevenSeg {
  import opened Basics
  import opened Binary

  const MAX_DIGITS := 8
  const INT_MIN := -0x8000_0000
  const SEG_BLANK: Byte := 0x00
  const SEG_MINUS: Byte := 0x40

  /** The s_segments table. */
  function Segment(digit: nat): Byte
    requires digit < 16
  {
    match digit
    case 0 => 0x3F
    case 1 => 0x06
    case 2 => 0x5B
    case 3 => 0x4F
    case 4 => 0x66
    case 5 => 0x6D
    case 6 => 0x7D
    case 7 => 0x07
    case 8 => 0x7F
    case 9 => 0x6F
    case 10 => 0x77
    case 11 => 0x7C
    case 12 => 0x39
    case 13 => 0x5E
    case 14 => 0x79
    case _ => 0x71
  }

  // ---------------------------------------------------------------- reading a display

  /** The digit a pattern shows. */
  function DigitOf(seg: Byte): (d: Option<nat>)
    ensures d.Some? ==> d.value < 16
  {
    if seg == 0x3F then Some(0) else if seg == 0x06 then Some(1) else if seg == 0x5B then Some(2)
    else if seg == 0x4F then Some(3) else if seg == 0x66 then Some(4) else if seg == 0x6D then Some(5)
    else if seg == 0x7D then Some(6) else if seg == 0x07 then Some(7) else if seg == 0x7F then Some(8)
    else if seg == 0x6F then Some(9) else if seg == 0x77 then Some(10) else if seg == 0x7C then Some(11)
    else if seg == 0x39 then Some(12) else if seg == 0x5E then Some(13) else if seg == 0x79 then Some(14)
    else if seg == 0x71 then Some(15) else None
  }

  /** Patterns are distinguishable. */
  lemma DigitShown(d: nat)
    requires d < 16
    ensures DigitOf(Segment(d)) == Some(d)
    ensures DigitOf(SEG_BLANK) == None && DigitOf(SEG_MINUS) == None && SEG_BLANK != SEG_MINUS
  {
  }

  /** The digits read from the right until something else or the left edge. */
  function Magnitude(buf: seq<Byte>, radix: nat): nat {
    if buf == [] then 0
    else
      var d := DigitOf(buf[|buf| - 1]);
      if d.None? || d.value >= radix then 0 else radix * Magnitude(buf[..|buf| - 1], radix) + d.value
  }

  /** What ends the digits is a minus sign. */
  predicate Negative(buf: seq<Byte>, radix: nat) {
    buf != []
    && var d := DigitOf(buf[|buf| - 1]);
       if d.None? || d.value >= radix then buf[|buf| - 1] == SEG_MINUS else Negative(buf[..|buf| - 1], radix)
  }

  /** The number on the display, if it ends in a digit. */
  function Reading(buf: seq<Byte>): Option<int> {
    if buf == [] || DigitOf(buf[|buf| - 1]).None? then None
    else
      var m: int := Magnitude(buf, 10);
      Some(if Negative(buf, 10) then -m else m)
  }

  // ---------------------------------------------------------------- rendering

  /** The patterns of a positive number's digits, without leading zeros. */
  function Digits(v: nat): seq<Byte> {
    if v == 0 then [] else Digits(v / 10) + [Segment(v % 10)]
  }

  function Fill(n: nat, leadingZeros: bool): seq<Byte> {
    seq(n, _ => if leadingZeros then Segment(0) else SEG_BLANK)
  }

  function Abs(value: int): nat {
    if value < 0 then -value else value
  }

  /** Sign and digits of a number. */
  function Body(value: int): seq<Byte> {
    if value == 0 then [Segment(0)]
    else if value > 0 then Digits(value)
    else [SEG_MINUS] + Digits(-value)
  }

  function Pow(radix: nat, n: nat): (p: nat)
    requires radix > 0
    ensures p > 0
  {
    if n == 0 then 1 else radix * Pow(radix, n - 1)
  }

  /** The digits left for a number, its sign taking one. */
  function Room(value: int, n: nat): nat
    requires n > 0
  {
    if value < 0 then n - 1 else n
  }

  predicate Fits(value: int, n: nat)
    requires n > 0
  {
    value != INT_MIN && Abs(value) < Pow(10, Room(value, n))
  }

  lemma {:induction false} DigitsFit(v: nat, n: nat)
    requires v < Pow(10, n)
    ensures |Digits(v)| <= n
  {
    if v > 0 && n > 0 {
      DigitsFit(v / 10, n - 1);
    }
  }

  lemma {:induction false} DigitsMagnitude(front: seq<Byte>, v: nat)
    requires v > 0
    ensures Magnitude(front + Digits(v), 10) == v + Magnitude(front, 10) * Pow(10, |Digits(v)|)
    ensures Negative(front + Digits(v), 10) == Negative(front, 10)
    ensures DigitOf(Digits(v)[|Digits(v)| - 1]).Some?
  {
    DigitShown(v % 10);
    var rest := front + Digits(v / 10);
    assert (front + Digits(v))[..|front + Digits(v)| - 1] == rest;
    if v / 10 == 0 {
      assert rest == front && Digits(v) == [] + [Segment(v % 10)];
      assert Pow(10, 1) == 10 * Pow(10, 0) == 10;
    } else {
      DigitsMagnitude(front, v / 10);
      Shift(Magnitude(front, 10), Pow(10, |Digits(v / 10)|));
    }
  }

  lemma Shift(a: nat, p: nat)
    ensures 10 * (a * p) == a * (10 * p)
  {
  }

  lemma {:induction false} FillMagnitude(n: nat, leadingZeros: bool)
    ensures Magnitude(Fill(n, leadingZeros), 10) == 0 && !Negative(Fill(n, leadingZeros), 10)
  {
    DigitShown(0);
    if n > 0 {
      assert Fill(n, leadingZeros)[..n - 1] == Fill(n - 1, leadingZeros);
      FillMagnitude(n - 1, leadingZeros);
    }
  }

  lemma ReadsZero(fill: seq<Byte>)
    requires Magnitude(fill, 10) == 0 && !Negative(fill, 10)
    ensures Reading(fill + [Segment(0)]) == Some(0)
  {
    DigitShown(0);
    assert (fill + [Segment(0)])[..|fill|] == fill;
  }

  /** The digits of a positive number after something that reads as nothing or as a sign. */
  lemma ReadsDigits(front: seq<Byte>, v: nat)
    requires v > 0 && Magnitude(front, 10) == 0
    ensures var value: int := v; Reading(front + Digits(v)) == Some(if Negative(front, 10) then -value else value)
  {
    DigitsMagnitude(front, v);
    var buf := front + Digits(v);
    assert buf[|buf| - 1] == Digits(v)[|Digits(v)| - 1];
  }

  lemma ReadsNegative(fill: seq<Byte>, v: nat)
    requires v > 0
    ensures var value: int := v; Reading(fill + ([SEG_MINUS] + Digits(v))) == Some(-value)
  {
    var front := fill + [SEG_MINUS];
    DigitShown(0);
    assert Magnitude(front, 10) == 0 && Negative(front, 10);
    ReadsDigits(front, v);
    assert fill + ([SEG_MINUS] + Digits(v)) == front + Digits(v);
  }

  /** Reading a rendered number from the right recovers it, whatever fills the rest. */
  lemma RenderedReadsBack(value: int, n: nat, leadingZeros: bool)
    ensures Reading(Fill(n, leadingZeros) + Body(value)) == Some(value)
  {
    FillMagnitude(n, leadingZeros);
    if value == 0 {
      ReadsZero(Fill(n, leadingZeros));
    } else if value > 0 {
      ReadsDigits(Fill(n, leadingZeros), value);
    } else {
      ReadsNegative(Fill(n, leadingZeros), -value);
    }
  }

  // ---------------------------------------------------------------- hexadecimal

  function HexDigits(v: nat, n: nat): (s: seq<Byte>)
    ensures |s| == n
  {
    if n == 0 then [] else HexDigits(v / 16, n - 1) + [Segment(v % 16)]
  }

  lemma HexStep(v: nat, n: nat, tail: seq<Byte>)
    ensures HexDigits(v, n + 1) + tail == HexDigits(v / 16, n) + ([Segment(v % 16)] + tail)
  {
  }

  /** Reading a hexadecimal rendering recovers the value. */
  lemma {:induction false} HexReadsBack(v: nat, n: nat)
    requires v < Pow(16, n)
    ensures Magnitude(HexDigits(v, n), 16) == v
  {
    if n > 0 {
      DigitShown(v % 16);
      HexReadsBack(v / 16, n - 1);
      assert HexDigits(v, n)[..n - 1] == HexDigits(v / 16, n - 1);
    }
  }

  // ---------------------------------------------------------------- segments

  /** The eight segments of a pattern, a to g and the point. */
  function Lit(b: Byte): Octet {
    Bits(b, 8)
  }

  /** Which segments show a hexadecimal digit: 0 to 5 clockwise from the top, 6 in the middle. */
  function Shape(digit: nat): set<nat>
    requires digit < 16
  {
    match digit
    case 0 => {0, 1, 2, 3, 4, 5}
    case 1 => {1, 2}
    case 2 => {0, 1, 3, 4, 6}
    case 3 => {0, 1, 2, 3, 6}
    case 4 => {1, 2, 5, 6}
    case 5 => {0, 2, 3, 5, 6}
    case 6 => {0, 2, 3, 4, 5, 6}
    case 7 => {0, 1, 2}
    case 8 => {0, 1, 2, 3, 4, 5, 6}
    case 9 => {0, 1, 2, 3, 5, 6}
    case 10 => {0, 1, 2, 4, 5, 6}
    case 11 => {2, 3, 4, 5, 6}
    case 12 => {0, 3, 4, 5}
    case 13 => {1, 2, 3, 4, 6}
    case 14 => {0, 3, 4, 5, 6}
    case _ => {0, 4, 5, 6}
  }

  ghost predicate LitExactly(b: Byte, segments: set<nat>) {
    forall i | 0 <= i < 8 :: Bit(b, i) <==> i in segments
  }

  function Weight(on: bool, weight: nat): nat {
    if on then weight else 0
  }

  lemma ValueFrom(bits: seq<bool>, i: nat)
    requires i < |bits|
    ensures Value(bits[i..]) == Weight(bits[i], 1) + 2 * Value(bits[i + 1..])
  {
    assert bits[i..][1..] == bits[i + 1..];
  }

  lemma HighSum(bits: seq<bool>)
    requires |bits| == 8
    ensures Value(bits[4..]) == Weight(bits[4], 1) + Weight(bits[5], 2) + Weight(bits[6], 4) + Weight(bits[7], 8)
  {
    ValueFrom(bits, 4);
    ValueFrom(bits, 5);
    ValueFrom(bits, 6);
    ValueFrom(bits, 7);
    assert bits[8..] == [];
  }

  lemma OctetSum(bits: seq<bool>)
    requires |bits| == 8
    ensures Value(bits) == Weight(bits[0], 1) + Weight(bits[1], 2) + Weight(bits[2], 4) + Weight(bits[3], 8)
                           + Weight(bits[4], 16) + Weight(bits[5], 32) + Weight(bits[6], 64) + Weight(bits[7], 128)
  {
    HighSum(bits);
    ValueFrom(bits, 0);
    ValueFrom(bits, 1);
    ValueFrom(bits, 2);
    ValueFrom(bits, 3);
    assert bits[0..] == bits;
  }

  lemma BitsOfSum(b: nat, bits: seq<bool>, n: nat)
    requires |bits| == n && b == Value(bits)
    ensures forall i | 0 <= i < n :: Bit(b, i) == bits[i]
  {
    BitsOfValue(bits);
    assert forall i | 0 <= i < n :: Bits(b, n)[i] == Bit(b, i);
  }

  /** A pattern whose bits have these weights lights these segments. */
  lemma LightsThese(b: Byte, bits: seq<bool>, segments: set<nat>)
    requires |bits| == 8 && forall i | 0 <= i < 8 :: bits[i] == (i in segments)
    requires b == Weight(bits[0], 1) + Weight(bits[1], 2) + Weight(bits[2], 4) + Weight(bits[3], 8)
                  + Weight(bits[4], 16) + Weight(bits[5], 32) + Weight(bits[6], 64) + Weight(bits[7], 128)
    ensures LitExactly(b, segments)
  {
    OctetSum(bits);
    BitsOfSum(b, bits, |bits|);
  }

  /** A pattern that shows a digit lights that digit's segments and no others; blank lights
      none and minus the middle one. */
  lemma DigitHasShape(d: nat)
    requires d < 16
    ensures LitExactly(Segment(d), Shape(d))
    ensures LitExactly(SEG_BLANK, {}) && LitExactly(SEG_MINUS, {6})
  {
    LightsThese(Segment(d), seq(8, i => i in Shape(d)), Shape(d));
    LightsThese(SEG_BLANK, seq(8, _ => false), {});
    LightsThese(SEG_MINUS, seq(8, i => i == 6), {6});
  }

  // ---------------------------------------------------------------- place by place

  lemma Regroup(r: nat, p: nat, a: nat, b: nat, m: nat)
    requires b < p && m < r
    ensures r * (p * a + b) + m == (r * p) * a + (r * b + m)
    ensures r * b + m < r * p
  {
    assert r * (p * a) == (r * p) * a;
    assert r * (b + 1) <= r * p;
  }

  lemma QuotientIs(v: nat, d: nat, q: nat, m: nat)
    requires v == d * q + m && m < d
    ensures v / d == q
  {
    var e: int := v / d - q;
    assert d * e == m - v % d;
    assert e >= 1 ==> d * e >= d;
    assert e <= -1 ==> d * e + d <= 0;
  }

  lemma QuotientTwice(v: nat, r: nat, p: nat, q: nat, a: nat, b: nat, m: nat)
    requires b < p && m < r && q == p * a + b && v == r * q + m
    ensures r * p > 0 && v / (r * p) == a
  {
    Regroup(r, p, a, b, m);
    QuotientIs(v, r * p, a, r * b + m);
  }

  lemma Euclid(v: nat, d: nat)
    requires d > 0
    ensures v == d * (v / d) + v % d && v % d < d
  {
  }

  lemma DivideTwice(v: nat, r: nat, p: nat)
    requires r > 0 && p > 0
    ensures r * p > 0 && v / (r * p) == v / r / p
  {
    var q, m := v / r, v % r;
    Euclid(v, r);
    var a, b := q / p, q % p;
    Euclid(q, p);
    QuotientTwice(v, r, p, q, a, b, m);
  }

  lemma AtLeast(v: nat, r: nat, p: nat)
    requires r > 0
    ensures v / r >= p <==> v >= r * p
  {
    var q := v / r;
    Euclid(v, r);
    if q >= p {
      assert r * q >= r * p;
    } else {
      assert r * q <= r * (p - 1);
    }
  }

  /** The digits of a number by their places, units first; there are no leading zeros. */
  lemma {:induction false} DigitsAt(v: nat, k: nat)
    ensures k < |Digits(v)| <==> v >= Pow(10, k)
    ensures k < |Digits(v)| ==> Digits(v)[|Digits(v)| - 1 - k] == Segment(v / Pow(10, k) % 10)
  {
    if k > 0 {
      AtLeast(v, 10, Pow(10, k - 1));
      if v > 0 {
        DigitsAt(v / 10, k - 1);
        DivideTwice(v, 10, Pow(10, k - 1));
      }
    } else {
      assert v / 1 == v;
    }
  }

  /** What the display shows at place `k` from the right: the digit of that weight while the
      number has one, then the sign, then zeros or nothing. */
  ghost predicate PlaceShows(buf: seq<Byte>, value: int, leadingZeros: bool, k: nat)
    requires k < |buf|
  {
    var seg := buf[|buf| - 1 - k];
    var m: nat := if value < 0 then -value else value;
    if k == 0 || m >= Pow(10, k) then DigitOf(seg) == Some(m / Pow(10, k) % 10)
    else if value < 0 && m >= Pow(10, k - 1) then LitExactly(seg, {6})
    else if leadingZeros then DigitOf(seg) == Some(0)
    else LitExactly(seg, {})
  }

  lemma DigitPlace(buf: seq<Byte>, front: seq<Byte>, v: nat, k: nat)
    requires buf == front + Digits(v) && k < |Digits(v)|
    ensures DigitOf(buf[|buf| - 1 - k]) == Some(v / Pow(10, k) % 10)
  {
    DigitsAt(v, k);
    DigitShown(v / Pow(10, k) % 10);
  }

  lemma FillPlace(buf: seq<Byte>, n: nat, leadingZeros: bool, body: seq<Byte>, k: nat)
    requires buf == Fill(n, leadingZeros) + body && |body| <= k < |buf|
    ensures if leadingZeros then DigitOf(buf[|buf| - 1 - k]) == Some(0) else LitExactly(buf[|buf| - 1 - k], {})
  {
    DigitShown(0);
    DigitHasShape(0);
  }

  lemma PositivePlace(buf: seq<Byte>, n: nat, leadingZeros: bool, value: int, k: nat)
    requires value > 0 && buf == Fill(n, leadingZeros) + Digits(value) && k < |buf|
    ensures PlaceShows(buf, value, leadingZeros, k)
  {
    DigitsAt(value, k);
    if k < |Digits(value)| {
      DigitPlace(buf, Fill(n, leadingZeros), value, k);
    } else {
      FillPlace(buf, n, leadingZeros, Digits(value), k);
    }
  }

  lemma NegativePlace(buf: seq<Byte>, n: nat, leadingZeros: bool, v: nat, value: int, k: nat)
    requires value < 0 && v == -value && k < |buf|
    requires buf == Fill(n, leadingZeros) + ([SEG_MINUS] + Digits(v))
    ensures PlaceShows(buf, value, leadingZeros, k)
  {
    DigitsAt(v, k);
    var front := Fill(n, leadingZeros) + [SEG_MINUS];
    assert buf == front + Digits(v);
    if k < |Digits(v)| {
      DigitPlace(buf, front, v, k);
    } else {
      DigitsAt(v, k - 1);
      DigitHasShape(0);
      if k > |Digits(v)| {
        FillPlace(buf, n, leadingZeros, [SEG_MINUS] + Digits(v), k);
      }
    }
  }

  lemma ZeroPlace(buf: seq<Byte>, n: nat, leadingZeros: bool, k: nat)
    requires buf == Fill(n, leadingZeros) + [Segment(0)] && k < |buf|
    ensures PlaceShows(buf, 0, leadingZeros, k)
  {
    DigitShown(0);
    if k > 0 {
      FillPlace(buf, n, leadingZeros, [Segment(0)], k);
    }
  }

  /** A rendered number shows sign, digits and fill each in its place. */
  lemma RenderedPlace(buf: seq<Byte>, value: int, leadingZeros: bool, k: nat)
    requires |Body(value)| <= |buf| && buf == Fill(|buf| - |Body(value)|, leadingZeros) + Body(value) && k < |buf|
    ensures PlaceShows(buf, value, leadingZeros, k)
  {
    var n := |buf| - |Body(value)|;
    if value == 0 {
      ZeroPlace(buf, n, leadingZeros, k);
    } else if value > 0 {
      PositivePlace(buf, n, leadingZeros, value, k);
    } else {
      NegativePlace(buf, n, leadingZeros, -value, value, k);
    }
  }

  ghost predicate AllPlaces(buf: seq<Byte>, value: int, leadingZeros: bool) {
    forall k | 0 <= k < |buf| :: PlaceShows(buf, value, leadingZeros, k)
  }

  lemma RenderedPlaces(buf: seq<Byte>, value: int, leadingZeros: bool)
    requires |Body(value)| <= |buf| && buf == Fill(|buf| - |Body(value)|, leadingZeros) + Body(value)
    ensures AllPlaces(buf, value, leadingZeros)
  {
    forall k | 0 <= k < |buf|
      ensures PlaceShows(buf, value, leadingZeros, k)
    {
      RenderedPlace(buf, value, leadingZeros, k);
    }
  }

  /** A hexadecimal rendering shows every place, zeros in front included. */
  lemma {:induction false} HexAt(v: nat, n: nat, k: nat)
    requires k < n
    ensures DigitOf(HexDigits(v, n)[n - 1 - k]) == Some(v / Pow(16, k) % 16)
  {
    DigitShown(v % 16);
    if k > 0 {
      HexAt(v / 16, n - 1, k - 1);
      DivideTwice(v, 16, Pow(16, k - 1));
    } else {
      assert v / 1 == v;
    }
  }

  // ---------------------------------------------------------------- MAX7219

  /** The INTERNAL_TO_MAX7219 macro: the low seven bits move up, the top bit to the bottom. */
  function ToMax7219(b: Byte): Byte {
    b % 128 * 2 + b / 128 % 2
  }

  /** Every segment keeps its state: segments a to g move up one bit, the point to bit 0. */
  lemma Max7219KeepsSegments(b: Byte)
    ensures Lit(ToMax7219(b)) == [Lit(b)[7]] + Lit(b)[..7]
  {
    var n := 7;
    Pow2Byte(n);
    assert Pow2(7) == 128;
    TopBit(b % 128, n, b / 128);
    assert b == b % 128 + b / 128 * Pow2(n);
    assert ToMax7219(b) % 2 == b / 128 && ToMax7219(b) / 2 == b % 128;
  }

  /** The chip's registers. A transfer may fail; it is then counted and writes nothing. */
  class Max7219 {
    var regs: seq<Byte>
    var faults: nat

    ghost predicate Valid()
      reads this
    {
      |regs| == 16
    }

    constructor ()
      ensures Valid() && faults == 0
    {
      regs, faults := seq(16, _ => 0), 0;
    }

    method Write(reg: nat, data: Byte) returns (ok: bool)
      requires Valid() && reg < 16
      modifies this
      ensures regs == if ok then old(regs)[reg := data] else old(regs)
      ensures faults == old(faults) + if ok then 0 else 1
    {
      ok := *;
      if ok {
        regs := regs[reg := data];
      } else {
        faults := faults + 1;
      }
    }

    /** The chip's digit registers light the segments of these patterns. */
    ghost predicate Lights(patterns: seq<Byte>)
      reads this
      requires Valid() && |patterns| <= MAX_DIGITS
    {
      forall i | 0 <= i < |patterns| :: Lit(regs[1 + i]) == [Lit(patterns[i])[7]] + Lit(patterns[i])[..7]
    }

    /** max7219_flush: unless a transfer fails, each digit register shows its digit's segments. */
    method Flush(buf: array<Byte>, digitCount: nat) returns (ok: bool)
      requires Valid() && digitCount <= MAX_DIGITS <= buf.Length
      modifies this
      ensures Valid() && (ok ==> Lights(buf[..digitCount]))
      ensures faults == old(faults) + if ok then 0 else 1
      ensures forall i | 0 <= i < 16 && !(1 <= i <= digitCount) :: regs[i] == old(regs)[i]
    {
      for i := 0 to digitCount
        invariant Valid() && faults == old(faults)
        invariant forall k | 0 <= k < i :: regs[1 + k] == ToMax7219(buf[k])
        invariant forall k | 0 <= k < 16 && !(1 <= k <= digitCount) :: regs[k] == old(regs)[k]
      {
        ok := Write(1 + i, ToMax7219(buf[i]));
        if !ok {
          return;
        }
      }
      forall i | 0 <= i < digitCount
        ensures Lit(regs[1 + i]) == [Lit(buf[i])[7]] + Lit(buf[i])[..7]
      {
        Max7219KeepsSegments(buf[i]);
      }
      ok := true;
    }
  }

  // ---------------------------------------------------------------- the display

  /** The next pattern goes in front of the ones already placed. */
  lemma FillPut(buf: seq<Byte>, pos: nat, leadingZeros: bool, tail: seq<Byte>, seg: Byte)
    requires buf == Fill(pos + 1, leadingZeros) + tail
    ensures buf[pos := seg] == Fill(pos, leadingZeros) + ([seg] + tail)
  {
  }

  lemma DigitsStep(v: nat, tail: seq<Byte>)
    requires v > 0
    ensures Digits(v) + tail == Digits(v / 10) + ([Segment(v % 10)] + tail)
  {
  }

  /** The places suffice: the loop ends because no digit is left. */
  lemma NoDigitLeft(v: nat, tail: seq<Byte>, uval: nat, n: nat)
    requires Digits(v) + tail == Digits(uval) && |Digits(uval)| <= n && (v > 0 ==> |tail| == n)
    ensures v == 0 && tail == Digits(uval)
  {
  }

  datatype Status = Ok | InvalidArg | TransferFailed

  /** A display; `chip` is null for the drivers that are multiplexed from the buffer. */
  class Panel {
    const digitCount: nat
    const buf: array<Byte>
    const chip: Max7219?

    ghost predicate Valid()
      reads if chip == null then {} else {chip}
    {
      1 <= digitCount <= MAX_DIGITS && buf.Length == MAX_DIGITS && (chip != null ==> chip.Valid())
    }

    constructor (digitCount: nat, chip: Max7219?)
      requires 1 <= digitCount <= MAX_DIGITS && (chip != null ==> chip.Valid())
      ensures Valid() && this.digitCount == digitCount && this.chip == chip && fresh(buf)
    {
      this.digitCount, this.chip := digitCount, chip;
      buf := new Byte[MAX_DIGITS](_ => SEG_BLANK);
    }

    /** The new patterns go to the buffer and, on a MAX7219, on to the chip. */
    method Show(newbuf: array<Byte>) returns (status: Status)
      requires Valid() && newbuf.Length == MAX_DIGITS && newbuf != buf
      modifies buf, if chip == null then {} else {chip}
      ensures Valid() && buf[..digitCount] == old(newbuf[..digitCount])
      ensures chip == null ==> status == Ok
      ensures chip != null ==> status == (if chip.faults == old(chip.faults) then Ok else TransferFailed)
      ensures chip != null && status == Ok ==> chip.Lights(buf[..digitCount])
    {
      forall i | 0 <= i < digitCount {
        buf[i] := newbuf[i];
      }
      assert buf[..digitCount] == newbuf[..digitCount];
      status := Ok;
      if chip != null {
        var ok := chip.Flush(buf, digitCount);
        if !ok {
          status := TransferFailed;
        }
      }
    }

    method Limit(radix: nat, digits: nat) returns (limit: nat)
      requires radix > 0
      ensures limit == Pow(radix, digits)
    {
      limit := 1;
      for i := 0 to digits
        invariant limit == Pow(radix, i)
      {
        limit := limit * radix;
      }
    }

    /** Accepts exactly the values that fit, the sign taking one digit; then the buffer shows
        sign and digits at its right end over the chosen fill, and so does a MAX7219 unless a
        transfer to it fails, which is reported. */
    method WriteInt(value: int, leadingZeros: bool) returns (status: Status)
      requires Valid() && INT_MIN <= value < 0x8000_0000
      modifies buf, if chip == null then {} else {chip}
      ensures Valid() && (status == InvalidArg <==> !Fits(value, digitCount))
      ensures status == InvalidArg ==> buf[..] == old(buf[..]) && (chip != null ==> unchanged(chip))
      ensures status != InvalidArg ==> |Body(value)| <= digitCount
      ensures status != InvalidArg ==>
                buf[..digitCount] == Fill(digitCount - |Body(value)|, leadingZeros) + Body(value)
      ensures status == InvalidArg <==>
                value == -0x8000_0000 || value >= Pow(10, digitCount) || -value >= Pow(10, digitCount - 1)
      ensures status != InvalidArg ==> Reading(buf[..digitCount]) == Some(value)
      ensures status != InvalidArg ==> AllPlaces(buf[..digitCount], value, leadingZeros)
      ensures status == Ok && chip != null ==> chip.Lights(buf[..digitCount])
      ensures status == TransferFailed <==> chip != null && chip.faults != old(chip.faults)
    {
      var negative := value < 0;
      if value == INT_MIN {
        return InvalidArg;
      }
      var uval := if negative then -value else value;
      var maxDigits := digitCount;
      if negative {
        maxDigits := maxDigits - 1;
      }
      var limit := Limit(10, maxDigits);
      if uval >= limit {
        return InvalidArg;
      }
      var newbuf := FillDigits(value, uval, leadingZeros);
      ghost var shown := newbuf[..digitCount];
      RenderedReadsBack(value, digitCount - |Body(value)|, leadingZeros);
      RenderedPlaces(shown, value, leadingZeros);
      status := Show(newbuf);
      assert buf[..digitCount] == shown;
    }

    method FillDigits(value: int, uval: nat, leadingZeros: bool) returns (newbuf: array<Byte>)
      requires Valid() && Fits(value, digitCount) && uval == Abs(value)
      ensures fresh(newbuf) && newbuf.Length == MAX_DIGITS && |Body(value)| <= digitCount
      ensures newbuf[..digitCount] == Fill(digitCount - |Body(value)|, leadingZeros) + Body(value)
    {
      newbuf := new Byte[MAX_DIGITS](_ => if leadingZeros then Segment(0) else SEG_BLANK);
      var pos := digitCount - 1;
      DigitsFit(uval, Room(value, digitCount));
      assert newbuf[..digitCount] == Fill(digitCount, leadingZeros) + [];
      if uval == 0 && value >= 0 {
        FillPut(newbuf[..digitCount], pos, leadingZeros, [], Segment(0));
        newbuf[pos] := Segment(0);
        pos := pos - 1;
      } else {
        pos := PlaceDigits(newbuf, uval, leadingZeros);
        if value < 0 && pos >= 0 {
          FillPut(newbuf[..digitCount], pos, leadingZeros, Digits(uval), SEG_MINUS);
          newbuf[pos] := SEG_MINUS;
        }
      }
    }

    /** The digit loop, from the right end. */
    method PlaceDigits(newbuf: array<Byte>, uval: nat, ghost leadingZeros: bool) returns (pos: int)
      requires Valid() && newbuf.Length == MAX_DIGITS && |Digits(uval)| <= digitCount
      requires newbuf[..digitCount] == Fill(digitCount, leadingZeros) + []
      modifies newbuf
      ensures -1 <= pos == digitCount - 1 - |Digits(uval)|
      ensures newbuf[..digitCount] == Fill(pos + 1, leadingZeros) + Digits(uval)
    {
      pos := digitCount - 1;
      ghost var tail: seq<Byte> := [];
      var v := uval;
      assert Digits(v) + tail == Digits(uval);
      while v > 0 && pos >= 0
        invariant -1 <= pos < digitCount && |tail| == digitCount - 1 - pos
        invariant Digits(v) + tail == Digits(uval)
        invariant newbuf[..digitCount] == Fill(pos + 1, leadingZeros) + tail
      {
        FillPut(newbuf[..digitCount], pos, leadingZeros, tail, Segment(v % 10));
        DigitsStep(v, tail);
        newbuf[pos] := Segment(v % 10);
        tail := [Segment(v % 10)] + tail;
        v := v / 10;
        pos := pos - 1;
      }
      NoDigitLeft(v, tail, uval, digitCount);
    }

    method FillHex(value: nat) returns (newbuf: array<Byte>)
      requires Valid()
      ensures fresh(newbuf) && newbuf.Length == MAX_DIGITS
      ensures newbuf[..digitCount] == HexDigits(value, digitCount)
    {
      newbuf := new Byte[MAX_DIGITS](_ => SEG_BLANK);
      var v := value;
      var i := digitCount - 1;
      while i >= 0
        invariant -1 <= i < digitCount
        invariant HexDigits(v, i + 1) + newbuf[i + 1..digitCount] == HexDigits(value, digitCount)
      {
        HexStep(v, i, newbuf[i + 1..digitCount]);
        newbuf[i] := Segment(v % 16);
        assert newbuf[i..digitCount] == [Segment(v % 16)] + newbuf[i + 1..digitCount];
        v := v / 16;
        i := i - 1;
      }
    }

    /** Accepts exactly the values with at most `digitCount` hexadecimal digits. */
    method WriteHex(value: nat) returns (status: Status)
      requires Valid() && value < 0x1_0000_0000
      modifies buf, if chip == null then {} else {chip}
      ensures Valid() && (status == InvalidArg <==> value >= Pow(16, digitCount))
      ensures status == InvalidArg ==> buf[..] == old(buf[..]) && (chip != null ==> unchanged(chip))
      ensures status != InvalidArg ==> buf[..digitCount] == HexDigits(value, digitCount)
      ensures status != InvalidArg ==> Magnitude(buf[..digitCount], 16) == value
      ensures status != InvalidArg ==>
                forall k | 0 <= k < digitCount :: DigitOf(buf[digitCount - 1 - k]) == Some(value / Pow(16, k) % 16)
      ensures status == Ok && chip != null ==> chip.Lights(buf[..digitCount])
      ensures status == TransferFailed <==> chip != null && chip.faults != old(chip.faults)
    {
      var maxVal := Limit(16, digitCount);
      if value >= maxVal {
        return InvalidArg;
      }
      var newbuf := FillHex(value);
      HexReadsBack(value, digitCount);
      ghost var shown := newbuf[..digitCount];
      forall k | 0 <= k < digitCount
        ensures DigitOf(shown[digitCount - 1 - k]) == Some(value / Pow(16, k) % 16)
      {
        HexAt(value, digitCount, k);
      }
      status := Show(newbuf);
    }
  }

  // ---------------------------------------------------------------- 74HC595

  function ShiftIn(stages: Octet, bit: bool): Octet {
    [bit] + stages[..7]
  }

  lemma ShiftStep(stages: Octet, byte: Byte, i: nat)
    requires i < 8 && stages[..7 - i] == Lit(byte)[i + 1..]
    ensures ShiftIn(stages, Bit(byte, i))[..8 - i] == Lit(byte)[i..]
  {
    assert Lit(byte)[i..] == [Lit(byte)[i]] + Lit(byte)[i + 1..];
    assert ShiftIn(stages, Bit(byte, i))[..8 - i] == [Bit(byte, i)] + stages[..7 - i];
  }

  /** The register shifts its data pin in at the first stage on a rising clock and copies its
      stages to the outputs on a rising latch. */
  class ShiftRegister {
    var data: bool
    var clk: bool
    var latch: bool
    var stages: Octet
    var outputs: Octet

    method SetData(level: bool)
      modifies this`data
      ensures data == level
    {
      data := level;
    }

    method SetClock(level: bool)
      modifies this`clk, this`stages
      ensures clk == level
      ensures stages == if level && !old(clk) then ShiftIn(old(stages), data) else old(stages)
    {
      if level && !clk {
        stages := ShiftIn(stages, data);
      }
      clk := level;
    }

    method SetLatch(level: bool)
      modifies this`latch, this`outputs
      ensures latch == level
      ensures outputs == if level && !old(latch) then stages else old(outputs)
    {
      if level && !latch {
        outputs := stages;
      }
      latch := level;
    }

    method ClockBit(level: bool)
      requires !clk && !latch
      modifies this
      ensures !clk && !latch && stages == ShiftIn(old(stages), level)
    {
      SetData(level);
      SetClock(true);
      SetClock(false);
    }

    /** hc595_shift_out: most significant bit first; afterwards output `i` is bit `i`. */
    method ShiftOut(byte: Byte)
      requires !clk && !latch
      modifies this
      ensures outputs == Lit(byte) && !clk && !latch
    {
      var i := 7;
      while i >= 0
        invariant -1 <= i <= 7 && !clk && !latch
        invariant stages[..7 - i] == Lit(byte)[i + 1..]
      {
        ShiftStep(stages, byte, i);
        ClockBit(Bit(byte, i));
        i := i - 1;
      }
      assert stages[..8] == stages && Lit(byte)[0..] == Lit(byte);
      SetLatch(true);
      SetLatch(false);
    }
  }
}
