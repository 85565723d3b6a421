/** DHT temperature sensors: forty data bits, most significant first, told apart by the length
    of the high pulse; a checksum byte; and the two number formats. */
module Dht {
  import opened Basics
  import opened Binary

  const DATA_BITS := 40
  const DATA_BYTES := 5
  const BIT_THRESHOLD_US := 40

  /** The high pulse of one received symbol, in microseconds. */
  datatype Symbol = Symbol(duration0: nat, duration1: nat)

  predicate IsOne(s: Symbol) {
    s.duration1 > BIT_THRESHOLD_US
  }

  /** The symbol that carries bit `k` (0 the least significant) of byte `j`; the first symbol
      is the sensor's response. */
  function SymbolOf(j: nat, k: nat): (i: nat)
    requires j < DATA_BYTES && k < 8
    ensures 1 <= i <= DATA_BITS
  {
    1 + 8 * j + (7 - k)
  }

  predicate LongEnough(symbols: seq<Symbol>) {
    |symbols| >= 1 + DATA_BITS
  }

  function OctetIn(symbols: seq<Symbol>, j: nat): Octet
    requires LongEnough(symbols) && j < DATA_BYTES
  {
    seq(8, k requires 0 <= k < 8 => IsOne(symbols[SymbolOf(j, k)]))
  }

  function ByteIn(symbols: seq<Symbol>, j: nat): Byte
    requires LongEnough(symbols) && j < DATA_BYTES
  {
    OctetValue(OctetIn(symbols, j))
  }

  function OctetValue(o: Octet): Byte {
    ValueBelow(o);
    Pow2Byte(0);
    Value(o)
  }

  function BytesIn(symbols: seq<Symbol>): (data: seq<Byte>)
    requires LongEnough(symbols)
    ensures |data| == DATA_BYTES
  {
    seq(DATA_BYTES, j requires 0 <= j < DATA_BYTES => ByteIn(symbols, j))
  }

  function Sum4(data: seq<Byte>): int
    requires |data| == DATA_BYTES
  {
    data[0] as int + data[1] as int + data[2] as int + data[3] as int
  }

  predicate ChecksumHolds(data: seq<Byte>)
    requires |data| == DATA_BYTES
  {
    Sum4(data) % 256 == data[4]
  }

  /** dht_decode: accepts a frame of at least 41 symbols exactly when its fifth byte is the
      sum of the first four modulo 256. */
  method Decode(symbols: seq<Symbol>) returns (r: Option<seq<Byte>>)
    ensures r.Some? <==> LongEnough(symbols) && ChecksumHolds(BytesIn(symbols))
    ensures r.Some? ==> r.value == BytesIn(symbols)
  {
    if |symbols| < 1 + DATA_BITS {
      return None;
    }
    var blank: Octet := seq(8, _ => false);
    var data := new Octet[DATA_BYTES](_ => blank);
    for i := 0 to DATA_BITS
      invariant forall j, k | 0 <= j < DATA_BYTES && 0 <= k < 8 ::
                  data[j][k] == (SymbolOf(j, k) <= i && IsOne(symbols[SymbolOf(j, k)]))
    {
      if symbols[1 + i].duration1 > BIT_THRESHOLD_US {
        data[i / 8] := data[i / 8][7 - i % 8 := true];
      }
    }
    forall j | 0 <= j < DATA_BYTES
      ensures data[j] == OctetIn(symbols, j)
    {
    }
    var bytes := seq(DATA_BYTES, j requires 0 <= j < DATA_BYTES reads data => OctetValue(data[j]));
    assert bytes == BytesIn(symbols);
    var checksum := Sum4(bytes) % 256;
    if checksum != bytes[4] {
      return None;
    }
    r := Some(bytes);
  }

  // ---------------------------------------------------------------- round trip

  /** The symbols put five bytes on the wire: each bit's high pulse is on the right side of
      the threshold. */
  ghost predicate Sends(symbols: seq<Symbol>, data: seq<Byte>)
    requires |data| == DATA_BYTES
  {
    LongEnough(symbols)
    && forall j, k | 0 <= j < DATA_BYTES && 0 <= k < 8 :: IsOne(symbols[SymbolOf(j, k)]) == Bit(data[j], k)
  }

  /** Decoding inverts the pulse encoding of any five bytes. */
  lemma DecodeInvertsEncoding(symbols: seq<Symbol>, data: seq<Byte>)
    requires |data| == DATA_BYTES && Sends(symbols, data)
    ensures BytesIn(symbols) == data
  {
    forall j | 0 <= j < DATA_BYTES
      ensures ByteIn(symbols, j) == data[j]
    {
      Pow2Byte(0);
      ValueOfBits(data[j], 8);
      assert OctetIn(symbols, j) == Bits(data[j], 8);
    }
  }

  /** A sensor's frame: the response and then every bit, most significant first. */
  function Frame(data: seq<Byte>, zero: nat, one: nat): (symbols: seq<Symbol>)
    requires |data| == DATA_BYTES
    ensures LongEnough(symbols)
  {
    [Symbol(80, 80)]
    + seq(DATA_BITS, i requires 0 <= i < DATA_BITS => Symbol(50, if Bit(data[i / 8], 7 - i % 8) then one else zero))
  }

  /** A frame with pulses of at most 40 microseconds for zeros and longer ones for ones is
      read back exactly, and accepted if its checksum is right. */
  lemma FrameReadsBack(data: seq<Byte>, zero: nat, one: nat)
    requires |data| == DATA_BYTES && zero <= 40 < one
    ensures BytesIn(Frame(data, zero, one)) == data
  {
    forall j, k | 0 <= j < DATA_BYTES && 0 <= k < 8
      ensures IsOne(Frame(data, zero, one)[SymbolOf(j, k)]) == Bit(data[j], k)
    {
      var i := SymbolOf(j, k) - 1;
      assert i / 8 == j && 7 - i % 8 == k;
    }
    DecodeInvertsEncoding(Frame(data, zero, one), data);
  }

  // ---------------------------------------------------------------- error detection

  lemma OnlyOneByteChanges(a: seq<Symbol>, b: seq<Symbol>, j: nat, k: nat, m: nat)
    requires LongEnough(a) && |a| == |b| && j < DATA_BYTES && k < 8 && m < DATA_BYTES
    requires forall i | 0 <= i < |a| :: IsOne(a[i]) == IsOne(b[i]) <==> i != SymbolOf(j, k)
    ensures m != j ==> ByteIn(b, m) == ByteIn(a, m)
    ensures m == j ==> OctetIn(b, m) == OctetIn(a, m)[k := !OctetIn(a, m)[k]]
  {
    forall n | 0 <= n < 8
      ensures (m == j && n == k) <==> OctetIn(b, m)[n] != OctetIn(a, m)[n]
    {
      assert SymbolOf(m, n) == SymbolOf(j, k) <==> m == j && n == k;
    }
    if m != j {
      assert OctetIn(b, m) == OctetIn(a, m);
    }
  }

  /** A frame that was accepted is rejected after any single bit is read wrongly. */
  lemma SingleBitFlipRejected(a: seq<Symbol>, b: seq<Symbol>, j: nat, k: nat)
    requires LongEnough(a) && |a| == |b| && j < DATA_BYTES && k < 8 && ChecksumHolds(BytesIn(a))
    requires forall i | 0 <= i < |a| :: IsOne(a[i]) == IsOne(b[i]) <==> i != SymbolOf(j, k)
    ensures !ChecksumHolds(BytesIn(b))
  {
    forall m | 0 <= m < DATA_BYTES
      ensures m != j ==> ByteIn(b, m) == ByteIn(a, m)
    {
      OnlyOneByteChanges(a, b, j, k, m);
    }
    OnlyOneByteChanges(a, b, j, k, j);
    ValueFlip(OctetIn(a, j), k);
    Pow2Byte(k);
    ChecksumBreaks(BytesIn(a), BytesIn(b), j, Pow2(k));
  }

  lemma ChecksumBreaks(a: seq<Byte>, b: seq<Byte>, j: nat, weight: nat)
    requires |a| == |b| == DATA_BYTES && ChecksumHolds(a) && j < DATA_BYTES && 1 <= weight <= 128
    requires forall m | 0 <= m < DATA_BYTES && m != j :: a[m] == b[m]
    requires b[j] == a[j] + weight || b[j] == a[j] - weight
    ensures !ChecksumHolds(b)
  {
    var sum, now := Sum4(a), Sum4(b);
    if j < 4 {
      assert now == sum + weight || now == sum - weight;
      Residues(sum, now);
    }
  }

  lemma Residues(a: int, b: int)
    requires -128 <= b - a <= 128 && b != a
    ensures a % 256 != b % 256
  {
  }

  // ---------------------------------------------------------------- readings

  datatype Kind = Dht11 | Dht22

  /** Tenths of a percent and tenths of a degree. */
  datatype Reading = Reading(humidity: int, temperature: int)

  /** dht_convert in tenths. */
  function Convert(kind: Kind, data: seq<Byte>): Reading
    requires |data| == DATA_BYTES
  {
    match kind
    case Dht11 => Reading(10 * data[0] as int + data[1] as int, 10 * data[2] as int + data[3] as int)
    case Dht22 =>
      var rawTemp := 256 * data[2] as int + data[3] as int;
      var magnitude := rawTemp % 0x8000;
      Reading(256 * data[0] as int + data[1] as int, if rawTemp >= 0x8000 then -magnitude else magnitude)
  }

  /** What a DHT22 sends for a reading: humidity in 16 bits, temperature as sign and magnitude. */
  function Measured(r: Reading): (data: seq<Byte>)
    requires 0 <= r.humidity < 0x1_0000 && -0x8000 < r.temperature < 0x8000
    ensures |data| == DATA_BYTES
  {
    var magnitude := if r.temperature < 0 then -r.temperature else r.temperature;
    var h1, h0 := r.humidity / 256, r.humidity % 256;
    var t1, t0 := magnitude / 256 + (if r.temperature < 0 then 128 else 0), magnitude % 256;
    [h1, h0, t1, t0, (h1 + h0 + t1 + t0) % 256]
  }

  /** Converting what a sensor sends for a reading gives the reading. */
  lemma MeasuredConverts(r: Reading)
    requires 0 <= r.humidity < 0x1_0000 && -0x8000 < r.temperature < 0x8000
    ensures ChecksumHolds(Measured(r)) && Convert(Dht22, Measured(r)) == r
  {
    var data := Measured(r);
    var magnitude := if r.temperature < 0 then -r.temperature else r.temperature;
    assert 256 * data[0] as int + data[1] as int == r.humidity;
    assert 256 * data[2] as int + data[3] as int == magnitude + if r.temperature < 0 then 0x8000 else 0;
  }

  /** What a DHT11 sends: whole units and tenths in a byte each. */
  function Measured11(r: Reading): (data: seq<Byte>)
    requires 0 <= r.humidity < 2560 && 0 <= r.temperature < 2560
    ensures |data| == DATA_BYTES
  {
    var h1, h0, t1, t0 := r.humidity / 10, r.humidity % 10, r.temperature / 10, r.temperature % 10;
    [h1, h0, t1, t0, (h1 + h0 + t1 + t0) % 256]
  }

  lemma Measured11Converts(r: Reading)
    requires 0 <= r.humidity < 2560 && 0 <= r.temperature < 2560
    ensures ChecksumHolds(Measured11(r)) && Convert(Dht11, Measured11(r)) == r
  {
  }

  /** The pulses of a frame, each with its own jitter: after the response symbol the five bytes
      most significant bit first, at most 40 microseconds high for a zero and more for a one. */
  ghost predicate Pulses(symbols: seq<Symbol>, data: seq<Byte>)
    requires |data| == 5
  {
    && |symbols| >= 41
    && forall i | 0 <= i < 40 :: Bit(data[i / 8], 7 - i % 8) == (symbols[1 + i].duration1 > 40)
  }

  lemma PulsesSend(symbols: seq<Symbol>, data: seq<Byte>)
    requires |data| == 5 && Pulses(symbols, data)
    ensures Sends(symbols, data)
  {
    forall j, k | 0 <= j < DATA_BYTES && 0 <= k < 8
      ensures IsOne(symbols[SymbolOf(j, k)]) == Bit(data[j], k)
    {
      var i := SymbolOf(j, k) - 1;
      assert i / 8 == j && 7 - i % 8 == k;
      assert symbols[1 + i] == symbols[SymbolOf(j, k)];
    }
  }

  /** A reading of either sensor whose pulses fall on their side of 40 microseconds, zeros of 26
      to 28 and ones of 70 in particular, is accepted and comes back. */
  lemma ReadingArrives(kind: Kind, symbols: seq<Symbol>, r: Reading)
    requires match kind
             case Dht11 => 0 <= r.humidity < 2560 && 0 <= r.temperature < 2560 && Pulses(symbols, Measured11(r))
             case Dht22 =>
               0 <= r.humidity < 0x1_0000 && -0x8000 < r.temperature < 0x8000 && Pulses(symbols, Measured(r))
    ensures LongEnough(symbols) && ChecksumHolds(BytesIn(symbols)) && Convert(kind, BytesIn(symbols)) == r
  {
    if kind.Dht11? {
      Measured11Converts(r);
      PulsesSend(symbols, Measured11(r));
      DecodeInvertsEncoding(symbols, Measured11(r));
    } else {
      MeasuredConverts(r);
      PulsesSend(symbols, Measured(r));
      DecodeInvertsEncoding(symbols, Measured(r));
    }
  }

  /** From the sensor's measurement through pulses, decoding and conversion nothing is lost. */
  lemma MeasurementArrives(r: Reading, zero: nat, one: nat)
    requires 0 <= r.humidity < 0x1_0000 && -0x8000 < r.temperature < 0x8000
    requires zero <= 40 < one
    ensures ChecksumHolds(BytesIn(Frame(Measured(r), zero, one)))
    ensures Convert(Dht22, BytesIn(Frame(Measured(r), zero, one))) == r
  {
    FrameReadsBack(Measured(r), zero, one);
    MeasuredConverts(r);
  }
}
