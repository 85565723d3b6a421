/** The bit-serial Dallas/Maxim CRC-8 of one_wire.c: the nested-loop routine, the shift
    register it runs, and what a stored CRC byte detects in messages of any length. */
module Crc8 {

  import opened Basics
  import opened Octets

  const POLY: bv8 := 0x8C

  // ---------------------------------------------------------------- the shift register

  /** One turn of the register. The feedback bit is the outgoing bit against the message
      bit; it enters at the taps of x^8 + x^5 + x^4 + 1, reflected. */
  function Turn(r: Octet, bit: bool): Octet {
    var m := r[0] != bit;
    [r[1], r[2], r[3] != m, r[4] != m, r[5], r[6], r[7], m]
  }

  lemma TurnAt(r: Octet, bit: bool, i: nat)
    requires i < 8
    ensures Turn(r, bit)[i] == if i == 7 then r[0] != bit
                               else if i == 2 || i == 3 then r[i + 1] != (r[0] != bit)
                               else r[i + 1]
  {
  }

  /** The register after all of `bits` have been shifted into it. */
  function Run(r: Octet, bits: Bits): Octet {
    if bits == [] then r else Turn(Run(r, bits[..|bits| - 1]), bits[|bits| - 1])
  }

  lemma RunSnoc(r: Octet, bits: Bits, bit: bool)
    ensures Run(r, bits + [bit]) == Turn(Run(r, bits), bit)
  {
    assert (bits + [bit])[..|bits|] == bits;
  }

  lemma {:induction false} RunConcat(r: Octet, a: Bits, b: Bits)
    ensures Run(r, a + b) == Run(Run(r, a), b)
    decreases |b|
  {
    if b == [] {
      assert a + b == a;
    } else {
      var init, last := b[..|b| - 1], b[|b| - 1];
      RunConcat(r, a, init);
      assert a + b == (a + init) + [last];
      RunSnoc(r, a + init, last);
    }
  }

  const BLANK: Octet := Zeros(8)

  /** The CRC of a message, as register bits. */
  function Crc(message: Bits): Octet {
    Run(BLANK, message)
  }

  // ---------------------------------------------------------------- the routine

  /** The word operations of the inner loop are one turn of the register. */
  lemma TurnWord(crc: bv8, byte: bv8)
    ensures var next := if (crc ^ byte) & 1 != 0 then (crc >> 1) ^ POLY else crc >> 1;
            ByteBits(next) == Turn(ByteBits(crc), ByteBits(byte)[0])
  {
    var next := if (crc ^ byte) & 1 != 0 then (crc >> 1) ^ POLY else crc >> 1;
    var m := ByteBits(crc)[0] != ByteBits(byte)[0];
    assert m == ((crc ^ byte) & 1 != 0);
    assert (next & 0x01 != 0) == (crc & 0x02 != 0);
    assert (next & 0x02 != 0) == (crc & 0x04 != 0);
    assert (next & 0x04 != 0) == ((crc & 0x08 != 0) != m);
    assert (next & 0x08 != 0) == ((crc & 0x10 != 0) != m);
    assert (next & 0x10 != 0) == (crc & 0x20 != 0);
    assert (next & 0x20 != 0) == (crc & 0x40 != 0);
    assert (next & 0x40 != 0) == (crc & 0x80 != 0);
    assert (next & 0x80 != 0) == m;
  }

  lemma ZeroByte()
    ensures ByteBits(0) == BLANK
  {
  }

  /** The body of the inner loop. */
  method MixBit(crc: bv8, byte: bv8) returns (crc': bv8, byte': bv8)
    ensures ByteBits(crc') == Turn(ByteBits(crc), ByteBits(byte)[0])
    ensures ByteBits(byte') == ByteBits(byte)[1..] + [false]
  {
    TurnWord(crc, byte);
    ShiftRight(byte);
    var mix := (crc ^ byte) & 1;
    crc' := crc >> 1;
    if mix != 0 {
      crc' := crc' ^ POLY;
    }
    byte' := byte >> 1;
  }

  /** After `b` turns `seen` has gone into the register and `rest` is the shifted byte. */
  ghost predicate Split(bits: Octet, b: nat, seen: Bits, rest: Bits)
    requires b <= 8
  {
    seen == bits[..b] && rest == bits[b..] + Zeros(b)
  }

  lemma SplitStep(bits: Octet, b: nat, seen: Bits, rest: Bits)
    requires b < 8 && Split(bits, b, seen, rest)
    ensures Split(bits, b + 1, seen + [rest[0]], rest[1..] + [false])
  {
  }

  lemma SplitEnd(bits: Octet, seen: Bits, rest: Bits)
    requires Split(bits, 8, seen, rest)
    ensures seen == bits
  {
  }

  /** The inner loop: one byte shifted in. */
  method MixByte(start: bv8, data: bv8) returns (crc: bv8)
    ensures ByteBits(crc) == Run(ByteBits(start), ByteBits(data))
  {
    var byte := data;
    crc := start;
    ghost var seen: Bits := [];
    for b := 0 to 8
      invariant ByteBits(crc) == Run(ByteBits(start), seen)
      invariant Split(ByteBits(data), b, seen, ByteBits(byte))
    {
      RunSnoc(ByteBits(start), seen, ByteBits(byte)[0]);
      SplitStep(ByteBits(data), b, seen, ByteBits(byte));
      seen := seen + [ByteBits(byte)[0]];
      crc, byte := MixBit(crc, byte);
    }
    SplitEnd(ByteBits(data), seen, ByteBits(byte));
  }

  /** blusys_one_wire_crc8. */
  method Crc8(data: array<bv8>, len: nat) returns (crc: bv8)
    requires len <= data.Length
    ensures ByteBits(crc) == Crc(BitsOf(data[..len]))
  {
    crc := 0;
    ZeroByte();
    for i := 0 to len
      invariant ByteBits(crc) == Crc(BitsOf(data[..i]))
    {
      RunConcat(BLANK, BitsOf(data[..i]), ByteBits(data[i]));
      assert data[..i + 1][..i] == data[..i];
      crc := MixByte(crc, data[i]);
    }
  }

  // ---------------------------------------------------------------- algebra

  function Xor(a: Bits, b: Bits): (r: Bits)
    requires |a| == |b|
    ensures |r| == |a|
  {
    seq(|a|, i requires 0 <= i < |a| => a[i] != b[i])
  }

  lemma TurnLinear(r: Octet, s: Octet, x: bool, y: bool)
    ensures Turn(Xor(r, s), x != y) == Xor(Turn(r, x), Turn(s, y))
  {
    forall i | 0 <= i < 8 ensures Turn(Xor(r, s), x != y)[i] == Xor(Turn(r, x), Turn(s, y))[i] {
      TurnAt(r, x, i);
      TurnAt(s, y, i);
      TurnAt(Xor(r, s), x != y, i);
    }
  }

  /** The register is linear over exclusive or, jointly in its start value and the message. */
  lemma {:induction false} RunLinear(r: Octet, s: Octet, a: Bits, b: Bits)
    requires |a| == |b|
    ensures Run(Xor(r, s), Xor(a, b)) == Xor(Run(r, a), Run(s, b))
    decreases |a|
  {
    if a != [] {
      var n := |a| - 1;
      RunLinear(r, s, a[..n], b[..n]);
      assert Xor(a, b)[..n] == Xor(a[..n], b[..n]);
      TurnLinear(Run(r, a[..n]), Run(s, b[..n]), a[n], b[n]);
    }
  }

  /** Equal-length messages: the CRC of their exclusive or is the exclusive or of their CRCs. */
  lemma CrcLinear(a: Bits, b: Bits)
    requires |a| == |b|
    ensures Crc(Xor(a, b)) == Xor(Crc(a), Crc(b))
  {
    RunLinear(BLANK, BLANK, a, b);
    assert Xor(BLANK, BLANK) == BLANK;
  }

  lemma TurnInjective(r: Octet, s: Octet, bit: bool)
    requires Turn(r, bit) == Turn(s, bit)
    ensures r == s
  {
    var t, u := Turn(r, bit), Turn(s, bit);
    assert t[7] == u[7] && t[0] == u[0] && t[1] == u[1] && t[2] == u[2];
    assert t[3] == u[3] && t[4] == u[4] && t[5] == u[5] && t[6] == u[6];
  }

  /** No turn merges two registers, so neither does a run over the same bits. */
  lemma {:induction false} RunInjective(r: Octet, s: Octet, bits: Bits)
    requires r != s
    ensures Run(r, bits) != Run(s, bits)
    decreases |bits|
  {
    if bits != [] {
      var n := |bits| - 1;
      RunInjective(r, s, bits[..n]);
      if Run(r, bits) == Run(s, bits) {
        TurnInjective(Run(r, bits[..n]), Run(s, bits[..n]), bits[n]);
      }
    }
  }

  lemma {:induction false} RunZeros(n: nat)
    ensures Crc(Zeros(n)) == BLANK
  {
    if n > 0 {
      RunZeros(n - 1);
      assert Zeros(n)[..n - 1] == Zeros(n - 1);
    }
  }

  lemma TurnMatched(r: Octet)
    ensures Turn(r, r[0]) == r[1..] + [false]
  {
    forall i | 0 <= i < 8 ensures Turn(r, r[0])[i] == (r[1..] + [false])[i] {
      TurnAt(r, r[0], i);
    }
  }

  /** A register meeting its own bits only shifts out. */
  lemma {:induction false} RunSelf(r: Octet, n: nat)
    requires n <= 8
    ensures Split(r, n, r[..n], Run(r, r[..n]))
  {
    if n > 0 {
      RunSelf(r, n - 1);
      var seen, reg := r[..n - 1], Run(r, r[..n - 1]);
      SplitStep(r, n - 1, seen, reg);
      RunSnoc(r, seen, reg[0]);
      TurnMatched(reg);
    } else {
      assert r[..0] == [];
    }
  }

  /** Message and appended byte leave the register blank exactly when the byte is the
      message's CRC: the comparison in read_rom and search is a residue test. */
  lemma StoredCrcPassesIffResidueBlank(message: Bits, stored: Octet)
    ensures Crc(message + stored) == BLANK <==> stored == Crc(message)
  {
    RunConcat(BLANK, message, stored);
    RunSelf(stored, 8);
    assert stored[..8] == stored;
    if stored != Crc(message) {
      RunInjective(stored, Crc(message), stored);
    }
  }

  // ---------------------------------------------------------------- error detection

  /** Every set bit of `e` lies within `span` consecutive positions starting at `at`. */
  ghost predicate Burst(e: Bits, at: nat, span: nat) {
    true in e && forall i | 0 <= i < |e| && e[i] :: at <= i < at + span
  }

  lemma PadNotBlank(b: Bits)
    requires |b| <= 8 && true in b
    ensures b + Zeros(8 - |b|) != BLANK
  {
    var i :| 0 <= i < |b| && b[i];
    assert (b + Zeros(8 - |b|))[i];
  }

  lemma ShortRunNotBlank(b: Bits)
    requires |b| <= 8 && true in b
    ensures Crc(b) != BLANK
  {
    var padded: Octet := b + Zeros(8 - |b|);
    RunConcat(BLANK, b, Zeros(8 - |b|));
    RunZeros(8 - |b|);
    PadNotBlank(b);
    StoredCrcPassesIffResidueBlank([], padded);
    assert [] + padded == padded;
  }

  lemma PaddedResidue(n: nat, b: Bits, m: nat)
    requires Crc(b) != BLANK
    ensures Crc(Zeros(n) + b + Zeros(m)) != BLANK
  {
    RunConcat(BLANK, Zeros(n) + b, Zeros(m));
    RunConcat(BLANK, Zeros(n), b);
    RunZeros(n);
    RunInjective(Crc(b), BLANK, Zeros(m));
    RunZeros(m);
  }

  lemma CutBurst(e: Bits, at: nat, end: nat) returns (b: Bits)
    requires end <= |e| && true in e
    requires forall i | 0 <= i < |e| && e[i] :: at <= i < end
    ensures at < end && b == e[at..end] && true in b
    ensures e == Zeros(at) + b + Zeros(|e| - end)
  {
    var k :| 0 <= k < |e| && e[k];
    b := e[at..end];
    assert b[k - at];
  }

  /** An error confined to at most eight consecutive bits always changes the residue,
      whatever the length of the frame and wherever the burst falls. */
  lemma BurstDetected(frame: Bits, e: Bits, at: nat, span: nat)
    requires |frame| == |e| && span <= 8 && Burst(e, at, span)
    ensures Crc(Xor(frame, e)) != Crc(frame)
  {
    var end := if at + span <= |e| then at + span else |e|;
    var b := CutBurst(e, at, end);
    ShortRunNotBlank(b);
    PaddedResidue(at, b, |e| - end);
    ResidueChanges(frame, e);
  }

  /** By linearity, what an error does to the residue depends on the error alone. */
  lemma ResidueChanges(frame: Bits, e: Bits)
    requires |frame| == |e| && Crc(e) != BLANK
    ensures Crc(Xor(frame, e)) != Crc(frame)
  {
    CrcLinear(frame, e);
    var i :| 0 <= i < 8 && Crc(e)[i] != BLANK[i];
    assert Xor(Crc(frame), Crc(e))[i] != Crc(frame)[i];
  }

  // ---------------------------------------------------------------- polynomial division

  /** x^8 + x^5 + x^4 + 1, highest power first. */
  function Generator(): (g: Bits)
    ensures |g| == 9
  {
    [true, false, false, true, true, false, false, false, true]
  }

  /** One step of long division: the leading term is cancelled and dropped. */
  function Reduced(dividend: Bits): (r: Bits)
    requires |dividend| > 8
    ensures |r| == |dividend| - 1
  {
    (if dividend[0] then Xor(dividend, Generator() + Zeros(|dividend| - 9)) else dividend)[1..]
  }

  /** Long division of a frame, its first transmitted bit the highest power, leaves nothing. */
  predicate Divisible(frame: Bits)
    decreases |frame|
  {
    if |frame| <= 8 then forall i | 0 <= i < |frame| :: !frame[i] else Divisible(Reduced(frame))
  }

  lemma OneMoreTurn(bits: Bits, k: nat)
    requires k < |bits|
    ensures Crc(bits[..k + 1]) == Turn(Crc(bits[..k]), bits[k])
  {
    assert bits[..k + 1] == bits[..k] + [bits[k]];
    RunSnoc(BLANK, bits[..k], bits[k]);
  }

  lemma FourTurns(bits: Bits)
    requires |bits| == 4
    ensures Crc(bits) == Turn(Turn(Turn(Turn(BLANK, bits[0]), bits[1]), bits[2]), bits[3])
  {
    OneMoreTurn(bits, 0);
    OneMoreTurn(bits, 1);
    OneMoreTurn(bits, 2);
    OneMoreTurn(bits, 3);
    assert bits[..0] == [] && bits[..4] == bits;
  }

  /** The generator itself leaves the register blank. */
  lemma GeneratorResidue()
    ensures Crc(Generator()) == BLANK
  {
    var head: Bits := [true, false, false, true];
    var stored: Octet := [true, false, false, false, true, false, false, false];
    FourTurns(head);
    assert Crc(head) == stored;
    StoredCrcPassesIffResidueBlank(head, stored);
    assert head + stored == Generator() + Zeros(3);
    RunConcat(BLANK, Generator(), Zeros(3));
    RunZeros(3);
    if Crc(Generator()) != BLANK {
      RunInjective(Crc(Generator()), BLANK, Zeros(3));
    }
  }

  lemma ShiftedGeneratorResidue(n: nat)
    ensures Crc(Generator() + Zeros(n)) == BLANK
  {
    GeneratorResidue();
    RunConcat(BLANK, Generator(), Zeros(n));
    RunZeros(n);
  }

  lemma LeadingZero(bits: Bits)
    requires bits != [] && !bits[0]
    ensures Crc(bits) == Crc(bits[1..])
  {
    assert bits == Zeros(1) + bits[1..];
    RunConcat(BLANK, Zeros(1), bits[1..]);
    RunZeros(1);
  }

  lemma ReducedResidue(frame: Bits)
    requires |frame| > 8
    ensures Crc(Reduced(frame)) == Crc(frame)
  {
    var shifted := Generator() + Zeros(|frame| - 9);
    if frame[0] {
      ShiftedGeneratorResidue(|frame| - 9);
      CrcLinear(frame, shifted);
      assert Xor(Crc(frame), BLANK) == Crc(frame);
      LeadingZero(Xor(frame, shifted));
    } else {
      LeadingZero(frame);
    }
  }

  /** The residue test is divisibility by the generator polynomial, for frames of any length. */
  lemma {:induction false} ResidueBlankIffDivisible(frame: Bits)
    ensures Crc(frame) == BLANK <==> Divisible(frame)
    decreases |frame|
  {
    if |frame| <= 8 {
      if true in frame {
        ShortRunNotBlank(frame);
        var i :| 0 <= i < |frame| && frame[i];
      } else {
        forall i | 0 <= i < |frame|
          ensures !frame[i]
        {
          assert frame[i] in frame;
        }
        assert frame == Zeros(|frame|);
        RunZeros(|frame|);
      }
    } else {
      ReducedResidue(frame);
      ResidueBlankIffDivisible(Reduced(frame));
    }
  }

  /** The byte the routine computes is the one that makes message and byte divisible. */
  lemma CrcMakesDivisible(message: Bits, stored: Octet)
    ensures Divisible(message + stored) <==> stored == Crc(message)
  {
    ResidueBlankIffDivisible(message + stored);
    StoredCrcPassesIffResidueBlank(message, stored);
  }

  // ---------------------------------------------------------------- odd errors

  function Parity(bits: Bits): bool {
    if bits == [] then false else Parity(bits[..|bits| - 1]) != bits[|bits| - 1]
  }

  lemma {:induction false} ParityOctet(r: Octet)
    ensures Parity(r) == (r[0] != (r[1] != (r[2] != (r[3] != (r[4] != (r[5] != (r[6] != r[7])))))))
  {
    assert r[..7][..6] == r[..6] && r[..6][..5] == r[..5] && r[..5][..4] == r[..4] && r[..4][..3] == r[..3];
    assert r[..3][..2] == r[..2] && r[..2][..1] == r[..1] && r[..1][..0] == [];
    assert Parity(r[..1]) == r[0];
    assert Parity(r[..2]) == (Parity(r[..1]) != r[1]);
    assert Parity(r[..3]) == (Parity(r[..2]) != r[2]);
    assert Parity(r[..4]) == (Parity(r[..3]) != r[3]);
    assert Parity(r[..5]) == (Parity(r[..4]) != r[4]);
    assert Parity(r[..6]) == (Parity(r[..5]) != r[5]);
    assert Parity(r[..7]) == (Parity(r[..6]) != r[6]);
  }

  /** The register carries the parity of everything shifted in. */
  lemma {:induction false} RunParity(r: Octet, bits: Bits)
    ensures Parity(Run(r, bits)) == (Parity(r) != Parity(bits))
    decreases |bits|
  {
    if bits != [] {
      var n := |bits| - 1;
      RunParity(r, bits[..n]);
      ParityOctet(Run(r, bits[..n]));
      ParityOctet(Run(r, bits));
    }
  }

  /** Every error of an odd number of bits changes the residue. */
  lemma OddErrorDetected(frame: Bits, e: Bits)
    requires |frame| == |e| && Parity(e)
    ensures Crc(Xor(frame, e)) != Crc(frame)
  {
    RunParity(BLANK, e);
    ParityOctet(BLANK);
    ResidueChanges(frame, e);
  }
}
