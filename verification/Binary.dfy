/** Numbers and their bits, least significant bit first. */
module Binary {

  function Pow2(n: nat): (p: nat)
    ensures p > 0
  {
    if n == 0 then 1 else 2 * Pow2(n - 1)
  }

  /** `(b >> i) & 1`. */
  predicate Bit(b: nat, i: nat) {
    if i == 0 then b % 2 == 1 else Bit(b / 2, i - 1)
  }

  /** The low `n` bits. */
  function Bits(b: nat, n: nat): (bits: seq<bool>)
    ensures |bits| == n
    ensures forall i | 0 <= i < n :: bits[i] == Bit(b, i)
  {
    if n == 0 then [] else [b % 2 == 1] + Bits(b / 2, n - 1)
  }

  function Value(bits: seq<bool>): nat {
    if bits == [] then 0 else (if bits[0] then 1 else 0) + 2 * Value(bits[1..])
  }

  lemma {:induction false} ValueOfBits(b: nat, n: nat)
    requires b < Pow2(n)
    ensures Value(Bits(b, n)) == b
  {
    if n > 0 {
      ValueOfBits(b / 2, n - 1);
      assert Bits(b, n)[1..] == Bits(b / 2, n - 1);
    }
  }

  lemma Halve(low: nat, rest: nat)
    requires low < 2
    ensures (low + 2 * rest) % 2 == low && (low + 2 * rest) / 2 == rest
  {
  }

  lemma {:induction false} BitsOfValue(bits: seq<bool>)
    ensures Bits(Value(bits), |bits|) == bits
  {
    if bits != [] {
      BitsOfValue(bits[1..]);
      Halve(if bits[0] then 1 else 0, Value(bits[1..]));
    }
  }

  lemma {:induction false} ValueBelow(bits: seq<bool>)
    ensures Value(bits) < Pow2(|bits|)
  {
    if bits != [] {
      ValueBelow(bits[1..]);
    }
  }

  /** Inverting bit `i` adds or subtracts its weight. */
  lemma {:induction false} ValueFlip(bits: seq<bool>, i: nat)
    requires i < |bits|
    ensures Value(bits[i := !bits[i]]) == if bits[i] then Value(bits) - Pow2(i) else Value(bits) + Pow2(i)
  {
    var flipped := bits[i := !bits[i]];
    if i == 0 {
      assert flipped[1..] == bits[1..];
    } else {
      ValueFlip(bits[1..], i - 1);
      assert flipped[1..] == bits[1..][i - 1 := !bits[1..][i - 1]];
    }
  }

  /** A bit above `n` others. */
  lemma {:induction false} TopBit(low: nat, n: nat, high: nat)
    requires low < Pow2(n) && high < 2
    ensures Bits(low + high * Pow2(n), n + 1) == Bits(low, n) + [high == 1]
  {
    if n > 0 {
      assert high * Pow2(n) == 2 * (high * Pow2(n - 1));
      TopBit(low / 2, n - 1, high);
    }
  }

  lemma Pow2Byte(i: nat)
    requires i < 8
    ensures 1 <= Pow2(i) <= 128 && Pow2(8) == 256
  {
    assert Pow2(1) == 2 && Pow2(2) == 4 && Pow2(3) == 8 && Pow2(4) == 16;
    assert Pow2(5) == 32 && Pow2(6) == 64 && Pow2(7) == 128;
  }
}
