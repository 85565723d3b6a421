/** Arithmetic of 32-bit sequence numbers and of positions in a ring of 32. */
module Words {

  lemma WordMod32(n: nat)
    ensures n % 0x1_0000_0000 % 32 == n % 32
  {
    var q, r := n / 0x1_0000_0000, n % 0x1_0000_0000;
    assert n == 0x1_0000_0000 * q + r;
    var a, b := r / 32, r % 32;
    assert n == 32 * (0x800_0000 * q + a) + b;
  }

  lemma NextWord(n: nat)
    ensures (n + 1) % 0x1_0000_0000 == if n % 0x1_0000_0000 == 0xFFFF_FFFF then 0 else n % 0x1_0000_0000 + 1
  {
  }

  lemma WordBack(n: nat, j: nat)
    requires j <= n && j <= n % 0x1_0000_0000
    ensures (n - j) % 0x1_0000_0000 == n % 0x1_0000_0000 - j
  {
  }

  lemma WholeTurns(q: nat, t: nat)
    ensures (32 * q + t) % 32 == t % 32
  {
    assert 32 * q + t == 32 * (q + t / 32) + t % 32;
  }

  lemma SameSlot(a: nat, b: nat, i: nat)
    requires a % 32 == b % 32
    ensures (a + i) % 32 == (b + i) % 32
  {
    WholeTurns(a / 32, a % 32 + i);
    WholeTurns(b / 32, b % 32 + i);
  }

  lemma SlotsApart(k: nat, n: nat)
    requires k < n < k + 32
    ensures k % 32 != n % 32
  {
  }

  lemma BackOneRing(n: nat)
    requires n >= 32
    ensures (n - 32) % 32 == n % 32
  {
  }

  lemma OldestSlot(n: nat, i: nat)
    requires n % 0x1_0000_0000 == 0 || n % 0x1_0000_0000 >= 32
    requires n >= 32
    ensures var r := n % 0x1_0000_0000;
            ((if r > 32 then r - 32 else 0) + i) % 32 == (n - 32 + i) % 32
  {
    var r := n % 0x1_0000_0000;
    WordMod32(n);
    BackOneRing(n);
    if r >= 32 {
      BackOneRing(r);
    }
    SameSlot(if r > 32 then r - 32 else 0, n - 32, i);
  }

  lemma Remainder(n: int, q: int, r: int)
    requires n == 32 * q + r && 0 <= r < 32
    ensures n % 32 == r
  {
  }

  lemma WrapSlot(n: nat, k: nat)
    requires n >= 0x1_0000_0000 && n % 0x1_0000_0000 < 32 && k == n - n % 0x1_0000_0000
    ensures k % 0x1_0000_0000 == 0 && (k + 1) % 0x1_0000_0000 == 1 && k % 32 == 0 && (k - 1) % 32 == 31
  {
    WordBack(n, n % 0x1_0000_0000);
    WordMod32(k);
    NextWord(k);
    Remainder(k - 1, k / 32 - 1, 31);
  }

  lemma FirstOfWindow(n: nat)
    requires n >= 0x1_0000_0000 && 0 < n % 0x1_0000_0000 < 32
    ensures (n - 32 + 1) % 0x1_0000_0000 != 1
  {
    var r := n % 0x1_0000_0000;
    var q := n / 0x1_0000_0000;
    assert n == 0x1_0000_0000 * q + r;
    if r < 31 {
      assert n - 31 == 0x1_0000_0000 * (q - 1) + (0x1_0000_0000 + r - 31);
    } else {
      assert n - 31 == 0x1_0000_0000 * q;
    }
  }

  lemma SlotInWindow(n: nat, j: nat) returns (k: nat)
    requires n >= 32 && j < 32
    ensures n - 32 <= k < n && k % 32 == j
  {
    var q, d := (n - 1) / 32, (n - 1) % 32;
    if j <= d {
      k := n - 1 - (d - j);
      Remainder(k, q, j);
    } else {
      k := n - 1 - d - 32 + j;
      Remainder(k, q - 1, j);
    }
  }

  /** Adding to one term of a sum, modulo 2^32. */
  lemma WrappedSum(sum: nat, total: nat, c: nat, amount: nat)
    requires sum % 0x1_0000_0000 == total % 0x1_0000_0000 && c <= sum
    ensures (sum - c + (c + amount) % 0x1_0000_0000) % 0x1_0000_0000 == (total + amount) % 0x1_0000_0000
  {
    var q, r := (c + amount) / 0x1_0000_0000, (c + amount) % 0x1_0000_0000;
    assert c + amount == 0x1_0000_0000 * q + r;
    SameResidue(sum + amount, sum - c + r, q);
    var s, t := sum / 0x1_0000_0000, total / 0x1_0000_0000;
    assert sum == 0x1_0000_0000 * s + sum % 0x1_0000_0000 && total == 0x1_0000_0000 * t + total % 0x1_0000_0000;
    SameResidue(sum + amount, sum % 0x1_0000_0000 + amount, s);
    SameResidue(total + amount, sum % 0x1_0000_0000 + amount, t);
  }

  lemma SameResidue(a: int, b: int, q: int)
    requires a == 0x1_0000_0000 * q + b
    ensures a % 0x1_0000_0000 == b % 0x1_0000_0000
  {
    var p, r := b / 0x1_0000_0000, b % 0x1_0000_0000;
    assert b == 0x1_0000_0000 * p + r;
    assert a == 0x1_0000_0000 * (q + p) + r;
  }
}
