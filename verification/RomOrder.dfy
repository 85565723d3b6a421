/** ROM codes of any one length in bit-lexicographic order (first transmitted bit most
    significant), the forks of the ROM tree, and what following the Application Note 187
    plan from one ROM leads to. */
module RomOrder {

  type Rom = seq<bool>

  ghost predicate Uniform(devices: set<Rom>, n: nat) {
    forall d | d in devices :: |d| == n
  }

  /** `a` and `b` share their first `k` bits. */
  ghost predicate Agree(a: Rom, b: Rom, k: nat)
    requires k <= |a| && k <= |b|
  {
    forall j | 0 <= j < k :: a[j] == b[j]
  }

  ghost predicate Less(a: Rom, b: Rom)
    requires |a| == |b|
  {
    exists k :: 0 <= k < |a| && Agree(a, b, k) && !a[k] && b[k]
  }

  lemma {:induction false} FirstDifference(a: Rom, b: Rom, m: nat) returns (k: nat)
    requires |a| == |b| && m <= |a| && !Agree(a, b, m)
    ensures k < m && Agree(a, b, k) && a[k] != b[k]
  {
    if Agree(a, b, m - 1) {
      k := m - 1;
    } else {
      k := FirstDifference(a, b, m - 1);
    }
  }

  lemma LessTransitive(a: Rom, b: Rom, c: Rom)
    requires |a| == |b| == |c| && Less(a, b) && Less(b, c)
    ensures Less(a, c)
  {
    var i :| 0 <= i < |a| && Agree(a, b, i) && !a[i] && b[i];
    var j :| 0 <= j < |b| && Agree(b, c, j) && !b[j] && c[j];
    assert Agree(a, c, if i < j then i else j);
  }

  lemma LessAsymmetric(a: Rom, b: Rom)
    requires |a| == |b| && Less(a, b)
    ensures !Less(b, a) && a != b
  {
  }

  // ---------------------------------------------------------------- the ROM tree

  /** Some device shares `r`'s first `k` bits and has `bit` next. */
  ghost predicate Branch(devices: set<Rom>, r: Rom, k: nat, bit: bool)
    requires Uniform(devices, |r|) && k < |r|
  {
    exists d :: d in devices && Agree(d, r, k) && d[k] == bit
  }

  /** `r` turns to zero at bit `k` where some device sharing its path has a one. */
  ghost predicate Fork(devices: set<Rom>, r: Rom, k: nat)
    requires Uniform(devices, |r|) && k < |r|
  {
    !r[k] && Branch(devices, r, k, true)
  }

  /** One plus the highest fork below bit `m`, or zero. */
  ghost function LastFork(devices: set<Rom>, r: Rom, m: nat): nat
    requires Uniform(devices, |r|) && m <= |r|
  {
    if m == 0 then 0 else if Fork(devices, r, m - 1) then m else LastFork(devices, r, m - 1)
  }

  lemma {:induction false} LastForkIsHighest(devices: set<Rom>, r: Rom, m: nat)
    requires Uniform(devices, |r|) && m <= |r|
    ensures var f := LastFork(devices, r, m);
            && f <= m
            && (f > 0 ==> Fork(devices, r, f - 1))
            && (forall k | f <= k < m :: !Fork(devices, r, k))
  {
    if m > 0 {
      LastForkIsHighest(devices, r, m - 1);
    }
  }

  /** Whether a fork lies at or below bit `m` depends only on the bits before it. */
  lemma {:induction false} LastForkPrefix(devices: set<Rom>, r: Rom, s: Rom, m: nat)
    requires |r| == |s| && Uniform(devices, |r|) && m <= |r| && Agree(r, s, m)
    ensures LastFork(devices, r, m) == LastFork(devices, s, m)
  {
    if m > 0 {
      LastForkPrefix(devices, r, s, m - 1);
      BranchPrefix(devices, r, s, m - 1, true);
    }
  }

  lemma BranchPrefix(devices: set<Rom>, r: Rom, s: Rom, k: nat, bit: bool)
    requires |r| == |s| && Uniform(devices, |r|) && k < |r| && Agree(r, s, k)
    ensures Branch(devices, r, k, bit) == Branch(devices, s, k, bit)
  {
    forall d | d in devices ensures Agree(d, r, k) == Agree(d, s, k) {
    }
  }

  /** The direction the search takes where both directions are open: the previous path
      before its last fork, one at the fork, zero after it. */
  function Direction(prev: Rom, last: nat, k: nat): bool
    requires k < |prev|
  {
    if k + 1 < last then prev[k] else k + 1 == last
  }

  /** The first `m` bits of `r` follow the plan laid down by `prev` and `last`. */
  ghost predicate Follows(devices: set<Rom>, prev: Rom, last: nat, r: Rom, m: nat)
    requires |prev| == |r| && Uniform(devices, |r|) && m <= |r|
  {
    forall k | 0 <= k < m ::
      Branch(devices, r, k, false) && Branch(devices, r, k, true) ==> r[k] == Direction(prev, last, k)
  }

  /** Before the last fork the plan retraces `prev`. */
  lemma {:induction false} PlanRetraces(devices: set<Rom>, prev: Rom, last: nat, r: Rom, m: nat)
    requires |prev| == |r| && Uniform(devices, |r|) && m < last <= |r|
    requires prev in devices && r in devices && Follows(devices, prev, last, r, |r|)
    ensures Agree(prev, r, m)
  {
    if m > 0 {
      PlanRetraces(devices, prev, last, r, m - 1);
      assert Agree(r, r, m - 1);
      assert Branch(devices, r, m - 1, prev[m - 1]);
      assert Branch(devices, r, m - 1, r[m - 1]);
    }
  }

  /** Past the last fork the plan keeps to the least device. */
  lemma PlanLeast(devices: set<Rom>, prev: Rom, last: nat, r: Rom, d: Rom)
    requires |prev| == |r| && Uniform(devices, |r|) && last <= |r|
    requires r in devices && d in devices && Follows(devices, prev, last, r, |r|)
    requires Agree(d, r, last)
    ensures d == r || Less(r, d)
  {
    if d != r {
      var k := FirstDifference(r, d, |r|);
      assert last <= k;
      assert Agree(r, r, k) && Agree(d, r, k);
      assert Branch(devices, r, k, r[k]) && Branch(devices, r, k, d[k]);
      assert !r[k];
    }
  }

  /** A plan without a fork to revisit leads to the least device. */
  lemma PlanYieldsFirst(devices: set<Rom>, prev: Rom, r: Rom, d: Rom)
    requires |prev| == |r| && Uniform(devices, |r|) && r in devices && d in devices
    requires Follows(devices, prev, 0, r, |r|)
    ensures d == r || Less(r, d)
  {
    PlanLeast(devices, prev, 0, r, d);
  }

  /** A plan through a fork of `prev` retraces it up to the fork and leads above it. */
  lemma PlanYieldsGreater(devices: set<Rom>, prev: Rom, last: nat, r: Rom)
    requires |prev| == |r| && Uniform(devices, |r|) && prev in devices && r in devices
    requires 0 < last <= |r| && Fork(devices, prev, last - 1)
    requires Follows(devices, prev, last, r, |r|)
    ensures Agree(prev, r, last - 1) && r[last - 1] && Less(prev, r)
  {
    PlanRetraces(devices, prev, last, r, last - 1);
    BranchPrefix(devices, prev, r, last - 1, true);
    BranchPrefix(devices, prev, r, last - 1, false);
    assert Agree(prev, prev, last - 1);
    assert Branch(devices, prev, last - 1, false);
  }

  lemma GreaterForks(devices: set<Rom>, prev: Rom, d: Rom, k: nat)
    requires |d| == |prev| && Uniform(devices, |prev|) && d in devices
    requires k < |prev| && Agree(prev, d, k) && !prev[k] && d[k]
    ensures Fork(devices, prev, k)
  {
    assert Agree(d, prev, k);
  }

  lemma LessTransfers(prev: Rom, r: Rom, d: Rom, k: nat)
    requires |prev| == |r| == |d| && k < |r|
    requires Agree(prev, r, k + 1) && Agree(prev, d, k) && !prev[k] && d[k]
    ensures Less(r, d)
  {
    assert Agree(r, d, k);
  }

  lemma AgreeExtends(prev: Rom, r: Rom, d: Rom, k: nat)
    requires |prev| == |r| == |d| && k < |r|
    requires Agree(prev, r, k) && Agree(prev, d, k) && r[k] == d[k]
    ensures Agree(d, r, k + 1)
  {
  }

  /** ... and through the highest fork it skips no device in between. */
  lemma PlanYieldsNext(devices: set<Rom>, prev: Rom, last: nat, r: Rom, d: Rom)
    requires |prev| == |r| && Uniform(devices, |r|) && prev in devices && r in devices && d in devices
    requires 0 < last <= |r| && Fork(devices, prev, last - 1)
    requires forall k | last <= k < |r| :: !Fork(devices, prev, k)
    requires Follows(devices, prev, last, r, |r|)
    requires Less(prev, d)
    ensures d == r || Less(r, d)
  {
    PlanYieldsGreater(devices, prev, last, r);
    var k :| 0 <= k < |prev| && Agree(prev, d, k) && !prev[k] && d[k];
    GreaterForks(devices, prev, d, k);
    if k + 1 < last {
      LessTransfers(prev, r, d, k);
    } else {
      assert k + 1 == last;
      AgreeExtends(prev, r, d, k);
      PlanLeast(devices, prev, last, r, d);
    }
  }

  /** No fork is left exactly when no device is greater. */
  lemma NoForkIffGreatest(devices: set<Rom>, r: Rom)
    requires Uniform(devices, |r|) && r in devices
    ensures LastFork(devices, r, |r|) == 0 <==> forall d | d in devices :: !Less(r, d)
  {
    LastForkIsHighest(devices, r, |r|);
    var f := LastFork(devices, r, |r|);
    if f > 0 {
      var d :| d in devices && Agree(d, r, f - 1) && d[f - 1];
      assert Agree(r, d, f - 1);
    } else {
      forall d | d in devices ensures !Less(r, d) {
        if Less(r, d) {
          var k :| 0 <= k < |r| && Agree(r, d, k) && !r[k] && d[k];
          assert Agree(d, r, k);
          assert Fork(devices, r, k);
        }
      }
    }
  }

  // ---------------------------------------------------------------- listings

  ghost predicate Ascending(s: seq<Rom>, n: nat) {
    && (forall i | 0 <= i < |s| :: |s[i]| == n)
    && (forall i, j | 0 <= i < j < |s| :: Less(s[i], s[j]))
  }

  /** `s` lists the devices, each once, in ascending order. */
  ghost predicate Listing(devices: set<Rom>, s: seq<Rom>, n: nat) {
    Ascending(s, n) && (forall d :: d in devices <==> d in s)
  }

  /** A listing holds each device once; of two entries the earlier has a zero where they first
      differ. */
  lemma ListingMeans(devices: set<Rom>, s: seq<Rom>, n: nat, i: nat, j: nat) returns (k: nat)
    requires Listing(devices, s, n) && i < j < |s|
    ensures s[i] in devices && s[j] in devices && s[i] != s[j]
    ensures k < |s[i]| && k < |s[j]| && s[i][..k] == s[j][..k] && !s[i][k] && s[j][k]
  {
    ListingIndexOrder(s, n, i, j);
    k :| 0 <= k < |s[i]| && Agree(s[i], s[j], k) && !s[i][k] && s[j][k];
  }

  lemma ListingIndexOrder(s: seq<Rom>, n: nat, i: nat, j: nat)
    requires Ascending(s, n) && i < |s| && j < |s|
    ensures Less(s[i], s[j]) <==> i < j
  {
    if j < i {
      LessAsymmetric(s[j], s[i]);
    } else if i == j && Less(s[i], s[j]) {
      LessAsymmetric(s[i], s[j]);
    }
  }

  /** The least device of a listed bus is the first of the list. */
  lemma FirstOfListing(devices: set<Rom>, s: seq<Rom>, n: nat, r: Rom)
    requires Listing(devices, s, n) && r in devices && Uniform(devices, n)
    requires forall d | d in devices :: d == r || Less(r, d)
    ensures r == s[0]
  {
    if r != s[0] {
      var i :| 0 <= i < |s| && s[i] == r;
      assert s[0] in devices;
      ListingIndexOrder(s, n, i, 0);
    }
  }

  /** The least device above entry `p` is entry `p + 1`. */
  lemma NextOfListing(devices: set<Rom>, s: seq<Rom>, n: nat, p: nat, r: Rom)
    requires Listing(devices, s, n) && p < |s| && r in devices && Uniform(devices, n)
    requires Less(s[p], r)
    requires forall d | d in devices && Less(s[p], d) :: d == r || Less(r, d)
    ensures p + 1 < |s| && r == s[p + 1]
  {
    var i :| 0 <= i < |s| && s[i] == r;
    ListingIndexOrder(s, n, p, i);
    ListingIndexOrder(s, n, p, p + 1);
    assert s[p + 1] in devices;
    if r != s[p + 1] {
      ListingIndexOrder(s, n, i, p + 1);
    }
  }

  lemma LastOfListing(devices: set<Rom>, s: seq<Rom>, n: nat, p: nat)
    requires Listing(devices, s, n) && p < |s| && Uniform(devices, n)
    ensures LastFork(devices, s[p], n) == 0 <==> p + 1 == |s|
  {
    assert s[p] in devices;
    NoForkIffGreatest(devices, s[p]);
    if p + 1 < |s| {
      assert s[p + 1] in devices;
      ListingIndexOrder(s, n, p, p + 1);
    } else {
      forall d | d in devices ensures !Less(s[p], d) {
        var i :| 0 <= i < |s| && s[i] == d;
        ListingIndexOrder(s, n, p, i);
      }
    }
  }

  /** Every finite set of equal-length ROMs has a listing. */
  lemma {:induction false} ListingExists(devices: set<Rom>, n: nat) returns (s: seq<Rom>)
    requires Uniform(devices, n)
    ensures Listing(devices, s, n) && |s| == |devices|
    decreases |devices|
  {
    if devices == {} {
      s := [];
    } else {
      var least := Least(devices, n);
      var rest := devices - {least};
      var tail := ListingExists(rest, n);
      s := [least] + tail;
      forall j | 0 <= j < |tail| ensures Less(least, tail[j]) {
        assert tail[j] in rest;
      }
      assert devices == rest + {least};
    }
  }

  lemma {:induction false} Least(devices: set<Rom>, n: nat) returns (least: Rom)
    requires Uniform(devices, n) && devices != {}
    ensures least in devices && forall d | d in devices && d != least :: Less(least, d)
    decreases |devices|
  {
    var a :| a in devices;
    if devices == {a} {
      least := a;
    } else {
      var rest := devices - {a};
      assert rest != {};
      var b := Least(rest, n);
      assert Agree(a, b, n) ==> a == b;
      var k := FirstDifference(a, b, n);
      if a[k] {
        assert Agree(b, a, k);
        least := b;
      } else {
        assert Less(a, b);
        least := a;
        forall d | d in devices && d != a && d != b ensures Less(a, d) {
          assert d in rest;
          LessTransitive(a, b, d);
        }
      }
    }
  }
}
