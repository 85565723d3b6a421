/** One descent of the SEARCH ROM tree: what the wired-AND reads say at each bit, and the
    facts the 64-step loop keeps on a fault-free bus. */
module RomSearch {
  import opened RomOrder

  /** The devices still answering after `k` bits of `bits` have been written. */
  ghost function Answering(devices: set<Rom>, bits: Rom, k: nat): set<Rom>
    requires Uniform(devices, |bits|) && k <= |bits|
  {
    set d | d in devices && Agree(d, bits, k)
  }

  /** After `k` steps `bits` is a path some device lies on, `lastZero` its last fork. */
  ghost predicate Descent(devices: set<Rom>, prev: Rom, last: nat, bits: Rom, k: nat, lastZero: nat, active: set<Rom>) {
    && |prev| == |bits| && Uniform(devices, |bits|) && k <= |bits|
    && active == Answering(devices, bits, k) && active != {}
    && lastZero == LastFork(devices, bits, k)
    && Follows(devices, prev, last, bits, k)
  }

  lemma DescentStart(devices: set<Rom>, prev: Rom, last: nat, bits: Rom)
    requires |prev| == |bits| && Uniform(devices, |bits|) && devices != {}
    ensures Descent(devices, prev, last, bits, 0, 0, devices)
  {
    assert devices == Answering(devices, bits, 0);
  }

  /** The two reads report which directions are closed. */
  lemma ReadsReportBranches(devices: set<Rom>, bits: Rom, k: nat, active: set<Rom>)
    requires Uniform(devices, |bits|) && k < |bits| && active == Answering(devices, bits, k)
    ensures (forall d | d in active :: d[k]) == !Branch(devices, bits, k, false)
    ensures (forall d | d in active :: !d[k]) == !Branch(devices, bits, k, true)
  {
  }

  lemma BothClosedImpossible(devices: set<Rom>, bits: Rom, k: nat, active: set<Rom>)
    requires Uniform(devices, |bits|) && k < |bits| && active == Answering(devices, bits, k) && active != {}
    ensures Branch(devices, bits, k, false) || Branch(devices, bits, k, true)
  {
    var d :| d in active;
    assert Branch(devices, bits, k, d[k]);
  }

  /** The direction written after reading `id` and `cmp`. */
  function Choice(id: bool, cmp: bool, prev: Rom, last: nat, k: nat): bool
    requires k < |prev|
  {
    if id != cmp then id else Direction(prev, last, k)
  }

  /** One loop step keeps the descent. */
  lemma DescentStep(devices: set<Rom>, prev: Rom, last: nat, bits: Rom, k: nat, lastZero: nat,
                    active: set<Rom>, id: bool, cmp: bool)
    requires Descent(devices, prev, last, bits, k, lastZero, active) && k < |bits|
    requires id == !Branch(devices, bits, k, false) && cmp == !Branch(devices, bits, k, true)
    ensures var dir := Choice(id, cmp, prev, last, k);
            Descent(devices, prev, last, bits[k := dir], k + 1,
                    if id == cmp && !dir then k + 1 else lastZero, set d | d in active && d[k] == dir)
  {
    var dir := Choice(id, cmp, prev, last, k);
    var bits' := bits[k := dir];
    BothClosedImpossible(devices, bits, k, active);
    assert Branch(devices, bits, k, dir);
    StepKeepsActive(devices, bits, k, dir, active);
    assert Agree(bits, bits', k);
    LastForkPrefix(devices, bits, bits', k);
    BranchPrefix(devices, bits, bits', k, true);
    StepKeepsPlan(devices, prev, last, bits, k, dir);
  }

  lemma StepKeepsActive(devices: set<Rom>, bits: Rom, k: nat, dir: bool, active: set<Rom>)
    requires Uniform(devices, |bits|) && k < |bits| && active == Answering(devices, bits, k)
    requires Branch(devices, bits, k, dir)
    ensures (set d | d in active && d[k] == dir) == Answering(devices, bits[k := dir], k + 1)
    ensures Answering(devices, bits[k := dir], k + 1) != {}
  {
    var bits' := bits[k := dir];
    forall d | d in devices ensures Agree(d, bits', k + 1) <==> Agree(d, bits, k) && d[k] == dir {
      if Agree(d, bits', k + 1) {
        assert d[k] == bits'[k];
      }
    }
    var d :| d in devices && Agree(d, bits, k) && d[k] == dir;
    assert d in Answering(devices, bits', k + 1);
  }

  lemma StepKeepsPlan(devices: set<Rom>, prev: Rom, last: nat, bits: Rom, k: nat, dir: bool)
    requires |prev| == |bits| && Uniform(devices, |bits|) && k < |bits|
    requires Follows(devices, prev, last, bits, k)
    requires Branch(devices, bits, k, false) && Branch(devices, bits, k, true) ==> dir == Direction(prev, last, k)
    ensures Follows(devices, prev, last, bits[k := dir], k + 1)
  {
    var bits' := bits[k := dir];
    forall j | 0 <= j < k + 1
      ensures Branch(devices, bits', j, false) == Branch(devices, bits, j, false)
      ensures Branch(devices, bits', j, true) == Branch(devices, bits, j, true)
    {
      assert Agree(bits, bits', j);
      BranchPrefix(devices, bits, bits', j, false);
      BranchPrefix(devices, bits, bits', j, true);
    }
  }

  /** A finished descent has reached one device. */
  lemma DescentArrives(devices: set<Rom>, prev: Rom, last: nat, bits: Rom, lastZero: nat, active: set<Rom>)
    requires Descent(devices, prev, last, bits, |bits|, lastZero, active)
    ensures bits in devices && active == {bits}
    ensures lastZero == LastFork(devices, bits, |bits|)
  {
    var d :| d in active;
    assert d == bits;
    forall e | e in active ensures e == bits {
    }
  }

  // ---------------------------------------------------------------- search outcomes

  /** Where a pass over the bus stands: before its first ROM, or just after one. */
  datatype Position = Start | After(rom: Rom)

  /** What the next search must return: the least device, or the least above the last. */
  ghost predicate IsSuccessor(devices: set<Rom>, n: nat, at: Position, r: Rom)
    requires Uniform(devices, n) && (at.After? ==> |at.rom| == n)
  {
    && r in devices
    && (at.After? ==> Less(at.rom, r))
    && forall d | d in devices :: (at.After? ==> Less(at.rom, d)) ==> d == r || Less(r, d)
  }

  /** The saved path and last fork agree with the position. */
  ghost predicate Saved(devices: set<Rom>, n: nat, at: Position, prev: Rom, last: nat) {
    && Uniform(devices, n) && |prev| == n
    && match at {
         case Start => last == 0
         case After(rom) => rom == prev && rom in devices && last == LastFork(devices, rom, n) && last > 0
       }
  }

  lemma FollowingYieldsSuccessor(devices: set<Rom>, n: nat, at: Position, prev: Rom, last: nat, bits: Rom)
    requires Saved(devices, n, at, prev, last) && |bits| == n && bits in devices
    requires Follows(devices, prev, last, bits, n)
    ensures IsSuccessor(devices, n, at, bits)
  {
    match at {
      case Start =>
        forall d | d in devices ensures d == bits || Less(bits, d) {
          PlanYieldsFirst(devices, prev, bits, d);
        }
      case After(rom) =>
        LastForkIsHighest(devices, prev, n);
        PlanYieldsGreater(devices, prev, last, bits);
        forall d | d in devices && Less(prev, d) ensures d == bits || Less(bits, d) {
          PlanYieldsNext(devices, prev, last, bits, d);
        }
    }
  }

  /** A finished descent returns the successor, leaves its last fork, and reports zero
      exactly on the greatest device. */
  lemma DescentYieldsSuccessor(devices: set<Rom>, n: nat, at: Position, prev: Rom, last: nat,
                               bits: Rom, lastZero: nat, active: set<Rom>)
    requires Saved(devices, n, at, prev, last) && |bits| == n
    requires Descent(devices, prev, last, bits, n, lastZero, active)
    ensures IsSuccessor(devices, n, at, bits)
    ensures lastZero == LastFork(devices, bits, n)
    ensures lastZero == 0 <==> forall d | d in devices :: !Less(bits, d)
  {
    DescentArrives(devices, prev, last, bits, lastZero, active);
    NoForkIffGreatest(devices, bits);
    FollowingYieldsSuccessor(devices, n, at, prev, last, bits);
  }
}
