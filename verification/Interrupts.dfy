/** Interrupt activations that call back into user code, and how many of them are between
    the increment and the decrement of a driver's activity counter. */
module Interrupts {

  /** Callback 0 is the null pointer. */
  datatype Isr = Running(cb: nat, ctx: nat) | Done
  {
    /** Between capture and return, with a callback to call. */
    predicate CallsBack() {
      Running? && cb != 0
    }
  }

  function Busy(isrs: seq<Isr>): nat {
    if isrs == [] then 0
    else Busy(isrs[..|isrs| - 1]) + if isrs[|isrs| - 1].Running? then 1 else 0
  }

  lemma BusyEnter(isrs: seq<Isr>, isr: Isr)
    ensures Busy(isrs + [isr]) == Busy(isrs) + if isr.Running? then 1 else 0
  {
    assert (isrs + [isr])[..|isrs|] == isrs;
  }

  lemma {:induction false} BusyLeave(isrs: seq<Isr>, i: nat)
    requires i < |isrs| && isrs[i].Running?
    ensures Busy(isrs[i := Done]) == Busy(isrs) - 1
  {
    var n := |isrs| - 1;
    if i < n {
      assert isrs[i := Done][..n] == isrs[..n][i := Done];
      BusyLeave(isrs[..n], i);
    } else {
      assert isrs[i := Done][..n] == isrs[..n];
    }
  }

  lemma {:induction false} NoneBusy(isrs: seq<Isr>)
    ensures Busy(isrs) == 0 <==> forall i | 0 <= i < |isrs| :: isrs[i].Done?
  {
    if isrs != [] {
      NoneBusy(isrs[..|isrs| - 1]);
    }
  }
}
