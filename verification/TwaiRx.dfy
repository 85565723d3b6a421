/** The TWAI receive callback: close flags the handle, disables the node, gives the lock back
    and waits for running callbacks before deleting the node, while other tasks go on
    starting, stopping and setting callbacks and the receive interrupt fires at any time. */
module TwaiRx {
  import opened Interrupts

  /** The owner of the lock, other than close. */
  datatype Owner = Free | Starting | Enabled | Stopping | Disabled | Closer

  /** Where close stands; the lock is its own up to `Silenced` and given back from `Waiting`. */
  datatype Close = Out | Entered | Flagged | Silenced | Waiting | Drained | Failed | Gone

  datatype State = State(
    owner: Owner, close: Close,
    node: bool, started: bool, closing: bool,
    callback: nat, userCtx: nat,
    entered: nat, active: nat, isrs: seq<Isr>)

  datatype Step =
    | Raise | Capture | Return(i: nat)
    | BeginStart | Enable(ok: bool) | MarkStarted
    | BeginStop | Disable(ok: bool) | MarkStopped
    | SetCallback(cb: nat, ctx: nat)
    | BeginClose | FlagClose | CloseDisable(ok: bool) | CloseMark | CloseIdle | Delete(ok: bool) | Unflag

  function Init(): State {
    State(Free, Out, false, false, false, 0, 0, 0, 0, [])
  }

  predicate CanStep(s: State, step: Step) {
    match step
    case Raise => s.node
    case Capture => s.entered > 0 && !s.close.Gone?
    case Return(i) => i < |s.isrs| && s.isrs[i].Running?
    case BeginStart => s.owner.Free? && !s.close.Gone? && !s.closing && !s.started
    case Enable(_) => s.owner.Starting?
    case MarkStarted => s.owner.Enabled?
    case BeginStop => s.owner.Free? && !s.close.Gone? && s.started
    case Disable(_) => s.owner.Stopping?
    case MarkStopped => s.owner.Disabled?
    case SetCallback(_, _) => s.owner.Free? && !s.close.Gone? && !s.closing
    case BeginClose => s.owner.Free? && s.close.Out?
    case FlagClose => s.close.Entered?
    case CloseDisable(_) => s.close.Flagged? && s.started
    case CloseMark => s.close.Silenced? || (s.close.Flagged? && !s.started)
    case CloseIdle => s.close.Waiting? && s.active == 0
    case Delete(_) => s.close.Drained?
    case Unflag => s.close.Failed? && s.owner.Free?
  }

  function Do(s: State, step: Step): State
    requires CanStep(s, step)
  {
    match step
    case Raise => s.(entered := s.entered + 1)
    // Under closing, or without a callback, the interrupt returns at once.
    case Capture =>
      var r := s.(entered := s.entered - 1);
      if s.closing || s.callback == 0 then r
      else r.(active := s.active + 1, isrs := s.isrs + [Running(s.callback, s.userCtx)])
    case Return(i) =>
      s.(active := if s.active > 0 then s.active - 1 else 0xFFFF_FFFF, isrs := s.isrs[i := Done])
    case BeginStart => s.(owner := Starting)
    case Enable(ok) => if ok then s.(owner := Enabled, node := true) else s.(owner := Free)
    case MarkStarted => s.(owner := Free, started := true)
    case BeginStop => s.(owner := Stopping)
    case Disable(ok) => if ok then s.(owner := Disabled, node := false) else s.(owner := Free)
    case MarkStopped => s.(owner := Free, started := false)
    case SetCallback(cb, ctx) => s.(callback := cb, userCtx := ctx)
    case BeginClose => s.(owner := Closer, close := Entered)
    case FlagClose => s.(close := Flagged, closing := true)
    case CloseDisable(ok) =>
      if ok then s.(close := Silenced, node := false) else s.(owner := Free, close := Out, closing := false)
    // Marks the node stopped and gives the lock back.
    case CloseMark => s.(owner := Free, close := Waiting, started := false)
    case CloseIdle => s.(close := Drained)
    case Delete(ok) => s.(close := if ok then Gone else Failed)
    case Unflag => s.(close := Out, closing := false)
  }

  ghost predicate IsRun(states: seq<State>, steps: seq<Step>) {
    && |states| == |steps| + 1
    && forall k | 0 <= k < |steps| :: CanStep(states[k], steps[k]) && states[k + 1] == Do(states[k], steps[k])
  }

  // ---------------------------------------------------------------- the invariant

  /** From here on the node is off and nobody can switch it on. */
  predicate Quiet(c: Close) {
    c.Waiting? || c.Drained? || c.Failed? || c.Gone?
  }

  ghost predicate FlagsMatch(s: State) {
    && (s.owner.Closer? <==> s.close.Entered? || s.close.Flagged? || s.close.Silenced?)
    && (s.closing <==> !s.close.Out? && !s.close.Entered?)
    && (s.owner.Enabled? || s.owner.Disabled? || s.close.Silenced? || s.node == s.started)
    && (s.owner.Starting? || s.owner.Enabled? ==> !s.closing && !s.started)
    && (s.owner.Stopping? || s.owner.Disabled? ==> !Quiet(s.close) && s.started)
    && (s.owner.Enabled? ==> s.node)
    && (s.owner.Disabled? || s.close.Silenced? ==> !s.node)
    && (Quiet(s.close) ==> !s.node)
  }

  ghost predicate Counted(s: State) {
    s.active == Busy(s.isrs)
  }

  ghost predicate Silent(s: State) {
    s.close.Drained? || s.close.Failed? || s.close.Gone? ==> s.active == 0
  }

  ghost predicate Inv(s: State) {
    FlagsMatch(s) && Counted(s) && Silent(s)
  }

  lemma FlagsStep(s: State, step: Step)
    requires Inv(s) && CanStep(s, step)
    ensures FlagsMatch(Do(s, step))
  {
  }

  lemma CountStep(s: State, step: Step)
    requires Inv(s) && CanStep(s, step)
    ensures Counted(Do(s, step)) && Silent(Do(s, step))
  {
    NoneBusy(s.isrs);
    if step.Capture? {
      BusyEnter(s.isrs, Running(s.callback, s.userCtx));
    } else if step.Return? {
      BusyLeave(s.isrs, step.i);
    }
  }

  lemma {:induction false} InvRun(states: seq<State>, steps: seq<Step>)
    requires IsRun(states, steps) && states[0] == Init()
    ensures Inv(states[|steps|])
  {
    var m := |steps|;
    if m > 0 {
      InvRun(states[..m], steps[..m - 1]);
      FlagsStep(states[m - 1], steps[m - 1]);
      CountStep(states[m - 1], steps[m - 1]);
    }
  }

  // ---------------------------------------------------------------- what it gives

  /** In every interleaving: once the idle wait has returned the node is off, no callback is
      running, and none has started when the node is deleted or the deletion fails. */
  lemma CloseDrains(states: seq<State>, steps: seq<Step>)
    requires IsRun(states, steps) && states[0] == Init()
    ensures var s := states[|steps|];
            s.close.Drained? || s.close.Failed? || s.close.Gone? ==>
              !s.node && !s.started && s.closing && forall i | 0 <= i < |s.isrs| :: s.isrs[i].Done?
  {
    InvRun(states, steps);
    NoneBusy(states[|steps|].isrs);
  }

  /** While close waits, with the lock given back, no step of anyone starts a callback: the
      set of running callbacks only shrinks, and every return shrinks it. */
  lemma WaitMakesProgress(states: seq<State>, steps: seq<Step>, step: Step)
    requires IsRun(states, steps) && states[0] == Init()
    requires states[|steps|].close.Waiting? && CanStep(states[|steps|], step)
    ensures var s, r := states[|steps|], Do(states[|steps|], step);
            && |r.isrs| == |s.isrs|
            && (forall i | 0 <= i < |s.isrs| :: s.isrs[i].Done? ==> r.isrs[i].Done?)
            && r.active == s.active - if step.Return? then 1 else 0
  {
    InvRun(states, steps);
    NoneBusy(states[|steps|].isrs);
  }

  /** The activity counter is exact in every interleaving. */
  lemma WaitExact(states: seq<State>, steps: seq<Step>)
    requires IsRun(states, steps) && states[0] == Init()
    ensures var s := states[|steps|];
            s.active == 0 <==> forall i | 0 <= i < |s.isrs| :: s.isrs[i].Done?
  {
    InvRun(states, steps);
    NoneBusy(states[|steps|].isrs);
  }

  // ---------------------------------------------------------------- who is called

  /** The callback and context last set. */
  lemma {:induction false} LastSet(states: seq<State>, steps: seq<Step>, k: nat, cb: nat, ctx: nat)
    requires IsRun(states, steps) && k < |steps| && steps[k] == SetCallback(cb, ctx)
    requires forall j | k < j < |steps| :: !steps[j].SetCallback?
    ensures states[|steps|].callback == cb && states[|steps|].userCtx == ctx
  {
    var m := |steps|;
    if k + 1 < m {
      LastSet(states[..m], steps[..m - 1], k, cb, ctx);
    }
  }

  /** A receive interrupt starts the callback last set, with the context set with it, exactly
      if that callback is not null and the handle is not closing. */
  lemma CaptureCallsLastSet(states: seq<State>, steps: seq<Step>, k: nat, cb: nat, ctx: nat)
    requires IsRun(states, steps) && k < |steps| && steps[k] == SetCallback(cb, ctx)
    requires forall j | k < j < |steps| :: !steps[j].SetCallback?
    requires CanStep(states[|steps|], Capture)
    ensures var s, r := states[|steps|], Do(states[|steps|], Capture);
            if cb != 0 && !s.closing then r.isrs == s.isrs + [Running(cb, ctx)] && r.isrs[|s.isrs|].CallsBack()
            else r.isrs == s.isrs
  {
    LastSet(states, steps, k, cb, ctx);
  }

  // ---------------------------------------------------------------- a close that fails

  /** If the node cannot be disabled, close leaves the handle open and running as it was. */
  lemma FailedDisableUndone(states: seq<State>, steps: seq<Step>)
    requires IsRun(states, steps) && states[0] == Init() && CanStep(states[|steps|], CloseDisable(false))
    ensures var s, r := states[|steps|], Do(states[|steps|], CloseDisable(false));
            && r.owner.Free? && r.close.Out? && !r.closing && r.node && r.started
            && r.callback == s.callback && r.userCtx == s.userCtx && r.isrs == s.isrs
  {
    InvRun(states, steps);
  }

  /** If it cannot be deleted, close leaves the handle open and stopped, and it can be started,
      given a callback or closed again. */
  lemma FailedDeleteReopens(states: seq<State>, steps: seq<Step>)
    requires IsRun(states, steps) && states[0] == Init()
    requires CanStep(states[|steps|], Delete(false)) && states[|steps|].owner.Free?
    ensures var s, r := states[|steps|], Do(states[|steps|], Delete(false));
            && CanStep(r, Unflag)
            && var t := Do(r, Unflag);
               && t == s.(close := Out, closing := false) && !t.node && !t.started
               && CanStep(t, BeginStart) && CanStep(t, BeginClose)
               && forall cb, ctx :: CanStep(t, SetCallback(cb, ctx))
  {
    InvRun(states, steps);
  }
}
