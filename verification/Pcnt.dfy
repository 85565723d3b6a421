/** The pulse counter's callback protocol: the watch-point interrupt counts itself active and
    captures the callback in one critical section; start, stop, set_callback and close run
    under the handle's lock; set_callback writes the pair in two plain stores. */
module Pcnt {
  import opened Interrupts

  /** The lock and where its owner stands. */
  datatype Owner =
    | Free
    | Starting | HwStarted
    | Stopping | HwStopped
    | Setting(cb: nat, ctx: nat) | Idled(cb: nat, ctx: nat) | HalfSet(cb: nat, ctx: nat)
    | CloseEntered | CloseFlagged | CloseStopped | CloseWaiting | CloseDrained
    | Gone

  /** `entered` interrupts have been raised but have not reached their first critical
      section. `late` says whether stopping the unit may overtake such an interrupt. `asked`
      records the pair given to each set_callback call that passed its check, `installs` that
      of each call that returned. */
  datatype State = State(
    late: bool,
    owner: Owner, hw: bool, started: bool, closing: bool,
    callback: nat, userCtx: nat,
    entered: nat, active: nat, isrs: seq<Isr>,
    asked: set<(nat, nat)>, installs: set<(nat, nat)>)

  datatype Step =
    | Raise
    | Capture
    | Return(i: nat)
    | BeginStart | HwStart(ok: bool) | MarkStarted
    | BeginStop | HwStop(ok: bool) | MarkStopped
    | BeginSet(cb: nat, ctx: nat) | SetIdle | WriteCallback | WriteCtx
    | BeginClose | FlagClose | CloseHwStop(ok: bool) | CloseMark | CloseIdle | CloseDelete(ok: bool)

  function Init(late: bool): State {
    State(late, Free, false, false, false, 0, 0, 0, 0, [], {(0, 0)}, {(0, 0)})
  }

  predicate Enabled(s: State, step: Step) {
    match step
    case Raise => s.hw
    case Capture => s.entered > 0 && !s.owner.Gone?
    case Return(i) => i < |s.isrs| && s.isrs[i].Running?
    case BeginStart => s.owner.Free? && !s.started
    case HwStart(_) => s.owner.Starting?
    case MarkStarted => s.owner.HwStarted?
    case BeginStop => s.owner.Free? && s.started
    case HwStop(ok) => s.owner.Stopping? && (ok ==> s.late || s.entered == 0)
    case MarkStopped => s.owner.HwStopped?
    case BeginSet(_, _) => s.owner.Free? && !s.started
    case SetIdle => s.owner.Setting? && s.active == 0
    case WriteCallback => s.owner.Idled?
    case WriteCtx => s.owner.HalfSet?
    case BeginClose => s.owner.Free?
    case FlagClose => s.owner.CloseEntered?
    case CloseHwStop(ok) => s.owner.CloseFlagged? && s.started && (ok ==> s.late || s.entered == 0)
    case CloseMark => s.owner.CloseStopped? || (s.owner.CloseFlagged? && !s.started)
    case CloseIdle => s.owner.CloseWaiting? && s.active == 0
    case CloseDelete(_) => s.owner.CloseDrained?
  }

  function Do(s: State, step: Step): State
    requires Enabled(s, step)
  {
    match step
    case Raise => s.(entered := s.entered + 1)
    case Capture =>
      s.(entered := s.entered - 1, active := s.active + 1,
         isrs := s.isrs + [Running(if s.closing then 0 else s.callback, s.userCtx)])
    case Return(i) =>
      s.(active := if s.active > 0 then s.active - 1 else 0xFFFF_FFFF, isrs := s.isrs[i := Done])
    case BeginStart => s.(owner := Starting)
    case HwStart(ok) => if ok then s.(owner := HwStarted, hw := true) else s.(owner := Free)
    case MarkStarted => s.(owner := Free, started := true)
    case BeginStop => s.(owner := Stopping)
    case HwStop(ok) => if ok then s.(owner := HwStopped, hw := false) else s.(owner := Free)
    case MarkStopped => s.(owner := Free, started := false)
    case BeginSet(cb, ctx) => s.(owner := Setting(cb, ctx), asked := s.asked + {(cb, ctx)})
    case SetIdle => s.(owner := Idled(s.owner.cb, s.owner.ctx))
    case WriteCallback => s.(owner := HalfSet(s.owner.cb, s.owner.ctx), callback := s.owner.cb)
    case WriteCtx =>
      s.(owner := Free, userCtx := s.owner.ctx, installs := s.installs + {(s.owner.cb, s.owner.ctx)})
    case BeginClose => s.(owner := CloseEntered)
    case FlagClose => s.(owner := CloseFlagged, closing := true)
    case CloseHwStop(ok) =>
      if ok then s.(owner := CloseStopped, hw := false) else s.(owner := Free, closing := false)
    case CloseMark => s.(owner := CloseWaiting, started := false)
    case CloseIdle => s.(owner := CloseDrained)
    // Disable and the two deletions; the first failure undoes the closing flag.
    case CloseDelete(ok) => if ok then s.(owner := Gone) else s.(owner := Free, closing := false)
  }

  ghost predicate IsRun(states: seq<State>, steps: seq<Step>) {
    && |states| == |steps| + 1
    && forall k | 0 <= k < |steps| :: Enabled(states[k], steps[k]) && states[k + 1] == Do(states[k], steps[k])
  }

  // ---------------------------------------------------------------- the invariant

  /** How the hardware, its flag and the closing flag go with the owner's position. */
  ghost predicate FlagsMatch(s: State) {
    && (s.owner.HwStarted? || s.owner.HwStopped? || s.owner.CloseStopped? || s.hw == s.started)
    && (s.owner.Starting? || s.owner.Setting? || s.owner.Idled? || s.owner.HalfSet? ==> !s.started)
    && (s.owner.Stopping? ==> s.started)
    && (s.owner.HwStarted? ==> s.hw && !s.started)
    && (s.owner.HwStopped? || s.owner.CloseStopped? ==> !s.hw && s.started)
    && (s.owner.CloseWaiting? || s.owner.CloseDrained? || s.owner.Gone? ==> !s.hw)
    && (s.closing <==> s.owner.CloseFlagged? || s.owner.CloseStopped? || s.owner.CloseWaiting?
                       || s.owner.CloseDrained? || s.owner.Gone?)
  }

  /** The driver knows exactly how many activations it has to wait for. */
  ghost predicate Counted(s: State) {
    s.active == Busy(s.isrs)
  }

  /** After the wait of close, nothing that was captured can call back. */
  ghost predicate Drained(s: State) {
    s.owner.CloseDrained? || s.owner.Gone? ==> forall i | 0 <= i < |s.isrs| :: !s.isrs[i].CallsBack()
  }

  /** Without overtaking, a stopped unit has no interrupt on its way. */
  ghost predicate Prompt(s: State) {
    !s.late && !s.hw ==> s.entered == 0
  }

  /** Without overtaking, what was captured was installed. */
  ghost predicate PairsWhole(s: State) {
    !s.late ==> forall i | 0 <= i < |s.isrs| :: s.isrs[i].CallsBack() ==> (s.isrs[i].cb, s.isrs[i].ctx) in s.installs
  }

  ghost predicate Inv(s: State) {
    FlagsMatch(s) && Counted(s) && Drained(s) && Prompt(s) && Recorded(s) && PairsWhole(s)
  }

  ghost predicate Replacing(s: State) {
    s.owner.Setting? || s.owner.Idled? || s.owner.HalfSet?
  }

  /** Where the fields and the call under way come from. */
  ghost predicate Recorded(s: State) {
    && (!s.owner.HalfSet? ==> (s.callback, s.userCtx) in s.installs)
    && (s.owner.HalfSet? ==> s.callback == s.owner.cb)
    && (Replacing(s) ==> (s.owner.cb, s.owner.ctx) in s.asked)
    && s.installs <= s.asked
  }

  lemma FlagsStep(s: State, step: Step)
    requires Inv(s) && Enabled(s, step)
    ensures FlagsMatch(Do(s, step)) && Prompt(Do(s, step))
  {
  }

  lemma CountStep(s: State, step: Step)
    requires Inv(s) && Enabled(s, step)
    ensures Counted(Do(s, step)) && Drained(Do(s, step))
  {
    NoneBusy(s.isrs);
    if step.Capture? {
      BusyEnter(s.isrs, Do(s, step).isrs[|s.isrs|]);
    } else if step.Return? {
      BusyLeave(s.isrs, step.i);
    }
  }

  lemma PairsStep(s: State, step: Step)
    requires Inv(s) && Enabled(s, step)
    ensures Recorded(Do(s, step)) && PairsWhole(Do(s, step))
  {
    var r := Do(s, step);
    assert s.installs <= r.installs && s.asked <= r.asked;
  }

  lemma InvStep(s: State, step: Step)
    requires Inv(s) && Enabled(s, step)
    ensures Inv(Do(s, step))
  {
    FlagsStep(s, step);
    CountStep(s, step);
    PairsStep(s, step);
  }

  lemma {:induction false} InvRun(states: seq<State>, steps: seq<Step>, late: bool)
    requires IsRun(states, steps) && states[0] == Init(late)
    ensures Inv(states[|steps|]) && states[|steps|].late == late
  {
    var m := |steps|;
    if m > 0 {
      InvRun(states[..m], steps[..m - 1], late);
      InvStep(states[m - 1], steps[m - 1]);
    }
  }

  // ---------------------------------------------------------------- what it gives

  /** In every interleaving of close with interrupts, even ones that a stop overtakes: once
      the idle wait has returned no user callback is running, and none is at any later point
      before the deletion is undone or done. */
  lemma CloseDrains(states: seq<State>, steps: seq<Step>, late: bool)
    requires IsRun(states, steps) && states[0] == Init(late)
    ensures var s := states[|steps|];
            s.owner.CloseDrained? || s.owner.Gone? ==>
              !s.hw && s.closing && forall i | 0 <= i < |s.isrs| :: !s.isrs[i].CallsBack()
  {
    InvRun(states, steps, late);
  }

  /** The activity counter is exact in every interleaving, so it never wraps below zero and
      the idle wait ends exactly when the last activation has returned. */
  lemma WaitExact(states: seq<State>, steps: seq<Step>, late: bool)
    requires IsRun(states, steps) && states[0] == Init(late)
    ensures var s := states[|steps|];
            s.active == 0 <==> forall i | 0 <= i < |s.isrs| :: s.isrs[i].Done?
  {
    InvRun(states, steps, late);
    NoneBusy(states[|steps|].isrs);
  }

  ghost predicate Reachable(s: State, late: bool) {
    exists states: seq<State>, steps: seq<Step> ::
      IsRun(states, steps) && states[0] == Init(late) && states[|steps|] == s
  }

  lemma ReachableInv(s: State, late: bool)
    requires Reachable(s, late)
    ensures Inv(s) && s.late == late
  {
    var states: seq<State>, steps: seq<Step> :| IsRun(states, steps) && states[0] == Init(late) && states[|steps|] == s;
    InvRun(states, steps, late);
  }

  lemma Start(late: bool)
    ensures Reachable(Init(late), late)
  {
    assert IsRun([Init(late)], []) && [Init(late)][0] == Init(late);
  }

  lemma Go(s: State, late: bool, step: Step) returns (r: State)
    requires Reachable(s, late) && Enabled(s, step)
    ensures r == Do(s, step) && Reachable(r, late)
  {
    var states: seq<State>, steps: seq<Step> :| IsRun(states, steps) && states[0] == Init(late) && states[|steps|] == s;
    r := Do(s, step);
    var more, longer := states + [r], steps + [step];
    assert IsRun(more, longer) && more[0] == Init(late) && more[|longer|] == r;
  }

  // ---------------------------------------------------------------- after a stop

  /** Whatever happens next, no activation is under way until the unit is started again. */
  ghost predicate QuietUntilStart(s: State) {
    forall states: seq<State>, steps: seq<Step> | IsRun(states, steps) && states[0] == s && NoStart(steps) ::
      states[|steps|].active == 0
  }

  ghost predicate NoStart(steps: seq<Step>) {
    forall k | 0 <= k < |steps| :: steps[k] != HwStart(true)
  }

  /** Nothing runs and nothing can start to. */
  ghost predicate Still(s: State) {
    !s.hw && s.active == 0 && Counted(s) && (s.entered == 0 || s.owner.Gone?)
  }

  lemma StillStep(s: State, step: Step)
    requires Still(s) && Enabled(s, step) && step != HwStart(true)
    ensures Still(Do(s, step))
  {
    NoneBusy(s.isrs);
  }

  lemma {:induction false} StillRun(states: seq<State>, steps: seq<Step>)
    requires IsRun(states, steps) && NoStart(steps) && Still(states[0])
    ensures Still(states[|steps|])
  {
    var m := |steps|;
    if m > 0 {
      StillRun(states[..m], steps[..m - 1]);
      StillStep(states[m - 1], steps[m - 1]);
    }
  }

  /** Once the idle wait of stop has returned, no callback runs until the next start, although
      stop has given the lock back, exactly if no raised interrupt is still on its way. */
  lemma StopDrainsIff(s: State, late: bool)
    requires Reachable(s, late) && !s.hw && s.active == 0
    ensures QuietUntilStart(s) <==> s.entered == 0 || s.owner.Gone?
  {
    ReachableInv(s, late);
    if s.entered == 0 || s.owner.Gone? {
      forall states: seq<State>, steps: seq<Step> | IsRun(states, steps) && states[0] == s && NoStart(steps)
        ensures states[|steps|].active == 0
      {
        StillRun(states, steps);
      }
    } else {
      var states, steps := [s, Do(s, Capture)], [Capture];
      assert IsRun(states, steps) && states[0] == s && NoStart(steps);
      assert states[|steps|].active == 1;
    }
  }

  // ---------------------------------------------------------------- replacing the callback

  /** A run through the rest of one set_callback call, to its return. */
  ghost predicate ToReturn(s: State, states: seq<State>, steps: seq<Step>) {
    && IsRun(states, steps) && states[0] == s && steps != [] && steps[|steps| - 1] == WriteCtx
    && forall k | 0 <= k < |steps| - 1 :: steps[k] != WriteCtx
  }

  ghost predicate NoneCallsBack(s: State) {
    forall i | 0 <= i < |s.isrs| :: !s.isrs[i].CallsBack()
  }

  /** However the call goes on, no user callback is running when it returns. */
  ghost predicate ReturnsIdle(s: State) {
    forall states: seq<State>, steps: seq<Step> | ToReturn(s, states, steps) :: NoneCallsBack(states[|steps|])
  }

  /** What holds on the way from the idle wait to the return, if nothing was raised or neither
      callback is set. */
  ghost predicate Harmless(s: State, cb: nat, ctx: nat, raised: bool) {
    && !s.hw && !s.closing && Replacing(s) && s.owner.cb == cb && s.owner.ctx == ctx && NoneCallsBack(s)
    && (if raised then cb == 0 && s.callback == 0 else s.entered == 0)
  }

  lemma HarmlessStep(s: State, step: Step, cb: nat, ctx: nat, raised: bool)
    requires Harmless(s, cb, ctx, raised) && Enabled(s, step)
    ensures NoneCallsBack(Do(s, step))
    ensures step != WriteCtx ==> Harmless(Do(s, step), cb, ctx, raised)
  {
  }

  lemma {:induction false} HarmlessRun(states: seq<State>, steps: seq<Step>, cb: nat, ctx: nat, raised: bool)
    requires IsRun(states, steps) && Harmless(states[0], cb, ctx, raised)
    requires forall k | 0 <= k < |steps| :: steps[k] != WriteCtx
    ensures Harmless(states[|steps|], cb, ctx, raised)
  {
    var m := |steps|;
    if m > 0 {
      HarmlessRun(states[..m], steps[..m - 1], cb, ctx, raised);
      HarmlessStep(states[m - 1], steps[m - 1], cb, ctx, raised);
    }
  }

  /** The two continuations that leave a callback running at the return. */
  lemma BusyReturn(s: State) returns (states: seq<State>, steps: seq<Step>)
    requires s.owner.Setting? && s.active == 0 && s.entered > 0 && !s.closing
    requires s.callback != 0 || s.owner.cb != 0
    ensures ToReturn(s, states, steps) && !NoneCallsBack(states[|steps|])
  {
    var n := |s.isrs|;
    var a := Do(s, SetIdle);
    if s.callback != 0 {
      var b := Do(a, Capture);
      var c := Do(b, WriteCallback);
      states, steps := [s, a, b, c, Do(c, WriteCtx)], [SetIdle, Capture, WriteCallback, WriteCtx];
    } else {
      var b := Do(a, WriteCallback);
      var c := Do(b, Capture);
      states, steps := [s, a, b, c, Do(c, WriteCtx)], [SetIdle, WriteCallback, Capture, WriteCtx];
    }
    assert states[4].isrs[n].CallsBack();
  }

  /** When the idle wait of set_callback returns, the call is sure to end with no user callback
      running, the replaced one in particular, exactly if no raised interrupt is still on its
      way or neither the old nor the new callback is set. */
  lemma ReplacedCallbackIsDoneIff(s: State, late: bool)
    requires Reachable(s, late) && s.owner.Setting? && s.active == 0
    ensures ReturnsIdle(s) <==> s.entered == 0 || (s.callback == 0 && s.owner.cb == 0)
  {
    ReachableInv(s, late);
    NoneBusy(s.isrs);
    if s.entered == 0 || (s.callback == 0 && s.owner.cb == 0) {
      forall states: seq<State>, steps: seq<Step> | ToReturn(s, states, steps)
        ensures NoneCallsBack(states[|steps|])
      {
        var m := |steps| - 1;
        HarmlessRun(states[..m + 1], steps[..m], s.owner.cb, s.owner.ctx, s.entered != 0);
        HarmlessStep(states[m], steps[m], s.owner.cb, s.owner.ctx, s.entered != 0);
      }
    } else {
      var states, steps := BusyReturn(s);
    }
  }

  // ---------------------------------------------------------------- a close that fails

  /** If the unit cannot be stopped, close leaves the handle open and running as it was. */
  lemma FailedStopUndone(states: seq<State>, steps: seq<Step>, late: bool)
    requires IsRun(states, steps) && states[0] == Init(late) && Enabled(states[|steps|], CloseHwStop(false))
    ensures var s, r := states[|steps|], Do(states[|steps|], CloseHwStop(false));
            r == s.(owner := Free, closing := false) && r.hw && r.started
  {
    InvRun(states, steps, late);
  }

  /** If it cannot be deleted, close leaves the handle open and stopped, and it can be started,
      given a callback or closed again. */
  lemma FailedDeleteReopens(states: seq<State>, steps: seq<Step>, late: bool)
    requires IsRun(states, steps) && states[0] == Init(late) && Enabled(states[|steps|], CloseDelete(false))
    ensures var s, r := states[|steps|], Do(states[|steps|], CloseDelete(false));
            && r == s.(owner := Free, closing := false) && !r.hw && !r.started
            && Enabled(r, BeginStart) && Enabled(r, BeginClose)
            && forall cb, ctx :: Enabled(r, BeginSet(cb, ctx))
  {
    InvRun(states, steps, late);
  }

  // ---------------------------------------------------------------- who is called

  ghost predicate Installed(s: State, cb: nat, ctx: nat) {
    s.callback == cb && s.userCtx == ctx && !s.owner.HalfSet?
  }

  lemma InstalledStep(s: State, step: Step, cb: nat, ctx: nat)
    requires Installed(s, cb, ctx) && Enabled(s, step) && step != WriteCallback
    ensures Installed(Do(s, step), cb, ctx)
  {
  }

  /** The pair of the last set_callback that returned, until another starts to write. */
  lemma {:induction false} LastSet(states: seq<State>, steps: seq<Step>, k: nat, cb: nat, ctx: nat, late: bool)
    requires IsRun(states, steps) && states[0] == Init(late)
    requires k < |steps| && steps[k] == WriteCtx && states[k].owner == HalfSet(cb, ctx)
    requires forall j | k < j < |steps| :: steps[j] != WriteCallback
    ensures Installed(states[|steps|], cb, ctx)
  {
    var m := |steps|;
    if k + 1 < m {
      LastSet(states[..m], steps[..m - 1], k, cb, ctx, late);
      InstalledStep(states[m - 1], steps[m - 1], cb, ctx);
    } else {
      InvRun(states[..m], steps[..m - 1], late);
    }
  }

  /** An interrupt that reaches its critical section calls back what the last set_callback
      installed, with its context, exactly if that callback is not null and the handle is not
      closing; either way it is counted. */
  lemma CaptureCallsLastSet(states: seq<State>, steps: seq<Step>, k: nat, cb: nat, ctx: nat, late: bool)
    requires IsRun(states, steps) && states[0] == Init(late)
    requires k < |steps| && steps[k] == WriteCtx && states[k].owner == HalfSet(cb, ctx)
    requires forall j | k < j < |steps| :: steps[j] != WriteCallback
    requires Enabled(states[|steps|], Capture)
    ensures var s, r := states[|steps|], Do(states[|steps|], Capture);
            && |r.isrs| == |s.isrs| + 1 && r.active == s.active + 1
            && (r.isrs[|s.isrs|].CallsBack() <==> cb != 0 && !s.closing)
            && (!s.closing ==> r.isrs[|s.isrs|] == Running(cb, ctx))
  {
    LastSet(states, steps, k, cb, ctx, late);
  }

  // ---------------------------------------------------------------- captured pairs

  /** On hardware that never lets a stop overtake a raised interrupt, every pair an interrupt
      captures was installed by one single set_callback call that had returned. */
  lemma CapturedPairWasInstalled(states: seq<State>, steps: seq<Step>, i: nat)
    requires IsRun(states, steps) && states[0] == Init(false)
    requires i < |states[|steps|].isrs| && states[|steps|].isrs[i].CallsBack()
    ensures var s := states[|steps|]; (s.isrs[i].cb, s.isrs[i].ctx) in s.installs
  {
    InvRun(states, steps, false);
  }

  /** On any hardware the pair about to be captured is an installed one exactly unless the
      interrupt falls between the two stores, and there unless it happens to be one. */
  lemma CaptureIsInstalledIff(s: State, late: bool)
    requires Reachable(s, late) && Enabled(s, Capture) && !s.closing && s.callback != 0
    ensures (s.callback, s.userCtx) in s.installs
            <==> !s.owner.HalfSet? || (s.owner.cb, s.userCtx) in s.installs
  {
    ReachableInv(s, late);
  }

  /** A set_callback call that cannot mix pairs, from what its caller knows: it clears the
      callback, keeps the context, or asks for a callback that an earlier call asked for with
      the present context. */
  predicate SafeCall(s: State, cb: nat, ctx: nat) {
    cb == 0 || ctx == s.userCtx || (cb, s.userCtx) in s.asked
  }

  ghost predicate SafeSteps(states: seq<State>, steps: seq<Step>)
    requires |states| == |steps| + 1
  {
    forall k | 0 <= k < |steps| && steps[k].BeginSet? :: SafeCall(states[k], steps[k].cb, steps[k].ctx)
  }

  ghost predicate PairsAsked(s: State) {
    forall i | 0 <= i < |s.isrs| :: s.isrs[i].CallsBack() ==> (s.isrs[i].cb, s.isrs[i].ctx) in s.asked
  }

  ghost predicate RuleKept(s: State) {
    && PairsAsked(s) && Recorded(s)
    && (Replacing(s) ==> SafeCall(s, s.owner.cb, s.owner.ctx))
  }

  lemma RuleStep(s: State, step: Step)
    requires RuleKept(s) && Enabled(s, step) && (step.BeginSet? ==> SafeCall(s, step.cb, step.ctx))
    ensures RuleKept(Do(s, step))
  {
    var r := Do(s, step);
    assert s.asked <= r.asked && s.installs <= r.installs;
  }

  lemma {:induction false} RuleRun(states: seq<State>, steps: seq<Step>, late: bool)
    requires IsRun(states, steps) && states[0] == Init(late) && SafeSteps(states, steps)
    ensures RuleKept(states[|steps|])
  {
    var m := |steps|;
    if m > 0 {
      RuleRun(states[..m], steps[..m - 1], late);
      RuleStep(states[m - 1], steps[m - 1]);
    }
  }

  /** If every call keeps the rule, then on any hardware every pair an interrupt captures was
      given to one single set_callback call. */
  lemma SafeCallsNeverMix(states: seq<State>, steps: seq<Step>, late: bool, i: nat)
    requires IsRun(states, steps) && states[0] == Init(late) && SafeSteps(states, steps)
    requires i < |states[|steps|].isrs| && states[|steps|].isrs[i].CallsBack()
    ensures var s := states[|steps|]; (s.isrs[i].cb, s.isrs[i].ctx) in s.asked
  {
    RuleRun(states, steps, late);
  }

  /** And a call that breaks the rule while an interrupt is still on its way can have the new
      callback run with the old context, a pair that no call was given. */
  lemma UnsafeCallCanMix(s: State, late: bool, cb: nat, ctx: nat) returns (r: State)
    requires Reachable(s, late) && Enabled(s, BeginSet(cb, ctx)) && !SafeCall(s, cb, ctx)
    requires s.entered > 0 && s.active == 0
    ensures Reachable(r, late) && r.isrs == s.isrs + [Running(cb, s.userCtx)]
    ensures r.isrs[|s.isrs|].CallsBack() && (cb, s.userCtx) !in r.asked
  {
    ReachableInv(s, late);
    r := Go(s, late, BeginSet(cb, ctx));
    r := Go(r, late, SetIdle);
    r := Go(r, late, WriteCallback);
    r := Go(r, late, Capture);
  }

  // ---------------------------------------------------------------- overtaken interrupts

  /** A quiet handle with one pair installed. */
  function Quiet(cb: nat, ctx: nat, entered: nat): State {
    State(true, Free, false, false, false, cb, ctx, entered, 0, [], {(0, 0), (cb, ctx)}, {(0, 0), (cb, ctx)})
  }

  lemma FirstInstall(cb: nat, ctx: nat)
    ensures Reachable(Quiet(cb, ctx, 0), true)
  {
    Start(true);
    var s := Init(true);
    s := Go(s, true, BeginSet(cb, ctx));
    s := Go(s, true, SetIdle);
    s := Go(s, true, WriteCallback);
    s := Go(s, true, WriteCtx);
    assert s == Quiet(cb, ctx, 0);
  }

  /** The unit was started, an interrupt was raised, and the stop overtook it. */
  lemma OvertakingStop(cb: nat, ctx: nat)
    ensures Reachable(Quiet(cb, ctx, 1), true)
  {
    FirstInstall(cb, ctx);
    var s := Quiet(cb, ctx, 0);
    s := Go(s, true, BeginStart);
    s := Go(s, true, HwStart(true));
    s := Go(s, true, MarkStarted);
    s := Go(s, true, Raise);
    s := Go(s, true, BeginStop);
    s := Go(s, true, HwStop(true));
    s := Go(s, true, MarkStopped);
    assert s == Quiet(cb, ctx, 1);
  }

  /** The idle wait has returned, and yet the callback runs on the stopped unit. */
  lemma StoppedUnitCallsBack(cb: nat, ctx: nat) returns (s: State)
    requires cb != 0
    ensures Reachable(s, true) && s.owner.Free? && !s.hw && !s.started && s.isrs == [Running(cb, ctx)]
  {
    OvertakingStop(cb, ctx);
    s := Go(Quiet(cb, ctx, 1), true, Capture);
  }

  /** set_callback has returned, and yet the callback it replaced is running. */
  lemma ReplacedCallbackStillRuns(cb0: nat, ctx0: nat, cb: nat, ctx: nat) returns (s: State)
    requires cb0 != 0
    ensures Reachable(s, true) && s.owner.Free? && s.callback == cb && s.userCtx == ctx
    ensures s.isrs == [Running(cb0, ctx0)]
  {
    OvertakingStop(cb0, ctx0);
    s := Go(Quiet(cb0, ctx0, 1), true, BeginSet(cb, ctx));
    s := Go(s, true, SetIdle);
    s := Go(s, true, Capture);
    s := Go(s, true, WriteCallback);
    s := Go(s, true, WriteCtx);
  }

  /** For any pair installed first, any second call that breaks the rule can mix the two. */
  lemma OvertakenInterruptMixesPairs(cb0: nat, ctx0: nat, cb: nat, ctx: nat) returns (s: State)
    requires !SafeCall(Quiet(cb0, ctx0, 1), cb, ctx)
    ensures Reachable(s, true) && s.isrs == [Running(cb, ctx0)] && (cb, ctx0) !in s.asked
  {
    OvertakingStop(cb0, ctx0);
    s := UnsafeCallCanMix(Quiet(cb0, ctx0, 1), true, cb, ctx);
  }

  /** The promises over all runs on hardware of a kind. */
  ghost predicate StopsDrain(late: bool) {
    forall s | Reachable(s, late) && !s.hw && s.active == 0 :: QuietUntilStart(s)
  }

  ghost predicate ReplacedAreDone(late: bool) {
    forall s | Reachable(s, late) && s.owner.Setting? && s.active == 0 :: ReturnsIdle(s)
  }

  ghost predicate PairsNeverMix(late: bool) {
    forall s | Reachable(s, late) :: PairsAsked(s)
  }

  lemma OvertakingBreaksStop()
    ensures !StopsDrain(true)
  {
    OvertakingStop(7, 8);
    StopDrainsIff(Quiet(7, 8, 1), true);
  }

  lemma OvertakingBreaksReplacing()
    ensures !ReplacedAreDone(true)
  {
    OvertakingStop(7, 8);
    var s := Go(Quiet(7, 8, 1), true, BeginSet(9, 10));
    ReplacedCallbackIsDoneIff(s, true);
  }

  lemma OvertakingMixes()
    ensures !PairsNeverMix(true)
  {
    var s := OvertakenInterruptMixesPairs(7, 8, 9, 10);
    assert s.isrs[0].CallsBack();
  }

  lemma PromptPromises()
    ensures StopsDrain(false) && ReplacedAreDone(false) && PairsNeverMix(false)
  {
    forall s | Reachable(s, false)
      ensures PairsAsked(s)
      ensures !s.hw && s.active == 0 ==> QuietUntilStart(s)
      ensures s.owner.Setting? && s.active == 0 ==> ReturnsIdle(s)
    {
      ReachableInv(s, false);
      if !s.hw && s.active == 0 {
        StopDrainsIff(s, false);
      }
      if s.owner.Setting? && s.active == 0 {
        ReplacedCallbackIsDoneIff(s, false);
      }
    }
  }

  /** Over all runs, the three promises hold exactly on hardware whose stop never overtakes a
      raised interrupt. */
  lemma PromisesHoldIffPrompt(late: bool)
    ensures StopsDrain(late) <==> !late
    ensures ReplacedAreDone(late) <==> !late
    ensures PairsNeverMix(late) <==> !late
  {
    if late {
      OvertakingBreaksStop();
      OvertakingBreaksReplacing();
      OvertakingMixes();
    } else {
      PromptPromises();
    }
  }
}
