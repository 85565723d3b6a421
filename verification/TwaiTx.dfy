/** The transmit handshake of the TWAI driver: writers register as the waiting task, hand a
    frame to the node and sleep on a task notification that the transmit interrupt gives
    after recording the outcome. Critical sections are single steps; the interrupt's
    notification is a step of its own, so notifications may arrive arbitrarily late. */
module TwaiTx {
  import opened Basics

  /** What the node's own functions report when they fail. */
  datatype Error = IoError | InternalError | TimeoutError | StateError | OtherError

  /** How a write ends: the outcome of its completion, no completion although woken, a time-out
      after which the node was reset, a check that refused it, or an error of the node. */
  datatype Result = Ok | Io | Internal | Timeout | Refused | Failed(error: Error)

  /** What happened to the waiting-task field, in order. A write is named by the length of
      the log once it has registered, and so is the frame it sends. */
  datatype Event =
    | Registered(task: nat, queued: seq<nat>)
    | TxDone(task: nat, success: bool, frame: nat)

  datatype Pc =
    | Idle
    | Locked
    | Drained
    | Waiting(since: nat)
    | Sent(since: nat)
    | Notified(since: nat)
    | Failing(error: Error)
    | TimedOut
    | Resetting
    | Leaving(res: Result, since: nat)

  datatype State = State(
    lock: Option<nat>,
    waiter: Option<nat>, ready: bool, success: bool,
    inFlight: seq<nat>,
    notes: seq<nat>, pending: seq<nat>,
    pcs: seq<Pc>,
    log: seq<Event>,
    outcomes: seq<Result>)

  /** Steps of a task inside blusys_twai_write, and of notifications reaching it. */
  datatype Act =
    | Lock | Refuse | Drain | Register | Transmit(err: Option<Error>) | ClearFailed
    | TakeNote | Expire | ClearExpired | Reset(err: Option<Error>, dropped: bool) | Read | Unlock
    | Give | Stray

  datatype Step = Task(t: nat, act: Act) | Capture(done: bool) | StopNode(lost: bool) | CloseClear

  function Init(n: nat): State {
    State(None, None, false, false, [], seq(n, _ => 0), seq(n, _ => 0), seq(n, _ => Idle), [], [])
  }

  predicate Enabled(s: State, step: Step) {
    match step
    case Task(t, act) => t < |s.pcs| == |s.notes| == |s.pending| && CanAct(s, t, act)
    case Capture(_) => s.inFlight != []
    case StopNode(_) => s.lock.None?
    case CloseClear => s.lock.None?
  }

  predicate CanAct(s: State, t: nat, act: Act)
    requires t < |s.pcs| == |s.notes| == |s.pending|
  {
    match act
    case Lock => s.pcs[t].Idle? && s.lock.None?
    case Refuse => s.pcs[t].Locked?
    case Drain => s.pcs[t].Locked?
    case Register => s.pcs[t].Drained?
    case Transmit(_) => s.pcs[t].Waiting?
    case ClearFailed => s.pcs[t].Failing?
    case TakeNote => s.pcs[t].Sent? && s.notes[t] > 0
    case Expire => s.pcs[t].Sent? && s.notes[t] == 0
    case ClearExpired => s.pcs[t].TimedOut?
    case Reset(_, _) => s.pcs[t].Resetting?
    case Read => s.pcs[t].Notified?
    case Unlock => s.pcs[t].Leaving?
    case Give => s.pending[t] > 0
    case Stray => true
  }

  function Goto(s: State, t: nat, pc: Pc): State
    requires t < |s.pcs|
  {
    s.(pcs := s.pcs[t := pc])
  }

  /** A write has its result and will give the lock back. */
  function Leave(s: State, t: nat, res: Result, since: nat): State
    requires t < |s.pcs|
  {
    Goto(s, t, Leaving(res, since)).(outcomes := s.outcomes + [res])
  }

  /** blusys_twai_clear_tx_wait. */
  function Cleared(s: State): State {
    s.(waiter := None, ready := false, success := false)
  }

  function Outcome(s: State): Result {
    if s.ready then (if s.success then Ok else Io) else Internal
  }

  function DoAct(s: State, t: nat, act: Act): State
    requires t < |s.pcs| == |s.notes| == |s.pending| && CanAct(s, t, act)
  {
    match act
    case Lock => Goto(s, t, Locked).(lock := Some(t))
    // Closing, or the node is not started.
    case Refuse => Leave(s, t, Refused, 0)
    // One round of the loop that empties the notification count.
    case Drain => if s.notes[t] > 0 then s.(notes := s.notes[t := 0]) else Goto(s, t, Drained)
    case Register =>
      Goto(s, t, Waiting(|s.log| + 1)).(waiter := Some(t), ready := false, success := false,
                                        log := s.log + [Registered(t, s.inFlight)])
    case Transmit(err) =>
      if err.Some? then Goto(s, t, Failing(err.value))
      else Goto(s, t, Sent(s.pcs[t].since)).(inFlight := s.inFlight + [s.pcs[t].since])
    case ClearFailed => Cleared(Leave(s, t, Failed(s.pcs[t].error), 0))
    case TakeNote => Goto(s, t, Notified(s.pcs[t].since)).(notes := s.notes[t := 0])
    case Expire => Goto(s, t, TimedOut)
    case ClearExpired => Cleared(Goto(s, t, Resetting))
    case Reset(err, dropped) =>
      Leave(s, t, if err.None? then Timeout else Failed(err.value), 0).(inFlight := if dropped then [] else s.inFlight)
    case Read => Leave(s, t, Outcome(s), s.pcs[t].since).(ready := false, success := false)
    case Unlock => Goto(s, t, Idle).(lock := None)
    case Give => s.(pending := s.pending[t := s.pending[t] - 1], notes := s.notes[t := s.notes[t] + 1])
    // A notification from elsewhere, such as another handle.
    case Stray => s.(notes := s.notes[t := s.notes[t] + 1])
  }

  function Do(s: State, step: Step): State
    requires Enabled(s, step)
  {
    match step
    case Task(t, act) => DoAct(s, t, act)
    // The interrupt's critical section, for the oldest frame in flight.
    case Capture(done) =>
      var r := s.(inFlight := s.inFlight[1..]);
      if s.waiter.None? then r
      else
        var w := s.waiter.value;
        r.(waiter := None, ready := true, success := done,
           pending := if w < |s.pending| then s.pending[w := s.pending[w] + 1] else s.pending,
           log := s.log + [TxDone(w, done, s.inFlight[0])])
    // Another task, holding the lock for one step, disables the node or closes the handle.
    case StopNode(lost) => s.(inFlight := if lost then [] else s.inFlight)
    case CloseClear => Cleared(s)
  }

  ghost predicate IsRun(states: seq<State>, steps: seq<Step>) {
    && |states| == |steps| + 1
    && forall k | 0 <= k < |steps| :: Enabled(states[k], steps[k]) && states[k + 1] == Do(states[k], steps[k])
  }

  // ---------------------------------------------------------------- the invariant

  /** Only the owner of the lock is inside a write. */
  ghost predicate Exclusive(s: State) {
    forall t | 0 <= t < |s.pcs| :: !s.pcs[t].Idle? <==> s.lock == Some(t)
  }

  /** Write `since` of task `t` is the latest to register. */
  ghost predicate Latest(s: State, t: nat, since: nat) {
    0 < since <= |s.log| && s.log[since - 1].Registered? && s.log[since - 1].task == t
  }

  /** The frame whose completion comes first after write `since` registers. */
  function FirstFrame(s: State, since: nat): nat
    requires 0 < since <= |s.log| && s.log[since - 1].Registered?
  {
    var queued := s.log[since - 1].queued;
    if queued == [] then since else queued[0]
  }

  /** Exactly one completion since write `since` registered, that of the first frame. */
  ghost predicate CompletedOnce(s: State, t: nat, since: nat, success: bool) {
    && Latest(s, t, since) && |s.log| == since + 1 && s.waiter.None?
    && s.log[since] == TxDone(t, success, FirstFrame(s, since))
  }

  /** No completion since write `since` registered. */
  ghost predicate Pending(s: State, t: nat, since: nat, mine: seq<nat>) {
    && Latest(s, t, since) && |s.log| == since && s.waiter == Some(t) && !s.ready
    && s.inFlight == s.log[since - 1].queued + mine
  }

  ghost predicate WriterInv(s: State, t: nat)
    requires t < |s.pcs|
  {
    match s.pcs[t]
    case Waiting(since) => Pending(s, t, since, []) || (s.ready && CompletedOnce(s, t, since, s.success))
    case Sent(since) => Pending(s, t, since, [since]) || (s.ready && CompletedOnce(s, t, since, s.success))
    case Notified(since) => Pending(s, t, since, [since]) || (s.ready && CompletedOnce(s, t, since, s.success))
    case Resetting => s.waiter.None?
    case Leaving(res, since) =>
      && s.outcomes != [] && s.outcomes[|s.outcomes| - 1] == res
      && (!res.Internal? && !res.Refused? ==> s.waiter.None?)
      && (res.Ok? ==> CompletedOnce(s, t, since, true))
      && (res.Io? ==> CompletedOnce(s, t, since, false))
      && (res.Internal? ==> Latest(s, t, since))
    case _ => true
  }

  ghost predicate AllBelow(frames: seq<nat>, bound: nat) {
    forall i | 0 <= i < |frames| :: frames[i] <= bound
  }

  /** Frames are named after writes that have already registered. */
  ghost predicate FramesOld(s: State) {
    && AllBelow(s.inFlight, |s.log|)
    && (forall k | 0 <= k < |s.log| :: s.log[k].Registered? ==> AllBelow(s.log[k].queued, k))
  }

  ghost predicate Sized(s: State) {
    |s.pcs| == |s.notes| == |s.pending|
  }

  ghost predicate AllWriters(s: State) {
    forall t | 0 <= t < |s.pcs| :: WriterInv(s, t)
  }

  ghost predicate Inv(s: State) {
    Sized(s) && Exclusive(s) && FramesOld(s) && AllWriters(s)
  }

  lemma FramesAct(s: State, t: nat, act: Act)
    requires Sized(s) && FramesOld(s) && t < |s.pcs| && WriterInv(s, t) && CanAct(s, t, act)
    ensures FramesOld(DoAct(s, t, act))
  {
    var r := DoAct(s, t, act);
    assert AllBelow(r.inFlight, |r.log|);
    if act.Register? {
      assert r.log[..|s.log|] == s.log;
    } else {
      assert r.log == s.log;
    }
  }

  lemma FramesStep(s: State, step: Step)
    requires Inv(s) && Enabled(s, step)
    ensures FramesOld(Do(s, step))
  {
    if step.Task? {
      FramesAct(s, step.t, step.act);
    }
  }

  lemma RegisterAct(s: State, t: nat)
    requires Sized(s) && t < |s.pcs| && CanAct(s, t, Register)
    ensures WriterInv(DoAct(s, t, Register), t)
  {
    var r := DoAct(s, t, Register);
    assert r.inFlight == s.inFlight + [];
    assert r.log[|s.log|] == Registered(t, s.inFlight);
  }

  lemma TransmitAct(s: State, t: nat, err: Option<Error>)
    requires Sized(s) && t < |s.pcs| && WriterInv(s, t) && CanAct(s, t, Transmit(err))
    ensures WriterInv(DoAct(s, t, Transmit(err)), t)
  {
    var since := s.pcs[t].since;
    if Pending(s, t, since, []) {
      assert s.inFlight == s.log[since - 1].queued;
    }
  }

  lemma ReadAct(s: State, t: nat)
    requires Sized(s) && t < |s.pcs| && WriterInv(s, t) && CanAct(s, t, Read)
    ensures WriterInv(DoAct(s, t, Read), t)
  {
  }

  /** A write's own steps keep its account. */
  lemma OwnAct(s: State, t: nat, act: Act)
    requires Sized(s) && t < |s.pcs| && WriterInv(s, t) && CanAct(s, t, act)
    ensures WriterInv(DoAct(s, t, act), t)
  {
    match act
    case Register => RegisterAct(s, t);
    case Transmit(err) => TransmitAct(s, t, err);
    case Read => ReadAct(s, t);
    case _ =>
  }

  lemma CaptureStep(s: State, done: bool, t: nat)
    requires Sized(s) && t < |s.pcs| && WriterInv(s, t) && s.inFlight != []
    ensures WriterInv(Do(s, Capture(done)), t)
  {
    var r := Do(s, Capture(done));
    if s.pcs[t].Waiting? || s.pcs[t].Sent? || s.pcs[t].Notified? {
      var since := s.pcs[t].since;
      if s.waiter.Some? {
        assert r.log[since - 1] == s.log[since - 1] && r.log[since] == TxDone(t, done, s.inFlight[0]);
      }
    }
  }

  /** While a write is going on other tasks only get notifications. */
  lemma OtherAct(s: State, t: nat, u: nat, act: Act)
    requires Sized(s) && Exclusive(s) && t < |s.pcs| && u < |s.pcs| && t != u && CanAct(s, u, act)
    requires WriterInv(s, t)
    ensures WriterInv(DoAct(s, u, act), t)
  {
    if s.lock != Some(t) {
      assert s.pcs[t].Idle? && DoAct(s, u, act).pcs[t].Idle?;
    } else {
      assert s.pcs[u].Idle?;
      assert act.Give? || act.Stray?;
    }
  }

  lemma AccountStep(s: State, step: Step, t: nat)
    requires Sized(s) && Exclusive(s) && Enabled(s, step) && t < |s.pcs| && WriterInv(s, t)
    ensures WriterInv(Do(s, step), t)
  {
    match step
    case Task(u, act) =>
      if u == t {
        OwnAct(s, t, act);
      } else {
        OtherAct(s, t, u, act);
      }
    case Capture(done) => CaptureStep(s, done, t);
    case _ => assert s.pcs[t].Idle? && Do(s, step).pcs[t].Idle?;
  }

  lemma AllWritersStep(s: State, step: Step)
    requires Sized(s) && Exclusive(s) && AllWriters(s) && Enabled(s, step)
    ensures AllWriters(Do(s, step))
  {
    forall t | 0 <= t < |s.pcs|
      ensures WriterInv(Do(s, step), t)
    {
      AccountStep(s, step, t);
    }
  }

  lemma ExclusiveAct(s: State, t: nat, act: Act)
    requires Sized(s) && Exclusive(s) && t < |s.pcs| && CanAct(s, t, act)
    ensures Exclusive(DoAct(s, t, act))
  {
    var r := DoAct(s, t, act);
    assert !s.pcs[t].Idle? <==> s.lock == Some(t);
    assert !r.pcs[t].Idle? <==> r.lock == Some(t);
    forall u | 0 <= u < |r.pcs|
      ensures !r.pcs[u].Idle? <==> r.lock == Some(u)
    {
      assert !s.pcs[u].Idle? <==> s.lock == Some(u);
    }
  }

  lemma ExclusiveStep(s: State, step: Step)
    requires Sized(s) && Exclusive(s) && Enabled(s, step)
    ensures Sized(Do(s, step)) && Exclusive(Do(s, step))
  {
    if step.Task? {
      ExclusiveAct(s, step.t, step.act);
    } else {
      assert Do(s, step).pcs == s.pcs && Do(s, step).lock == s.lock;
    }
  }

  lemma InvStep(s: State, step: Step)
    requires Inv(s) && Enabled(s, step)
    ensures Inv(Do(s, step))
  {
    FramesStep(s, step);
    ExclusiveStep(s, step);
    AllWritersStep(s, step);
  }

  lemma {:induction false} InvRun(states: seq<State>, steps: seq<Step>, n: nat)
    requires IsRun(states, steps) && states[0] == Init(n)
    ensures Inv(states[|steps|])
  {
    var m := |steps|;
    if m > 0 {
      InvRun(states[..m], steps[..m - 1], n);
      InvStep(states[m - 1], steps[m - 1]);
    }
  }

  // ---------------------------------------------------------------- what a result means

  /** In every interleaving, stale notifications included: a write reports success only if
      exactly one completion was delivered to it after it registered, a successful one, and
      that completion is of its own frame exactly when no frame was in flight at the time it
      registered. */
  lemma OkMeansDelivered(states: seq<State>, steps: seq<Step>, n: nat, t: nat)
    requires IsRun(states, steps) && states[0] == Init(n) && t < |states[|steps|].pcs|
    requires var pc := states[|steps|].pcs[t]; pc.Leaving? && pc.res.Ok?
    ensures var s, since := states[|steps|], states[|steps|].pcs[t].since;
            && 0 < since && |s.log| == since + 1
            && s.log[since - 1].Registered? && s.log[since - 1].task == t
            && s.log[since].TxDone? && s.log[since].task == t && s.log[since].success
            && (s.log[since].frame == since <==> s.log[since - 1].queued == [])
  {
    InvRun(states, steps, n);
    assert WriterInv(states[|steps|], t);
  }

  /** What a woken writer reports, both ways: success or failure as the one completion since
      it registered says, an internal error exactly when it was woken by a stale
      notification. */
  lemma ReportExact(states: seq<State>, steps: seq<Step>, n: nat, t: nat)
    requires IsRun(states, steps) && states[0] == Init(n) && Enabled(states[|steps|], Task(t, Read))
    ensures var s, since := states[|steps|], states[|steps|].pcs[t].since;
            var res := Do(s, Task(t, Read)).pcs[t].res;
            && 0 < since <= |s.log| <= since + 1
            && (res.Ok? <==>
                  |s.log| == since + 1 && s.log[since].TxDone? && s.log[since].task == t && s.log[since].success)
            && (res.Io? <==>
                  |s.log| == since + 1 && s.log[since].TxDone? && s.log[since].task == t && !s.log[since].success)
            && (res.Internal? <==> |s.log| == since)
  {
    InvRun(states, steps, n);
    assert WriterInv(states[|steps|], t);
  }

  /** A write that got past its checks and does not report an internal error leaves no task
      registered: a completion that comes later is for nobody. */
  lemma LeavesNoWaiter(states: seq<State>, steps: seq<Step>, n: nat, t: nat, done: bool)
    requires IsRun(states, steps) && states[0] == Init(n) && t < |states[|steps|].pcs|
    requires var pc := states[|steps|].pcs[t]; pc.Leaving? && !pc.res.Internal? && !pc.res.Refused?
    requires Enabled(states[|steps|], Capture(done))
    ensures var s, r := states[|steps|], Do(states[|steps|], Capture(done));
            s.waiter.None? && r.log == s.log && r.pending == s.pending && r.ready == s.ready
  {
    InvRun(states, steps, n);
    assert WriterInv(states[|steps|], t);
  }

  /** Writes exclude each other: two tasks are never inside one at the same time. */
  lemma OneWriter(states: seq<State>, steps: seq<Step>, n: nat, t: nat, u: nat)
    requires IsRun(states, steps) && states[0] == Init(n)
    requires t < |states[|steps|].pcs| && u < |states[|steps|].pcs|
    requires !states[|steps|].pcs[t].Idle? && !states[|steps|].pcs[u].Idle?
    ensures t == u
  {
    InvRun(states, steps, n);
  }

  // ---------------------------------------------------------------- judging by earlier results

  /** Results after which no frame of the write is left in flight. */
  predicate Conclusive(r: Result) {
    r.Ok? || r.Io? || r.Refused?
  }

  ghost predicate AllConclusive(outcomes: seq<Result>) {
    forall i | 0 <= i < |outcomes| :: Conclusive(outcomes[i])
  }

  /** What is in flight while every result so far is conclusive: nothing but the frame of the
      write under way. */
  ghost predicate FlightOf(s: State, t: nat)
    requires t < |s.pcs|
  {
    match s.pcs[t]
    case Locked => s.inFlight == []
    case Drained => s.inFlight == []
    case Waiting(since) => Latest(s, t, since) && s.log[since - 1].queued == [] && s.inFlight == [] && !s.ready
    case Sent(since) => Latest(s, t, since) && s.log[since - 1].queued == [] && (s.ready ==> s.inFlight == [])
    case Notified(since) => Latest(s, t, since) && s.log[since - 1].queued == [] && (s.ready ==> s.inFlight == [])
    case Leaving(res, since) =>
      && (Conclusive(res) ==> s.inFlight == [])
      && (res.Ok? ==> Latest(s, t, since) && s.log[since - 1].queued == [])
    case _ => true
  }

  ghost predicate Flight(s: State) {
    && (s.lock.None? ==> s.inFlight == [])
    && forall t | 0 <= t < |s.pcs| :: FlightOf(s, t)
  }

  lemma FlightRegister(s: State, t: nat)
    requires Sized(s) && t < |s.pcs| && CanAct(s, t, Register) && FlightOf(s, t)
    ensures FlightOf(DoAct(s, t, Register), t)
  {
    assert DoAct(s, t, Register).log[|s.log|] == Registered(t, s.inFlight);
  }

  /** Steps that end a write record its result. */
  lemma FlightLeave(s: State, t: nat, act: Act)
    requires Sized(s) && t < |s.pcs| && CanAct(s, t, act) && WriterInv(s, t) && FlightOf(s, t)
    requires act.Refuse? || act.ClearFailed? || act.Reset? || act.Read?
    requires AllConclusive(DoAct(s, t, act).outcomes)
    ensures FlightOf(DoAct(s, t, act), t)
  {
    assert Conclusive(DoAct(s, t, act).outcomes[|s.outcomes|]);
  }

  lemma FlightAct(s: State, t: nat, act: Act)
    requires Sized(s) && Exclusive(s) && t < |s.pcs| && CanAct(s, t, act)
    requires WriterInv(s, t) && FlightOf(s, t) && (s.lock.None? ==> s.inFlight == [])
    requires AllConclusive(DoAct(s, t, act).outcomes)
    ensures FlightOf(DoAct(s, t, act), t)
  {
    match act
    case Register => FlightRegister(s, t);
    case Refuse => FlightLeave(s, t, act);
    case ClearFailed => FlightLeave(s, t, act);
    case Reset(_, _) => FlightLeave(s, t, act);
    case Read => FlightLeave(s, t, act);
    case _ =>
  }

  lemma FlightCapture(s: State, done: bool, t: nat)
    requires Sized(s) && t < |s.pcs| && WriterInv(s, t) && FlightOf(s, t) && s.inFlight != []
    ensures FlightOf(Do(s, Capture(done)), t)
  {
    var r := Do(s, Capture(done));
    if s.pcs[t].Sent? || s.pcs[t].Notified? {
      var since := s.pcs[t].since;
      assert r.log[since - 1] == s.log[since - 1];
    }
  }

  lemma FlightUnlocked(s: State, t: nat, act: Act)
    requires Sized(s) && Exclusive(s) && t < |s.pcs| && CanAct(s, t, act)
    requires WriterInv(s, t) && FlightOf(s, t) && (s.lock.None? ==> s.inFlight == [])
    requires AllConclusive(s.outcomes)
    ensures DoAct(s, t, act).lock.None? ==> DoAct(s, t, act).inFlight == []
  {
    assert s.pcs[t].Idle? <==> s.lock != Some(t);
    if act.Unlock? {
      assert Conclusive(s.outcomes[|s.outcomes| - 1]);
    }
  }

  lemma FlightOthers(s: State, t: nat, u: nat, act: Act)
    requires Sized(s) && Exclusive(s) && t < |s.pcs| && u < |s.pcs| && t != u && CanAct(s, u, act)
    requires FlightOf(s, t)
    ensures FlightOf(DoAct(s, u, act), t)
  {
    if s.lock != Some(t) {
      assert s.pcs[t].Idle? && DoAct(s, u, act).pcs[t].Idle?;
    } else {
      assert s.pcs[u].Idle?;
      assert act.Give? || act.Stray?;
    }
  }

  lemma OutcomesGrow(s: State, step: Step)
    requires Enabled(s, step) && AllConclusive(Do(s, step).outcomes)
    ensures AllConclusive(s.outcomes)
  {
    forall i | 0 <= i < |s.outcomes|
      ensures Conclusive(s.outcomes[i])
    {
      assert Do(s, step).outcomes[i] == s.outcomes[i];
    }
  }

  lemma FlightOne(s: State, step: Step, t: nat)
    requires Sized(s) && Exclusive(s) && Enabled(s, step) && t < |s.pcs| && WriterInv(s, t) && FlightOf(s, t)
    requires (s.lock.None? ==> s.inFlight == []) && AllConclusive(Do(s, step).outcomes)
    ensures FlightOf(Do(s, step), t)
  {
    match step
    case Task(u, act) =>
      if u == t {
        FlightAct(s, t, act);
      } else {
        FlightOthers(s, t, u, act);
      }
    case Capture(done) => FlightCapture(s, done, t);
    case _ => assert s.pcs[t].Idle? && Do(s, step).pcs[t].Idle?;
  }

  lemma FlightLock(s: State, step: Step)
    requires Sized(s) && Exclusive(s) && AllWriters(s) && Flight(s) && Enabled(s, step) && AllConclusive(s.outcomes)
    ensures Do(s, step).lock.None? ==> Do(s, step).inFlight == []
  {
    if step.Task? {
      assert WriterInv(s, step.t) && FlightOf(s, step.t);
      FlightUnlocked(s, step.t, step.act);
    }
  }

  lemma FlightStep(s: State, step: Step)
    requires Inv(s) && Flight(s) && Enabled(s, step) && AllConclusive(Do(s, step).outcomes)
    ensures Flight(Do(s, step))
  {
    OutcomesGrow(s, step);
    FlightLock(s, step);
    forall t | 0 <= t < |s.pcs|
      ensures FlightOf(Do(s, step), t)
    {
      assert WriterInv(s, t) && FlightOf(s, t);
      FlightOne(s, step, t);
    }
  }

  lemma {:induction false} FlightRun(states: seq<State>, steps: seq<Step>, n: nat)
    requires IsRun(states, steps) && states[0] == Init(n) && AllConclusive(states[|steps|].outcomes)
    ensures Flight(states[|steps|])
  {
    var m := |steps|;
    if m > 0 {
      OutcomesGrow(states[m - 1], steps[m - 1]);
      FlightRun(states[..m], steps[..m - 1], n);
      InvRun(states[..m], steps[..m - 1], n);
      FlightStep(states[m - 1], steps[m - 1]);
    }
  }

  /** A write of task `t` has reported success on the completion of its own frame. */
  ghost predicate OwnSuccess(s: State, t: nat)
    requires t < |s.pcs| && s.pcs[t].Leaving?
  {
    var since := s.pcs[t].since;
    since < |s.log| && s.log[since].TxDone? && s.log[since].frame == since
  }

  /** On a handle whose writes so far all reported OK, IO or INVALID_STATE, a success is that
      of the write's own frame. */
  lemma ConclusiveResultsMeanOwnFrame(states: seq<State>, steps: seq<Step>, n: nat, t: nat)
    requires IsRun(states, steps) && states[0] == Init(n) && t < |states[|steps|].pcs|
    requires states[|steps|].pcs[t].Leaving? && states[|steps|].pcs[t].res.Ok?
    requires AllConclusive(states[|steps|].outcomes)
    ensures OwnSuccess(states[|steps|], t)
  {
    OkMeansDelivered(states, steps, n, t);
    FlightRun(states, steps, n);
    assert FlightOf(states[|steps|], t);
  }

  /** If the writes before this one reported only results in `allowed`, no success on any
      handle is another frame's. */
  ghost predicate NeverMisleads(allowed: set<Result>) {
    forall s, n: nat, t | Reachable(s, n) && 0 <= t < |s.pcs| && s.pcs[t].Leaving? && s.pcs[t].res.Ok?
                          && s.outcomes != []
                          && (forall i | 0 <= i < |s.outcomes| - 1 :: s.outcomes[i] in allowed) :: OwnSuccess(s, t)
  }

  // ---------------------------------------------------------------- a success for another frame

  ghost predicate Reachable(s: State, n: nat) {
    exists states: seq<State>, steps: seq<Step> :: IsRun(states, steps) && states[0] == Init(n) && states[|steps|] == s
  }

  lemma Start(n: nat)
    ensures Reachable(Init(n), n)
  {
    assert IsRun([Init(n)], []) && [Init(n)][0] == Init(n);
  }

  lemma Go(s: State, n: nat, step: Step) returns (r: State)
    requires Reachable(s, n) && Enabled(s, step)
    ensures r == Do(s, step) && Reachable(r, n)
  {
    var states: seq<State>, steps: seq<Step> :| IsRun(states, steps) && states[0] == Init(n) && states[|steps|] == s;
    r := Do(s, step);
    Extended(states, steps, step, r);
    var more, longer := states + [r], steps + [step];
    assert IsRun(more, longer) && more[0] == Init(n) && more[|longer|] == r;
  }

  lemma Extended(states: seq<State>, steps: seq<Step>, step: Step, r: State)
    requires IsRun(states, steps) && Enabled(states[|steps|], step) && r == Do(states[|steps|], step)
    ensures IsRun(states + [r], steps + [step])
  {
  }

  /** A quiet driver with one task. */
  function Quiet(waiter: Option<nat>, inFlight: seq<nat>, late: nat, log: seq<Event>, outcomes: seq<Result>): State {
    State(None, waiter, false, false, inFlight, [0], [late], [Idle], log, outcomes)
  }

  /** Takes the lock, finds no notification, registers and transmits. */
  lemma Send(waiter: Option<nat>, inFlight: seq<nat>, late: nat, log: seq<Event>, outcomes: seq<Result>)
    returns (r: State)
    requires Reachable(Quiet(waiter, inFlight, late, log, outcomes), 1)
    ensures Reachable(r, 1)
    ensures var since := |log| + 1;
            r == State(Some(0), Some(0), false, false, inFlight + [since], [0], [late], [Sent(since)],
                       log + [Registered(0, inFlight)], outcomes)
  {
    r := Quiet(waiter, inFlight, late, log, outcomes);
    r := Go(r, 1, Task(0, Lock));
    r := Go(r, 1, Task(0, Drain));
    r := Go(r, 1, Task(0, Register));
    r := Go(r, 1, Task(0, Transmit(None)));
  }

  /** The completion of the oldest frame in flight arrives and is taken for this write's. */
  lemma Completed(s: State, frame: nat, rest: seq<nat>) returns (r: State)
    requires Reachable(s, 1) && s.pcs == [Sent(|s.log|)] && s.waiter == Some(0) && !s.ready
    requires s.notes == [0] && s.pending == [0] && s.inFlight == [frame] + rest
    ensures Reachable(r, 1) && r.pcs == [Leaving(Ok, |s.log|)] && r.inFlight == rest
    ensures r.log == s.log + [TxDone(0, true, frame)] && r.outcomes == s.outcomes + [Ok]
  {
    r := Go(s, 1, Capture(true));
    r := Go(r, 1, Task(0, Give));
    r := Go(r, 1, Task(0, TakeNote));
    r := Go(r, 1, Task(0, Read));
  }

  lemma FirstSend() returns (s: State)
    ensures s == State(Some(0), Some(0), false, false, [1], [0], [0], [Sent(1)], [Registered(0, [])], [])
    ensures Reachable(s, 1)
  {
    Start(1);
    assert Init(1) == Quiet(None, [], 0, [], []);
    s := Send(None, [], 0, [], []);
    assert s.log == [Registered(0, [])] && s.inFlight == [1];
  }

  lemma WokenTooSoon() returns (s: State)
    ensures s == Quiet(Some(0), [1], 0, [Registered(0, [])], [Internal])
    ensures Reachable(s, 1)
  {
    s := FirstSend();
    s := Go(s, 1, Task(0, Stray));
    s := Go(s, 1, Task(0, TakeNote));
    s := Go(s, 1, Task(0, Read));
    assert s.outcomes == [Internal];
    s := Go(s, 1, Task(0, Unlock));
  }

  lemma TimedOutInFlight(err: Option<Error>) returns (s: State)
    ensures s == Quiet(None, [1], 0, [Registered(0, [])], [if err.None? then Timeout else Failed(err.value)])
    ensures Reachable(s, 1)
  {
    s := FirstSend();
    s := Go(s, 1, Task(0, Expire));
    s := Go(s, 1, Task(0, ClearExpired));
    s := Go(s, 1, Task(0, Reset(err, false)));
    assert s.outcomes == [if err.None? then Timeout else Failed(err.value)];
    s := Go(s, 1, Task(0, Unlock));
  }

  /** The first write on a handle ends without a conclusive result, its frame still in flight:
      woken by a notification from elsewhere, or timed out while the reset kept the queue. */
  lemma Inconclusive(res: Result) returns (s: State)
    requires !Conclusive(res)
    ensures s == Quiet(if res.Internal? then Some(0) else None, [1], 0, [Registered(0, [])], [res])
    ensures Reachable(s, 1)
  {
    if res.Internal? {
      s := WokenTooSoon();
    } else {
      s := TimedOutInFlight(if res.Timeout? then None else Some(res.error));
    }
  }

  /** After any result that is not conclusive, the very next write can report success on the
      completion of the frame before. */
  lemma SuccessOfEarlierFrame(res: Result) returns (s: State)
    requires !Conclusive(res)
    ensures Reachable(s, 1) && s.pcs == [Leaving(Ok, 2)] && s.outcomes == [res, Ok]
    ensures s.inFlight == [2] && |s.log| == 3 && s.log[2] == TxDone(0, true, 1)
  {
    s := Inconclusive(res);
    s := Send(s.waiter, [1], 0, s.log, [res]);
    assert s.inFlight == [1] + [2];
    s := Completed(s, 1, [2]);
  }

  /** By the results a caller has seen: no success is ever another frame's exactly if all
      earlier writes reported OK, IO or INVALID_STATE. */
  lemma NeverMisleadsIff(allowed: set<Result>)
    ensures NeverMisleads(allowed) <==> forall r | r in allowed :: Conclusive(r)
  {
    if forall r | r in allowed :: Conclusive(r) {
      forall s, n: nat, t | Reachable(s, n) && 0 <= t < |s.pcs| && s.pcs[t].Leaving? && s.pcs[t].res.Ok?
                            && s.outcomes != []
                            && (forall i | 0 <= i < |s.outcomes| - 1 :: s.outcomes[i] in allowed)
        ensures OwnSuccess(s, t)
      {
        LastOutcome(s, n, t);
        var states: seq<State>, steps: seq<Step> :|
          IsRun(states, steps) && states[0] == Init(n) && states[|steps|] == s;
        ConclusiveResultsMeanOwnFrame(states, steps, n, t);
      }
    } else {
      var r :| r in allowed && !Conclusive(r);
      var s := SuccessOfEarlierFrame(r);
      assert !OwnSuccess(s, 0);
    }
  }

  /** The last result recorded is that of the write leaving. */
  lemma LastOutcome(s: State, n: nat, t: nat)
    requires Reachable(s, n) && t < |s.pcs| && s.pcs[t].Leaving?
    ensures s.outcomes != [] && s.outcomes[|s.outcomes| - 1] == s.pcs[t].res
  {
    var states: seq<State>, steps: seq<Step> :| IsRun(states, steps) && states[0] == Init(n) && states[|steps|] == s;
    InvRun(states, steps, n);
    assert WriterInv(s, t);
  }

  // ---------------------------------------------------------------- judging by error codes

  /** The code a caller sees; errors of the node keep theirs. None is OK. */
  function CodeOf(r: Result): Option<Error> {
    match r
    case Ok => None
    case Io => Some(IoError)
    case Internal => Some(InternalError)
    case Timeout => Some(TimeoutError)
    case Refused => Some(StateError)
    case Failed(error) => Some(error)
  }

  /** If the writes before this one reported only codes in `codes`, no success on any handle is
      another frame's. */
  ghost predicate CodesNeverMislead(codes: set<Option<Error>>) {
    forall s, n: nat, t | Reachable(s, n) && 0 <= t < |s.pcs| && s.pcs[t].Leaving? && s.pcs[t].res.Ok?
                          && s.outcomes != []
                          && (forall i | 0 <= i < |s.outcomes| - 1 :: CodeOf(s.outcomes[i]) in codes) ::
      OwnSuccess(s, t)
  }

  /** By the code alone only an unbroken history of OK is safe: a failing reset may report any
      code of the node's, IO and INVALID_STATE included, and leave its frame queued. */
  lemma CodesNeverMisleadIff(codes: set<Option<Error>>)
    ensures CodesNeverMislead(codes) <==> codes <= {None}
  {
    if codes <= {None} {
      forall s, n: nat, t | Reachable(s, n) && 0 <= t < |s.pcs| && s.pcs[t].Leaving? && s.pcs[t].res.Ok?
                            && s.outcomes != []
                            && (forall i | 0 <= i < |s.outcomes| - 1 :: CodeOf(s.outcomes[i]) in codes)
        ensures OwnSuccess(s, t)
      {
        NeverMisleadsIff({Ok});
        assert forall i | 0 <= i < |s.outcomes| - 1 :: CodeOf(s.outcomes[i]) == None && s.outcomes[i] == Ok;
      }
    } else {
      var code :| code in codes && code != None;
      var s := SuccessOfEarlierFrame(Failed(code.value));
      assert s.outcomes[0] == Failed(code.value) && !OwnSuccess(s, 0);
    }
  }

  // ---------------------------------------------------------------- what the other results mean

  /** What has happened to a write, and where that leaves it until it gives the lock back. */
  datatype Stage = Unregistered | Queueing | NodeFailed(error: Error) | Expired | ResetDone(res: Result)

  predicate In(pc: Pc, stage: Stage) {
    match stage
    case Unregistered => pc.Locked? || pc.Drained? || (pc.Leaving? && pc.res.Refused?)
    case Queueing =>
      || pc.Waiting? || pc.Sent? || pc.Notified? || pc.Failing? || pc.TimedOut? || pc.Resetting?
      || (pc.Leaving? && !pc.res.Refused?)
    case NodeFailed(e) => pc == Failing(e) || (pc.Leaving? && pc.res == Failed(e))
    case Expired => pc.TimedOut? || pc.Resetting? || (pc.Leaving? && (pc.res.Timeout? || pc.res.Failed?))
    case ResetDone(res) => pc.Leaving? && pc.res == res
  }

  lemma OutcomeOf(s: State)
    ensures Outcome(s).Ok? || Outcome(s).Io? || Outcome(s).Internal?
  {
  }

  lemma StageAct(s: State, t: nat, act: Act, stage: Stage)
    requires t < |s.pcs| == |s.notes| == |s.pending| && CanAct(s, t, act) && In(s.pcs[t], stage) && !act.Unlock?
    requires stage.Unregistered? ==> !act.Register?
    ensures t < |DoAct(s, t, act).pcs| && In(DoAct(s, t, act).pcs[t], stage)
  {
    OutcomeOf(s);
  }

  lemma OwnPcOnly(s: State, u: nat, act: Act, t: nat)
    requires u < |s.pcs| == |s.notes| == |s.pending| && CanAct(s, u, act) && t < |s.pcs| && t != u
    ensures |DoAct(s, u, act).pcs| == |s.pcs| && DoAct(s, u, act).pcs[t] == s.pcs[t]
  {
    match act
    case Lock =>
    case Refuse =>
    case Drain =>
    case Register =>
    case Transmit(_) =>
    case ClearFailed =>
    case TakeNote =>
    case Expire =>
    case ClearExpired =>
    case Reset(_, _) =>
    case Read =>
    case Unlock =>
    case Give =>
    case Stray =>
  }

  lemma OwnNotesOnly(s: State, u: nat, act: Act, t: nat)
    requires u < |s.pcs| == |s.notes| == |s.pending| && CanAct(s, u, act) && t < |s.pcs| && t != u
    ensures |DoAct(s, u, act).notes| == |s.notes| && DoAct(s, u, act).notes[t] == s.notes[t]
  {
    match act
    case Lock =>
    case Refuse =>
    case Drain =>
    case Register =>
    case Transmit(_) =>
    case ClearFailed =>
    case TakeNote =>
    case Expire =>
    case ClearExpired =>
    case Reset(_, _) =>
    case Read =>
    case Unlock =>
    case Give =>
    case Stray =>
  }

  /** Only its own steps and notifications to it touch a task. */
  lemma OthersKeep(s: State, step: Step, t: nat)
    requires Enabled(s, step) && t < |s.pcs| && !(step.Task? && step.t == t)
    ensures t < |Do(s, step).pcs| && Do(s, step).pcs[t] == s.pcs[t]
    ensures |s.notes| == |s.pcs| ==> |Do(s, step).notes| == |Do(s, step).pcs| && Do(s, step).notes[t] == s.notes[t]
  {
    if step.Task? {
      OwnPcOnly(s, step.t, step.act, t);
      OwnNotesOnly(s, step.t, step.act, t);
    } else {
      assert Do(s, step).pcs == s.pcs && Do(s, step).notes == s.notes;
    }
  }

  lemma StageStep(s: State, step: Step, t: nat, stage: Stage)
    requires Enabled(s, step) && t < |s.pcs| && In(s.pcs[t], stage) && step != Task(t, Unlock)
    requires stage.Unregistered? ==> step != Task(t, Register)
    ensures t < |Do(s, step).pcs| && In(Do(s, step).pcs[t], stage)
  {
    if step.Task? && step.t == t {
      StageAct(s, t, step.act, stage);
    } else {
      OthersKeep(s, step, t);
    }
  }

  /** Up to the step that gives the lock back a write stays in its stage. */
  lemma {:induction false} StageRun(states: seq<State>, steps: seq<Step>, from: nat, t: nat, stage: Stage)
    requires IsRun(states, steps) && from <= |steps| && t < |states[from].pcs| && In(states[from].pcs[t], stage)
    requires forall j | from <= j < |steps| :: steps[j] != Task(t, Unlock)
    requires stage.Unregistered? ==> forall j | from <= j < |steps| :: steps[j] != Task(t, Register)
    ensures t < |states[|steps|].pcs| && In(states[|steps|].pcs[t], stage)
  {
    var m := |steps|;
    if from < m {
      StageRun(states[..m], steps[..m - 1], from, t, stage);
      StageStep(states[m - 1], steps[m - 1], t, stage);
    }
  }

  /** A write whose frame the node refuses ends with the node's error. */
  lemma RefusedFrameIsReported(states: seq<State>, steps: seq<Step>, k: nat, t: nat, e: Error)
    requires IsRun(states, steps) && k < |steps| && steps[k] == Task(t, Transmit(Some(e)))
    requires forall j | k < j < |steps| :: steps[j] != Task(t, Unlock)
    ensures t < |states[|steps|].pcs|
    ensures var pc := states[|steps|].pcs[t]; pc == Failing(e) || (pc.Leaving? && pc.res == Failed(e))
  {
    assert In(states[k + 1].pcs[t], NodeFailed(e));
    StageRun(states, steps, k + 1, t, NodeFailed(e));
  }

  /** A write whose wait runs out ends with a time-out if the node could be reset, and with the
      node's error if not. */
  lemma ExpiredWaitIsReported(states: seq<State>, steps: seq<Step>, k: nat, t: nat, err: Option<Error>, dropped: bool)
    requires IsRun(states, steps) && k < |steps| && steps[k] == Task(t, Reset(err, dropped))
    requires forall j | k < j < |steps| :: steps[j] != Task(t, Unlock)
    ensures t < |states[|steps|].pcs|
    ensures var pc := states[|steps|].pcs[t];
            pc.Leaving? && pc.res == if err.None? then Timeout else Failed(err.value)
  {
    var res := if err.None? then Timeout else Failed(err.value);
    assert In(states[k + 1].pcs[t], ResetDone(res));
    StageRun(states, steps, k + 1, t, ResetDone(res));
  }

  lemma ExpiredWaitNeverSucceeds(states: seq<State>, steps: seq<Step>, k: nat, t: nat)
    requires IsRun(states, steps) && k < |steps| && steps[k] == Task(t, Expire)
    requires forall j | k < j < |steps| :: steps[j] != Task(t, Unlock)
    ensures t < |states[|steps|].pcs|
    ensures var pc := states[|steps|].pcs[t]; pc.Leaving? ==> pc.res.Timeout? || pc.res.Failed?
  {
    assert In(states[k + 1].pcs[t], Expired);
    StageRun(states, steps, k + 1, t, Expired);
  }

  /** A write reports INVALID_STATE exactly if it never registered as the waiting task. */
  lemma RefusedIffUnregistered(states: seq<State>, steps: seq<Step>, k: nat, t: nat)
    requires IsRun(states, steps) && k < |steps| && steps[k] == Task(t, Lock)
    requires forall j | k < j < |steps| :: steps[j] != Task(t, Unlock)
    requires t < |states[|steps|].pcs| && states[|steps|].pcs[t].Leaving?
    ensures states[|steps|].pcs[t].res.Refused? <==> forall j | k < j < |steps| :: steps[j] != Task(t, Register)
  {
    if forall j | k < j < |steps| :: steps[j] != Task(t, Register) {
      assert In(states[k + 1].pcs[t], Unregistered);
      StageRun(states, steps, k + 1, t, Unregistered);
    } else {
      var j :| k < j < |steps| && steps[j] == Task(t, Register);
      assert In(states[j + 1].pcs[t], Queueing);
      StageRun(states, steps, j + 1, t, Queueing);
    }
  }

  // ---------------------------------------------------------------- what draining is for

  /** A write that has drained its notifications and got none since. */
  predicate Unnotified(pc: Pc) {
    || pc.Drained? || pc.Waiting? || pc.Sent? || pc.Failing? || pc.TimedOut? || pc.Resetting?
    || (pc.Leaving? && (pc.res.Timeout? || pc.res.Failed?))
  }

  lemma UnnotifiedAct(s: State, t: nat, act: Act)
    requires t < |s.pcs| == |s.notes| == |s.pending| && CanAct(s, t, act) && Unnotified(s.pcs[t]) && s.notes[t] == 0
    requires !act.Give? && !act.Stray? && !act.Unlock?
    ensures var r := DoAct(s, t, act);
            t < |r.pcs| == |r.notes| && Unnotified(r.pcs[t]) && r.notes[t] == 0
  {
  }

  lemma UnnotifiedStep(s: State, step: Step, t: nat)
    requires Enabled(s, step) && t < |s.pcs| == |s.notes| && Unnotified(s.pcs[t]) && s.notes[t] == 0
    requires step != Task(t, Give) && step != Task(t, Stray) && step != Task(t, Unlock)
    ensures t < |Do(s, step).pcs| == |Do(s, step).notes|
    ensures Unnotified(Do(s, step).pcs[t]) && Do(s, step).notes[t] == 0
  {
    if step.Task? && step.t == t {
      UnnotifiedAct(s, t, step.act);
    } else {
      OthersKeep(s, step, t);
    }
  }

  lemma {:induction false} UnnotifiedRun(states: seq<State>, steps: seq<Step>, k: nat, t: nat)
    requires IsRun(states, steps) && k < |steps| && steps[k] == Task(t, Drain)
    requires t < |states[k + 1].pcs| && states[k + 1].pcs[t].Drained?
    requires forall j | k < j < |steps| ::
               steps[j] != Task(t, Give) && steps[j] != Task(t, Stray) && steps[j] != Task(t, Unlock)
    ensures t < |states[|steps|].pcs| == |states[|steps|].notes|
    ensures Unnotified(states[|steps|].pcs[t]) && states[|steps|].notes[t] == 0
  {
    var m := |steps|;
    if k + 1 < m {
      UnnotifiedRun(states[..m], steps[..m - 1], k, t);
      UnnotifiedStep(states[m - 1], steps[m - 1], t);
    }
  }

  /** Whatever notifications were left over, a write answers only to those given after it drained
      them: without one it reports neither success nor failure nor an internal error. */
  lemma OnlyLaterNotifications(states: seq<State>, steps: seq<Step>, k: nat, t: nat)
    requires IsRun(states, steps) && k < |steps| && steps[k] == Task(t, Drain)
    requires t < |states[k + 1].pcs| && states[k + 1].pcs[t].Drained?
    requires forall j | k < j < |steps| :: steps[j] != Task(t, Unlock)
    requires t < |states[|steps|].pcs| && states[|steps|].pcs[t].Leaving?
    requires var res := states[|steps|].pcs[t].res; res.Ok? || res.Io? || res.Internal?
    ensures exists j :: k < j < |steps| && (steps[j] == Task(t, Give) || steps[j] == Task(t, Stray))
  {
    if forall j | k < j < |steps| :: steps[j] != Task(t, Give) && steps[j] != Task(t, Stray) {
      UnnotifiedRun(states, steps, k, t);
    }
  }

  /** From the moment close or a clean end of a write forgets the waiting task until another write
      registers, completions are for nobody. */
  lemma {:induction false} ClosedForNobody(states: seq<State>, steps: seq<Step>, k: nat)
    requires IsRun(states, steps) && k < |steps| && steps[k] == CloseClear
    requires forall j | k < j < |steps| && steps[j].Task? :: !steps[j].act.Register?
    ensures states[|steps|].waiter.None? && states[|steps|].log == states[k].log
  {
    var m := |steps|;
    if k + 1 < m {
      ClosedForNobody(states[..m], steps[..m - 1], k);
      NobodyWaits(states[m - 1], steps[m - 1]);
    }
  }

  lemma NobodyWaits(s: State, step: Step)
    requires Enabled(s, step) && s.waiter.None? && (step.Task? ==> !step.act.Register?)
    ensures Do(s, step).waiter.None? && Do(s, step).log == s.log
  {
  }
}
