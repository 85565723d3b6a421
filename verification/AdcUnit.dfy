/** The lazily created, reference-counted ADC unit: any number of clients open and close
    channels, each critical section of the driver is one step, and creating the unit may
    fail or race with another client's creation. */
module AdcUnit {
  import opened Basics

  type Unit = nat

  /** A bit position of the 32-bit channel mask. */
  type Channel = c: int | 0 <= c < 32

  /** Where a client stands inside open or close. `own` is a unit only this client knows. */
  datatype Client =
    | Idle
    | Reserved(ch: Channel)
    | CreateFailed(ch: Channel)
    | Created(ch: Channel, own: Unit)
    | Surplus(ch: Channel, handle: Unit, own: Unit)
    | Holding(ch: Channel, handle: Unit)
    | Deleting(own: Unit)
  {
    predicate HasChannel() {
      !Idle? && !Deleting?
    }

    /** Counted in the reference count. */
    predicate Holds() {
      Surplus? || Holding?
    }

    predicate Owns() {
      Created? || Surplus? || Deleting?
    }
  }

  /** The driver's globals, the units that exist, and the clients. */
  datatype State = State(handle: Option<Unit>, refCount: nat, mask: set<Channel>, live: set<Unit>, clients: seq<Client>)

  datatype Step =
    | Enter(i: nat, ch: Channel)
    | NewUnit(i: nat, made: Option<Unit>)
    | GiveUp(i: nat)
    | Publish(i: nat)
    | DropSpare(i: nat)
    | Release(i: nat)
    | DeleteUnit(i: nat)

  function Init(n: nat): State {
    State(None, 0, {}, {}, seq(n, _ => Idle))
  }

  /** A new unit is never one that still exists; an address may come back after deletion. */
  predicate Enabled(s: State, step: Step) {
    && step.i < |s.clients|
    && var c := s.clients[step.i];
       match step
       case Enter(_, _) => c.Idle?
       case NewUnit(_, made) => c.Reserved? && (made.Some? ==> made.value !in s.live)
       case GiveUp(_) => c.CreateFailed?
       case Publish(_) => c.Created?
       case DropSpare(_) => c.Surplus?
       case Release(_) => c.Holding?
       case DeleteUnit(_) => c.Deleting?
  }

  function Do(s: State, step: Step): State
    requires Enabled(s, step)
  {
    var i := step.i;
    var c := s.clients[i];
    match step
    case Enter(_, ch) =>
      // Busy channel: open fails and nothing changes.
      if ch in s.mask then s
      else if s.handle.Some? then
        s.(mask := s.mask + {ch}, refCount := s.refCount + 1, clients := s.clients[i := Holding(ch, s.handle.value)])
      else
        s.(mask := s.mask + {ch}, clients := s.clients[i := Reserved(ch)])
    case NewUnit(_, made) =>
      if made.Some? then
        s.(live := s.live + {made.value}, clients := s.clients[i := Created(c.ch, made.value)])
      else
        s.(clients := s.clients[i := CreateFailed(c.ch)])
    case GiveUp(_) =>
      s.(mask := s.mask - {c.ch}, clients := s.clients[i := Idle])
    case Publish(_) =>
      if s.handle.None? then
        s.(handle := Some(c.own), refCount := 1, clients := s.clients[i := Holding(c.ch, c.own)])
      else
        s.(refCount := s.refCount + 1, clients := s.clients[i := Surplus(c.ch, s.handle.value, c.own)])
    case DropSpare(_) =>
      s.(live := s.live - {c.own}, clients := s.clients[i := Holding(c.ch, c.handle)])
    case Release(_) =>
      var r := s.(mask := s.mask - {c.ch}, clients := s.clients[i := Idle]);
      if s.refCount == 0 then r
      else if s.refCount > 1 then r.(refCount := s.refCount - 1)
      else if s.handle.None? then r.(refCount := 0)
      else r.(refCount := 0, handle := None, clients := s.clients[i := Deleting(s.handle.value)])
    case DeleteUnit(_) =>
      s.(live := s.live - {c.own}, clients := s.clients[i := Idle])
  }

  /** The states an interleaving passes through, the first one included. */
  ghost predicate IsRun(states: seq<State>, steps: seq<Step>) {
    && |states| == |steps| + 1
    && forall k | 0 <= k < |steps| :: Enabled(states[k], steps[k]) && states[k + 1] == Do(states[k], steps[k])
  }

  // ---------------------------------------------------------------- the invariant

  function Holders(clients: seq<Client>): nat {
    if clients == [] then 0
    else Holders(clients[..|clients| - 1]) + if clients[|clients| - 1].Holds() then 1 else 0
  }

  ghost predicate ChannelsApart(clients: seq<Client>) {
    forall i, j | 0 <= i < j < |clients| ::
      clients[i].HasChannel() && clients[j].HasChannel() ==> clients[i].ch != clients[j].ch
  }

  ghost predicate MaskExact(s: State) {
    && (forall i | 0 <= i < |s.clients| :: s.clients[i].HasChannel() ==> s.clients[i].ch in s.mask)
    && (forall ch | ch in s.mask :: SomeoneHas(s.clients, ch))
  }

  ghost predicate SomeoneHas(clients: seq<Client>, ch: Channel) {
    exists i :: 0 <= i < |clients| && clients[i].HasChannel() && clients[i].ch == ch
  }

  ghost predicate SomeoneOwns(clients: seq<Client>, u: Unit) {
    exists i :: 0 <= i < |clients| && clients[i].Owns() && clients[i].own == u
  }

  /** Every holder works on the shared unit. */
  ghost predicate HandlesShared(s: State) {
    forall i | 0 <= i < |s.clients| :: s.clients[i].Holds() ==> s.handle == Some(s.clients[i].handle)
  }

  /** The units in existence are the shared one and those still private to one client. */
  ghost predicate UnitsAccounted(s: State) {
    && (s.handle.Some? ==> s.handle.value in s.live)
    && (forall i | 0 <= i < |s.clients| ::
          s.clients[i].Owns() ==> s.clients[i].own in s.live && s.handle != Some(s.clients[i].own))
    && (forall i, j | 0 <= i < j < |s.clients| ::
          s.clients[i].Owns() && s.clients[j].Owns() ==> s.clients[i].own != s.clients[j].own)
    && (forall u | u in s.live :: s.handle == Some(u) || SomeoneOwns(s.clients, u))
  }

  ghost predicate Inv(s: State) {
    && s.refCount == Holders(s.clients)
    && (s.handle.Some? <==> s.refCount > 0)
    && ChannelsApart(s.clients)
    && MaskExact(s)
    && HandlesShared(s)
    && UnitsAccounted(s)
  }

  lemma {:induction false} HoldersUpdate(clients: seq<Client>, i: nat, c: Client)
    requires i < |clients|
    ensures Holders(clients[i := c]) + (if clients[i].Holds() then 1 else 0)
            == Holders(clients) + if c.Holds() then 1 else 0
  {
    var n := |clients| - 1;
    if i < n {
      assert clients[i := c][..n] == clients[..n][i := c];
      HoldersUpdate(clients[..n], i, c);
    } else {
      assert clients[i := c][..n] == clients[..n];
    }
  }

  lemma {:induction false} NoHolder(clients: seq<Client>)
    ensures Holders(clients) == 0 <==> forall i | 0 <= i < |clients| :: !clients[i].Holds()
  {
    if clients != [] {
      NoHolder(clients[..|clients| - 1]);
    }
  }

  lemma MaskCoveredStep(s: State, step: Step, ch: Channel)
    requires ChannelsApart(s.clients) && MaskExact(s) && Enabled(s, step) && ch in Do(s, step).mask
    ensures SomeoneHas(Do(s, step).clients, ch)
  {
    var t := Do(s, step);
    if !(t.clients[step.i].HasChannel() && t.clients[step.i].ch == ch) {
      var j :| 0 <= j < |s.clients| && s.clients[j].HasChannel() && s.clients[j].ch == ch;
      assert t.clients[j].HasChannel() && t.clients[j].ch == ch;
    }
  }

  lemma MaskStep(s: State, step: Step)
    requires ChannelsApart(s.clients) && MaskExact(s) && Enabled(s, step)
    ensures MaskExact(Do(s, step))
  {
    forall ch | ch in Do(s, step).mask
      ensures SomeoneHas(Do(s, step).clients, ch)
    {
      MaskCoveredStep(s, step, ch);
    }
  }

  lemma UnitsCoveredStep(s: State, step: Step, u: Unit)
    requires UnitsAccounted(s) && Enabled(s, step)
    requires u in Do(s, step).live
    ensures Do(s, step).handle == Some(u) || SomeoneOwns(Do(s, step).clients, u)
  {
    var t := Do(s, step);
    var mine := t.clients[step.i].Owns() && t.clients[step.i].own == u;
    if !(t.handle == Some(u) || mine) && s.handle != Some(u) {
      var j :| 0 <= j < |s.clients| && s.clients[j].Owns() && s.clients[j].own == u;
      assert t.clients[j].Owns() && t.clients[j].own == u;
    }
  }

  lemma UnitsApartStep(s: State, step: Step)
    requires Inv(s) && Enabled(s, step)
    ensures var t := Do(s, step);
            && (t.handle.Some? ==> t.handle.value in t.live)
            && (forall j | 0 <= j < |t.clients| ::
                  t.clients[j].Owns() ==> t.clients[j].own in t.live && t.handle != Some(t.clients[j].own))
  {
  }

  lemma UnitsStep(s: State, step: Step)
    requires Inv(s) && Enabled(s, step)
    ensures UnitsAccounted(Do(s, step))
  {
    UnitsApartStep(s, step);
    forall u | u in Do(s, step).live
      ensures Do(s, step).handle == Some(u) || SomeoneOwns(Do(s, step).clients, u)
    {
      UnitsCoveredStep(s, step, u);
    }
  }

  lemma ChannelsStep(s: State, step: Step)
    requires ChannelsApart(s.clients) && MaskExact(s) && Enabled(s, step)
    ensures ChannelsApart(Do(s, step).clients)
  {
  }

  lemma CountStep(s: State, step: Step)
    requires Inv(s) && Enabled(s, step)
    ensures var t := Do(s, step);
            && t.refCount == Holders(t.clients) && (t.handle.Some? <==> t.refCount > 0)
            && HandlesShared(t)
  {
    var t := Do(s, step);
    NoHolder(s.clients);
    NoHolder(t.clients);
    if t.clients != s.clients {
      HoldersUpdate(s.clients, step.i, t.clients[step.i]);
    }
    assert t.clients == s.clients[step.i := t.clients[step.i]];
  }

  lemma InvStep(s: State, step: Step)
    requires Inv(s) && Enabled(s, step)
    ensures Inv(Do(s, step))
  {
    MaskStep(s, step);
    UnitsStep(s, step);
    ChannelsStep(s, step);
    CountStep(s, step);
  }

  lemma {:induction false} InvRun(states: seq<State>, steps: seq<Step>, n: nat)
    requires IsRun(states, steps) && states[0] == Init(n)
    ensures Inv(states[|steps|])
  {
    var m := |steps|;
    if m == 0 {
      NoHolder(Init(n).clients);
    } else {
      InvRun(states[..m], steps[..m - 1], n);
      InvStep(states[m - 1], steps[m - 1]);
    }
  }

  // ---------------------------------------------------------------- what it gives

  /** In every interleaving of any number of clients: the count is the number of holders,
      the handle is set exactly while there are any, every holder's handle is the shared
      unit and that unit exists, and no two holders share a channel. */
  lemma HoldersAreSafe(states: seq<State>, steps: seq<Step>, n: nat)
    requires IsRun(states, steps) && states[0] == Init(n)
    ensures var s := states[|steps|];
            && s.refCount == Holders(s.clients) && (s.handle.Some? <==> s.refCount > 0)
            && (forall i | 0 <= i < |s.clients| :: s.clients[i].Holds() ==>
                  s.handle == Some(s.clients[i].handle) && s.clients[i].handle in s.live)
            && (forall i, j | 0 <= i < j < |s.clients| :: s.clients[i].Holds() && s.clients[j].Holds() ==>
                  s.clients[i].ch != s.clients[j].ch)
  {
    InvRun(states, steps, n);
  }

  /** When every client is done nothing is left behind: no unit, mask bit or reference. */
  lemma NothingLeft(states: seq<State>, steps: seq<Step>, n: nat)
    requires IsRun(states, steps) && states[0] == Init(n)
    requires forall i | 0 <= i < |states[|steps|].clients| :: states[|steps|].clients[i].Idle?
    ensures states[|steps|] == Init(n)
  {
    InvRun(states, steps, n);
    ClientsConstant(states, steps);
    var s := states[|steps|];
    NoHolder(s.clients);
    assert s.mask == {} && s.live == {};
    assert s.clients == Init(n).clients;
  }

  lemma {:induction false} ClientsConstant(states: seq<State>, steps: seq<Step>)
    requires IsRun(states, steps)
    ensures |states[|steps|].clients| == |states[0].clients|
  {
    var m := |steps|;
    if m > 0 {
      ClientsConstant(states[..m], steps[..m - 1]);
    }
  }

  /** Open reports a busy channel exactly when another client has it. */
  lemma BusyIffTaken(states: seq<State>, steps: seq<Step>, n: nat, i: nat, ch: Channel)
    requires IsRun(states, steps) && states[0] == Init(n) && Enabled(states[|steps|], Enter(i, ch))
    ensures var s := states[|steps|];
            Do(s, Enter(i, ch)) == s <==>
            exists j :: 0 <= j < |s.clients| && j != i && s.clients[j].HasChannel() && s.clients[j].ch == ch
  {
    InvRun(states, steps, n);
    var s := states[|steps|];
    assert Do(s, Enter(i, ch)).clients[i] == s.clients[i] ==> ch in s.mask;
    if ch in s.mask {
      assert SomeoneHas(s.clients, ch);
    }
  }

  /** From the end of a successful open until its own release a client keeps one unit: it
      stays the shared one and is not deleted, whatever the other clients do. */
  lemma {:induction false} HeldUnitStays(states: seq<State>, steps: seq<Step>, n: nat, from: nat, i: nat)
    requires IsRun(states, steps) && states[0] == Init(n) && from <= |steps|
    requires i < |states[from].clients| && states[from].clients[i].Holding?
    requires forall k | from <= k < |steps| :: steps[k] != Release(i)
    ensures var s := states[|steps|];
            && i < |s.clients| && s.clients[i] == states[from].clients[i]
            && s.handle == Some(s.clients[i].handle) && s.clients[i].handle in s.live
  {
    var m := |steps|;
    InvRun(states, steps, n);
    if from < m {
      HeldUnitStays(states[..m], steps[..m - 1], n, from, i);
    }
  }

  // ---------------------------------------------------------------- open succeeds

  /** A client that has got past the busy check, other than by failing to create a unit. */
  predicate Opening(c: Client, ch: Channel) {
    (c.Reserved? || c.Created? || c.Surplus? || c.Holding?) && c.ch == ch
  }

  lemma OpeningStep(s: State, step: Step, i: nat, ch: Channel)
    requires Enabled(s, step) && i < |s.clients| && Opening(s.clients[i], ch)
    requires step != NewUnit(i, None) && step != Release(i)
    ensures Opening(Do(s, step).clients[i], ch)
    ensures s.clients[i].Holds() || step == Publish(i) ==> Do(s, step).clients[i].Holds()
  {
  }

  lemma OpeningStarts(s: State, i: nat, ch: Channel)
    requires Enabled(s, Enter(i, ch)) && Do(s, Enter(i, ch)) != s
    ensures var t := Do(s, Enter(i, ch));
            Opening(t.clients[i], ch) && (s.handle.Some? ==> t.clients[i].Holds())
  {
  }

  ghost predicate Published(steps: seq<Step>, from: nat, i: nat) {
    exists k | from < k < |steps| :: steps[k] == Publish(i)
  }

  lemma {:induction false} OpeningRun(states: seq<State>, steps: seq<Step>, from: nat, i: nat, ch: Channel)
    requires IsRun(states, steps) && from < |steps| && steps[from] == Enter(i, ch) && states[from + 1] != states[from]
    requires forall k | from < k < |steps| :: steps[k] != NewUnit(i, None) && steps[k] != Release(i)
    ensures i < |states[|steps|].clients| && Opening(states[|steps|].clients[i], ch)
    ensures states[from].handle.Some? || Published(steps, from, i) ==> states[|steps|].clients[i].Holds()
  {
    var m := |steps|;
    OpeningStarts(states[from], i, ch);
    if from + 1 < m {
      OpeningRun(states[..m], steps[..m - 1], from, i, ch);
      OpeningStep(states[m - 1], steps[m - 1], i, ch);
      assert Published(steps, from, i) && steps[m - 1] != Publish(i) ==> Published(steps[..m - 1], from, i);
    }
  }

  /** An open that is not refused is under way or has succeeded, in every interleaving, until
      this client's own unit creation fails or it releases; and from the step in which it finds
      or publishes a unit it holds the shared, live one. */
  lemma OpenSucceeds(states: seq<State>, steps: seq<Step>, n: nat, from: nat, i: nat, ch: Channel)
    requires IsRun(states, steps) && states[0] == Init(n) && from < |steps|
    requires steps[from] == Enter(i, ch) && states[from + 1] != states[from]
    requires forall k | from < k < |steps| :: steps[k] != NewUnit(i, None) && steps[k] != Release(i)
    ensures var s := states[|steps|]; i < |s.clients| && Opening(s.clients[i], ch)
    ensures states[from].handle.Some? || (exists k | from < k < |steps| :: steps[k] == Publish(i)) ==>
              var s := states[|steps|];
              s.clients[i].Holds() && s.handle == Some(s.clients[i].handle) && s.clients[i].handle in s.live
  {
    OpeningRun(states, steps, from, i, ch);
    HoldersAreSafe(states, steps, n);
  }

  /** One step after the other, from `s` to `t`. */
  ghost predicate Leads(s: State, steps: seq<Step>, t: State)
    decreases |steps|
  {
    if steps == [] then s == t
    else Enabled(s, steps[0]) && Leads(Do(s, steps[0]), steps[1..], t)
  }

  lemma LeadsBy(s: State, step: Step, rest: seq<Step>, t: State)
    requires Enabled(s, step) && Leads(Do(s, step), rest, t)
    ensures Leads(s, [step] + rest, t)
  {
    assert ([step] + rest)[0] == step && ([step] + rest)[1..] == rest;
  }

  /** With a unit in use, open takes a reference to it and close gives it back. */
  lemma SharedOpenAndClose(s: State, i: nat, ch: Channel)
    requires Inv(s) && Enabled(s, Enter(i, ch)) && ch !in s.mask && s.handle.Some?
    ensures var held := s.(mask := s.mask + {ch}, refCount := s.refCount + 1,
                           clients := s.clients[i := Holding(ch, s.handle.value)]);
            Leads(s, [Enter(i, ch)], held) && Leads(held, [Release(i)], s)
  {
    var held := Do(s, Enter(i, ch));
    assert held.mask - {ch} == s.mask;
    assert held.clients[i := Idle] == s.clients;
    LeadsBy(s, Enter(i, ch), [], held);
    LeadsBy(held, Release(i), [], s);
  }

  /** With none in use, open creates one and close, being the last, deletes it. */
  lemma FirstOpenAndLastClose(s: State, i: nat, ch: Channel, u: Unit)
    requires Inv(s) && Enabled(s, Enter(i, ch)) && ch !in s.mask && s.handle.None? && u !in s.live
    ensures var held := s.(handle := Some(u), mask := s.mask + {ch}, refCount := 1, live := s.live + {u},
                           clients := s.clients[i := Holding(ch, u)]);
            && Leads(s, [Enter(i, ch), NewUnit(i, Some(u)), Publish(i)], held)
            && Leads(held, [Release(i), DeleteUnit(i)], s)
  {
    var a := Do(s, Enter(i, ch));
    var b := Do(a, NewUnit(i, Some(u)));
    var held := Do(b, Publish(i));
    assert held.clients == s.clients[i := Holding(ch, u)];
    LeadsBy(b, Publish(i), [], held);
    LeadsBy(a, NewUnit(i, Some(u)), [Publish(i)], held);
    LeadsBy(s, Enter(i, ch), [NewUnit(i, Some(u)), Publish(i)], held);
    var d := Do(held, Release(i));
    var e := Do(d, DeleteUnit(i));
    assert e.live == s.live && e.mask == s.mask && e.clients == s.clients;
    LeadsBy(d, DeleteUnit(i), [], e);
    LeadsBy(held, Release(i), [DeleteUnit(i)], e);
  }

  /** If the unit cannot be created, open leaves everything as it was. */
  lemma FailedOpenUndone(s: State, i: nat, ch: Channel)
    requires Inv(s) && Enabled(s, Enter(i, ch)) && ch !in s.mask && s.handle.None?
    ensures Leads(s, [Enter(i, ch), NewUnit(i, None), GiveUp(i)], s)
  {
    var a := Do(s, Enter(i, ch));
    var b := Do(a, NewUnit(i, None));
    var c := Do(b, GiveUp(i));
    assert c.mask == s.mask && c.clients == s.clients;
    LeadsBy(b, GiveUp(i), [], c);
    LeadsBy(a, NewUnit(i, None), [GiveUp(i)], c);
    LeadsBy(s, Enter(i, ch), [NewUnit(i, None), GiveUp(i)], c);
  }

  /** A client that lost the race to publish ends with the winner's unit and deletes its own. */
  lemma LostRace(states: seq<State>, steps: seq<Step>, n: nat, i: nat)
    requires IsRun(states, steps) && states[0] == Init(n)
    requires Enabled(states[|steps|], Publish(i)) && states[|steps|].handle.Some?
    ensures var s := states[|steps|];
            var t := Do(s, Publish(i));
            && Enabled(t, DropSpare(i))
            && Do(t, DropSpare(i)).clients[i] == Holding(s.clients[i].ch, s.handle.value)
            && Do(t, DropSpare(i)).live == s.live - {s.clients[i].own}
            && Do(t, DropSpare(i)).handle == s.handle && s.handle.value in Do(t, DropSpare(i)).live
  {
    InvRun(states, steps, n);
  }

  // ---------------------------------------------------------------- the counter's width

  function Channels(clients: seq<Client>): set<Channel> {
    if clients == [] then {}
    else
      var c := clients[|clients| - 1];
      Channels(clients[..|clients| - 1]) + if c.HasChannel() then {c.ch} else {}
  }

  lemma {:induction false} HoldersWithinChannels(clients: seq<Client>)
    requires ChannelsApart(clients)
    ensures Holders(clients) <= |Channels(clients)|
    ensures forall ch | ch in Channels(clients) :: SomeoneHas(clients, ch)
  {
    if clients != [] {
      var n := |clients| - 1;
      HoldersWithinChannels(clients[..n]);
      var rest := Channels(clients[..n]);
      forall ch | ch in Channels(clients)
        ensures SomeoneHas(clients, ch)
      {
        if ch in rest {
          var i :| 0 <= i < n && clients[..n][i].HasChannel() && clients[..n][i].ch == ch;
          assert clients[i].HasChannel() && clients[i].ch == ch;
        } else {
          assert clients[n].HasChannel() && clients[n].ch == ch;
        }
      }
      assert clients[n].HasChannel() ==> !SomeoneHas(clients[..n], clients[n].ch);
    }
  }

  lemma {:induction false} SetOfChannels(a: set<Channel>, n: nat)
    requires forall ch | ch in a :: ch < n
    ensures |a| <= n
  {
    if n == 0 {
      assert a == {};
    } else if n - 1 < 32 && (n - 1) as Channel in a {
      SetOfChannels(a - {(n - 1) as Channel}, n - 1);
    } else {
      SetOfChannels(a, n - 1);
    }
  }

  /** The unsigned counter cannot wrap: there are at most 32 references. */
  lemma RefCountBounded(states: seq<State>, steps: seq<Step>, n: nat)
    requires IsRun(states, steps) && states[0] == Init(n)
    ensures states[|steps|].refCount <= 32
  {
    InvRun(states, steps, n);
    var s := states[|steps|];
    HoldersWithinChannels(s.clients);
    SetOfChannels(Channels(s.clients), 32);
  }
}
