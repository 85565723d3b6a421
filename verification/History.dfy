/** What the observability state says about everything logged since it was cleared, and what
    a snapshot restored later brings back. */
module History {
  import opened Observe
  import opened Words

  datatype Event = Line(level: nat, domain: int, text: string) | Bump(domain: int, amount: nat) | SetMin(level: nat)

  function Apply(s: State, e: Event): (r: State)
    requires s.Shaped()
    ensures r.Shaped()
  {
    match e
    case Line(level, domain, text) => Logged(s, level, domain, text)
    case Bump(domain, amount) => Bumped(s, domain, amount)
    case SetMin(level) => s.(min := level)
  }

  function Play(s: State, events: seq<Event>): (r: State)
    requires s.Shaped()
    ensures r.Shaped()
  {
    if events == [] then s else Apply(Play(s, events[..|events| - 1]), events[|events| - 1])
  }

  function After(events: seq<Event>): (r: State)
    ensures r.Shaped()
  {
    Play(Cleared(INFO), events)
  }

  // ---------------------------------------------------------------- the full history

  datatype Record = Record(level: nat, domain: nat, text: string)

  function Threshold(events: seq<Event>): nat {
    if events == [] then INFO
    else
      var e := events[|events| - 1];
      if e.SetMin? then e.level else Threshold(events[..|events| - 1])
  }

  /** The lines that pass the severity gate in a known domain. */
  function Lines(events: seq<Event>): seq<Record> {
    if events == [] then []
    else
      var e, rest := events[|events| - 1], events[..|events| - 1];
      Lines(rest) + if e.Line? && e.level <= Threshold(rest) && IsDomain(e.domain)
                    then [Record(e.level, e.domain, e.text)] else []
  }

  function DirectBumps(events: seq<Event>): nat {
    if events == [] then 0
    else
      var e := events[|events| - 1];
      DirectBumps(events[..|events| - 1]) + if e.Bump? && IsDomain(e.domain) then e.amount else 0
  }

  function Kept(n: nat): nat {
    if n < DEPTH then n else DEPTH
  }

  /** Record `k` as the ring keeps it; records are numbered from 1. */
  function EntryOf(lines: seq<Record>, k: nat): Entry
    requires k < |lines|
  {
    Entry((k + 1) % 0x1_0000_0000, lines[k].level, lines[k].domain, Clip(lines[k].text))
  }

  function ErrorOf(lines: seq<Record>, k: nat): LastError
    requires k < |lines|
  {
    LastError((k + 1) % 0x1_0000_0000, lines[k].level, lines[k].domain, true, Clip(lines[k].text))
  }

  /** The newest entries, oldest first. */
  function Recent(lines: seq<Record>): seq<Entry> {
    var n := |lines|;
    seq(Kept(n), i requires 0 <= i < Kept(n) => EntryOf(lines, n - Kept(n) + i))
  }

  ghost predicate RingHolds(ring: seq<Entry>, lines: seq<Record>) {
    var n := |lines|;
    && |ring| == DEPTH
    && (forall k | n - Kept(n) <= k < n :: ring[k % 32] == EntryOf(lines, k))
    && (forall j | n <= j < DEPTH :: ring[j] == BlankEntry)
  }

  predicate IsError(r: Record, d: nat) {
    r.level == ERROR && r.domain == d
  }

  /** The slot of domain `d` holds its most recent error, however long ago that was. */
  ghost predicate ErrorHolds(last: LastError, lines: seq<Record>, d: nat) {
    && (forall k | 0 <= k < |lines| ::
          IsError(lines[k], d) && (forall m | k < m < |lines| :: !IsError(lines[m], d)) ==> last == ErrorOf(lines, k))
    && ((forall k | 0 <= k < |lines| :: !IsError(lines[k], d)) ==> last == NoError)
  }

  function Sum(values: seq<nat>): nat {
    if values == [] then 0 else Sum(values[..|values| - 1]) + values[|values| - 1]
  }

  ghost predicate Tracks(s: State, lines: seq<Record>) {
    && s.Shaped()
    && s.sequence == |lines| % 0x1_0000_0000
    && s.count == Kept(|lines|)
    && RingHolds(s.ring, lines)
    && forall d | 0 <= d < DOMAINS :: ErrorHolds(s.lastErrors[d], lines, d)
  }

  // ---------------------------------------------------------------- one more line

  lemma SlotOfNext(n: nat)
    ensures Slot((n + 1) % 0x1_0000_0000) == n % 32
  {
    WordMod32(n);
    NextWord(n);
  }

  lemma RingStep(ring: seq<Entry>, lines: seq<Record>, r: Record)
    requires RingHolds(ring, lines)
    ensures RingHolds(ring[|lines| % 32 := EntryOf(lines + [r], |lines|)], lines + [r])
  {
    var n := |lines|;
    forall k | n + 1 - Kept(n + 1) <= k < n
      ensures k % 32 != n % 32 && EntryOf(lines + [r], k) == EntryOf(lines, k)
    {
      SlotsApart(k, n);
    }
  }

  lemma ErrorStep(last: LastError, lines: seq<Record>, r: Record, d: nat)
    requires ErrorHolds(last, lines, d)
    ensures ErrorHolds(if IsError(r, d) then ErrorOf(lines + [r], |lines|) else last, lines + [r], d)
  {
    var more, n := lines + [r], |lines|;
    assert more[n] == r;
    if IsError(r, d) {
      NewestError(more, d);
    } else {
      OlderError(last, lines, r, d);
    }
  }

  lemma NewestError(lines: seq<Record>, d: nat)
    requires lines != [] && IsError(lines[|lines| - 1], d)
    ensures ErrorHolds(ErrorOf(lines, |lines| - 1), lines, d)
  {
    var n := |lines| - 1;
    forall k | 0 <= k < |lines| && IsError(lines[k], d) && forall m | k < m < |lines| :: !IsError(lines[m], d)
      ensures k == n
    {
    }
  }

  lemma OlderError(last: LastError, lines: seq<Record>, r: Record, d: nat)
    requires ErrorHolds(last, lines, d) && !IsError(r, d)
    ensures ErrorHolds(last, lines + [r], d)
  {
    var more := lines + [r];
    assert forall m | 0 <= m < |lines| :: more[m] == lines[m];
    forall k | 0 <= k < |more| && IsError(more[k], d) && forall m | k < m < |more| :: !IsError(more[m], d)
      ensures last == ErrorOf(more, k)
    {
      assert k < |lines| && IsError(lines[k], d) && ErrorOf(more, k) == ErrorOf(lines, k);
      assert forall m | k < m < |lines| :: !IsError(lines[m], d) by {
        assert forall m | k < m < |lines| :: more[m] == lines[m];
      }
    }
    if forall k | 0 <= k < |more| :: !IsError(more[k], d) {
      assert forall k | 0 <= k < |lines| :: lines[k] == more[k];
    }
  }

  /** What a recorded line changes, in terms of the history. */
  lemma RecordedParts(s: State, lines: seq<Record>, r: Record)
    requires s.Shaped() && s.sequence == |lines| % 0x1_0000_0000 && IsDomain(r.domain)
    ensures var t, more, n := Recorded(s, r.level, r.domain, r.text), lines + [r], |lines|;
            && t.sequence == (n + 1) % 0x1_0000_0000
            && t.ring == s.ring[n % 32 := EntryOf(more, n)]
            && t.lastErrors ==
               (if IsError(r, r.domain) then s.lastErrors[r.domain := ErrorOf(more, n)] else s.lastErrors)
  {
    NextWord(|lines|);
    SlotOfNext(|lines|);
    assert (lines + [r])[|lines|] == r;
  }

  lemma ErrorsStep(errors: seq<LastError>, lines: seq<Record>, r: Record)
    requires |errors| == DOMAINS && IsDomain(r.domain)
    requires forall d | 0 <= d < DOMAINS :: ErrorHolds(errors[d], lines, d)
    ensures var now := if IsError(r, r.domain) then errors[r.domain := ErrorOf(lines + [r], |lines|)] else errors;
            forall d | 0 <= d < DOMAINS :: ErrorHolds(now[d], lines + [r], d)
  {
    forall d | 0 <= d < DOMAINS
      ensures ErrorHolds(if IsError(r, d) then ErrorOf(lines + [r], |lines|) else errors[d], lines + [r], d)
    {
      ErrorStep(errors[d], lines, r, d);
    }
  }

  lemma RecordStep(s: State, lines: seq<Record>, r: Record)
    requires Tracks(s, lines) && IsDomain(r.domain)
    ensures Tracks(Recorded(s, r.level, r.domain, r.text), lines + [r])
  {
    RecordedParts(s, lines, r);
    RingStep(s.ring, lines, r);
    ErrorsStep(s.lastErrors, lines, r);
  }

  lemma EventStep(s: State, lines: seq<Record>, e: Event)
    requires Tracks(s, lines)
    ensures var logged := e.Line? && e.level <= s.min && IsDomain(e.domain);
            Tracks(Apply(s, e), if logged then lines + [Record(e.level, e.domain, e.text)] else lines)
  {
    if e.Line? && e.level <= s.min && IsDomain(e.domain) {
      RecordStep(Bumped(s, e.domain, 1), lines, Record(e.level, e.domain, e.text));
    }
  }

  lemma NothingLogged()
    ensures Tracks(Cleared(INFO), [])
  {
  }

  lemma LinesStep(events: seq<Event>)
    requires events != []
    ensures var e, rest := events[|events| - 1], events[..|events| - 1];
            && After(events) == Apply(After(rest), e)
            && Lines(events) == if e.Line? && e.level <= Threshold(rest) && IsDomain(e.domain)
                                then Lines(rest) + [Record(e.level, e.domain, e.text)] else Lines(rest)
  {
    assert Lines(events[..|events| - 1]) + [] == Lines(events[..|events| - 1]);
  }

  lemma {:induction false} TracksRun(events: seq<Event>)
    ensures Tracks(After(events), Lines(events))
    ensures After(events).min == Threshold(events)
  {
    if events == [] {
      NothingLogged();
    } else {
      var e, rest := events[|events| - 1], events[..|events| - 1];
      TracksRun(rest);
      EventStep(After(rest), Lines(rest), e);
      LinesStep(events);
    }
  }

  lemma {:induction false} ThresholdHolds(events: seq<Event>)
    ensures After(events).min == Threshold(events)
  {
    TracksRun(events);
  }

  // ---------------------------------------------------------------- the snapshot

  lemma SnapshotEntry(s: State, lines: seq<Record>, i: nat)
    requires Tracks(s, lines) && i < Kept(|lines|)
    requires var n := |lines|; n < WORD || n % 0x1_0000_0000 == 0 || n % 0x1_0000_0000 >= 32
    ensures Taken(s).logs[i] == EntryOf(lines, |lines| - Kept(|lines|) + i)
  {
    var n := |lines|;
    if n >= 32 {
      OldestSlot(n, i);
    }
    assert (OldestFirst(s) + i) % 32 == (n - Kept(n) + i) % 32;
    assert s.ring[(n - Kept(n) + i) % 32] == EntryOf(lines, n - Kept(n) + i);
  }

  lemma SnapshotInOrder(s: State, lines: seq<Record>)
    requires Tracks(s, lines)
    requires var n := |lines|; n < WORD || n % 0x1_0000_0000 == 0 || n % 0x1_0000_0000 >= 32
    ensures Taken(s).logs[..Kept(|lines|)] == Recent(lines)
  {
    forall i | 0 <= i < Kept(|lines|)
      ensures Taken(s).logs[i] == Recent(lines)[i]
    {
      SnapshotEntry(s, lines, i);
    }
  }

  /** When the sequence number has just wrapped the copy starts at the ring's first slot,
      which holds the record numbered 1, not the oldest. */
  lemma SnapshotRotated(s: State, lines: seq<Record>)
    requires Tracks(s, lines)
    requires var n := |lines|; n >= WORD && 0 < n % 0x1_0000_0000 < 32
    ensures Taken(s).logs[0] != Recent(lines)[0]
  {
    var n := |lines|;
    var k := n - n % 0x1_0000_0000;
    WrapSlot(n, k);
    FirstOfWindow(n);
    assert s.ring[k % 32] == EntryOf(lines, k);
    assert OldestFirst(s) == 0;
  }

  /** From clear, whatever was logged: the snapshot's entries are the last 32 recorded ones,
      oldest first and numbered consecutively, exactly as long as the 32-bit sequence number
      has not just wrapped (it has wrapped, and 1 to 31 records followed). */
  lemma SnapshotIsRecent(events: seq<Event>)
    ensures var n, out := |Lines(events)|, Taken(After(events));
            && out.logCount == Kept(n)
            && (forall i | Kept(n) <= i < DEPTH :: out.logs[i] == BlankEntry)
            && (out.logs[..Kept(n)] == Recent(Lines(events))
                <==> n < WORD || n % 0x1_0000_0000 == 0 || n % 0x1_0000_0000 >= 32)
  {
    TracksRun(events);
    var s, lines := After(events), Lines(events);
    var n := |lines|;
    if n < WORD || n % 0x1_0000_0000 == 0 || n % 0x1_0000_0000 >= 32 {
      SnapshotInOrder(s, lines);
    } else {
      SnapshotRotated(s, lines);
      assert Taken(s).logs[..Kept(n)][0] == Taken(s).logs[0];
    }
  }

  /** Each domain's last error is its most recent error in the full history, also after the
      entry itself has left the ring. */
  lemma LastErrorIsLatest(events: seq<Event>, d: nat, k: nat)
    requires d < DOMAINS && k < |Lines(events)| && IsError(Lines(events)[k], d)
    requires forall m | k < m < |Lines(events)| :: !IsError(Lines(events)[m], d)
    ensures Taken(After(events)).lastErrors[d] == ErrorOf(Lines(events), k)
  {
    TracksRun(events);
    assert ErrorHolds(After(events).lastErrors[d], Lines(events), d);
  }

  /** Histories of every length exist, so both halves of the conditions above and below have
      runs: the wrap is met after 2^32 lines. */
  lemma {:induction false} HistoryOfLength(n: nat) returns (events: seq<Event>)
    ensures |Lines(events)| == n && Threshold(events) == INFO
  {
    if n == 0 {
      events := [];
    } else {
      var rest := HistoryOfLength(n - 1);
      events := rest + [Line(ERROR, 0, "")];
      assert events[..|events| - 1] == rest;
    }
  }

  /** Some history makes the order of a snapshot, and another the restore of one, go wrong. */
  lemma WrapIsMet()
    ensures exists events :: Taken(After(events)).logs[..Kept(|Lines(events)|)] != Recent(Lines(events))
    ensures exists events :: Storable(Taken(After(events)))
                             && Restored(Cleared(INFO), Taken(After(events))) != After(events).(min := INFO)
  {
    var events := HistoryOfLength(WORD + 1);
    SnapshotIsRecent(events);
    RestoreExact(events, Cleared(INFO));
  }

  // ---------------------------------------------------------------- counters

  lemma {:induction false} SumUpdate(values: seq<nat>, i: nat, v: nat)
    requires i < |values|
    ensures Sum(values[i := v]) == Sum(values) - values[i] + v
  {
    var n := |values| - 1;
    if i < n {
      assert values[i := v][..n] == values[..n][i := v];
      SumUpdate(values[..n], i, v);
    } else {
      assert values[i := v][..n] == values[..n];
    }
  }

  lemma {:induction false} SumZeros(n: nat)
    ensures Sum(seq(n, _ => 0)) == 0
  {
    if n > 0 {
      assert seq(n, _ => 0)[..n - 1] == seq(n - 1, _ => 0);
      SumZeros(n - 1);
    }
  }

  lemma BumpStep(s: State, domain: int, amount: nat, total: nat)
    requires s.Shaped() && IsDomain(domain) && Sum(s.counters) % 0x1_0000_0000 == total % 0x1_0000_0000
    ensures Sum(Bumped(s, domain, amount).counters) % 0x1_0000_0000 == (total + amount) % 0x1_0000_0000
  {
    var c := s.counters[domain];
    SumUpdate(s.counters, domain, 0);
    SumUpdate(s.counters, domain, (c + amount) % 0x1_0000_0000);
    WrappedSum(Sum(s.counters), total, c, amount);
  }

  /** The counters add up, modulo 2^32, to the lines recorded and the direct bumps; without
      direct bumps they add up to the sequence number. */
  lemma {:induction false} CountersAddUp(events: seq<Event>)
    ensures Sum(After(events).counters) % 0x1_0000_0000 == (|Lines(events)| + DirectBumps(events)) % 0x1_0000_0000
    ensures DirectBumps(events) == 0 ==> Sum(After(events).counters) % 0x1_0000_0000 == After(events).sequence
  {
    TracksRun(events);
    if events == [] {
      SumZeros(DOMAINS);
    } else {
      var e, rest := events[|events| - 1], events[..|events| - 1];
      CountersAddUp(rest);
      ThresholdHolds(rest);
      var total := |Lines(rest)| + DirectBumps(rest);
      if e.Line? && e.level <= Threshold(rest) && IsDomain(e.domain) {
        BumpStep(After(rest), e.domain, 1, total);
      } else if e.Bump? && IsDomain(e.domain) {
        BumpStep(After(rest), e.domain, e.amount, total);
      }
    }
  }

  /** How many lines of the history are of domain `d`. */
  function Tally(lines: seq<Record>, d: nat): nat {
    if lines == [] then 0
    else Tally(lines[..|lines| - 1], d) + if lines[|lines| - 1].domain == d then 1 else 0
  }

  /** The direct bumps of domain `d`. */
  function BumpsOf(events: seq<Event>, d: nat): nat {
    if events == [] then 0
    else
      var e := events[|events| - 1];
      BumpsOf(events[..|events| - 1], d) + if e.Bump? && e.domain == d then e.amount else 0
  }

  lemma TallyStep(lines: seq<Record>, r: Record, d: nat)
    ensures Tally(lines + [r], d) == Tally(lines, d) + if r.domain == d then 1 else 0
  {
    assert (lines + [r])[..|lines|] == lines;
  }

  lemma WrappedAdd(value: nat, total: nat, amount: nat)
    requires value == total % 0x1_0000_0000
    ensures (value + amount) % 0x1_0000_0000 == (total + amount) % 0x1_0000_0000
  {
    assert total == 0x1_0000_0000 * (total / 0x1_0000_0000) + value;
    var q := (value + amount) / 0x1_0000_0000;
    assert total + amount
           == 0x1_0000_0000 * (total / 0x1_0000_0000 + q) + (value + amount) % 0x1_0000_0000;
  }

  /** What one event adds to the counter of domain `d`. */
  function Adds(e: Event, min: nat, d: nat): nat {
    if e.Line? && e.level <= min && e.domain == d then 1
    else if e.Bump? && e.domain == d then e.amount else 0
  }

  lemma CounterStep(s: State, e: Event, d: nat, total: nat)
    requires s.Shaped() && d < DOMAINS && s.counters[d] == total % 0x1_0000_0000
    ensures Apply(s, e).counters[d] == (total + Adds(e, s.min, d)) % 0x1_0000_0000
  {
    match e
    case Line(level, domain, text) => WrappedAdd(s.counters[d], total, 1);
    case Bump(domain, amount) => WrappedAdd(s.counters[d], total, amount);
    case SetMin(_) =>
  }

  lemma TotalStep(events: seq<Event>, d: nat)
    requires events != [] && d < DOMAINS
    ensures var e, rest := events[|events| - 1], events[..|events| - 1];
            Tally(Lines(events), d) + BumpsOf(events, d)
            == Tally(Lines(rest), d) + BumpsOf(rest, d) + Adds(e, Threshold(rest), d)
  {
    var e, rest := events[|events| - 1], events[..|events| - 1];
    LinesStep(events);
    if e.Line? {
      TallyStep(Lines(rest), Record(e.level, if IsDomain(e.domain) then e.domain else 0, e.text), d);
    }
  }

  lemma {:induction false} CounterTotal(events: seq<Event>, d: nat)
    requires d < DOMAINS
    ensures After(events).counters[d] == (Tally(Lines(events), d) + BumpsOf(events, d)) % 0x1_0000_0000
  {
    if events != [] {
      var e, rest := events[|events| - 1], events[..|events| - 1];
      CounterTotal(rest, d);
      ThresholdHolds(rest);
      TotalStep(events, d);
      CounterStep(After(rest), e, d, Tally(Lines(rest), d) + BumpsOf(rest, d));
    }
  }

  /** Each domain's counter is the number of its own accepted lines and its own direct bumps,
      modulo 2^32, whatever happened in other domains. */
  lemma CounterCountsOwn(events: seq<Event>, d: nat)
    requires d < 14
    ensures Taken(After(events)).counters[d] == (Tally(Lines(events), d) + BumpsOf(events, d)) % 0x1_0000_0000
  {
    CounterTotal(events, d);
  }

  // ---------------------------------------------------------------- in plain terms

  /** The text as it is kept: whole up to 159 characters, and the first 159 of a longer one. */
  lemma TextKept(text: string)
    ensures |text| <= 159 ==> Clip(text) == text
    ensures |text| > 159 ==> Clip(text) == text[..159]
  {
  }

  lemma EntryLine(lines: seq<Record>, k: nat)
    requires k < |lines| < 0x1_0000_0000
    ensures var e, r := EntryOf(lines, k), lines[k];
            && e.sequence == k + 1 && e.level == r.level && e.domain == r.domain
            && e.text == if |r.text| <= 159 then r.text else r.text[..159]
  {
    TextKept(lines[k].text);
  }

  /** Entry `i` of a snapshot, in numbers, before the sequence number wraps. */
  lemma SnapshotLine(events: seq<Event>, i: nat, k: nat)
    requires |Lines(events)| < 0x1_0000_0000 && i < |Lines(events)| && i < 32
    requires k == if |Lines(events)| < 32 then i else |Lines(events)| - 32 + i
    ensures Taken(After(events)).logCount == if |Lines(events)| < 32 then |Lines(events)| else 32
    ensures var e, r := Taken(After(events)).logs[i], Lines(events)[k];
            && e.sequence == k + 1 && e.level == r.level && e.domain == r.domain
            && e.text == if |r.text| <= 159 then r.text else r.text[..159]
  {
    TracksRun(events);
    SnapshotEntry(After(events), Lines(events), i);
    assert k == |Lines(events)| - Kept(|Lines(events)|) + i;
    EntryLine(Lines(events), k);
  }

  /** A domain's last error, in numbers; level 0 is the error level. */
  lemma LastErrorLine(events: seq<Event>, d: nat, k: nat)
    requires d < 14 && k < |Lines(events)| && Lines(events)[k].level == 0 && Lines(events)[k].domain == d
    requires forall m | k < m < |Lines(events)| :: !(Lines(events)[m].level == 0 && Lines(events)[m].domain == d)
    ensures var e, r := Taken(After(events)).lastErrors[d], Lines(events)[k];
            && e.valid && e.sequence == (k + 1) % 0x1_0000_0000 && e.level == 0 && e.domain == d
            && e.text == if |r.text| <= 159 then r.text else r.text[..159]
  {
    assert forall m | k < m < |Lines(events)| :: !IsError(Lines(events)[m], d);
    LastErrorIsLatest(events, d, k);
    TextKept(Lines(events)[k].text);
  }

  /** A domain without errors has no valid last error. */
  lemma NoErrorLine(events: seq<Event>, d: nat)
    requires d < 14
    requires forall m | 0 <= m < |Lines(events)| :: !(Lines(events)[m].level == 0 && Lines(events)[m].domain == d)
    ensures !Taken(After(events)).lastErrors[d].valid
  {
    TracksRun(events);
    assert forall m | 0 <= m < |Lines(events)| :: !IsError(Lines(events)[m], d);
    assert ErrorHolds(After(events).lastErrors[d], Lines(events), d);
  }

  /** Which lines are kept: those at most as severe a number as the threshold last set, 2 if
      none was, in one of the fourteen domains. */
  lemma LineKept(events: seq<Event>, level: nat, domain: int, text: string)
    ensures var min := After(events).min;
            Lines(events + [Line(level, domain, text)])
            == if level <= min && 0 <= domain < 14 then Lines(events) + [Record(level, domain, text)]
               else Lines(events)
    ensures After(events + [SetMin(level)]).min == level && After([]).min == 2
  {
    TracksRun(events);
    assert (events + [Line(level, domain, text)])[..|events|] == events;
    assert (events + [SetMin(level)])[..|events|] == events;
    LinesStep(events + [Line(level, domain, text)]);
  }

  // ---------------------------------------------------------------- restore

  ghost predicate PartlyHeld(p: Rebuilt, lines: seq<Record>, i: nat) {
    var n := |lines|;
    var first := n - Kept(n);
    && i <= Kept(n)
    && p.count == i && |p.ring| == DEPTH
    && p.sequence == (if i == 0 then 0 else (first + i) % 0x1_0000_0000)
    && (forall k | first <= k < first + i :: p.ring[k % 32] == EntryOf(lines, k))
    && (n < DEPTH ==> forall j | i <= j < DEPTH :: p.ring[j] == BlankEntry)
  }

  /** Sequence numbers run straight through the window unless they wrap inside it. */
  lemma WindowSequence(n: nat, k: nat)
    requires n - Kept(n) <= k < n && (n < WORD || n % 0x1_0000_0000 >= 32)
    ensures (k + 1) % 0x1_0000_0000 == n % 0x1_0000_0000 - (n - 1 - k) && 0 < (k + 1) % 0x1_0000_0000
  {
    WordBack(n, n - 1 - k);
  }

  /** Putting back entries in order, none of them numbered 0. */
  lemma {:induction false} ReplayInOrder(logs: seq<Entry>, lines: seq<Record>, i: nat)
    requires forall j | 0 <= j < |logs| :: logs[j].sequence < WORD
    requires i <= Kept(|lines|) <= |logs| && logs[..Kept(|lines|)] == Recent(lines)
    requires |lines| < WORD || |lines| % 0x1_0000_0000 >= 32
    ensures PartlyHeld(Replayed(logs, i), lines, i)
  {
    if i > 0 {
      ReplayInOrder(logs, lines, i - 1);
      var k := |lines| - Kept(|lines|) + i - 1;
      assert logs[i - 1] == EntryOf(lines, k) by {
        assert logs[i - 1] == logs[..Kept(|lines|)][i - 1];
      }
      ReplayOne(Replayed(logs, i - 1), lines, i - 1, k);
    }
  }

  /** One entry of the loop in restore. */
  lemma ReplayOne(p: Rebuilt, lines: seq<Record>, i: nat, k: nat)
    requires PartlyHeld(p, lines, i) && i < Kept(|lines|) && k == |lines| - Kept(|lines|) + i
    requires |lines| < WORD || |lines| % 0x1_0000_0000 >= 32
    ensures var e := EntryOf(lines, k);
            && 0 < e.sequence < WORD && p.sequence < e.sequence
            && PartlyHeld(Rebuilt(p.ring[Slot(e.sequence) := e], e.sequence, p.count + 1), lines, i + 1)
  {
    WindowSequence(|lines|, k);
    if i > 0 {
      WindowSequence(|lines|, k - 1);
    }
    SlotOfNext(k);
    ReplayStep(p, lines, i, k);
  }

  lemma ReplayStep(p: Rebuilt, lines: seq<Record>, i: nat, k: nat)
    requires PartlyHeld(p, lines, i) && i < Kept(|lines|) && k == |lines| - Kept(|lines|) + i
    ensures PartlyHeld(Rebuilt(p.ring[k % 32 := EntryOf(lines, k)], (k + 1) % 0x1_0000_0000, p.count + 1), lines, i + 1)
  {
    forall m | |lines| - Kept(|lines|) <= m < k
      ensures m % 32 != k % 32
    {
      SlotsApart(m, k);
    }
  }

  /** Every slot is blank or holds a record of the window. */
  lemma SlotContents(ring: seq<Entry>, lines: seq<Record>, j: nat) returns (k: nat)
    requires RingHolds(ring, lines) && j < 32
    ensures j < |lines| ==> k < |lines| && k >= |lines| - Kept(|lines|) && k % 32 == j && ring[j] == EntryOf(lines, k)
    ensures j >= |lines| ==> ring[j] == BlankEntry
  {
    k := j;
    if |lines| >= 32 {
      k := SlotInWindow(|lines|, j);
    }
    assert j < |lines| ==> ring[k % 32] == EntryOf(lines, k);
  }

  /** The history determines the ring. */
  lemma RingUnique(a: seq<Entry>, b: seq<Entry>, lines: seq<Record>)
    requires RingHolds(a, lines) && RingHolds(b, lines)
    ensures a == b
  {
    forall j | 0 <= j < 32
      ensures a[j] == b[j]
    {
      var k := SlotContents(a, lines, j);
      assert j < |lines| ==> b[k % 32] == EntryOf(lines, k);
    }
  }

  lemma SequencesSmall(s: State, lines: seq<Record>)
    requires Tracks(s, lines)
    ensures Storable(Taken(s))
  {
    forall j | 0 <= j < 32
      ensures s.ring[j].sequence < WORD
    {
      var k := SlotContents(s.ring, lines, j);
    }
  }

  lemma {:induction false} ReplayDrops(logs: seq<Entry>, n: nat, z: nat)
    requires n <= |logs| && z < n && forall j | 0 <= j < |logs| :: logs[j].sequence < WORD
    requires logs[z].sequence == 0
    ensures Replayed(logs, n).count < n
  {
    if z < n - 1 {
      ReplayDrops(logs, n - 1, z);
    }
  }

  /** Restoring the store's own snapshot, over whatever state, brings back ring, sequence,
      count, last errors and counters exactly, if and only if the 32-bit sequence number has
      not wrapped within the last 32 records. */
  lemma RestoreExact(events: seq<Event>, s: State)
    ensures var n, saved := |Lines(events)|, Taken(After(events));
            && Storable(saved)
            && (Restored(s, saved) == After(events).(min := s.min) <==> n < WORD || n % 0x1_0000_0000 >= 32)
  {
    var was, lines := After(events), Lines(events);
    var n, saved := |lines|, Taken(was);
    TracksRun(events);
    SequencesSmall(was, lines);
    if n < WORD || n % 0x1_0000_0000 >= 32 {
      RestoreWhole(was, lines, s);
    } else {
      RestoreLoses(was, lines, s);
    }
  }

  lemma RestoreWhole(was: State, lines: seq<Record>, s: State)
    requires Tracks(was, lines) && Storable(Taken(was))
    requires |lines| < WORD || |lines| % 0x1_0000_0000 >= 32
    ensures Restored(s, Taken(was)) == was.(min := s.min)
  {
    SnapshotInOrder(was, lines);
    ReplayInOrder(Taken(was).logs, lines, Kept(|lines|));
    RingUnique(Restored(s, Taken(was)).ring, was.ring, lines);
  }

  /** The record numbered 0 is taken for an empty entry. */
  lemma RestoreLoses(was: State, lines: seq<Record>, s: State)
    requires Tracks(was, lines) && Storable(Taken(was))
    requires |lines| >= WORD && |lines| % 0x1_0000_0000 < 32
    ensures Restored(s, Taken(was)).count < was.count
  {
    var n := |lines|;
    var k := n - n % 0x1_0000_0000;
    WrapSlot(n, k);
    assert was.ring[(k - 1) % 32] == EntryOf(lines, k - 1);
    assert OldestFirst(was) == 0;
    assert Taken(was).logs[31] == was.ring[31 % 32];
    ReplayDrops(Taken(was).logs, 32, 31);
  }

  /** So, short of that wrap, no later run can tell a restored store from one that never
      stopped. */
  lemma RestoreUndetectable(events: seq<Event>, s: State, later: seq<Event>)
    requires |Lines(events)| < WORD || |Lines(events)| % 0x1_0000_0000 >= 32
    requires s.Shaped() && s.min == After(events).min
    ensures Storable(Taken(After(events)))
    ensures Play(Restored(s, Taken(After(events))), later) == Play(After(events), later)
  {
    RestoreExact(events, s);
    var was := After(events);
    assert was.(min := s.min) == was;
  }

  // ---------------------------------------------------------------- whole lives

  /** A store's life: events, clears, and restores of snapshots it took earlier. */
  datatype Call = Do(e: Event) | Clear | RestoreTaken(at: nat)

  ghost predicate IsLife(states: seq<State>, calls: seq<Call>) {
    && |states| == |calls| + 1 && states[0] == Cleared(INFO)
    && (forall k | 0 <= k < |states| :: states[k].Shaped())
    && forall k | 0 <= k < |calls| :: OneCall(states, k, calls[k])
  }

  ghost predicate OneCall(states: seq<State>, k: nat, call: Call)
    requires k + 1 < |states| && forall j | 0 <= j < |states| :: states[j].Shaped()
  {
    match call
    case Do(e) => states[k + 1] == Apply(states[k], e)
    case Clear => states[k + 1] == Cleared(states[k].min)
    case RestoreTaken(at) =>
      at <= k && Storable(Taken(states[at])) && states[k + 1] == Restored(states[k], Taken(states[at]))
  }

  /** Some plain run of events leads to `s`, with at most `bound` lines. */
  ghost predicate HasHistory(s: State, bound: nat) {
    exists events: seq<Event> :: After(events) == s && |Lines(events)| <= bound
  }

  lemma MoreHistory(s: State, bound: nat, e: Event)
    requires s.Shaped() && HasHistory(s, bound)
    ensures HasHistory(Apply(s, e), bound + 1)
    ensures e.SetMin? ==> HasHistory(Apply(s, e), bound)
  {
    var events: seq<Event> :| After(events) == s && |Lines(events)| <= bound;
    assert (events + [e])[..|events|] == events;
    assert After(events + [e]) == Apply(s, e);
  }

  /** A snapshot of a state with a plain history of fewer than 2^32 lines comes back whole. */
  lemma SnapshotComesBack(was: State, bound: nat, s: State)
    requires was.Shaped() && HasHistory(was, bound) && bound < WORD
    ensures Storable(Taken(was)) && Restored(s, Taken(was)) == Apply(was, SetMin(s.min))
  {
    var events: seq<Event> :| After(events) == was && |Lines(events)| <= bound;
    RestoreExact(events, s);
  }

  lemma CallKeepsHistory(states: seq<State>, calls: seq<Call>, k: nat)
    requires IsLife(states, calls) && k < |calls| < WORD
    requires HasHistory(states[k], k)
    requires calls[k].RestoreTaken? ==> HasHistory(states[calls[k].at], k)
    ensures HasHistory(states[k + 1], k + 1)
  {
    assert OneCall(states, k, calls[k]);
    match calls[k]
    case Do(e) => MoreHistory(states[k], k, e);
    case Clear =>
      assert After([]) == Cleared(INFO) && |Lines([])| <= 0;
      MoreHistory(Cleared(INFO), 0, SetMin(states[k].min));
      Weaken(states[k + 1], 0, k + 1);
    case RestoreTaken(at) =>
      SnapshotComesBack(states[at], k, states[k]);
      MoreHistory(states[at], k, SetMin(states[k].min));
  }

  /** Every state of a life of fewer than 2^32 calls is the state that some plain history of
      logged lines leads to. */
  lemma {:induction false} LifeIsHistory(states: seq<State>, calls: seq<Call>, k: nat)
    requires IsLife(states, calls) && k <= |calls| < WORD
    ensures HasHistory(states[k], k)
  {
    if k == 0 {
      assert After([]) == Cleared(INFO) && |Lines([])| <= 0;
    } else {
      LifeIsHistory(states, calls, k - 1);
      if calls[k - 1].RestoreTaken? {
        var at := calls[k - 1].at;
        assert OneCall(states, k - 1, calls[k - 1]);
        LifeIsHistory(states, calls, at);
        Weaken(states[at], at, k - 1);
      }
      CallKeepsHistory(states, calls, k - 1);
    }
  }

  /** In such a life, restoring a snapshot taken at any earlier point brings that point's
      state back; only the severity threshold, which no snapshot holds, stays. */
  lemma RestoreInLife(states: seq<State>, calls: seq<Call>, k: nat)
    requires IsLife(states, calls) && k < |calls| < WORD && calls[k].RestoreTaken?
    ensures calls[k].at <= k && states[k + 1] == states[calls[k].at].(min := states[k].min)
  {
    assert OneCall(states, k, calls[k]);
    LifeIsHistory(states, calls, calls[k].at);
    SnapshotComesBack(states[calls[k].at], calls[k].at, states[k]);
  }

  lemma Weaken(s: State, a: nat, b: nat)
    requires HasHistory(s, a) && a <= b
    ensures HasHistory(s, b)
  {
  }

  // ---------------------------------------------------------------- runs of the store

  /** The store driven through any run of events is in the state the theorems above are about. */
  method Run(store: Store, events: seq<Event>)
    requires store.Valid()
    modifies store, store.ring, store.lastErrors, store.counters
    ensures store.Valid() && store.Contents() == Play(old(store.Contents()), events)
  {
    for i := 0 to |events|
      invariant store.Valid() && store.Contents() == Play(old(store.Contents()), events[..i])
    {
      assert events[..i + 1][..i] == events[..i];
      match events[i] {
        case Line(level, domain, text) => store.LogV(level, domain, text);
        case Bump(domain, amount) => store.CounterInc(domain, amount);
        case SetMin(level) => store.SetMinLevel(level);
      }
    }
    assert events[..|events|] == events;
  }
}
