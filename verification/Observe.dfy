/** The observability state: a ring of log entries, the last error of each domain, a counter
    per domain and the severity threshold; recording, snapshot, restore and clear. */
module Observe {

  const DEPTH := 32
  const DOMAINS := 14
  const LINE_MAX := 160
  const WORD := 0x1_0000_0000

  /** Severities: 0 is an error, larger numbers are less severe. */
  const ERROR := 0
  const INFO := 2

  datatype Entry = Entry(sequence: nat, level: nat, domain: nat, text: string)

  datatype LastError = LastError(sequence: nat, level: nat, domain: nat, valid: bool, text: string)

  const BlankEntry := Entry(0, 0, 0, "")
  const NoError := LastError(0, 0, 0, false, "")

  /** A line as a fixed-size buffer with a final terminator keeps it. */
  function Clip(text: string): string {
    if |text| < LINE_MAX then text else text[..LINE_MAX - 1]
  }

  predicate IsDomain(domain: int) {
    0 <= domain < DOMAINS
  }

  datatype State = State(min: nat, ring: seq<Entry>, lastErrors: seq<LastError>, counters: seq<nat>,
                         sequence: nat, count: nat)
  {
    predicate Shaped() {
      |ring| == DEPTH && |lastErrors| == DOMAINS == |counters| && sequence < WORD && count <= DEPTH
    }
  }

  datatype Snapshot = Snapshot(logCount: nat, logs: seq<Entry>, counters: seq<nat>, lastErrors: seq<LastError>)
  {
    predicate Shaped() {
      |logs| == DEPTH && |lastErrors| == DOMAINS == |counters|
    }
  }

  // ---------------------------------------------------------------- what each call does

  function Cleared(min: nat): (s: State)
    ensures s.Shaped()
  {
    State(min, seq(DEPTH, _ => BlankEntry), seq(DOMAINS, _ => NoError), seq(DOMAINS, _ => 0), 0, 0)
  }

  function Bumped(s: State, domain: int, amount: nat): (r: State)
    requires s.Shaped()
    ensures r.Shaped()
  {
    if !IsDomain(domain) then s else s.(counters := s.counters[domain := (s.counters[domain] + amount) % 0x1_0000_0000])
  }

  /** The slot of the entry with this sequence number; `seq - 1u` wraps. */
  function Slot(sequence: nat): (i: nat)
    requires sequence < WORD
    ensures i < DEPTH
  {
    (if sequence == 0 then WORD - 1 else sequence - 1) % 32
  }

  function Recorded(s: State, level: nat, domain: int, text: string): (r: State)
    requires s.Shaped()
    ensures r.Shaped()
  {
    if !IsDomain(domain) then s
    else
      var seqNo := (s.sequence + 1) % 0x1_0000_0000;
      var line := Clip(text);
      s.(sequence := seqNo,
         ring := s.ring[Slot(seqNo) := Entry(seqNo, level, domain, line)],
         count := if s.count < DEPTH then s.count + 1 else s.count,
         lastErrors := if level == ERROR then s.lastErrors[domain := LastError(seqNo, level, domain, true, line)]
                       else s.lastErrors)
  }

  function Logged(s: State, level: nat, domain: int, text: string): (r: State)
    requires s.Shaped()
    ensures r.Shaped()
  {
    if level > s.min then s else Recorded(Bumped(s, domain, 1), level, domain, text)
  }

  function OldestFirst(s: State): nat {
    if s.sequence > s.count then s.sequence - s.count else 0
  }

  function Taken(s: State): (out: Snapshot)
    requires s.Shaped()
    ensures out.Shaped()
  {
    Snapshot(s.count,
             seq(DEPTH, i requires 0 <= i < DEPTH =>
               if i < s.count then s.ring[(OldestFirst(s) + i) % 32] else BlankEntry),
             s.counters, s.lastErrors)
  }

  /** The ring, sequence number and count that the first `n` saved entries give. */
  datatype Rebuilt = Rebuilt(ring: seq<Entry>, sequence: nat, count: nat)

  function Replayed(logs: seq<Entry>, n: nat): (r: Rebuilt)
    requires n <= |logs| && forall i | 0 <= i < |logs| :: logs[i].sequence < WORD
    ensures |r.ring| == DEPTH && r.sequence < WORD && r.count <= n
  {
    if n == 0 then Rebuilt(seq(DEPTH, _ => BlankEntry), 0, 0)
    else
      var r, e := Replayed(logs, n - 1), logs[n - 1];
      if e.sequence == 0 then r
      else Rebuilt(r.ring[Slot(e.sequence) := e], if e.sequence > r.sequence then e.sequence else r.sequence,
                   r.count + 1)
  }

  predicate Storable(saved: Snapshot) {
    saved.Shaped() && forall i | 0 <= i < |saved.logs| :: saved.logs[i].sequence < WORD
  }

  function Restored(s: State, saved: Snapshot): (r: State)
    requires Storable(saved)
    ensures r.Shaped()
  {
    var p := Replayed(saved.logs, if saved.logCount < DEPTH then saved.logCount else DEPTH);
    State(s.min, p.ring, saved.lastErrors, saved.counters, p.sequence, p.count)
  }

  // ---------------------------------------------------------------- the store

  class Store {
    var min: nat
    const ring: array<Entry>
    const lastErrors: array<LastError>
    const counters: array<nat>
    var sequence: nat
    var count: nat

    ghost predicate Valid()
      reads this, ring, lastErrors, counters
    {
      && ring.Length == DEPTH && lastErrors.Length == DOMAINS == counters.Length
      && sequence < WORD && count <= DEPTH
    }

    ghost function Contents(): (s: State)
      reads this, ring, lastErrors, counters
      requires Valid()
      ensures s.Shaped()
    {
      State(min, ring[..], lastErrors[..], counters[..], sequence, count)
    }

    constructor ()
      ensures Valid() && fresh(ring) && fresh(lastErrors) && fresh(counters)
      ensures Contents() == Cleared(INFO)
    {
      min, sequence, count := INFO, 0, 0;
      ring := new Entry[DEPTH](_ => BlankEntry);
      lastErrors := new LastError[DOMAINS](_ => NoError);
      counters := new nat[DOMAINS](_ => 0);
      new;
      assert Contents() == Cleared(INFO);
    }

    method SetMinLevel(level: nat)
      requires Valid()
      modifies this`min
      ensures Valid() && Contents() == old(Contents()).(min := level)
    {
      min := level;
    }

    method CounterInc(domain: int, amount: nat)
      requires Valid()
      modifies counters
      ensures Valid() && Contents() == Bumped(old(Contents()), domain, amount)
      ensures forall d | 0 <= d < 14 ::
                counters[d] == if d == domain then (old(counters[d]) + amount) % 0x1_0000_0000 else old(counters[d])
    {
      if 0 <= domain < DOMAINS {
        counters[domain] := (counters[domain] + amount) % 0x1_0000_0000;
      }
    }

    method RecordLog(level: nat, domain: int, text: string)
      requires Valid()
      modifies this`sequence, this`count, ring, lastErrors
      ensures Valid() && Contents() == Recorded(old(Contents()), level, domain, text)
    {
      if !(0 <= domain < DOMAINS) {
        return;
      }
      sequence := (sequence + 1) % 0x1_0000_0000;
      var seqNo := sequence;
      ring[Slot(seqNo)] := Entry(seqNo, level, domain, Clip(text));
      if count < DEPTH {
        count := count + 1;
      }
      if level == ERROR {
        lastErrors[domain] := LastError(seqNo, level, domain, true, Clip(text));
      }
    }

    /** blusys_log_v, for the line already rendered: gate, then counter and ring together. */
    method LogV(level: nat, domain: int, text: string)
      requires Valid()
      modifies this`sequence, this`count, ring, lastErrors, counters
      ensures Valid() && Contents() == Logged(old(Contents()), level, domain, text)
    {
      if level > min {
        return;
      }
      CounterInc(domain, 1);
      RecordLog(level, domain, text);
    }

    method TakeSnapshot() returns (out: Snapshot)
      requires Valid()
      ensures out == Taken(Contents())
    {
      var logs := new Entry[DEPTH](_ => BlankEntry);
      var n := if count < DEPTH then count else DEPTH;
      var start := if sequence > n then sequence - n else 0;
      for i := 0 to n
        invariant forall k | 0 <= k < DEPTH ::
                    logs[k] == if k < i then ring[(start + k) % 32] else BlankEntry
      {
        logs[i] := ring[(start + i) % 32];
      }
      out := Snapshot(count, logs[..], counters[..], lastErrors[..]);
      assert n == count && start == OldestFirst(Contents());
      forall k | 0 <= k < DEPTH
        ensures out.logs[k] == Taken(Contents()).logs[k]
      {
      }
    }

    method Restore(saved: Snapshot)
      requires Valid() && Storable(saved)
      modifies this`sequence, this`count, ring, lastErrors, counters
      ensures Valid() && Contents() == Restored(old(Contents()), saved)
    {
      Wipe();
      Replay(saved);
      RestoreErrors(saved);
      RestoreCounters(saved);
    }

    /** Puts the saved entries back into their slots. */
    method Replay(saved: Snapshot)
      requires Valid() && Storable(saved) && sequence == 0 && count == 0 && ring[..] == seq(DEPTH, _ => BlankEntry)
      modifies this`sequence, this`count, ring
      ensures Valid()
      ensures var n := if saved.logCount < DEPTH then saved.logCount else DEPTH;
              Rebuilt(ring[..], sequence, count) == Replayed(saved.logs, n)
    {
      var n := if saved.logCount < DEPTH then saved.logCount else DEPTH;
      for i := 0 to n
        invariant Valid() && Rebuilt(ring[..], sequence, count) == Replayed(saved.logs, i)
      {
        var src := saved.logs[i];
        if src.sequence != 0 {
          ring[Slot(src.sequence)] := src;
          if src.sequence > sequence {
            sequence := src.sequence;
          }
          count := count + 1;
        }
      }
    }

    method RestoreErrors(saved: Snapshot)
      requires Valid() && saved.Shaped()
      modifies lastErrors
      ensures lastErrors[..] == saved.lastErrors
    {
      for i := 0 to DOMAINS
        invariant lastErrors[..i] == saved.lastErrors[..i]
      {
        lastErrors[i] := saved.lastErrors[i];
      }
    }

    method RestoreCounters(saved: Snapshot)
      requires Valid() && saved.Shaped()
      modifies counters
      ensures counters[..] == saved.counters
    {
      for i := 0 to DOMAINS
        invariant counters[..i] == saved.counters[..i]
      {
        counters[i] := saved.counters[i];
      }
    }

    /** The memsets shared by restore and clear. */
    method Wipe()
      requires Valid()
      modifies this`sequence, this`count, ring, lastErrors
      ensures Valid() && sequence == 0 && count == 0
      ensures ring[..] == seq(DEPTH, _ => BlankEntry) && lastErrors[..] == seq(DOMAINS, _ => NoError)
    {
      forall i | 0 <= i < DEPTH {
        ring[i] := BlankEntry;
      }
      forall i | 0 <= i < DOMAINS {
        lastErrors[i] := NoError;
      }
      sequence, count := 0, 0;
    }

    method Clear()
      requires Valid()
      modifies this`sequence, this`count, ring, lastErrors, counters
      ensures Valid() && Contents() == Cleared(old(min))
    {
      Wipe();
      forall i | 0 <= i < DOMAINS {
        counters[i] := 0;
      }
      assert counters[..] == seq(DOMAINS, _ => 0);
    }
  }
}
