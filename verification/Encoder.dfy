/** The GPIO fallback of the rotary encoder: each debounced sample of the two lines is looked
    up in a transition table, and full detents move the position. */
module Encoder {
  import opened Basics

  datatype Event = Clockwise | CounterClockwise

  datatype Lines = Lines(clk: bool, dt: bool)
  {
    function Code(): (c: nat)
      ensures c < 4
    {
      (if clk then 2 else 0) + if dt then 1 else 0
    }

    /** Position in the quadrature cycle 00, 01, 11, 10. */
    function Phase(): (p: nat)
      ensures p < 4
    {
      if clk then (if dt then 2 else 3) else if dt then 1 else 0
    }
  }

  const GRAY_TABLE: seq<int> := [0, 1, -1, 0, -1, 0, 0, 1, 1, 0, 0, -1, 0, -1, 1, 0]

  /** The table entry for a transition. */
  function Delta(from: Lines, to: Lines): int {
    GRAY_TABLE[4 * from.Code() + to.Code()]
  }

  /** Both lines changed at once: a step was missed and its direction is unknown. */
  predicate Skipped(from: Lines, to: Lines) {
    from.clk != to.clk && from.dt != to.dt
  }

  /** Each entry is the change of phase, up to whole turns; a skipped step counts as half. */
  lemma TableIsPhaseChange(from: Lines, to: Lines)
    ensures -1 <= Delta(from, to) <= 1
    ensures (Delta(from, to) + (if Skipped(from, to) then 2 else 0) - (to.Phase() - from.Phase())) % 4 == 0
    ensures Delta(from, to) == 0 <==> from == to || Skipped(from, to)
  {
  }

  // ---------------------------------------------------------------- the decoder

  datatype State = State(last: Lines, accum: int, position: int)

  /** Arithmetic on an `int8_t`. */
  function Int8(v: int): (r: int)
    requires -129 <= v <= 128
    ensures -128 <= r <= 127
  {
    if v > 127 then v - 256 else if v < -128 then v + 256 else v
  }

  function Sampled(s: State, to: Lines, steps: int): (r: State)
    requires -128 <= s.accum <= 127
    ensures -128 <= r.accum <= 127 && r.last == to
  {
    if to == s.last then s
    else if Delta(s.last, to) == 0 then s.(last := to)
    else
      var accum := Int8(s.accum + Delta(s.last, to));
      if accum >= steps then State(to, 0, s.position + 1)
      else if accum <= -steps then State(to, 0, s.position - 1)
      else State(to, accum, s.position)
  }

  function Decoded(s: State, samples: seq<Lines>, steps: int): (r: State)
    requires -128 <= s.accum <= 127
    ensures -128 <= r.accum <= 127
  {
    if samples == [] then s else Sampled(Decoded(s, samples[..|samples| - 1], steps), samples[|samples| - 1], steps)
  }

  class Decoder {
    var lastClk: bool
    var lastDt: bool
    var gpioAccum: int
    var position: int
    const stepsPerDetent: int

    ghost predicate Valid()
      reads this
    {
      0 < stepsPerDetent && -128 <= gpioAccum <= 127
    }

    ghost function Contents(): State
      reads this
    {
      State(Lines(lastClk, lastDt), gpioAccum, position)
    }

    /** The lines as read when the decoder opens; a non-positive configuration value means
        the default of four steps per detent. */
    constructor (clk: bool, dt: bool, configured: int)
      ensures Valid() && Contents() == State(Lines(clk, dt), 0, 0)
      ensures stepsPerDetent == if configured > 0 then configured else 4
    {
      lastClk, lastDt, gpioAccum, position := clk, dt, 0, 0;
      stepsPerDetent := if configured > 0 then configured else 4;
    }

    /** gpio_debounce_timer_cb: nothing happens while closing or when a line cannot be read. */
    method OnSample(closing: bool, clk: Option<bool>, dt: Option<bool>) returns (event: Option<Event>)
      requires Valid()
      modifies this`lastClk, this`lastDt, this`gpioAccum, this`position
      ensures Valid()
      ensures closing || clk.None? || dt.None? ==> Contents() == old(Contents())
      ensures !closing && clk.Some? && dt.Some? ==>
                Contents() == Sampled(old(Contents()), Lines(clk.value, dt.value), stepsPerDetent)
      ensures position == old(position) + (if event.None? then 0 else if event.value.Clockwise? then 1 else -1)
    {
      event := None;
      if closing || clk.None? || dt.None? {
        return;
      }
      var from, to := Lines(lastClk, lastDt), Lines(clk.value, dt.value);
      if from.Code() == to.Code() {
        return;
      }
      lastClk, lastDt := to.clk, to.dt;
      var delta := GRAY_TABLE[4 * from.Code() + to.Code()];
      TableIsPhaseChange(from, to);
      if delta == 0 {
        return;
      }
      gpioAccum := Int8(gpioAccum + delta);
      if gpioAccum >= stepsPerDetent {
        gpioAccum := 0;
        position := position + 1;
        event := Some(Clockwise);
      } else if gpioAccum <= -stepsPerDetent {
        gpioAccum := 0;
        position := position - 1;
        event := Some(CounterClockwise);
      }
    }
  }

  // ---------------------------------------------------------------- runs of samples

  function LastLines(from: Lines, samples: seq<Lines>): Lines {
    if samples == [] then from else samples[|samples| - 1]
  }

  /** The sum of the table entries of a run. */
  function Travel(from: Lines, samples: seq<Lines>): int {
    if samples == [] then 0
    else
      var rest := samples[..|samples| - 1];
      Travel(from, rest) + Delta(LastLines(from, rest), samples[|samples| - 1])
  }

  function Skips(from: Lines, samples: seq<Lines>): nat {
    if samples == [] then 0
    else
      var rest := samples[..|samples| - 1];
      Skips(from, rest) + if Skipped(LastLines(from, rest), samples[|samples| - 1]) then 1 else 0
  }

  lemma DetentStep(steps: int, position: int)
    ensures steps * (position + 1) == steps * position + steps
    ensures steps * (position - 1) == steps * position - steps
  {
  }

  /** Detents and remainder account for every step of the run: nothing is lost or counted
      twice, for any run of samples and up to 127 steps per detent. */
  lemma {:induction false} PositionExact(from: Lines, samples: seq<Lines>, steps: int)
    requires 1 <= steps <= 127
    ensures var s := Decoded(State(from, 0, 0), samples, steps);
            && s.last == LastLines(from, samples)
            && -steps < s.accum < steps
            && steps * s.position + s.accum == Travel(from, samples)
  {
    if samples != [] {
      var rest, to := samples[..|samples| - 1], samples[|samples| - 1];
      PositionExact(from, rest, steps);
      var s := Decoded(State(from, 0, 0), rest, steps);
      TableIsPhaseChange(s.last, to);
      DetentStep(steps, s.position);
    }
  }

  /** The travel, with two for every skipped step, agrees with the change of phase modulo a
      turn of four. */
  lemma {:induction false} TravelIsPhase(from: Lines, samples: seq<Lines>)
    ensures (Travel(from, samples) + 2 * Skips(from, samples)
             - (LastLines(from, samples).Phase() - from.Phase())) % 4 == 0
  {
    if samples != [] {
      var rest, to := samples[..|samples| - 1], samples[|samples| - 1];
      TravelIsPhase(from, rest);
      TableIsPhaseChange(LastLines(from, rest), to);
    }
  }

  /** A fresh decoder fed any run of samples ends where the theorems say, and its events
      report every change of position. */
  method Feed(from: Lines, configured: int, samples: seq<Lines>) returns (decoder: Decoder, turned: int)
    ensures fresh(decoder) && decoder.Valid()
    ensures decoder.Contents() == Decoded(State(from, 0, 0), samples, decoder.stepsPerDetent)
    ensures turned == decoder.position
    ensures decoder.stepsPerDetent <= 127 ==>
              decoder.stepsPerDetent * decoder.position + decoder.gpioAccum == Travel(from, samples)
  {
    decoder := new Decoder(from.clk, from.dt, configured);
    turned := 0;
    for i := 0 to |samples|
      invariant decoder.Valid() && turned == decoder.position && fresh(decoder)
      invariant decoder.Contents() == Decoded(State(from, 0, 0), samples[..i], decoder.stepsPerDetent)
    {
      assert samples[..i + 1][..i] == samples[..i];
      var event := decoder.OnSample(false, Some(samples[i].clk), Some(samples[i].dt));
      turned := turned + if event.None? then 0 else if event.value.Clockwise? then 1 else -1;
    }
    assert samples[..|samples|] == samples;
    if decoder.stepsPerDetent <= 127 {
      PositionExact(from, samples, decoder.stepsPerDetent);
    }
  }

  // ---------------------------------------------------------------- the width of the accumulator

  /** The next lines clockwise. */
  function Onward(l: Lines): Lines {
    Lines(l.dt, !l.clk)
  }

  const Rest := Lines(false, false)

  /** `n` steps clockwise from rest. */
  function Spin(n: nat): seq<Lines> {
    if n == 0 then [] else Spin(n - 1) + [Onward(LastLines(Rest, Spin(n - 1)))]
  }

  lemma {:induction false} SpinTravels(n: nat)
    ensures Travel(Rest, Spin(n)) == n
  {
    if n > 0 {
      SpinTravels(n - 1);
      assert Spin(n)[..|Spin(n)| - 1] == Spin(n - 1);
    }
  }

  lemma OnwardIsOneStep(l: Lines)
    ensures Delta(l, Onward(l)) == 1 && l != Onward(l)
  {
  }

  lemma SpinStep(n: nat, s: State, steps: int)
    requires -128 <= s.accum <= 127
    ensures Decoded(s, Spin(n + 1), steps)
            == Sampled(Decoded(s, Spin(n), steps), Onward(LastLines(Rest, Spin(n))), steps)
  {
    assert Spin(n + 1)[..|Spin(n + 1)| - 1] == Spin(n);
  }

  lemma {:induction false} SpinAccumulates(n: nat, steps: int)
    requires n <= 127 && steps >= 128
    ensures Decoded(State(Rest, 0, 0), Spin(n), steps) == State(LastLines(Rest, Spin(n)), n, 0)
  {
    if n > 0 {
      SpinAccumulates(n - 1, steps);
      SpinStep(n - 1, State(Rest, 0, 0), steps);
      OnwardIsOneStep(LastLines(Rest, Spin(n - 1)));
    }
  }

  /** The position and the remainder account for a run. */
  predicate Accounted(from: Lines, samples: seq<Lines>, steps: int) {
    var s := Decoded(State(from, 0, 0), samples, steps);
    steps * s.position + s.accum == Travel(from, samples)
  }

  /** One more step clockwise wraps a full accumulator. */
  lemma WrappingStep(s: State, steps: int)
    requires s.accum == 127 && s.position == 0 && steps >= 128
    ensures var t := Sampled(s, Onward(s.last), steps); steps * t.position + t.accum == -128
  {
    OnwardIsOneStep(s.last);
    DetentStep(steps, 0);
  }

  lemma WideDetentFails(steps: int, n: nat)
    requires steps >= 128 && n == 127
    ensures !Accounted(Rest, Spin(n + 1), steps)
  {
    SpinAccumulates(n, steps);
    SpinTravels(n + 1);
    SpinStep(n, State(Rest, 0, 0), steps);
    WrappingStep(Decoded(State(Rest, 0, 0), Spin(n), steps), steps);
  }

  /** The position is right for every run exactly when a detent has at most 127 steps: from
      128 on the 8-bit accumulator wraps, and 128 steps clockwise are taken for 128 back. */
  lemma PositionExactIffNarrow(steps: int)
    requires 1 <= steps
    ensures (forall from, samples :: Accounted(from, samples, steps)) <==> steps <= 127
  {
    if steps <= 127 {
      forall from, samples
        ensures Accounted(from, samples, steps)
      {
        PositionExact(from, samples, steps);
      }
    } else {
      var n := 127;
      WideDetentFails(steps, n);
    }
  }
}
