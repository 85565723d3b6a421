/** RMT pulses: two pulses travel in one hardware symbol; the transmitter packs a pulse list
    into symbols and the receiver unpacks symbols into pulses again. */
module RmtCodec {
  import opened Basics

  const MAX_DURATION := 32767

  datatype Pulse = Pulse(level: bool, duration: nat)

  /** The 15-bit duration fields of a symbol word. */
  type Duration = d: int | 0 <= d < 0x8000

  /** A symbol word; duration 0 in its second half means there is no second pulse. */
  datatype Symbol = Symbol(level0: bool, duration0: Duration, level1: bool, duration1: Duration)

  /** What a duration field keeps of a number. */
  function Field(d: nat): Duration {
    d % 0x8000
  }

  const BlankSymbol := Symbol(false, 0, false, 0)

  predicate IsValid(p: Pulse) {
    0 < p.duration <= MAX_DURATION
  }

  ghost predicate AllValid(pulses: seq<Pulse>) {
    forall i | 0 <= i < |pulses| :: IsValid(pulses[i])
  }

  // ---------------------------------------------------------------- the pulses on the wire

  /** The pulses one symbol stands for. */
  function PulsesOf(s: Symbol): seq<Pulse> {
    [Pulse(s.level0, s.duration0)] + if s.duration1 > 0 then [Pulse(s.level1, s.duration1)] else []
  }

  function Wire(symbols: seq<Symbol>): seq<Pulse> {
    if symbols == [] then [] else Wire(symbols[..|symbols| - 1]) + PulsesOf(symbols[|symbols| - 1])
  }

  /** Symbol `k` of a packed pulse list. */
  function SymbolFor(pulses: seq<Pulse>, k: nat): Symbol
    requires 2 * k < |pulses|
  {
    var first := pulses[2 * k];
    if 2 * k + 1 < |pulses| then
      Symbol(first.level, Field(first.duration), pulses[2 * k + 1].level, Field(pulses[2 * k + 1].duration))
    else
      Symbol(first.level, Field(first.duration), false, 0)
  }

  function Packed(pulses: seq<Pulse>): (symbols: seq<Symbol>)
    ensures |symbols| == (|pulses| + 1) / 2
  {
    seq((|pulses| + 1) / 2, k requires 0 <= k < (|pulses| + 1) / 2 => SymbolFor(pulses, k))
  }

  /** The first `k` symbols put the first `2 k` pulses, or all of them, on the wire. */
  lemma {:induction false} WireOfPacked(pulses: seq<Pulse>, k: nat)
    requires AllValid(pulses) && k <= (|pulses| + 1) / 2
    ensures Wire(Packed(pulses)[..k]) == pulses[..if 2 * k < |pulses| then 2 * k else |pulses|]
  {
    if k > 0 {
      WireOfPacked(pulses, k - 1);
      assert Packed(pulses)[..k][..k - 1] == Packed(pulses)[..k - 1];
    }
  }

  /** Symbol `k` sends pulse `2 k` first, ... */
  ghost predicate FirstHalf(symbols: seq<Symbol>, pulses: seq<Pulse>, k: nat) {
    && k < |symbols| && 2 * k < |pulses|
    && symbols[k].level0 == pulses[2 * k].level && symbols[k].duration0 == pulses[2 * k].duration
  }

  /** ... and then pulse `2 k + 1`, or nothing if there is none. */
  ghost predicate SecondHalf(symbols: seq<Symbol>, pulses: seq<Pulse>, k: nat) {
    && k < |symbols|
    && if 2 * k + 1 < |pulses| then
         symbols[k].level1 == pulses[2 * k + 1].level && symbols[k].duration1 == pulses[2 * k + 1].duration
       else symbols[k].duration1 == 0
  }

  /** blusys_rmt_pack_symbols: accepts exactly the non-empty lists of pulses between 1 and
      32767 microseconds. */
  method Pack(pulses: seq<Pulse>) returns (r: Option<seq<Symbol>>)
    ensures r.Some? <==> pulses != [] && AllValid(pulses)
    ensures r.Some? <==> pulses != [] && forall i | 0 <= i < |pulses| :: 1 <= pulses[i].duration <= 32767
    ensures r.Some? ==> r.value == Packed(pulses)
    ensures r.Some? ==> forall k | 0 <= k < |r.value| :: FirstHalf(r.value, pulses, k) && SecondHalf(r.value, pulses, k)
  {
    if pulses == [] {
      return None;
    }
    var symbolCount := (|pulses| + 1) / 2;
    var symbols := new Symbol[symbolCount](_ => BlankSymbol);
    var pulseIndex, symbolIndex := 0, 0;
    while pulseIndex < |pulses|
      invariant pulseIndex == 2 * symbolIndex && symbolIndex <= symbolCount
      invariant AllValid(pulses[..if pulseIndex < |pulses| then pulseIndex else |pulses|])
      invariant forall k | 0 <= k < symbolIndex :: symbols[k] == SymbolFor(pulses, k)
      invariant forall k | symbolIndex <= k < symbolCount :: symbols[k] == BlankSymbol
    {
      var first := pulses[pulseIndex];
      if !IsValid(first) {
        return None;
      }
      symbols[symbolIndex] := symbols[symbolIndex].(level0 := first.level, duration0 := Field(first.duration));
      if pulseIndex + 1 < |pulses| {
        var second := pulses[pulseIndex + 1];
        if !IsValid(second) {
          return None;
        }
        symbols[symbolIndex] := symbols[symbolIndex].(level1 := second.level, duration1 := Field(second.duration));
      }
      pulseIndex, symbolIndex := pulseIndex + 2, symbolIndex + 1;
    }
    assert pulses[..|pulses|] == pulses;
    assert symbols[..] == Packed(pulses);
    r := Some(symbols[..]);
    assert forall i | 0 <= i < |pulses| :: IsValid(pulses[i]) && Field(pulses[i].duration) == pulses[i].duration;
  }

  lemma WireNext(symbols: seq<Symbol>, i: nat)
    requires i < |symbols|
    ensures Wire(symbols[..i + 1]) == Wire(symbols[..i]) + PulsesOf(symbols[i])
  {
    assert symbols[..i + 1][..i] == symbols[..i];
  }

  function Limited(wire: seq<Pulse>, maxPulses: nat): seq<Pulse> {
    wire[..if maxPulses < |wire| then maxPulses else |wire|]
  }

  /** Writes one pulse and moves the output index. */
  method Emit(buffer: array<Pulse>, out: nat, pulse: Pulse) returns (next: nat)
    requires out < buffer.Length
    modifies buffer
    ensures next == out + 1 && buffer[..next] == old(buffer[..out]) + [pulse]
  {
    buffer[out] := pulse;
    next := out + 1;
  }

  /** What one more symbol adds within the limit. */
  lemma LimitedSymbol(wire: seq<Pulse>, sym: Symbol, maxPulses: nat)
    requires |wire| < maxPulses
    ensures var one := wire + [Pulse(sym.level0, sym.duration0)];
            Limited(wire + PulsesOf(sym), maxPulses)
            == if |one| < maxPulses && sym.duration1 > 0 then one + [Pulse(sym.level1, sym.duration1)] else one
  {
  }

  /** The loop body: one or two pulses, as far as the buffer reaches. */
  method EmitSymbol(buffer: array<Pulse>, out: nat, sym: Symbol) returns (next: nat)
    requires out < buffer.Length
    modifies buffer
    ensures next <= buffer.Length
    ensures buffer[..next] == Limited(old(buffer[..out]) + PulsesOf(sym), buffer.Length)
  {
    LimitedSymbol(buffer[..out], sym, buffer.Length);
    next := Emit(buffer, out, Pulse(sym.level0, sym.duration0));
    if next < buffer.Length && sym.duration1 > 0 {
      next := Emit(buffer, next, Pulse(sym.level1, sym.duration1));
    }
  }

  /** The loop of blusys_rmt_rx_read over the symbols the done callback announced. */
  method Unpack(symbols: seq<Symbol>, pulseCount: nat, maxPulses: nat) returns (pulses: seq<Pulse>)
    requires pulseCount / 2 <= |symbols|
    ensures pulses == Limited(Wire(symbols[..pulseCount / 2]), maxPulses)
  {
    var symCount := pulseCount / 2;
    var buffer := new Pulse[maxPulses](_ => Pulse(false, 0));
    var out: nat, i: nat := 0, 0;
    while i < symCount && out < maxPulses
      invariant i <= symCount && out <= maxPulses
      invariant buffer[..out] == Limited(Wire(symbols[..i]), maxPulses)
    {
      assert buffer[..out] == Wire(symbols[..i]);
      WireNext(symbols, i);
      out := EmitSymbol(buffer, out, symbols[i]);
      i := i + 1;
    }
    WirePrefix(symbols[..symCount], i);
    assert symbols[..symCount][..i] == symbols[..i];
    pulses := buffer[..out];
  }

  /** Later symbols only add pulses. */
  lemma {:induction false} WirePrefix(symbols: seq<Symbol>, i: nat)
    requires i <= |symbols|
    ensures Wire(symbols[..i]) <= Wire(symbols)
    decreases |symbols|
  {
    if i < |symbols| {
      var n := |symbols| - 1;
      WirePrefix(symbols[..n], i);
      assert symbols[..n][..i] == symbols[..i];
    } else {
      assert symbols[..i] == symbols;
    }
  }

  /** Unpacking undoes packing: whatever valid pulses are packed, odd counts included, the
      receiver's loop over all the symbols yields the first `maxPulses` of them exactly. */
  lemma RoundTrip(pulses: seq<Pulse>)
    requires AllValid(pulses)
    ensures Wire(Packed(pulses)) == pulses
    ensures |Packed(pulses)| == (|pulses| + 1) / 2
  {
    var n := (|pulses| + 1) / 2;
    WireOfPacked(pulses, n);
    assert Packed(pulses)[..n] == Packed(pulses);
    assert pulses[..|pulses|] == pulses;
  }

  /** A pulse list sent and received back to back. */
  method Loopback(sent: seq<Pulse>, maxPulses: nat) returns (received: Option<seq<Pulse>>)
    ensures received.Some? <==> sent != [] && AllValid(sent)
    ensures received.Some? ==> received.value == Limited(sent, maxPulses)
  {
    var symbols := Pack(sent);
    if symbols.None? {
      return None;
    }
    RoundTrip(sent);
    assert symbols.value[..|symbols.value|] == symbols.value;
    var pulses := Unpack(symbols.value, 2 * |symbols.value|, maxPulses);
    received := Some(pulses);
  }
}
