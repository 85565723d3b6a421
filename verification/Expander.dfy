/** The GPIO expander driver: cached direction and output registers, written to a PCF8574 port
    or to the register pairs of an MCP23017/MCP23S17 over a bus that may fail. */
module Expander {
  import opened Basics

  /** A 16-bit register, one element a pin. */
  type Reg = r: seq<bool> | |r| == 16 witness seq(16, _ => false)

  datatype Ic = Pcf8574 | Pcf8574A | Mcp23017 | Mcp23S17
  {
    predicate IsPcf() {
      Pcf8574? || Pcf8574A?
    }

    function PinCount(): nat {
      if IsPcf() then 8 else 16
    }
  }

  datatype Config = Config(ic: Ic, hasI2c: bool, hasSpi: bool, i2cAddress: nat, hwAddr: nat)

  /** Part, transport and address go together. */
  predicate Acceptable(c: Config) {
    && (if c.ic.Mcp23S17? then c.hasSpi && !c.hasI2c && c.hwAddr <= 7 else c.hasI2c && !c.hasSpi)
    && (c.ic.Pcf8574? || c.ic.Mcp23017? ==> 0x20 <= c.i2cAddress <= 0x27)
    && (c.ic.Pcf8574A? ==> 0x38 <= c.i2cAddress <= 0x3F)
  }

  /** What each part accepts. */
  lemma AcceptsByPart(c: Config)
    ensures c.ic == Pcf8574 ==> (Acceptable(c) <==> c.hasI2c && !c.hasSpi && 0x20 <= c.i2cAddress <= 0x27)
    ensures c.ic == Pcf8574A ==> (Acceptable(c) <==> c.hasI2c && !c.hasSpi && 0x38 <= c.i2cAddress <= 0x3F)
    ensures c.ic == Mcp23017 ==> (Acceptable(c) <==> c.hasI2c && !c.hasSpi && 0x20 <= c.i2cAddress <= 0x27)
    ensures c.ic == Mcp23S17 ==> (Acceptable(c) <==> c.hasSpi && !c.hasI2c && 0 <= c.hwAddr <= 7)
    ensures c.ic.PinCount() == if c.ic == Pcf8574 || c.ic == Pcf8574A then 8 else 16
  {
  }

  // ---------------------------------------------------------------- register arithmetic

  /** `r & 0x00FF`. */
  function LowByte(r: Reg): Reg {
    seq(16, i requires 0 <= i < 16 => i < 8 && r[i])
  }

  function Or(a: Reg, b: Reg): Reg {
    seq(16, i requires 0 <= i < 16 => a[i] || b[i])
  }

  function Low(r: Reg): Octet {
    r[..8]
  }

  function High(r: Reg): Octet {
    r[8..]
  }

  /** `d0 | d1 << 8`. */
  function Join(d0: Octet, d1: Octet): Reg {
    d0 + d1
  }

  // ---------------------------------------------------------------- requests

  datatype Cache = Cache(latch: Reg, dir: Reg)

  datatype Request = SetDirection(pin: nat, input: bool) | WritePin(pin: nat, level: bool) | WritePort(values: Reg)

  predicate Accepted(ic: Ic, req: Request) {
    !req.WritePort? ==> req.pin < ic.PinCount()
  }

  /** The cached registers after a request, bus failure or not. */
  function Requested(ic: Ic, c: Cache, req: Request): Cache {
    if !Accepted(ic, req) then c
    else
      match req
      case SetDirection(pin, input) =>
        Cache(if ic.IsPcf() && input then c.latch[pin := true] else c.latch, c.dir[pin := input])
      case WritePin(pin, level) =>
        var latch := c.latch[pin := level];
        c.(latch := if ic.IsPcf() then Or(latch, LowByte(c.dir)) else latch)
      case WritePort(values) =>
        c.(latch := if ic.IsPcf() then Or(LowByte(values), LowByte(c.dir)) else values)
  }

  function After(ic: Ic, c: Cache, reqs: seq<Request>): Cache {
    if reqs == [] then c else Requested(ic, After(ic, c, reqs[..|reqs| - 1]), reqs[|reqs| - 1])
  }

  // ---------------------------------------------------------------- one pin's history

  /** What one pin's requests make of it: direction, and the level it drives. */
  datatype Pin = Pin(input: bool, level: bool)

  predicate Touches(req: Request, pin: nat) {
    req.WritePort? || req.pin == pin
  }

  function PinRequested(ic: Ic, p: Pin, req: Request, pin: nat): Pin
    requires pin < ic.PinCount()
  {
    if !Touches(req, pin) then p
    else
      match req
      case SetDirection(_, input) => Pin(input, p.level || (ic.IsPcf() && input))
      case WritePin(_, level) => p.(level := level || (ic.IsPcf() && p.input))
      case WritePort(values) => p.(level := values[pin] || (ic.IsPcf() && p.input))
  }

  function PinAfter(ic: Ic, p: Pin, reqs: seq<Request>, pin: nat): Pin
    requires pin < ic.PinCount()
  {
    if reqs == [] then p else PinRequested(ic, PinAfter(ic, p, reqs[..|reqs| - 1], pin), reqs[|reqs| - 1], pin)
  }

  function PinOf(c: Cache, pin: nat): Pin
    requires pin < 16
  {
    Pin(c.dir[pin], c.latch[pin])
  }

  predicate InputsHigh(ic: Ic, c: Cache) {
    ic.IsPcf() ==> forall i | 0 <= i < 8 :: c.dir[i] ==> c.latch[i]
  }

  lemma RequestOnPin(ic: Ic, c: Cache, req: Request, pin: nat)
    requires pin < ic.PinCount() && InputsHigh(ic, c)
    ensures PinOf(Requested(ic, c, req), pin) == PinRequested(ic, PinOf(c, pin), req, pin)
    ensures InputsHigh(ic, Requested(ic, c, req))
  {
  }

  /** After any run of requests each pin's direction and latch bit are what its own requests
      made of it, undisturbed by requests on other pins; and on a PCF8574 the latch bit of
      every input stays high. */
  lemma {:induction false} PinsAreIndependent(ic: Ic, c: Cache, reqs: seq<Request>, pin: nat)
    requires pin < ic.PinCount() && InputsHigh(ic, c)
    ensures PinOf(After(ic, c, reqs), pin) == PinAfter(ic, PinOf(c, pin), reqs, pin)
    ensures InputsHigh(ic, After(ic, c, reqs))
  {
    if reqs != [] {
      PinsAreIndependent(ic, c, reqs[..|reqs| - 1], pin);
      RequestOnPin(ic, After(ic, c, reqs[..|reqs| - 1]), reqs[|reqs| - 1], pin);
    }
  }

  /** The level a write request gives a pin. */
  function WrittenLevel(req: Request, pin: nat): bool
    requires pin < 16 && !req.SetDirection?
  {
    if req.WritePin? then req.level else req.values[pin]
  }

  /** An MCP pin drives the level last written to it, and a PCF output the level last written
      to it since it was last an input. */
  lemma {:induction false} LastWriteWins(ic: Ic, p: Pin, reqs: seq<Request>, pin: nat, k: nat)
    requires pin < ic.PinCount() && k < |reqs|
    requires Touches(reqs[k], pin) && !reqs[k].SetDirection?
    requires forall m | k < m < |reqs| ::
               Touches(reqs[m], pin) ==> reqs[m].SetDirection? && (ic.IsPcf() ==> !reqs[m].input)
    requires ic.IsPcf() ==> !PinAfter(ic, p, reqs[..k], pin).input
    ensures PinAfter(ic, p, reqs, pin).level == WrittenLevel(reqs[k], pin)
  {
    var n := |reqs| - 1;
    if k < n {
      assert reqs[..n][..k] == reqs[..k];
      assert reqs[..n][k] == reqs[k];
      LastWriteWins(ic, p, reqs[..n], pin, k);
      assert Touches(reqs[n], pin) ==> reqs[n].SetDirection? && (ic.IsPcf() ==> !reqs[n].input);
    }
  }

  /** A pin's direction is the one last requested for it. */
  lemma {:induction false} LastDirectionWins(ic: Ic, p: Pin, reqs: seq<Request>, pin: nat, k: nat)
    requires pin < ic.PinCount() && k < |reqs| && reqs[k].SetDirection? && reqs[k].pin == pin
    requires forall m | k < m < |reqs| :: !(reqs[m].SetDirection? && reqs[m].pin == pin)
    ensures PinAfter(ic, p, reqs, pin).input == reqs[k].input
  {
    var n := |reqs| - 1;
    if k < n {
      assert reqs[..n][k] == reqs[k];
      LastDirectionWins(ic, p, reqs[..n], pin, k);
      assert !(reqs[n].SetDirection? && reqs[n].pin == pin);
    }
  }

  // ---------------------------------------------------------------- the chip

  const IODIR := 0x00
  const IOCON := 0x0A
  const OLAT := 0x14

  /** The part behind the bus, registers at sequential addresses. Every transfer may fail; it is
      then counted, and may have written some of its data. */
  class Chip {
    var port: Octet
    var regs: seq<Octet>
    var faults: nat

    ghost predicate Valid()
      reads this
    {
      |regs| == 22
    }

    constructor (port: Octet, regs: seq<Octet>)
      requires |regs| == 22
      ensures Valid() && this.port == port && this.regs == regs && faults == 0
    {
      this.port, this.regs, faults := port, regs, 0;
    }

    method WritePort(data: Octet) returns (ok: bool)
      modifies this`port, this`faults
      ensures ok ==> port == data && faults == old(faults)
      ensures !ok ==> (port == data || port == old(port)) && faults == old(faults) + 1
    {
      var arrived: bool := *;
      ok := *;
      if ok || arrived {
        port := data;
      }
      faults := if ok then faults else faults + 1;
    }

    method WriteOne(reg: nat, data: Octet) returns (ok: bool)
      requires Valid() && reg < 22
      modifies this`regs, this`faults
      ensures Valid() && (ok ==> regs == old(regs)[reg := data] && faults == old(faults))
      ensures !ok ==> faults == old(faults) + 1
    {
      var arrived: bool := *;
      ok := *;
      if ok || arrived {
        regs := regs[reg := data];
      }
      faults := if ok then faults else faults + 1;
    }

    method WriteTwo(reg: nat, d0: Octet, d1: Octet) returns (ok: bool)
      requires Valid() && reg + 1 < 22
      modifies this`regs, this`faults
      ensures Valid() && (ok ==> regs == old(regs)[reg := d0][reg + 1 := d1] && faults == old(faults))
      ensures !ok ==> faults == old(faults) + 1
      ensures forall r | 0 <= r < 22 && r != reg && r != reg + 1 :: regs[r] == old(regs)[r]
    {
      var arrived: nat := *;
      ok := *;
      if ok || arrived > 0 {
        regs := regs[reg := d0];
      }
      if ok || arrived > 1 {
        regs := regs[reg + 1 := d1];
      }
      faults := if ok then faults else faults + 1;
    }

    method ReadTwo(reg: nat) returns (ok: bool, d0: Octet, d1: Octet)
      requires Valid() && reg + 1 < 22
      modifies this`faults
      ensures ok ==> d0 == regs[reg] && d1 == regs[reg + 1] && faults == old(faults)
      ensures !ok ==> faults == old(faults) + 1
    {
      ok := *;
      d0, d1 := regs[reg], regs[reg + 1];
      faults := if ok then faults else faults + 1;
    }

    /** The BANK bit of IOCON is clear: pairs of registers lie at consecutive addresses. */
    predicate Sequential()
      reads this
      requires Valid()
    {
      !regs[0x0A][7]
    }

    /** Then registers 0x00 and 0x01 make pins inputs, a set bit an input, ... */
    predicate InputPin(pin: nat)
      reads this
      requires Valid() && Sequential() && pin < 16
    {
      regs[0x00 + pin / 8][pin % 8]
    }

    /** ... and 0x14 and 0x15 hold the levels that output pins drive. */
    predicate LatchPin(pin: nat)
      reads this
      requires Valid() && Sequential() && pin < 16
    {
      regs[0x14 + pin / 8][pin % 8]
    }
  }

  // ---------------------------------------------------------------- the driver

  lemma HalfAt(r: Reg, pin: nat)
    requires pin < 16
    ensures (if pin < 8 then Low(r)[pin] else High(r)[pin - 8]) == r[pin]
    ensures pin / 8 == (if pin < 8 then 0 else 1) && pin % 8 == if pin < 8 then pin else pin - 8
  {
  }

  /** Two registers that hold the halves hold every pin's bit. */
  lemma HalvesHold(r: Reg, d0: Octet, d1: Octet)
    requires d0 == Low(r) && d1 == High(r)
    ensures forall pin | 0 <= pin < 16 :: [d0, d1][pin / 8][pin % 8] == r[pin]
  {
    forall pin | 0 <= pin < 16
      ensures [d0, d1][pin / 8][pin % 8] == r[pin]
    {
      HalfAt(r, pin);
    }
  }

  class Driver {
    const ic: Ic
    const chip: Chip
    var outputLatch: Reg
    var dirMask: Reg

    ghost predicate Valid()
      reads this, chip
    {
      chip.Valid() && InputsHigh(ic, Cached()) && (!ic.IsPcf() ==> chip.Sequential())
    }

    function Cached(): Cache
      reads this
    {
      Cache(outputLatch, dirMask)
    }

    /** Every pin's output bit on the chip is the cached one. */
    ghost predicate LatchShown()
      reads this, chip
      requires Valid()
    {
      if ic.IsPcf() then forall pin | 0 <= pin < 8 :: chip.port[pin] == outputLatch[pin]
      else forall pin | 0 <= pin < 16 :: chip.LatchPin(pin) == outputLatch[pin]
    }

    /** Every pin's direction on the chip is the cached one; a PCF8574 has none. */
    ghost predicate DirShown()
      reads this, chip
      requires Valid()
    {
      ic.IsPcf() || forall pin | 0 <= pin < 16 :: chip.InputPin(pin) == dirMask[pin]
    }

    /** What a PCF8574 port shows is old or the cached latch. */
    ghost predicate PortIs(before: Octet)
      reads this, chip
    {
      ic.IsPcf() ==> chip.port == before || chip.port == Low(outputLatch)
    }

    constructor (ic: Ic, chip: Chip, latch: Reg, dir: Reg)
      requires chip.Valid() && InputsHigh(ic, Cache(latch, dir)) && (!ic.IsPcf() ==> chip.Sequential())
      ensures Valid() && this.ic == ic && this.chip == chip && Cached() == Cache(latch, dir)
    {
      this.ic, this.chip, outputLatch, dirMask := ic, chip, latch, dir;
    }

    method WriteLatch() returns (ok: bool)
      requires Valid()
      modifies chip
      ensures Valid() && (ok ==> LatchShown()) && chip.faults == old(chip.faults) + if ok then 0 else 1
      ensures PortIs(old(chip.port))
      ensures if ic.IsPcf() then chip.regs == old(chip.regs)
              else chip.regs[..0x14] == old(chip.regs)[..0x14] && chip.port == old(chip.port)
    {
      if ic.IsPcf() {
        ok := chip.WritePort(Low(outputLatch));
      } else {
        HalvesHold(outputLatch, Low(outputLatch), High(outputLatch));
        ok := chip.WriteTwo(OLAT, Low(outputLatch), High(outputLatch));
      }
    }

    /** The cache takes an accepted request whether or not the bus fails, and a successful
        write makes the register it goes to show the whole cache, whatever failed before. */
    method SetDirection(pin: nat, input: bool) returns (ok: bool)
      requires Valid()
      modifies this`outputLatch, this`dirMask, chip
      ensures Valid() && Cached() == Requested(ic, old(Cached()), Request.SetDirection(pin, input))
      ensures PortIs(old(chip.port))
      ensures pin >= ic.PinCount() ==> !ok && unchanged(chip)
      ensures pin < ic.PinCount() ==> chip.faults == old(chip.faults) + if ok then 0 else 1
      ensures ok ==> DirShown() && (ic.IsPcf() ==> LatchShown())
      ensures !ic.IsPcf() && old(LatchShown()) ==> LatchShown()
    {
      if pin >= ic.PinCount() {
        return false;
      }
      ghost var before := Cached();
      dirMask := dirMask[pin := input];
      if ic.IsPcf() {
        if input {
          outputLatch := outputLatch[pin := true];
        }
        ok := chip.WritePort(Low(outputLatch));
      } else {
        HalvesHold(dirMask, Low(dirMask), High(dirMask));
        ok := chip.WriteTwo(IODIR, Low(dirMask), High(dirMask));
      }
      RequestOnPin(ic, before, Request.SetDirection(pin, input), pin);
    }

    method WritePin(pin: nat, level: bool) returns (ok: bool)
      requires Valid()
      modifies this`outputLatch, chip
      ensures Valid() && Cached() == Requested(ic, old(Cached()), Request.WritePin(pin, level))
      ensures PortIs(old(chip.port))
      ensures pin >= ic.PinCount() ==> !ok && unchanged(chip)
      ensures pin < ic.PinCount() ==> chip.faults == old(chip.faults) + if ok then 0 else 1
      ensures ok ==> LatchShown()
      ensures old(DirShown()) ==> DirShown()
    {
      if pin >= ic.PinCount() {
        return false;
      }
      RequestOnPin(ic, Cached(), Request.WritePin(pin, level), pin);
      outputLatch := outputLatch[pin := level];
      if ic.IsPcf() {
        outputLatch := Or(outputLatch, LowByte(dirMask));
      }
      ok := WriteLatch();
    }

    method WritePort(values: Reg) returns (ok: bool)
      requires Valid()
      modifies this`outputLatch, chip
      ensures Valid() && Cached() == Requested(ic, old(Cached()), Request.WritePort(values))
      ensures PortIs(old(chip.port))
      ensures ok ==> LatchShown()
      ensures chip.faults == old(chip.faults) + if ok then 0 else 1
      ensures old(DirShown()) ==> DirShown()
    {
      RequestOnPin(ic, Cached(), Request.WritePort(values), 0);
      if ic.IsPcf() {
        outputLatch := Or(LowByte(values), LowByte(dirMask));
      } else {
        outputLatch := values;
      }
      ok := WriteLatch();
    }
  }

  function AllInputs(): Reg {
    seq(16, i => i < 8)
  }

  /** Open refuses a configuration that does not fit the part, and fails exactly if a transfer
      fails; otherwise cache and chip agree from the start. */
  method Open(config: Config, chip: Chip) returns (r: Option<Driver>)
    requires chip.Valid()
    modifies chip
    ensures chip.Valid()
    ensures !Acceptable(config) ==> r.None? && unchanged(chip)
    ensures Acceptable(config) ==> chip.faults == old(chip.faults) + if r.Some? then 0 else 1
    ensures r.Some? ==> fresh(r.value) && r.value.Valid() && r.value.chip == chip && r.value.ic == config.ic
    ensures r.Some? ==> r.value.LatchShown() && r.value.DirShown()
    ensures r.Some? && config.ic.IsPcf() ==>
              && (forall pin | 0 <= pin < 8 :: r.value.dirMask[pin] && r.value.outputLatch[pin] && chip.port[pin])
              && forall pin | 8 <= pin < 16 :: !r.value.dirMask[pin] && !r.value.outputLatch[pin]
    ensures r.Some? && !config.ic.IsPcf() ==>
              && (forall i | 0 <= i < 8 :: !chip.regs[0x0A][i])
              && forall reg | 0 <= reg < 22 && reg != 0x0A :: chip.regs[reg] == old(chip.regs[reg])
  {
    if !Acceptable(config) {
      return None;
    }
    var ok: bool;
    var latch, dir := AllInputs(), AllInputs();
    if config.ic.IsPcf() {
      ok := chip.WritePort(Low(latch));
      if !ok {
        return None;
      }
    } else {
      ok := chip.WriteOne(IOCON, seq(8, _ => false));
      if !ok {
        return None;
      }
      var d0, d1;
      ok, d0, d1 := chip.ReadTwo(IODIR);
      if !ok {
        return None;
      }
      dir := Join(d0, d1);
      ok, d0, d1 := chip.ReadTwo(OLAT);
      if !ok {
        return None;
      }
      latch := Join(d0, d1);
    }
    var driver := new Driver(config.ic, chip, latch, dir);
    r := Some(driver);
  }

  /** No request makes the pin an output. */
  predicate NeverOutput(reqs: seq<Request>, pin: nat) {
    forall k | 0 <= k < |reqs| :: reqs[k] != Request.SetDirection(pin, false)
  }

  lemma NeverOutputStep(ic: Ic, c: Cache, req: Request, pin: nat)
    requires ic.IsPcf() && pin < 8 && InputsHigh(ic, c) && c.dir[pin] && req != Request.SetDirection(pin, false)
    ensures Requested(ic, c, req).dir[pin] && Low(Requested(ic, c, req).latch)[pin]
  {
    RequestOnPin(ic, c, req, pin);
  }

  /** A PCF8574 pin that is an input and driven high. */
  ghost predicate IdlePin(driver: Driver, pin: nat)
    reads driver, driver.chip
    requires pin < 8
  {
    driver.dirMask[pin] && driver.chip.port[pin]
  }

  /** Any run of requests, whatever fails: the cache is the fold of the accepted ones, and if
      the last write to the latch succeeded the chip shows the whole of it. */
  method Serve(driver: Driver, reqs: seq<Request>) returns (done: seq<bool>)
    requires driver.Valid()
    modifies driver, driver.chip
    ensures driver.Valid() && driver.Cached() == After(driver.ic, old(driver.Cached()), reqs)
    ensures |done| == |reqs|
    ensures reqs != [] && done[|done| - 1] ==>
              if reqs[|reqs| - 1].SetDirection? then driver.DirShown() else driver.LatchShown()
    ensures driver.chip.faults - old(driver.chip.faults) <= |reqs|
    ensures driver.ic.IsPcf() ==>
              forall pin | 0 <= pin < 8 && old(IdlePin(driver, pin)) && NeverOutput(reqs, pin) :: IdlePin(driver, pin)
  {
    done := [];
    for i := 0 to |reqs|
      invariant driver.Valid() && driver.Cached() == After(driver.ic, old(driver.Cached()), reqs[..i])
      invariant |done| == i && driver.chip.faults - old(driver.chip.faults) <= i
      invariant i > 0 && done[i - 1] ==>
                  if reqs[i - 1].SetDirection? then driver.DirShown() else driver.LatchShown()
      invariant driver.ic.IsPcf() ==>
                  forall pin | 0 <= pin < 8 && old(IdlePin(driver, pin)) && NeverOutput(reqs, pin) ::
                    IdlePin(driver, pin)
    {
      assert reqs[..i + 1][..i] == reqs[..i];
      ghost var cached := driver.Cached();
      if driver.ic.IsPcf() {
        forall pin | 0 <= pin < 8 && old(IdlePin(driver, pin)) && NeverOutput(reqs, pin)
          ensures Requested(driver.ic, cached, reqs[i]).dir[pin]
                  && Low(Requested(driver.ic, cached, reqs[i]).latch)[pin]
        {
          assert IdlePin(driver, pin);
          NeverOutputStep(driver.ic, cached, reqs[i], pin);
        }
      }
      var ok;
      match reqs[i] {
        case SetDirection(pin, input) => ok := driver.SetDirection(pin, input);
        case WritePin(pin, level) => ok := driver.WritePin(pin, level);
        case WritePort(values) => ok := driver.WritePort(values);
      }
      done := done + [ok];
    }
    assert reqs[..|reqs|] == reqs;
  }

  /** Opening and serving: on a PCF8574, whatever fails after the opening, a pin that no request
      makes an output stays an input and its line stays high. */
  method OpenAndServe(config: Config, chip: Chip, reqs: seq<Request>) returns (r: Option<Driver>)
    requires chip.Valid()
    modifies chip
    ensures !Acceptable(config) ==> r.None?
    ensures r.Some? ==> fresh(r.value) && r.value.Valid() && r.value.chip == chip && r.value.ic == config.ic
    ensures r.Some? && config.ic.IsPcf() ==>
              forall pin | 0 <= pin < 8 && NeverOutput(reqs, pin) :: r.value.dirMask[pin] && chip.port[pin]
  {
    r := Open(config, chip);
    if r.Some? {
      ghost var driver := r.value;
      assert driver.ic.IsPcf() ==> forall pin | 0 <= pin < 8 :: IdlePin(driver, pin);
      var done := Serve(r.value, reqs);
      assert driver.ic.IsPcf() ==> forall pin | 0 <= pin < 8 && NeverOutput(reqs, pin) :: IdlePin(driver, pin);
    }
  }
}
