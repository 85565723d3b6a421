/** The 1-Wire master of one_wire.c over a wired-AND bus of 64-bit ROM devices. */
module OneWire {
  import opened Basics
  import opened Octets
  import opened RomOrder
  import opened RomSearch
  import Crc8

  const ROM_BITS: nat := 64

  type Rom64 = r: Rom | |r| == ROM_BITS witness Zeros(64)

  const CMD_READ_ROM: bv8 := 0x33
  const CMD_MATCH_ROM: bv8 := 0x55
  const CMD_SEARCH_ROM: bv8 := 0xF0

  /** The ROM code eight bytes spell. */
  ghost function RomOf(bytes: seq<bv8>): Rom64
    requires |bytes| == 8
  {
    BitsOf(bytes)
  }

  datatype Err = Ok | NotFound | Io | Timeout | InvalidState | InvalidArg

  // ---------------------------------------------------------------- the devices

  /** What the devices are doing between slots; all selected devices move in step. */
  datatype Phase =
    | Quiet
    | Command(got: Bits)
    | Search(bit: nat, slot: nat)
    | Reading(bit: nat)
    | Matching(bit: nat)
    | Addressed

  datatype Wire = Wire(phase: Phase, active: set<Rom64>)

  function AfterReset(devices: set<Rom64>): Wire {
    Wire(Command([]), devices)
  }

  /** The devices' answer to SEARCH ROM, READ ROM and MATCH ROM. */
  function Obey(command: Bits, active: set<Rom64>): Wire {
    if command == ByteBits(0xF0) then Wire(Search(0, 0), active)
    else if command == ByteBits(0x33) then Wire(Reading(0), active)
    else if command == ByteBits(0x55) then Wire(Matching(0), active)
    else Wire(Quiet, active)
  }

  /** Devices whose bit differs from the one written drop out. */
  function Keep(active: set<Rom64>, bit: nat, level: bool): set<Rom64>
    requires bit < ROM_BITS
  {
    set d | d in active && d[bit] == level
  }

  function AfterWrite(w: Wire, level: bool): Wire {
    match w.phase
    case Command(got) =>
      if |got| < 7 then w.(phase := Command(got + [level])) else Obey(got + [level], w.active)
    case Search(bit, slot) =>
      if bit >= ROM_BITS || slot != 2 then w.(phase := Quiet)
      else Wire(if bit + 1 == ROM_BITS then Addressed else Search(bit + 1, 0), Keep(w.active, bit, level))
    case Matching(bit) =>
      if bit >= ROM_BITS then w.(phase := Quiet)
      else Wire(if bit + 1 == ROM_BITS then Addressed else Matching(bit + 1), Keep(w.active, bit, level))
    case _ => w
  }

  /** Wired AND: the bus reads one unless some device pulls it low. */
  function Level(w: Wire): bool {
    match w.phase
    case Search(bit, slot) =>
      if bit >= ROM_BITS then true
      else if slot == 0 then forall d | d in w.active :: d[bit]
      else if slot == 1 then forall d | d in w.active :: !d[bit]
      else true
    case Reading(bit) => bit >= ROM_BITS || forall d | d in w.active :: d[bit]
    case _ => true
  }

  function AfterRead(w: Wire): Wire {
    match w.phase
    case Search(bit, slot) => w.(phase := if slot < 2 then Search(bit, slot + 1) else Quiet)
    case Reading(bit) => w.(phase := if bit + 1 < ROM_BITS then Reading(bit + 1) else Addressed)
    case _ => w
  }

  function WriteAll(w: Wire, levels: Bits): Wire {
    if levels == [] then w else AfterWrite(WriteAll(w, levels[..|levels| - 1]), levels[|levels| - 1])
  }

  lemma WriteSnoc(w: Wire, levels: Bits, level: bool)
    ensures WriteAll(w, levels + [level]) == AfterWrite(WriteAll(w, levels), level)
  {
    assert (levels + [level])[..|levels|] == levels;
  }

  lemma {:induction false} WriteConcat(w: Wire, a: Bits, b: Bits)
    ensures WriteAll(w, a + b) == WriteAll(WriteAll(w, a), b)
    decreases |b|
  {
    if b == [] {
      assert a + b == a;
    } else {
      WriteConcat(w, a, b[..|b| - 1]);
      assert a + b == (a + b[..|b| - 1]) + [b[|b| - 1]];
      WriteSnoc(w, a + b[..|b| - 1], b[|b| - 1]);
    }
  }

  /** A command byte after reset is collected bit by bit and then obeyed. */
  lemma {:induction false} CommandByte(devices: set<Rom64>, command: Octet, n: nat)
    requires n <= 8
    ensures WriteAll(AfterReset(devices), command[..n]) ==
            if n < 8 then Wire(Command(command[..n]), devices) else Obey(command, devices)
  {
    if n > 0 {
      CommandByte(devices, command, n - 1);
      assert command[..n] == command[..n - 1] + [command[n - 1]];
      WriteSnoc(AfterReset(devices), command[..n - 1], command[n - 1]);
      assert n == 8 ==> command[..8] == command;
    }
  }

  /** The devices a MATCH ROM has not deselected after `k` bits of `rom`. */
  function Matched(devices: set<Rom64>, rom: Rom64, k: nat): set<Rom64>
    requires k <= ROM_BITS
  {
    set d | d in devices && d[..k] == rom[..k]
  }

  lemma KeepNarrows(devices: set<Rom64>, rom: Rom64, k: nat)
    requires k < ROM_BITS
    ensures Keep(Matched(devices, rom, k), k, rom[k]) == Matched(devices, rom, k + 1)
  {
    forall d: Rom64 | d in devices ensures d[..k + 1] == rom[..k + 1] <==> d[..k] == rom[..k] && d[k] == rom[k] {
      assert d[..k + 1] == d[..k] + [d[k]] && rom[..k + 1] == rom[..k] + [rom[k]];
    }
  }

  /** MATCH ROM narrows the bus to the devices carrying the bits written so far. */
  lemma {:induction false} MatchingNarrows(devices: set<Rom64>, rom: Rom64, k: nat)
    requires k <= ROM_BITS
    ensures WriteAll(Wire(Matching(0), devices), rom[..k]) ==
            Wire(if k == ROM_BITS then Addressed else Matching(k), Matched(devices, rom, k))
  {
    var w := Wire(Matching(0), devices);
    if k == 0 {
      assert rom[..0] == [];
      assert devices == Matched(devices, rom, 0);
    } else {
      MatchingNarrows(devices, rom, k - 1);
      assert rom[..k] == rom[..k - 1] + [rom[k - 1]];
      WriteSnoc(w, rom[..k - 1], rom[k - 1]);
      KeepNarrows(devices, rom, k - 1);
    }
  }

  /** What a READ ROM returns: every bit the wired AND over all devices. */
  ghost function WiredAnd(devices: set<Rom64>): Rom64 {
    seq(ROM_BITS, k requires 0 <= k < ROM_BITS => forall d: Rom64 | d in devices :: d[k])
  }

  lemma NextOctet(bits: Bits, k: nat)
    requires k + 8 <= |bits|
    ensures bits[..k] + bits[k..k + 8] == bits[..k + 8]
  {
  }

  lemma SoleDevice(d: Rom64)
    ensures WiredAnd({d}) == d
  {
    assert forall k | 0 <= k < ROM_BITS :: WiredAnd({d})[k] == d[k];
  }

  /** Bit `i` of a byte under collection is the `i`-th level read. */
  lemma Collected(levels: Bits, i: nat)
    requires i < |levels| <= 8
    ensures (levels[..i] + Zeros(8 - i))[i := levels[i]] == levels[..i + 1] + Zeros(7 - i)
  {
  }

  function ReadMany(w: Wire, n: nat): Wire {
    if n == 0 then w else AfterRead(ReadMany(w, n - 1))
  }

  function Levels(w: Wire, n: nat): (r: Bits)
    ensures |r| == n
  {
    if n == 0 then [] else Levels(w, n - 1) + [Level(ReadMany(w, n - 1))]
  }

  lemma {:induction false} ReadingLevels(devices: set<Rom64>, k: nat, n: nat)
    requires k + n <= ROM_BITS
    ensures Levels(Wire(Reading(k), devices), n) == WiredAnd(devices)[k..k + n]
    ensures ReadMany(Wire(Reading(k), devices), n) ==
            Wire(if n == 0 || k + n < ROM_BITS then Reading(k + n) else Addressed, devices)
  {
    if n > 0 {
      ReadingLevels(devices, k, n - 1);
      var wired := WiredAnd(devices);
      assert wired[k..k + n] == wired[k..k + n - 1] + [wired[k + n - 1]];
    }
  }

  /** The bus end of the transactions. Each transaction may fail on its own: it is counted,
      its status is not Ok (a reception may also just be short), and it leaves the devices in
      any state. A transaction that does not fail follows the protocol. */
  class Bus {
    const devices: set<Rom64>
    var wire: Wire
    var faults: nat
    var status: Err
    var captured: Bits

    constructor (devices: set<Rom64>)
      ensures this.devices == devices && faults == 0
    {
      this.devices := devices;
      wire, faults, status, captured := Wire(Quiet, {}), 0, Ok, [];
    }

    /** A failed transaction. */
    method Fault() returns (err: Err)
      modifies this
      ensures faults == old(faults) + 1 && err == status != Ok && captured == old(captured)
    {
      wire, faults, err := *, faults + 1, *;
      if err == Ok {
        err := Timeout;
      }
      status := err;
    }

    /** Reset pulse and presence sampling. */
    method Reset() returns (err: Err)
      modifies this
      ensures err == status
      ensures faults == old(faults) ==> wire == AfterReset(devices) && err == if devices == {} then NotFound else Ok
      ensures faults != old(faults) ==> faults == old(faults) + 1 && err != Ok
    {
      if * {
        err := Fault();
      } else {
        wire := AfterReset(devices);
        status := if devices == {} then NotFound else Ok;
        err := status;
      }
    }

    /** One transmission of write slots. */
    method WriteSlots(levels: Bits) returns (err: Err)
      modifies this
      ensures err == status
      ensures faults == old(faults) ==> err == Ok && wire == WriteAll(old(wire), levels)
      ensures faults != old(faults) ==> faults == old(faults) + 1 && err != Ok
    {
      if * {
        err := Fault();
      } else {
        wire, status := WriteAll(wire, levels), Ok;
        err := Ok;
      }
    }

    /** One transmission of read slots and the levels captured. A reception that loses slots
        still reports Ok. */
    method ReadSlots(n: nat) returns (err: Err)
      modifies this
      ensures err == status && |captured| <= n
      ensures faults == old(faults) ==> err == Ok && captured == Levels(old(wire), n) && wire == ReadMany(old(wire), n)
      ensures faults != old(faults) ==> faults == old(faults) + 1 && (err == Ok ==> |captured| < n)
    {
      var lost: nat := *;
      if 0 < lost <= n {
        err := Fault();
        captured := Levels(wire, n - lost);
        var short: bool := *;
        if short {
          err, status := Ok, Ok;
        }
      } else {
        captured := Levels(wire, n);
        wire, status, err := ReadMany(wire, n), Ok, Ok;
      }
    }

    /** One read slot. */
    method ReadSlot() returns (err: Err, level: bool)
      modifies this
      ensures err == status
      ensures faults == old(faults) ==> err == Ok && level == Level(old(wire)) && wire == AfterRead(old(wire))
      ensures faults != old(faults) ==> faults == old(faults) + 1 && err != Ok
    {
      if * {
        err := Fault();
        level := *;
      } else {
        level := Level(wire);
        wire, status, err := AfterRead(wire), Ok, Ok;
      }
    }
  }

  /** `k` bits of a descent are done and the devices wait for bit `k`. */
  ghost predicate OnPath(w: Wire, devices: set<Rom64>, prev: Rom64, last: nat, bits: Rom64, k: nat, lastZero: nat) {
    && k <= ROM_BITS
    && (forall j | k <= j < ROM_BITS :: !bits[j])
    && w.phase == (if k < ROM_BITS then Phase.Search(k, 0) else Addressed)
    && Descent(devices, prev, last, bits, k, lastZero, w.active)
  }

  /** Two reads never find both directions closed. */
  lemma ReadsOnPath(w: Wire, devices: set<Rom64>, prev: Rom64, last: nat, bits: Rom64, k: nat, lastZero: nat)
    requires OnPath(w, devices, prev, last, bits, k, lastZero) && k < ROM_BITS
    ensures Level(w) == !Branch(devices, bits, k, false)
    ensures Level(AfterRead(w)) == !Branch(devices, bits, k, true)
    ensures !(Level(w) && Level(AfterRead(w)))
  {
    ReadsReportBranches(devices, bits, k, w.active);
    BothClosedImpossible(devices, bits, k, w.active);
  }

  /** Two reads and the write of the chosen direction move the path on by one bit. */
  lemma StepOnPath(w: Wire, devices: set<Rom64>, prev: Rom64, last: nat, bits: Rom64, k: nat, lastZero: nat, dir: bool)
    requires OnPath(w, devices, prev, last, bits, k, lastZero) && k < ROM_BITS
    requires dir == Choice(Level(w), Level(AfterRead(w)), prev, last, k)
    ensures OnPath(WriteAll(AfterRead(AfterRead(w)), [dir]), devices, prev, last, bits[k := dir], k + 1,
                   if Level(w) == Level(AfterRead(w)) && !dir then k + 1 else lastZero)
  {
    ReadsOnPath(w, devices, prev, last, bits, k, lastZero);
    DescentStep(devices, prev, last, bits, k, lastZero, w.active, Level(w), Level(AfterRead(w)));
    OneWrite(AfterRead(AfterRead(w)), dir);
  }

  lemma OneWrite(w: Wire, level: bool)
    ensures WriteAll(w, [level]) == AfterWrite(w, level)
  {
    WriteSnoc(w, [], level);
    assert [] + [level] == [level];
  }

  /** A ROM passes the stored-CRC comparison. */
  ghost predicate CrcValid(rom: Rom) {
    |rom| == ROM_BITS && rom[56..] == Crc8.Crc(rom[..56])
  }

  /** What the master keeps between searches. */
  datatype Mark = Mark(bits: Rom64, discrepancy: nat, lastDevice: bool)

  ghost predicate Stands(devices: set<Rom64>, at: Position, mark: Mark) {
    && Uniform(devices, ROM_BITS)
    && match at {
         case Start => mark.discrepancy == 0 && !mark.lastDevice
         case After(rom) =>
           && rom == mark.bits && rom in devices
           && mark.discrepancy == LastFork(devices, rom, ROM_BITS)
           && mark.lastDevice == (mark.discrepancy == 0)
       }
  }

  /** A search that found `r` answered properly: it hands `r` out and keeps standing after it
      if the stored CRC is right, and reports an error if not. */
  ghost predicate Answers(devices: set<Rom64>, r: Rom64, err: Err, rom: seq<bv8>, last: bool, mark: Mark)
    requires |rom| == 8
  {
    && err == (if CrcValid(r) then Ok else Io)
    && (err == Ok ==>
          && RomOf(rom) == r
          && Stands(devices, After(r), mark)
          && last == mark.lastDevice
          && (last <==> forall d | d in devices :: !Less(r, d)))
  }

  class Master {
    const bus: Bus
    const searchRom: array<bv8>
    var searchLastDiscrepancy: nat
    var searchLastDeviceFlag: bool

    ghost predicate Valid()
      reads this
    {
      searchRom.Length == 8
    }

    constructor (bus: Bus)
      ensures Valid() && this.bus == bus && fresh(searchRom) && IsReset()
    {
      this.bus := bus;
      searchRom := new bv8[8];
      new;
      SearchReset();
    }

    /** The state search_reset leaves. */
    ghost predicate IsReset()
      reads this, searchRom
    {
      && (forall i | 0 <= i < searchRom.Length :: searchRom[i] == 0)
      && searchLastDiscrepancy == 0 && !searchLastDeviceFlag
    }

    ghost function SearchBits(): Rom64
      reads this, searchRom
      requires Valid()
    {
      RomOf(searchRom[..])
    }

    ghost function SavedMark(): Mark
      reads this, searchRom
      requires Valid()
    {
      Mark(SearchBits(), searchLastDiscrepancy, searchLastDeviceFlag)
    }

    /** The saved search state stands at `at` in a pass over the bus. */
    ghost predicate StandsAt(at: Position)
      reads this, searchRom
    {
      Valid() && Stands(bus.devices, at, SavedMark())
    }

    /** blusys_one_wire_search_reset. */
    method SearchReset()
      requires Valid()
      modifies this`searchLastDiscrepancy, this`searchLastDeviceFlag, searchRom
      ensures IsReset()
    {
      for i := 0 to 8
        invariant forall j | 0 <= j < i :: searchRom[j] == 0
      {
        searchRom[i] := 0;
      }
      searchLastDiscrepancy := 0;
      searchLastDeviceFlag := false;
    }

    /** blusys_one_wire_write_byte: least significant bit first, in one transmission. */
    method WriteByte(byte: bv8) returns (err: Err)
      modifies bus
      ensures err == bus.status
      ensures bus.faults == old(bus.faults) ==> err == Ok && bus.wire == WriteAll(old(bus.wire), ByteBits(byte))
      ensures bus.faults != old(bus.faults) ==> bus.faults == old(bus.faults) + 1 && err != Ok
    {
      var levels: Bits := [];
      for i := 0 to 8
        invariant levels == ByteBits(byte)[..i]
        invariant unchanged(bus)
      {
        ExtractBit(byte, i);
        levels := levels + [(byte >> i) & 1 == 1];
      }
      assert levels == ByteBits(byte);
      err := bus.WriteSlots(levels);
    }

    /** blusys_one_wire_read_byte: least significant bit first; slots that were not captured
        read as 0, and only the transaction's own failure is reported. */
    method ReadByte() returns (err: Err, byte: bv8)
      modifies bus
      ensures err == bus.status && |bus.captured| <= 8
      ensures err == Ok ==> ByteBits(byte) == bus.captured + Zeros(8 - |bus.captured|)
      ensures bus.faults == old(bus.faults) ==>
                err == Ok && bus.captured == Levels(old(bus.wire), 8) && bus.wire == ReadMany(old(bus.wire), 8)
      ensures bus.faults != old(bus.faults) ==> bus.faults == old(bus.faults) + 1 && (err == Ok ==> |bus.captured| < 8)
    {
      err := bus.ReadSlots(8);
      byte := 0;
      if err != Ok {
        return;
      }
      byte := Collect(bus.captured);
    }

    /** The collecting loop: at most eight levels into a byte. */
    static method Collect(levels: Bits) returns (byte: bv8)
      requires |levels| <= 8
      ensures ByteBits(byte) == levels + Zeros(8 - |levels|)
    {
      byte := 0;
      var i := 0;
      while i < 8 && i < |levels|
        invariant i <= |levels|
        invariant ByteBits(byte) == levels[..i] + Zeros(8 - i)
      {
        ghost var bits := ByteBits(byte);
        if levels[i] {
          OrMask(byte, i);
          byte := byte | Mask(i);
        }
        assert ByteBits(byte) == bits[i := levels[i]];
        Collected(levels, i);
        i := i + 1;
      }
      assert levels[..|levels|] == levels;
    }

    /** blusys_one_wire_write: the buffer's bits in order; the first failing byte ends it with
        that transmission's status. */
    method Write(data: array<bv8>) returns (err: Err)
      modifies bus
      ensures data.Length == 0 ==> err == InvalidArg && unchanged(bus)
      ensures data.Length > 0 ==> err == bus.status
      ensures data.Length > 0 && bus.faults == old(bus.faults) ==>
                err == Ok && bus.wire == WriteAll(old(bus.wire), BitsOf(data[..]))
      ensures bus.faults != old(bus.faults) ==> bus.faults == old(bus.faults) + 1 && err != Ok
    {
      if data.Length == 0 {
        return InvalidArg;
      }
      err := Ok;
      for i := 0 to data.Length
        invariant err == Ok && (i > 0 ==> bus.status == Ok)
        invariant bus.faults == old(bus.faults) && bus.wire == WriteAll(old(bus.wire), BitsOf(data[..i]))
      {
        err := WriteByte(data[i]);
        if err != Ok {
          return;
        }
        WriteConcat(old(bus.wire), BitsOf(data[..i]), ByteBits(data[i]));
        assert data[..i + 1][..i] == data[..i];
      }
      assert data[..data.Length] == data[..];
    }

    /** blusys_one_wire_match_rom: on a bus with devices, afterwards exactly the device with
        this ROM is addressed, or none when it is absent; a failed transaction is reported. */
    method MatchRom(rom: array<bv8>) returns (err: Err)
      requires rom.Length == 8
      modifies bus
      ensures bus.faults == old(bus.faults) && bus.devices == {} ==> err == NotFound
      ensures bus.faults == old(bus.faults) && bus.devices != {} ==>
                err == Ok && bus.wire == Wire(Addressed, bus.devices * {RomOf(rom[..])})
      ensures bus.faults != old(bus.faults) ==> bus.faults == old(bus.faults) + 1 && err == bus.status != Ok
    {
      err := Begin(CMD_MATCH_ROM);
      if err != Ok {
        return;
      }
      ghost var target := RomOf(rom[..]);
      MatchingNarrows(bus.devices, target, ROM_BITS);
      assert target[..ROM_BITS] == target;
      MatchedWhole(bus.devices, target);
      err := Write(rom);
    }

    /** blusys_one_wire_read_rom: whatever happened on the bus, a ROM that is accepted has the
        right stored CRC. Without faults the wired AND of all ROMs comes back, which is the ROM
        itself when one device answers. */
    method ReadRom(rom: array<bv8>) returns (err: Err)
      requires rom.Length == 8
      modifies bus, rom
      ensures err == Ok ==> CrcValid(RomOf(rom[..]))
      ensures bus.faults == old(bus.faults) && bus.devices == {} ==> err == NotFound
      ensures bus.faults == old(bus.faults) && bus.devices != {} ==>
                && RomOf(rom[..]) == WiredAnd(bus.devices)
                && err == if CrcValid(WiredAnd(bus.devices)) then Ok else Io
      ensures if bus.status != Ok then err == bus.status else err == Ok || err == Io
    {
      err := Begin(CMD_READ_ROM);
      if err != Ok {
        return;
      }
      for i := 0 to 8
        invariant old(bus.faults) <= bus.faults && bus.status == Ok
        invariant bus.faults == old(bus.faults) ==>
                    && bus.devices != {}
                    && bus.wire == Wire(if i < 8 then Reading(8 * i) else Addressed, bus.devices)
                    && BitsOf(rom[..i]) == WiredAnd(bus.devices)[..8 * i]
      {
        ReadingLevels(bus.devices, 8 * i, 8);
        var byte;
        err, byte := ReadByte();
        rom[i] := byte;
        assert rom[..i + 1] == rom[..i] + [byte];
        NextOctet(WiredAnd(bus.devices), 8 * i);
        if err != Ok {
          return;
        }
      }
      var crc := Crc8.Crc8(rom, 7);
      assert rom[..8] == rom[..];
      StoredByte(rom[..], crc);
      err := if crc != rom[7] then Io else Ok;
    }

    /** On a bus with devices, `k` bits of the descent towards the next ROM are done. */
    ghost predicate Descending(newRom: array<bv8>, k: nat, lastZero: nat)
      reads this, searchRom, newRom, bus
      requires Valid() && newRom.Length == 8
    {
      OnPath(bus.wire, bus.devices, SearchBits(), searchLastDiscrepancy, RomOf(newRom[..]), k, lastZero)
    }

    /** The direction the loop body picks where both directions are open. */
    method PickDirection(idBitNumber: nat) returns (direction: bool)
      requires Valid() && 1 <= idBitNumber <= 64
      ensures direction == Direction(SearchBits(), searchLastDiscrepancy, idBitNumber - 1)
    {
      var byteIdx, bit := (idBitNumber - 1) / 8, (idBitNumber - 1) % 8;
      var bitMask: bv8 := 1 << bit;
      MaskIsShift(bit);
      if idBitNumber < searchLastDiscrepancy {
        SearchedBit(searchRom[..], idBitNumber - 1);
        direction := searchRom[byteIdx] & bitMask != 0;
      } else if idBitNumber == searchLastDiscrepancy {
        direction := true;
      } else {
        direction := false;
      }
    }

    static method SetRomBit(newRom: array<bv8>, k: nat)
      requires newRom.Length == 8 && k < 64
      modifies newRom
      ensures RomOf(newRom[..]) == old(RomOf(newRom[..]))[k := true]
    {
      SetBitOf(newRom[..], k);
      var byteIdx, bitMask := k / 8, Mask(k % 8);
      newRom[byteIdx] := newRom[byteIdx] | bitMask;
    }

    /** One pass of the 64-step loop: two reads, one decision, one write. */
    method SearchStep(newRom: array<bv8>, idBitNumber: nat, lastZero: nat) returns (err: Err, zero: nat)
      requires Valid() && newRom.Length == 8 && newRom != searchRom && 1 <= idBitNumber <= 64
      modifies bus, newRom
      ensures bus.faults >= old(bus.faults) && (bus.faults != old(bus.faults) ==> err == bus.status != Ok)
      ensures bus.faults == old(bus.faults) && old(Descending(newRom, idBitNumber - 1, lastZero)) ==>
                err == Ok && Descending(newRom, idBitNumber, zero)
    {
      var k := idBitNumber - 1;
      ghost var bits, start := RomOf(newRom[..]), bus.wire;
      ghost var tracked := Descending(newRom, k, lastZero);
      zero := lastZero;
      var idBit, cmpIdBit;
      err, idBit := bus.ReadSlot();
      if err != Ok {
        return;
      }
      err, cmpIdBit := bus.ReadSlot();
      if err != Ok {
        return;
      }
      if tracked {
        ReadsOnPath(start, bus.devices, SearchBits(), searchLastDiscrepancy, bits, k, lastZero);
      }
      if idBit && cmpIdBit {
        err := NotFound;
        return;
      }
      var direction := idBit;
      if idBit == cmpIdBit {
        direction := PickDirection(idBitNumber);
        if !direction {
          zero := idBitNumber;
        }
      }
      if direction {
        SetRomBit(newRom, k);
      }
      if tracked {
        assert RomOf(newRom[..]) == bits[k := direction];
        StepOnPath(start, bus.devices, SearchBits(), searchLastDiscrepancy, bits, k, lastZero, direction);
      }
      err := bus.WriteSlots([direction]);
    }

    /** The whole loop: builds the next ROM in `newRom`. */
    method Descend(newRom: array<bv8>) returns (err: Err, lastZero: nat)
      requires Valid() && newRom.Length == 8 && newRom != searchRom
      modifies bus, newRom
      ensures bus.faults >= old(bus.faults) && (bus.faults != old(bus.faults) ==> err == bus.status != Ok)
      ensures bus.faults == old(bus.faults) && old(Descending(newRom, 0, 0)) ==>
                err == Ok && Descending(newRom, 64, lastZero)
    {
      ghost var tracked := Descending(newRom, 0, 0);
      err, lastZero := Ok, 0;
      for idBitNumber := 1 to 65
        invariant err == Ok && bus.faults == old(bus.faults)
        invariant tracked ==> Descending(newRom, idBitNumber - 1, lastZero)
      {
        err, lastZero := SearchStep(newRom, idBitNumber, lastZero);
        if err != Ok {
          return;
        }
      }
    }

    /** Reset pulse and command byte: every device enters the search. */
    method Begin(command: bv8) returns (err: Err)
      modifies bus
      ensures err == bus.status
      ensures bus.faults == old(bus.faults) && bus.devices == {} ==> err == NotFound
      ensures bus.faults == old(bus.faults) && bus.devices != {} ==>
                err == Ok && bus.wire == Obey(ByteBits(command), bus.devices)
      ensures bus.faults != old(bus.faults) ==> bus.faults == old(bus.faults) + 1 && err != Ok
    {
      err := bus.Reset();
      if err != Ok {
        return;
      }
      CommandByte(bus.devices, ByteBits(command), 8);
      assert ByteBits(command)[..8] == ByteBits(command);
      err := WriteByte(command);
    }

    /** The end of a successful search: the found path becomes the saved one. */
    method Commit(newRom: array<bv8>, lastZero: nat)
      requires Valid() && newRom.Length == 8
      modifies this`searchLastDiscrepancy, this`searchLastDeviceFlag, searchRom
      ensures searchRom[..] == old(newRom[..])
      ensures searchLastDiscrepancy == lastZero && searchLastDeviceFlag == (lastZero == 0)
    {
      forall i | 0 <= i < 8 {
        searchRom[i] := newRom[i];
      }
      searchLastDiscrepancy := lastZero;
      searchLastDeviceFlag := lastZero == 0;
    }

    /** blusys_one_wire_search up to the CRC test. */
    method FindNext(ghost at: Position) returns (err: Err, newRom: array<bv8>, lastZero: nat)
      requires Valid()
      modifies bus
      ensures fresh(newRom) && newRom.Length == 8
      ensures bus.faults >= old(bus.faults) && (bus.faults != old(bus.faults) ==> err == bus.status != Ok)
      ensures bus.faults == old(bus.faults) && bus.devices == {} ==> err == NotFound
      ensures bus.faults == old(bus.faults) && bus.devices != {} && StandsAt(at) && !searchLastDeviceFlag ==>
                && err == Ok
                && IsSuccessor(bus.devices, ROM_BITS, at, RomOf(newRom[..]))
                && lastZero == LastFork(bus.devices, RomOf(newRom[..]), ROM_BITS)
                && (lastZero == 0 <==> forall d | d in bus.devices :: !Less(RomOf(newRom[..]), d))
    {
      newRom, lastZero := new bv8[8](_ => 0), 0;
      ZeroBytes(newRom[..]);
      err := Begin(CMD_SEARCH_ROM);
      if err != Ok {
        return;
      }
      ghost var tracked := StandsAt(at) && !searchLastDeviceFlag;
      if tracked {
        DescentStart(bus.devices, SearchBits(), searchLastDiscrepancy, RomOf(newRom[..]));
      }
      err, lastZero := Descend(newRom);
      if tracked && bus.faults == old(bus.faults) {
        DescentYieldsSuccessor(bus.devices, ROM_BITS, at, SearchBits(), searchLastDiscrepancy,
                               RomOf(newRom[..]), lastZero, bus.wire.active);
      }
    }

    /** The CRC test and the end of the call. */
    method Finish(newRom: array<bv8>, lastZero: nat) returns (err: Err, rom: seq<bv8>, last: bool)
      requires Valid() && newRom.Length == 8 && newRom != searchRom
      modifies this`searchLastDiscrepancy, this`searchLastDeviceFlag, searchRom
      ensures |rom| == 8 && err == if CrcValid(old(RomOf(newRom[..]))) then Ok else Io
      ensures err == Ok ==> rom == old(newRom[..]) && last == (lastZero == 0)
      ensures err == Ok ==> SavedMark() == Mark(RomOf(rom), lastZero, last)
      ensures err != Ok ==> IsReset()
    {
      rom, last := seq(8, _ => 0), false;
      var crc := Crc8.Crc8(newRom, 7);
      StoredByte(newRom[..], crc);
      if crc != newRom[7] {
        SearchReset();
        return Io, rom, last;
      }
      Commit(newRom, lastZero);
      err, rom, last := Ok, newRom[..], searchLastDeviceFlag;
    }

    /** blusys_one_wire_search: a failed transaction is reported, and after every error the
        state is that of search_reset. */
    method Search(ghost at: Position) returns (err: Err, rom: seq<bv8>, last: bool)
      requires Valid()
      modifies this`searchLastDiscrepancy, this`searchLastDeviceFlag, searchRom, bus
      ensures |rom| == 8
      ensures err == Ok ==> CrcValid(RomOf(rom))
      ensures err != Ok ==> IsReset()
      ensures bus.faults >= old(bus.faults) && (bus.faults != old(bus.faults) ==> err == bus.status != Ok)
      ensures old(searchLastDeviceFlag) ==> err == NotFound && unchanged(bus)
      ensures bus.faults == old(bus.faults) && bus.devices == {} ==> err == NotFound
      ensures bus.faults == old(bus.faults) && bus.devices != {} && old(StandsAt(at)) && !old(searchLastDeviceFlag) ==>
                exists r: Rom64 :: IsSuccessor(bus.devices, ROM_BITS, at, r)
                                   && Answers(bus.devices, r, err, rom, last, SavedMark())
    {
      rom, last := seq(8, _ => 0), false;
      if searchLastDeviceFlag {
        SearchReset();
        return NotFound, rom, last;
      }
      ghost var tracked := bus.devices != {} && StandsAt(at) && !searchLastDeviceFlag;
      var newRom, lastZero;
      err, newRom, lastZero := FindNext(at);
      if err != Ok {
        SearchReset();
        return;
      }
      ghost var found := RomOf(newRom[..]);
      err, rom, last := Finish(newRom, lastZero);
      assert tracked ==> Answers(bus.devices, found, err, rom, last, SavedMark());
    }
  }

  lemma MatchedWhole(devices: set<Rom64>, rom: Rom64)
    ensures Matched(devices, rom, ROM_BITS) == devices * {rom}
  {
    forall d: Rom64 ensures d[..ROM_BITS] == d {
    }
  }

  lemma SearchedBit(data: seq<bv8>, k: nat)
    requires |data| == 8 && k < 64
    ensures (data[k / 8] & Mask(k % 8) != 0) == BitsOf(data)[k]
  {
    var i, j := k / 8, k % 8;
    assert k == 8 * i + j;
    BitsOfAt(data, i, j);
    TestBit(data[i], j);
  }

  /** The byte comparison decides CRC validity. */
  lemma StoredByte(data: seq<bv8>, crc: bv8)
    requires |data| == 8 && ByteBits(crc) == Crc8.Crc(BitsOf(data[..7]))
    ensures CrcValid(BitsOf(data)) <==> crc == data[7]
  {
    assert BitsOf(data)[..56] == BitsOf(data[..7]) && BitsOf(data)[56..] == ByteBits(data[7]);
    if ByteBits(crc) == ByteBits(data[7]) {
      ByteBitsInjective(crc, data[7]);
    }
  }

  // ---------------------------------------------------------------- whole runs

  datatype Reply = Reply(err: Err, rom: seq<bv8>, last: bool)

  /** How many ROMs of a list a pass can return: those before the first whose stored CRC is
      wrong, all of them if there is none. */
  ghost function PassLength(s: seq<Rom>): (n: nat)
    ensures n <= |s|
    ensures forall i | 0 <= i < n :: CrcValid(s[i])
    ensures n < |s| ==> !CrcValid(s[n])
  {
    if s == [] then 0
    else
      var n := PassLength(s[..|s| - 1]);
      if n == |s| - 1 && CrcValid(s[n]) then |s| else n
  }

  /** The place in its pass of the call that follows the calls described by `faulted`: a pass
      ends with the call after its last ROM, or with a call that meets a fault. */
  function Place(faulted: seq<bool>, n: nat): (p: nat)
    ensures p <= n
  {
    if faulted == [] then 0
    else
      var p := Place(faulted[..|faulted| - 1], n);
      if faulted[|faulted| - 1] || p == n then 0 else p + 1
  }

  /** The reply of a call at place `p` on a bus listed by `s`. */
  ghost predicate Expected(s: seq<Rom>, p: nat, fault: bool, reply: Reply) {
    if fault then reply.err != Ok
    else if p < PassLength(s) then
      reply.err == Ok && |reply.rom| == 8 && RomOf(reply.rom) == s[p] && reply.last == (p + 1 == |s|)
    else
      reply.err == if p == |s| then NotFound else Io
  }

  ghost predicate AllExpected(s: seq<Rom>, faulted: seq<bool>, replies: seq<Reply>) {
    && |faulted| == |replies|
    && forall i | 0 <= i < |replies| :: Expected(s, Place(faulted[..i], PassLength(s)), faulted[i], replies[i])
  }

  /** The position after `p` ROMs of a pass. */
  function Reached(s: seq<Rom>, p: nat): Position
    requires p <= |s|
  {
    if p == 0 then Start else After(s[p - 1])
  }

  /** The successor of a position in a listed bus is the next entry of the list. */
  lemma SuccessorIsNextEntry(devices: set<Rom>, s: seq<Rom>, n: nat, p: nat, r: Rom)
    requires Listing(devices, s, n) && Uniform(devices, n) && p <= |s|
    requires IsSuccessor(devices, n, Reached(s, p), r)
    ensures p < |s| && r == s[p]
    ensures (forall d | d in devices :: !Less(r, d)) <==> p + 1 == |s|
  {
    if p == 0 {
      FirstOfListing(devices, s, n, r);
    } else {
      NextOfListing(devices, s, n, p - 1, r);
    }
    NoForkIffGreatest(devices, r);
    LastOfListing(devices, s, n, p);
  }

  /** A bus with the ROMs listed by `s`. */
  ghost predicate Populated(bus: Bus, s: seq<Rom>) {
    s != [] && Uniform(bus.devices, ROM_BITS) && Listing(bus.devices, s, ROM_BITS)
  }

  /** The master has found `p` ROMs of a pass. */
  ghost predicate Ready(m: Master, s: seq<Rom>, p: nat)
    reads m, m.searchRom
    requires p <= |s|
  {
    m.StandsAt(Reached(s, p)) && m.searchLastDeviceFlag == (p == |s|)
  }

  /** A proper answer at place `p` of a listed bus is entry `p`, or an error if its stored CRC
      is wrong. */
  lemma AnswerIsEntry(devices: set<Rom64>, s: seq<Rom>, p: nat, r: Rom64, err: Err, rom: seq<bv8>, last: bool,
                      mark: Mark)
    requires Listing(devices, s, ROM_BITS) && Uniform(devices, ROM_BITS) && p <= |s| && |rom| == 8
    requires IsSuccessor(devices, ROM_BITS, Reached(s, p), r)
    requires Answers(devices, r, err, rom, last, mark)
    ensures p < |s| && err == if CrcValid(s[p]) then Ok else Io
    ensures err == Ok ==> RomOf(rom) == s[p] && last == (p + 1 == |s|)
    ensures err == Ok ==> Stands(devices, Reached(s, p + 1), mark) && mark.lastDevice == (p + 1 == |s|)
  {
    SuccessorIsNextEntry(devices, s, ROM_BITS, p, r);
  }

  /** One call at place `p` of a pass. */
  method CallAt(m: Master, ghost s: seq<Rom>, ghost p: nat) returns (reply: Reply, ghost fault: bool)
    requires Populated(m.bus, s) && p <= PassLength(s) && Ready(m, s, p)
    modifies m, m.searchRom, m.bus
    ensures fault == (m.bus.faults != old(m.bus.faults)) && m.bus.faults >= old(m.bus.faults)
    ensures fault ==> reply.err == m.bus.status
    ensures Ready(m, s, if fault || p == PassLength(s) then 0 else p + 1)
    ensures Expected(s, p, fault, reply)
  {
    assert s[0] in m.bus.devices;
    ghost var before := m.bus.faults;
    var err, rom, last := m.Search(Reached(s, p));
    reply, fault := Reply(err, rom, last), m.bus.faults != before;
    if !fault && p < |s| {
      ghost var r: Rom64 :| IsSuccessor(m.bus.devices, ROM_BITS, Reached(s, p), r)
                            && Answers(m.bus.devices, r, err, rom, last, m.SavedMark());
      AnswerIsEntry(m.bus.devices, s, p, r, err, rom, last, m.SavedMark());
    }
  }

  predicate NoFaults(faulted: seq<bool>) {
    forall i | 0 <= i < |faulted| :: !faulted[i]
  }

  lemma OneMoreReply(s: seq<Rom>, faulted: seq<bool>, replies: seq<Reply>, fault: bool, reply: Reply)
    requires AllExpected(s, faulted, replies) && Expected(s, Place(faulted, PassLength(s)), fault, reply)
    ensures AllExpected(s, faulted + [fault], replies + [reply])
    ensures var p := Place(faulted, PassLength(s));
            Place(faulted + [fault], PassLength(s)) == if fault || p == PassLength(s) then 0 else p + 1
    ensures NoFaults(faulted + [fault]) <==> NoFaults(faulted) && !fault
  {
    var flags, all := faulted + [fault], replies + [reply];
    assert flags[..|faulted|] == faulted && flags[|faulted|] == fault;
    assert forall i | 0 <= i < |faulted| :: flags[i] == faulted[i];
    forall i | 0 <= i < |all|
      ensures Expected(s, Place(flags[..i], PassLength(s)), flags[i], all[i])
    {
      assert i < |faulted| ==> flags[..i] == faulted[..i];
    }
  }

  /** Any number of calls after search_reset on any bus of distinct ROMs, each transaction free
      to fail: pass after pass in ascending order, every pass ended by NOT_FOUND after the last
      ROM, by an error at the first ROM whose stored CRC is wrong, or by the call that meets a
      fault; and after each of these the next call starts a new pass. */
  method Calls(m: Master, count: nat, ghost s: seq<Rom>) returns (replies: seq<Reply>, ghost faulted: seq<bool>)
    requires m.Valid() && Populated(m.bus, s)
    modifies m, m.searchRom, m.bus
    ensures |replies| == count && AllExpected(s, faulted, replies)
    ensures m.bus.faults >= old(m.bus.faults)
    ensures m.bus.faults == old(m.bus.faults) <==> NoFaults(faulted)
  {
    m.SearchReset();
    replies, faulted := [], [];
    assert Reached(s, 0) == Start;
    ghost var p := 0;
    for i := 0 to count
      invariant |replies| == i && AllExpected(s, faulted, replies)
      invariant p == Place(faulted, PassLength(s)) && Ready(m, s, p)
      invariant m.bus.faults >= old(m.bus.faults)
      invariant m.bus.faults == old(m.bus.faults) <==> NoFaults(faulted)
    {
      ghost var fault;
      var reply;
      reply, fault := CallAt(m, s, p);
      OneMoreReply(s, faulted, replies, fault, reply);
      replies, faulted := replies + [reply], faulted + [fault];
      p := if fault || p == PassLength(s) then 0 else p + 1;
    }
  }

  /** Without faults the place of a call is its number modulo the length of a pass. */
  lemma {:induction false} PlaceIsRemainder(faulted: seq<bool>, n: nat)
    requires NoFaults(faulted)
    ensures Place(faulted, n) == |faulted| % (n + 1)
  {
    if faulted != [] {
      PlaceIsRemainder(faulted[..|faulted| - 1], n);
      NextRemainder(|faulted| - 1, n + 1, Place(faulted[..|faulted| - 1], n), Place(faulted, n));
    }
  }

  lemma NextRemainder(i: nat, m: nat, p: nat, q: nat)
    requires m > 0 && p == i % m && q == if p + 1 == m then 0 else p + 1
    ensures q == (i + 1) % m
  {
    ModStep(i, m);
  }

  lemma PlaceAfterFault(faulted: seq<bool>, n: nat, from: nat)
    requires from <= |faulted| && (from == 0 || faulted[from - 1])
    ensures Place(faulted[..from], n) == 0
  {
  }

  /** From a call that starts a pass, calls without faults go through the pass. */
  lemma {:induction false} PlaceGoesOn(faulted: seq<bool>, n: nat, from: nat, k: nat)
    requires from + k <= |faulted| && k <= n && Place(faulted[..from], n) == 0
    requires forall i | from <= i < from + k :: !faulted[i]
    ensures Place(faulted[..from + k], n) == k
  {
    if k > 0 {
      PlaceGoesOn(faulted, n, from, k - 1);
      assert faulted[..from + k][..from + k - 1] == faulted[..from + k - 1];
    }
  }

  /** A full enumeration follows every fault (and search_reset itself): if the call before
      `from` met a fault, or there is none, then calls without faults return every ROM that a
      pass can return once, in ascending order, flagged last exactly on the bus's last. */
  lemma EnumerationAfterFault(s: seq<Rom>, faulted: seq<bool>, replies: seq<Reply>, from: nat, k: nat)
    requires AllExpected(s, faulted, replies) && k < PassLength(s) && from + k < |replies|
    requires from == 0 || faulted[from - 1]
    requires forall i | from <= i <= from + k :: !faulted[i]
    ensures var reply := replies[from + k];
            reply.err == Ok && |reply.rom| == 8 && RomOf(reply.rom) == s[k] && reply.last == (k + 1 == |s|)
  {
    PlaceAfterFault(faulted, PassLength(s), from);
    PlaceGoesOn(faulted, PassLength(s), from, k);
    assert Expected(s, Place(faulted[..from + k], PassLength(s)), faulted[from + k], replies[from + k]);
  }

  /** One ROM with a wrong stored CRC hides every greater ROM: no call ever returns it or them. */
  lemma OnlyBeforeFirstBad(s: seq<Rom>, faulted: seq<bool>, replies: seq<Reply>, i: nat)
    requires AllExpected(s, faulted, replies) && i < |replies| && replies[i].err == Ok
    ensures |replies[i].rom| == 8 && exists p :: 0 <= p < PassLength(s) && RomOf(replies[i].rom) == s[p]
  {
    assert Expected(s, Place(faulted[..i], PassLength(s)), faulted[i], replies[i]);
  }

  lemma ModStep(i: nat, m: nat)
    requires m > 0
    ensures (i + 1) % m == if i % m == m - 1 then 0 else i % m + 1
  {
    var q, r := i / m, i % m;
    assert i == q * m + r;
    if r == m - 1 {
      assert i + 1 == (q + 1) * m;
      ModUnique(i + 1, m, q + 1, 0);
    } else {
      ModUnique(i + 1, m, q, r + 1);
    }
  }

  lemma ModUnique(x: nat, m: nat, q: nat, r: nat)
    requires m > 0 && r < m && x == q * m + r
    ensures x % m == r
  {
    var d := x / m - q;
    assert d * m == r - x % m;
    assert d >= 1 ==> d * m >= m;
    assert d <= -1 ==> d * m + m <= 0;
  }
}
