/**
 Pin control of the Raspberry Pi, `src/rpi-control.cc`. The register layout is that of
 the BCM2835 ARM Peripherals manual, section 6.1 (Register View).
 */
module Gpio {
  import opened Words
  import opened Signal

  /** The mapped block: 4096 bytes, one register per word. */
  const BLOCK: nat := 1024

  /** What the pins see: the register block, and the output latch that the set and clear registers drive. */
  datatype Pins = Pins(port: seq<Register>, latch: Register)

  predicate Mapped(pins: Pins) {
    |pins.port| == BLOCK
  }

  function R32(n: nat): Register {
    FromNat(n, 32)
  }

  /**
   What a store to one word of the block does. By byte offset, 0x1C (GPSET0) raises the latch of every bit written as
   one and 0x28 (GPCLR0) pulls it down; no other word drives the latch.
   */
  function Stored(pins: Pins, index: nat, value: Register): (r: Pins)
    requires Mapped(pins) && index < BLOCK
    ensures Mapped(r)
  {
    Pins(pins.port[index := value],
         if 4 * index == 0x1C then Or(pins.latch, value)
         else if 4 * index == 0x28 then And(pins.latch, Not(value))
         else pins.latch)
  }

  // ----- One pin at a time -----

  /** `~(7 << j*3)` and-ed in: pin j of the register becomes an input. */
  function InpField(r: Register, j: nat): Register {
    And(r, Not(Shl(R32(7), 3 * j)))
  }

  function OrField(r: Register, j: nat, bits: nat): Register {
    Or(r, Shl(R32(bits), 3 * j))
  }

  /** `INP_GPIO(g)` */
  function Inp(pins: Pins, g: nat): Pins
    requires Mapped(pins) && g < 54
  {
    Stored(pins, g / 10, InpField(pins.port[g / 10], g % 10))
  }

  /** `OUT_GPIO(g)` */
  function Out(pins: Pins, g: nat): Pins
    requires Mapped(pins) && g < 54
  {
    Stored(pins, g / 10, OrField(pins.port[g / 10], g % 10, 1))
  }

  /** `ALT0_GPIO(g)` */
  function Alt0(pins: Pins, g: nat): Pins
    requires Mapped(pins) && g < 54
  {
    Stored(pins, g / 10, OrField(pins.port[g / 10], g % 10, 4))
  }

  /** The function a pin is set to: 0 input, 1 output, 4 alternate function 0. */
  function Select(pins: Pins, g: nat): nat
    requires Mapped(pins) && g < 54
  {
    ToNat(Field3(pins.port[g / 10], g % 10))
  }

  function Field3(r: Register, j: nat): seq<bool>
    requires j < 10
  {
    r[3 * j..3 * j + 3]
  }

  // ----- Requests -----

  /** The bits listed for the header of the first and of the later boards, in the order of the source. */
  const HEADER: seq<nat> :=
    [0, 1, 2, 3, 4, 7, 8, 9, 10, 11, 14, 15, 17, 18, 22, 23, 24, 25, 27, 5, 6, 12, 13, 16, 19, 20, 21, 26]

  /** `kValidBits` */
  function ValidBits(): Register {
    seq(32, i => i in HEADER)
  }

  /** What `RequestOutput` does for the first n bits. */
  function OutputsSet(pins: Pins, bits: Register, n: nat): (r: Pins)
    requires Mapped(pins) && n <= 28
    ensures Mapped(r) && r.latch == pins.latch
  {
    if n == 0 then pins
    else
      var before := OutputsSet(pins, bits, n - 1);
      if bits[n - 1] then Out(Inp(before, n - 1), n - 1) else before
  }

  /** What `RequestInput` does for the first n bits. */
  function InputsSet(pins: Pins, bits: Register, n: nat): (r: Pins)
    requires Mapped(pins) && n <= 28
    ensures Mapped(r) && r.latch == pins.latch
  {
    if n == 0 then pins
    else
      var before := InputsSet(pins, bits, n - 1);
      if bits[n - 1] then Inp(before, n - 1) else before
  }

  /** `gpio_clr_bits_` */
  const CLEAR: nat := 0x28 / 4

  function Cleared(pins: Pins, value: Register): Pins
    requires Mapped(pins)
  {
    Stored(pins, CLEAR, value)
  }

  const ATTENUATION: nat := 17

  function AttenuationBit(): Register {
    Shl(R32(1), ATTENUATION)
  }

  function ClockOutput(pins: Pins, on: bool): Pins
    requires Mapped(pins)
  {
    if on then Alt0(pins, 4) else Inp(pins, 4)
  }

  function TxPower(pins: Pins, power: Power): (r: Pins)
    requires Mapped(pins)
    ensures Mapped(r)
  {
    var bit := And(AttenuationBit(), ValidBits());
    match power
    case Off => ClockOutput(pins, false)
    case Low => ClockOutput(Cleared(OutputsSet(pins, bit, 28), AttenuationBit()), true)
    case High => ClockOutput(InputsSet(pins, bit, 28), true)
  }

  // ----- What each step does to the selected functions -----

  lemma InpFieldBits(r: Register, j: nat)
    requires j < 10
    ensures InpField(r, j) == r[3 * j := false][3 * j + 1 := false][3 * j + 2 := false]
  {
    LowDigits(7, 32);
  }

  lemma OrFieldBits(r: Register, j: nat, bits: nat)
    requires j < 10 && (bits == 1 || bits == 4)
    ensures OrField(r, j, bits) == if bits == 1 then r[3 * j := true] else r[3 * j + 2 := true]
  {
    LowDigits(bits, 32);
  }

  /** Making a pin an input selects function 0 for it and leaves every other pin alone. */
  lemma InpSelects(pins: Pins, g: nat, p: nat)
    requires Mapped(pins) && g < 54 && p < 54
    ensures Select(Inp(pins, g), p) == if p == g then 0 else Select(pins, p)
  {
    hide InpField, ToNat;
    var r := pins.port[g / 10];
    InpFieldBits(r, g % 10);
    if p == g {
      ThreeBits(Field3(InpField(r, g % 10), g % 10));
    } else if p / 10 == g / 10 {
      assert p % 10 != g % 10;
      assert Field3(InpField(r, g % 10), p % 10) == Field3(r, p % 10);
    }
  }

  /**
   OR-ing a function into an input selects just that function; into a pin already in alternate function 0,
   nothing changes.
   */
  lemma OrSelects(pins: Pins, g: nat, p: nat)
    requires Mapped(pins) && g < 54 && p < 54
    ensures p != g ==> Select(Out(pins, g), p) == Select(pins, p) && Select(Alt0(pins, g), p) == Select(pins, p)
    ensures p == g && Select(pins, g) == 0 ==> Select(Out(pins, g), g) == 1 && Select(Alt0(pins, g), g) == 4
    ensures p == g && Select(pins, g) == 4 ==> Select(Alt0(pins, g), g) == 4
  {
    hide OrField, ToNat;
    var r := pins.port[g / 10];
    OrFieldBits(r, g % 10, 1);
    OrFieldBits(r, g % 10, 4);
    if p == g {
      ThreeBits(Field3(r, g % 10));
      ThreeBits(Field3(OrField(r, g % 10, 1), g % 10));
      ThreeBits(Field3(OrField(r, g % 10, 4), g % 10));
    } else if p / 10 == g / 10 {
      assert p % 10 != g % 10;
      assert Field3(OrField(r, g % 10, 1), p % 10) == Field3(r, p % 10);
      assert Field3(OrField(r, g % 10, 4), p % 10) == Field3(r, p % 10);
    }
  }

  /** `RequestOutput` makes outputs of the requested pins and of no others, whatever they were before. */
  lemma {:induction false} OutputsSelect(pins: Pins, bits: Register, n: nat, p: nat)
    requires Mapped(pins) && n <= 28 && p < 54
    ensures Select(OutputsSet(pins, bits, n), p) == if p < n && bits[p] then 1 else Select(pins, p)
  {
    hide Select, Inp, Out;
    if n == 0 {
    } else {
      var before := OutputsSet(pins, bits, n - 1);
      OutputsSelect(pins, bits, n - 1, p);
      if bits[n - 1] {
        InpSelects(before, n - 1, p);
        InpMapped(before, n - 1);
        OrSelects(Inp(before, n - 1), n - 1, p);
      }
    }
  }

  lemma InpMapped(pins: Pins, g: nat)
    requires Mapped(pins) && g < 54
    ensures Mapped(Inp(pins, g))
  {
  }

  lemma {:induction false} InputsSelect(pins: Pins, bits: Register, n: nat, p: nat)
    requires Mapped(pins) && n <= 28 && p < 54
    ensures Select(InputsSet(pins, bits, n), p) == if p < n && bits[p] then 0 else Select(pins, p)
  {
    hide Select, Inp;
    if n == 0 {
    } else {
      var before := InputsSet(pins, bits, n - 1);
      InputsSelect(pins, bits, n - 1, p);
      if bits[n - 1] {
        InpSelects(before, n - 1, p);
      }
    }
  }

  lemma ClearedSelects(pins: Pins, value: Register, p: nat)
    requires Mapped(pins) && p < 54
    ensures Select(Cleared(pins, value), p) == Select(pins, p)
  {
  }

  /** The list of header bits leaves out none of 0 to 27. */
  lemma ValidBitsAre(i: nat)
    requires i < 32
    ensures ValidBits()[i] <==> i <= 27
  {
  }

  lemma AttenuationOnly(i: nat)
    requires i < 32
    ensures AttenuationBit()[i] <==> i == ATTENUATION
    ensures And(AttenuationBit(), ValidBits())[i] <==> i == ATTENUATION
  {
    LowDigits(1, 32);
  }

  // ----- The pin state machine -----

  /** The clock pin is in one of its two states. */
  predicate ClockPinReady(pins: Pins)
    requires Mapped(pins)
  {
    Select(pins, 4) == 0 || Select(pins, 4) == 4
  }

  /** What one power request does to every pin. */
  lemma TxPowerSelects(pins: Pins, power: Power, p: nat)
    requires Mapped(pins) && ClockPinReady(pins) && p < 54
    ensures Select(TxPower(pins, power), p)
         == if p == 4 then (if power == Off then 0 else 4)
            else if p == 17 && power == Low then 1
            else if p == 17 && power == High then 0
            else Select(pins, p)
    ensures forall i :: 0 <= i < 32 ==>
              TxPower(pins, power).latch[i] == (pins.latch[i] && !(power == Low && i == 17))
  {
    hide Select, Inp, Alt0, OutputsSet, InputsSet, AttenuationBit, ValidBits;
    var bit := And(AttenuationBit(), ValidBits());
    AttenuationOnly(ATTENUATION);
    if p < 32 {
      AttenuationOnly(p);
    }
    AttenuationOnly(4);
    match power
    case Off =>
      InpSelects(pins, 4, p);
      LatchKept(pins, 4);
    case Low =>
      var out := OutputsSet(pins, bit, 28);
      OutputsSelect(pins, bit, 28, p);
      OutputsSelect(pins, bit, 28, 4);
      var c := Cleared(out, AttenuationBit());
      ClearedSelects(out, AttenuationBit(), p);
      ClearedSelects(out, AttenuationBit(), 4);
      OrSelects(c, 4, p);
      LatchKept(c, 4);
      ClearedLatch(out);
    case High =>
      var inp := InputsSet(pins, bit, 28);
      InputsSelect(pins, bit, 28, p);
      InputsSelect(pins, bit, 28, 4);
      OrSelects(inp, 4, p);
      LatchKept(inp, 4);
  }

  /** Function fields and latch are apart. */
  lemma LatchKept(pins: Pins, g: nat)
    requires Mapped(pins) && g < 54
    ensures Inp(pins, g).latch == Alt0(pins, g).latch == pins.latch && Mapped(Alt0(pins, g))
  {
  }

  lemma ClearedLatch(pins: Pins)
    requires Mapped(pins)
    ensures forall i :: 0 <= i < 32 ==> Cleared(pins, AttenuationBit()).latch[i] == (pins.latch[i] && i != 17)
  {
    hide AttenuationBit;
    forall i | 0 <= i < 32
      ensures Cleared(pins, AttenuationBit()).latch[i] == (pins.latch[i] && i != 17)
    {
      AttenuationOnly(i);
    }
  }

  /** The pins after a sequence of power requests. */
  function AfterRequests(pins: Pins, powers: seq<Power>): (r: Pins)
    requires Mapped(pins)
    ensures Mapped(r)
  {
    if powers == [] then pins else TxPower(AfterRequests(pins, powers[..|powers| - 1]), powers[|powers| - 1])
  }

  /** The last request that was not OFF decides about the attenuation pin. */
  function LastLevel(powers: seq<Power>): Power {
    if powers == [] then Off
    else if powers[|powers| - 1] != Off then powers[|powers| - 1]
    else LastLevel(powers[..|powers| - 1])
  }

  /**
   After the clock has been started and any sequence of power requests: the clock pin is an input exactly
   if the last request was OFF and in alternate function 0 otherwise; the attenuation pin is an output after
   a LOW and an input after a HIGH, whatever OFFs followed; no other pin has changed.
   */
  lemma {:induction false} RunSelects(pins: Pins, powers: seq<Power>, p: nat)
    requires Mapped(pins) && p < 54
    ensures var started := ClockOutput(ClockOutput(pins, false), true);
            var r := AfterRequests(started, powers);
            && ClockPinReady(r)
            && Select(r, p) == (if p == 4 then (if powers != [] && powers[|powers| - 1] == Off then 0 else 4)
                                else if p == 17 && LastLevel(powers) == Low then 1
                                else if p == 17 && LastLevel(powers) == High then 0
                                else Select(pins, p))
  {
    hide Select, TxPower, Inp, Alt0, Mapped;
    InpMapped(pins, 4);
    LatchKept(Inp(pins, 4), 4);
    InpSelects(pins, 4, p);
    InpSelects(pins, 4, 4);
    OrSelects(Inp(pins, 4), 4, p);
    OrSelects(Inp(pins, 4), 4, 4);
    if powers == [] {
    } else {
      var front, last := powers[..|powers| - 1], powers[|powers| - 1];
      var started := ClockOutput(ClockOutput(pins, false), true);
      RunSelects(pins, front, p);
      RunSelects(pins, front, 4);
      TxPowerSelects(AfterRequests(started, front), last, p);
      TxPowerSelects(AfterRequests(started, front), last, 4);
    }
  }
}
