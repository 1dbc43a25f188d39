/**
 The Raspberry Pi backend, `src/rpi-control.cc`: pins, clock registers and the order in which
 they are written. Clock registers as in the BCM2835 ARM Peripherals manual, section 6.3
 (General Purpose GPIO Clocks).
 */
module RpiControl {
  import opened Options
  import opened Words
  import opened Signal
  import opened Gpio
  import opened ClockDivider

  // ----- Clock register words -----

  const CTL: nat := 28
  const DIV: nat := 29

  /** `CLK_PASSWD` */
  function Password(): Register {
    Shl(R32(0x5A), 24)
  }

  function KillWord(): Register {
    Or(Password(), Shl(R32(1), 5))
  }

  function DivWord(d: Divider): Register
    requires d.divI >= 0 && d.divF >= 0
  {
    Or(Or(Password(), Shl(R32(d.divI), 12)), R32(d.divF))
  }

  /** The control word as first written, with one-stage noise shaping and the source. */
  function SetupWord(src: nat): Register {
    Or(Or(Password(), Shl(R32(1), 9)), R32(src))
  }

  function EnabledWord(src: nat): Register {
    Or(SetupWord(src), Or(Password(), Shl(R32(1), 4)))
  }

  /** What the clock manager reads from its registers: divider, source, noise shaping, enabled. */
  datatype ClockSetting = ClockSetting(divider: Divider, src: nat, mash: nat, enabled: bool, killed: bool)

  function ReadSetting(ctl: Register, div: Register): ClockSetting {
    ClockSetting(Divider(ToNat(div[12..24]), ToNat(div[0..12])), ToNat(ctl[0..4]), ToNat(ctl[9..11]), ctl[4], ctl[5])
  }

  /** Both words carry the password in their top byte, without which the write would be ignored. */
  predicate HasPassword(w: Register) {
    ToNat(w[24..32]) == 0x5A
  }

  /** The frequencies behind the numbers of the source field. */
  function SourceHz(src: nat): Option<real> {
    if src == 1 then Some(19.2e6)
    else if src == 5 then Some(1000.0e6)
    else if src == 6 then Some(500.0e6)
    else if src == 7 then Some(216.0e6)
    else None
  }

  /** The least integer divider for each degree of noise shaping. */
  const LEAST_DIVIDER: seq<nat> := [1, 2, 3, 5]

  /**
   What the clock manager makes of its registers on general purpose clock 0, whose control word stands at byte offset
   0x70 and whose divider stands at 0x74: nothing unless both words were written with the password, the clock is
   enabled and not killed, and source and divider are possible. Without noise shaping the fraction has no effect.
   */
  function Made(clock: seq<Register>): Option<real>
    requires |clock| == BLOCK
  {
    var ctl, div := clock[0x70 / 4], clock[0x74 / 4];
    var source, mash := SourceHz(ToNat(ctl[0..4])), Mash(ctl);
    var divI, divF := ToNat(div[12..24]), ToNat(div[0..12]);
    if ToNat(ctl[24..32]) != 0x5A || ToNat(div[24..32]) != 0x5A || !ctl[4] || ctl[5] then None
    else if source.None? || divI < LEAST_DIVIDER[mash] then None
    else Some(source.value / if mash == 0 then divI as real else divI as real + divF as real / 1024.0)
  }

  function Mash(ctl: Register): (mash: nat)
    ensures mash == ToNat(ctl[9..11]) < 4
  {
    TwoBits(ctl[9..11]);
    ToNat(ctl[9..11])
  }

  /** The clock has been told to stop. */
  predicate Killed(clock: seq<Register>)
    requires |clock| == BLOCK
  {
    var ctl := clock[0x70 / 4];
    ToNat(ctl[24..32]) == 0x5A && ctl[5] && !ctl[4]
  }

  /** The registers that hold a setting make its frequency. */
  lemma SettingMakes(clock: seq<Register>, d: Divider, src: nat)
    requires |clock| == BLOCK && HasPassword(clock[CTL]) && HasPassword(clock[DIV])
    requires ReadSetting(clock[CTL], clock[DIV]) == ClockSetting(d, src, 1, true, false)
    requires 2 <= d.divI && SourceHz(src).Some?
    ensures Made(clock) == Some(SourceHz(src).value / Ratio(d))
  {
    hide ToNat;
  }

  lemma SourceNumbers(i: nat)
    requires i < 4
    ensures SourceHz(SOURCES[i].src) == Some(SOURCES[i].frequency)
  {
  }

  lemma PasswordBits()
    ensures ToNat(R32(0x5A)[..8]) == 0x5A && Narrow(R32(0x5A), 8)
    ensures ToNat(R32(1)[..2]) == 1 && Narrow(R32(1), 1) && R32(1)[0]
  {
    PowersTo8();
    HighBits(0x5A, 8, 32);
    LowBitsRoundTrip(0x5A, 8, 32);
    HighBits(1, 1, 32);
    LowBitsRoundTrip(1, 2, 32);
  }

  lemma KillBits()
    ensures HasPassword(KillWord()) && KillWord()[5] && !KillWord()[4]
  {
    hide FromNat, ToNat;
    PasswordBits();
    var w := KillWord();
    assert w[24..32] == R32(0x5A)[..8];
  }

  lemma PowersTo8()
    ensures Pow2(1) == 2 && Pow2(2) == 4 && Pow2(3) == 8 && Pow2(4) == 16 && Pow2(8) == 256
  {
  }

  lemma Powers12()
    ensures Pow2(10) == 1024 && Pow2(12) == 4096
  {
  }

  lemma DivSlices(p: Register, i: Register, f: Register)
    requires Narrow(p, 8) && Narrow(i, 12) && Narrow(f, 12)
    ensures var w := Or(Or(Shl(p, 24), Shl(i, 12)), f);
            w[24..32] == p[..8] && w[12..24] == i[..12] && w[0..12] == f[..12]
  {
  }

  lemma CtlSlices(p: Register, m: Register, s: Register)
    requires Narrow(p, 8) && Narrow(m, 1) && m[0] && Narrow(s, 4)
    ensures var w := Or(Or(Or(Shl(p, 24), Shl(m, 9)), s), Or(Shl(p, 24), Shl(m, 4)));
            w[24..32] == p[..8] && w[9..11] == m[..2] && w[0..4] == s[..4] && w[4] && !w[5]
  {
    var w := Or(Or(Or(Shl(p, 24), Shl(m, 9)), s), Or(Shl(p, 24), Shl(m, 4)));
    assert forall i :: 24 <= i < 32 ==> w[i] == p[i - 24];
    assert w[9] == m[0] && w[10] == m[1];
    assert forall i :: 0 <= i < 4 ==> w[i] == s[i];
  }

  /** Divider and source survive packing: the clock manager reads back exactly what was chosen. */
  lemma WordsReadBack(d: Divider, src: nat)
    requires 0 <= d.divI < 4096 && 0 <= d.divF < 1024 && src < 16
    ensures HasPassword(DivWord(d)) && HasPassword(EnabledWord(src))
    ensures ReadSetting(EnabledWord(src), DivWord(d)) == ClockSetting(d, src, 1, true, false)
  {
    hide FromNat, ToNat;
    PasswordBits();
    PowersTo8();
    Powers12();
    HighBits(d.divI, 12, 32);
    LowBitsRoundTrip(d.divI, 12, 32);
    HighBits(d.divF, 12, 32);
    LowBitsRoundTrip(d.divF, 12, 32);
    HighBits(src, 4, 32);
    LowBitsRoundTrip(src, 4, 32);
    DivSlices(R32(0x5A), R32(d.divI), R32(d.divF));
    CtlSlices(R32(0x5A), R32(1), R32(src));
  }

  // ----- The backend -----

  class RpiControl {
    const gpioPort: array<Register>
    const clockReg: array<Register>
    ghost var latch: Register

    ghost predicate Valid()
      reads this
    {
      gpioPort != clockReg && gpioPort.Length == BLOCK && clockReg.Length == BLOCK
    }

    ghost function State(): (pins: Pins)
      requires Valid()
      reads this, gpioPort
      ensures Mapped(pins)
    {
      Pins(gpioPort[..], latch)
    }

    constructor (gpio: array<Register>, clock: array<Register>, ghost level: Register)
      requires gpio != clock && gpio.Length == BLOCK && clock.Length == BLOCK
      ensures Valid() && gpioPort == gpio && clockReg == clock
    {
      gpioPort, clockReg, latch := gpio, clock, level;
    }

    /** `gpio_port_[index] = value` */
    method Store(index: nat, value: Register)
      requires Valid() && index < BLOCK
      modifies gpioPort, this`latch
      ensures State() == Stored(old(State()), index, value)
    {
      gpioPort[index] := value;
      latch := Stored(Pins(old(gpioPort[..]), latch), index, value).latch;
    }

    method InpGpio(g: nat)
      requires Valid() && g < 54
      modifies gpioPort, this`latch
      ensures State() == Inp(old(State()), g)
    {
      Store(g / 10, And(gpioPort[g / 10], Not(Shl(R32(7), (g % 10) * 3))));
    }

    method OutGpio(g: nat)
      requires Valid() && g < 54
      modifies gpioPort, this`latch
      ensures State() == Out(old(State()), g)
    {
      Store(g / 10, Or(gpioPort[g / 10], Shl(R32(1), (g % 10) * 3)));
    }

    method Alt0Gpio(g: nat)
      requires Valid() && g < 54
      modifies gpioPort, this`latch
      ensures State() == Alt0(old(State()), g)
    {
      Store(g / 10, Or(gpioPort[g / 10], Shl(R32(4), (g % 10) * 3)));
    }

    method RequestOutput(requested: Register) returns (outputs: Register)
      requires Valid()
      modifies gpioPort, this`latch
      ensures outputs == And(requested, ValidBits())
      ensures State() == OutputsSet(old(State()), outputs, 28)
    {
      hide Inp, Out, And, ValidBits;
      outputs := And(requested, ValidBits());
      for b := 0 to 28
        invariant State() == OutputsSet(old(State()), outputs, b)
      {
        if outputs[b] {
          InpGpio(b);   // clears the function field, so that OR-ing selects just the output
          OutGpio(b);
        }
      }
    }

    method RequestInput(requested: Register) returns (inputs: Register)
      requires Valid()
      modifies gpioPort, this`latch
      ensures inputs == And(requested, ValidBits())
      ensures State() == InputsSet(old(State()), inputs, 28)
    {
      hide Inp, And, ValidBits;
      inputs := And(requested, ValidBits());
      for b := 0 to 28
        invariant State() == InputsSet(old(State()), inputs, b)
      {
        if inputs[b] {
          InpGpio(b);
        }
      }
    }

    method ClearBits(value: Register)
      requires Valid()
      modifies gpioPort, this`latch
      ensures State() == Cleared(old(State()), value)
    {
      Store(CLEAR, value);
    }

    method EnableClockOutput(on: bool)
      requires Valid()
      modifies gpioPort, this`latch
      ensures State() == ClockOutput(old(State()), on)
    {
      if on {
        Alt0Gpio(4);
      } else {
        InpGpio(4);
      }
    }

    method SetTxPower(power: Power)
      requires Valid()
      modifies gpioPort, this`latch
      ensures State() == TxPower(old(State()), power)
    {
      hide OutputsSet, InputsSet, Cleared, ClockOutput, ValidBits, And, AttenuationBit;
      match power
      case Off =>
        EnableClockOutput(false);
      case Low =>
        var granted := RequestOutput(AttenuationBit());
        ClearBits(AttenuationBit());
        EnableClockOutput(true);
      case High =>
        var granted := RequestInput(AttenuationBit());
        EnableClockOutput(true);
    }

    /** The busy flag is taken to clear at once. */
    method StopClock()
      requires Valid()
      modifies gpioPort, this`latch, clockReg
      ensures State() == ClockOutput(old(State()), false)
      ensures clockReg[..] == old(clockReg[..])[CTL := KillWord()] && Killed(clockReg[..])
    {
      hide KillWord, ToNat;
      KillBits();
      clockReg[CTL] := KillWord();
      EnableClockOutput(false);
    }

    /** `best` names the source chosen; nothing is touched when there is none. */
    method StartClock(requested: real) returns (frequency: real, ghost best: int)
      requires Valid()
      modifies gpioPort, this`latch, clockReg
      ensures best == -1 <==> !(19.2e6 / 4095.0 <= requested <= 5.0e8)
      ensures best == -1 ==> frequency == -1.0 && State() == old(State()) && clockReg[..] == old(clockReg[..])
      ensures best != -1 ==>
                && 0 <= best < 4 && Best(best, requested, 4)
                && (ChosenFrequency(best, requested); frequency == Frequency(best, Tried(best, requested)))
                && Made(clockReg[..]) == Some(frequency)
                && State() == ClockOutput(ClockOutput(old(State()), false), true)
                && ReadSetting(clockReg[CTL], clockReg[DIV])
                   == ClockSetting(Tried(best, requested), SOURCES[best].src, 1, true, false)
                && HasPassword(clockReg[CTL]) && HasPassword(clockReg[DIV])
                && forall i :: 0 <= i < BLOCK && i != CTL && i != DIV ==> clockReg[i] == old(clockReg[i])
    {
      hide Tried, Admissible, Best, ClockOutput, DivWord, EnabledWord, SetupWord, KillWord, ReadSetting, HasPassword;
      hide Made, Killed;
      var chosen, d := ChooseDivider(requested);
      best := chosen;
      ServedRange(requested);
      if chosen < 0 {
        return -1.0, best;
      }
      BestAdmits(chosen, requested);
      TriedIsFloor(chosen, requested);
      StopClock();

      var src := SOURCES[chosen].src;
      clockReg[DIV] := DivWord(d);
      clockReg[CTL] := SetupWord(src);
      clockReg[CTL] := Or(clockReg[CTL], Or(Password(), Shl(R32(1), 4)));
      Enabled(src);
      WordsReadBack(d, src);
      EnableClockOutput(true);

      ChosenFrequency(chosen, requested);
      SourceNumbers(chosen);
      SettingMakes(clockReg[..], d, src);
      frequency := SOURCES[chosen].frequency / Ratio(d);
    }
  }

  lemma Enabled(src: nat)
    ensures Or(SetupWord(src), Or(Password(), Shl(R32(1), 4))) == EnabledWord(src)
  {
  }

  lemma BestAdmits(i: nat, req: real)
    requires i < 4 && Best(i, req, 4)
    ensures Admissible(i, req)
  {
  }
}
