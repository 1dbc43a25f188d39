/** The six stations behind one interface, `include/time-signal-source.h`. */
module Sources {
  import opened Words
  import opened Calendar
  import opened Signal
  import opened Markers
  import Dcf77
  import Wwvb
  import Jjy
  import Msf
  import Bpc

  datatype Station = DCF77 | WWVB | JJY40 | JJY60 | MSF | BPC

  /** `GetCarrierFrequencyHz` */
  function CarrierHz(station: Station): real {
    match station
    case DCF77 => 77500.0
    case WWVB => 60000.0
    case JJY40 => 40000.0
    case JJY60 => 60000.0
    case MSF => 60000.0
    case BPC => 68500.0
  }

  /** WWVB reads the UTC calendar, which is modelled from 1900 on. */
  predicate Covers(station: Station, t: int) {
    station == WWVB ==> NINETEEN_HUNDRED <= t
  }

  /** The envelope of second s of the minute prepared for time t. */
  function EnvelopeOf(station: Station, zone: Zone, t: int, s: nat): Modulation
    requires Covers(station, t) && s < 60
  {
    match station
    case DCF77 => Dcf77.Envelope(Dcf77.Encode(zone(t + 60)), s)
    case WWVB => Pulse(Wwvb.CODE, Wwvb.MinuteWord(zone, t), s)
    case JJY40 => Pulse(Jjy.CODE, Jjy.Encode(zone(t)), s)
    case JJY60 => Pulse(Jjy.CODE, Jjy.Encode(zone(t)), s)
    case MSF => Msf.Envelope(MsfA(zone, t), MsfB(zone, t), s)
    case BPC => Bpc.Envelope(Bpc.MinuteSymbol(zone, t, s))
  }

  function MsfA(zone: Zone, t: int): Word {
    Msf.EncodeA(zone(t + 60))
  }

  function MsfB(zone: Zone, t: int): Word {
    Msf.EncodeB(MsfA(zone, t), zone(t + 60).isdst)
  }

  /** Every envelope of every station keeps the interface's contract and ends in a level that is not OFF. */
  lemma EnvelopesPlayable(station: Station, zone: Zone, t: int, s: nat)
    requires Covers(station, t) && s < 60
    ensures var mod := EnvelopeOf(station, zone, t, s); mod != [] && Playable(mod) && mod[|mod| - 1].power != Off
  {
    hide Dcf77.Encode, Wwvb.MinuteWord, Jjy.Encode, Msf.EncodeA, Msf.EncodeB, Bpc.MinuteSymbol;
    match station
    case DCF77 =>
    case WWVB =>
    case JJY40 =>
    case JJY60 =>
    case MSF =>
      var mod := EnvelopeOf(station, zone, t, s);
      if s == 0 {
        TwoStepsWellFormed(Off, 500, High);
      } else {
        FourSteps(mod);
      }
    case BPC =>
      var symbol := Bpc.MinuteSymbol(zone, t, s);
      Bpc.MinuteSymbolRange(zone, t, s);
      OneStepWellFormed(High);
      if symbol != Bpc.MARKER {
        TwoStepsWellFormed(Low, (symbol + 1) * 100, High);
      }
  }

  lemma FourSteps(mod: Modulation)
    requires |mod| == 4 && mod[0].ms == 100 && mod[1].ms == 100 && mod[2].ms == 100 && mod[3].ms == 0
    ensures Playable(mod) && Total(mod) == 300
  {
    var m1, m2, m3 := mod[1..], mod[2..], mod[3..];
    assert m1[1..] == m2 && m2[1..] == m3 && m3[1..] == [];
    assert Total(m3) == 0 + Total(m3[1..]);
    assert Total(m2) == 100 + Total(m3);
    assert Total(m1) == 100 + Total(m2);
  }

  // ----- Dispatch -----

  datatype Source =
    | Dcf77Source(station: Station, dcf77: Dcf77.Dcf77TimeSignalSource)
    | WwvbSource(station: Station, wwvb: Wwvb.WwvbTimeSignalSource)
    | JjySource(station: Station, jjy: Jjy.JjyTimeSignalSource)
    | MsfSource(station: Station, msf: Msf.MsfTimeSignalSource)
    | BpcSource(station: Station, bpc: Bpc.BpcTimeSignalSource)
  {
    /** The variant belongs to the station, and the object is complete. */
    ghost predicate Valid() {
      match this
      case Dcf77Source(st, o) => st == DCF77
      case WwvbSource(st, o) => st == WWVB
      case JjySource(st, o) => st == JJY40 || st == JJY60
      case MsfSource(st, o) => st == MSF
      case BpcSource(st, o) => st == BPC && o.symbols.Length == 60
    }

    function Zone(): Zone {
      match this
      case Dcf77Source(st, o) => o.localtime
      case WwvbSource(st, o) => o.localtime
      case JjySource(st, o) => o.localtime
      case MsfSource(st, o) => o.localtime
      case BpcSource(st, o) => o.localtime
    }

    /** Where the prepared minute is kept. */
    ghost function Store(): set<object> {
      match this
      case Dcf77Source(st, o) => {o}
      case WwvbSource(st, o) => {o}
      case JjySource(st, o) => {o}
      case MsfSource(st, o) => {o}
      case BpcSource(st, o) => {o.symbols}
    }

    /** The minute of time t has been prepared. */
    ghost predicate Prepared(t: int)
      requires Valid()
      reads Store()
    {
      hide Dcf77.Encode, Wwvb.MinuteWord, Jjy.Encode, Msf.EncodeA, Msf.EncodeB, Bpc.IsMinute;
      match this
      case Dcf77Source(st, o) => o.timeBits == Dcf77.Encode(o.localtime(t + 60))
      case WwvbSource(st, o) => NINETEEN_HUNDRED <= t && o.timeBits == Wwvb.MinuteWord(o.localtime, t)
      case JjySource(st, o) => o.timeBits == Jjy.Encode(o.localtime(t))
      case MsfSource(st, o) => o.aBits == MsfA(o.localtime, t) && o.bBits == MsfB(o.localtime, t)
      case BpcSource(st, o) => Bpc.IsMinute(o.symbols[..], o.localtime, t)
    }

    method PrepareMinute(t: int)
      requires Valid() && Covers(station, t)
      modifies Store()
      ensures Prepared(t)
    {
      hide Dcf77.Encode, Wwvb.MinuteWord, Jjy.Encode, Msf.EncodeA, Msf.EncodeB, Bpc.MinuteSymbol;
      match this
      case Dcf77Source(st, o) => o.PrepareMinute(t);
      case WwvbSource(st, o) => o.PrepareMinute(t);
      case JjySource(st, o) => o.PrepareMinute(t);
      case MsfSource(st, o) => o.PrepareMinute(t);
      case BpcSource(st, o) => o.PrepareMinute(t);
    }

    method GetModulationForSecond(second: nat, ghost t: int) returns (mod: Modulation)
      requires Valid() && second < 60 && Covers(station, t) && Prepared(t)
      ensures mod == EnvelopeOf(station, Zone(), t, second)
    {
      hide Dcf77.Encode, Wwvb.MinuteWord, Jjy.Encode, Msf.EncodeA, Msf.EncodeB, Bpc.MinuteSymbol;
      match this
      case Dcf77Source(st, o) => mod := o.GetModulationForSecond(second);
      case WwvbSource(st, o) => mod := o.GetModulationForSecond(second);
      case JjySource(st, o) => mod := o.GetModulationForSecond(second);
      case MsfSource(st, o) => mod := o.GetModulationForSecond(second);
      case BpcSource(st, o) =>
        assert second % 60 == second;
        mod := o.GetModulationForSecond(second);
    }
  }
}
