/**
 The search for a clock source and a fractional divider, `GPIO::StartClock` in
 `src/rpi-control.cc`, in exact arithmetic.
 */
module ClockDivider {

  datatype Source = Source(src: nat, frequency: real)

  /** `kClockSources`, fastest first. */
  const SOURCES: seq<Source> :=
    [Source(5, 1000.0e6), Source(6, 500.0e6), Source(7, 216.0e6), Source(1, 19.2e6)]

  /** The integer and the fractional part of a divider, in 1024ths. */
  datatype Divider = Divider(divI: int, divF: int)

  function Ratio(d: Divider): real {
    d.divI as real + d.divF as real / 1024.0
  }

  function Abs(x: real): real {
    if x < 0.0 then -x else x
  }

  /** The source can be divided down to the request. Division by zero counts as beyond every limit. */
  predicate Admissible(i: nat, req: real)
    requires i < 4
  {
    req != 0.0 && 2.0 <= SOURCES[i].frequency / req <= 4095.0
  }

  /** The divider tried for source i. */
  function Tried(i: nat, req: real): Divider
    requires i < 4 && Admissible(i, req)
  {
    var division := SOURCES[i].frequency / req;
    var divI := division.Floor;
    Divider(divI, ((division - divI as real) * 1024.0).Floor)
  }

  function Frequency(i: nat, d: Divider): real
    requires i < 4 && Ratio(d) != 0.0
  {
    SOURCES[i].frequency / Ratio(d)
  }

  // ----- Properties of one source -----

  /** The two truncations together are one: the divider is the exact ratio rounded down to a 1024th. */
  lemma TriedIsFloor(i: nat, req: real)
    requires i < 4 && Admissible(i, req)
    ensures var d, x := Tried(i, req), SOURCES[i].frequency / req;
            && 2 <= d.divI <= 4095 && 0 <= d.divF < 1024
            && d.divI * 1024 + d.divF == (x * 1024.0).Floor
            && Ratio(d) <= x < Ratio(d) + 1.0 / 1024.0
  {
  }

  lemma Admits(i: nat, req: real)
    requires i < 4 && Admissible(i, req)
    ensures 0.0 < req <= 5.0e8
  {
    var f := SOURCES[i].frequency;
    var x := f / req;
    assert x * req == f;
  }

  /** Rounding the divider down never lowers the frequency, and raises it by less than req/(1024 D). */
  lemma QuotientBounds(f: real, req: real, x: real, d: real)
    requires 0.0 < f && 0.0 < req && x == f / req && 2.0 <= d <= x < d + 1.0 / 1024.0
    ensures req <= f / d < req + req / (1024.0 * d)
  {
    assert x * req == f;
    var y := f / d;
    assert y * d == f;
    assert y * d == x * req;
    ProductGrows(d, x, req);
    ProductGrows(x, d + 1.0 / 1024.0, req);
    var e := req / (1024.0 * d);
    assert e * d == req / 1024.0;
    assert (req + e) * d == (d + 1.0 / 1024.0) * req;
    QuotientOrder(req, y, d);
    QuotientOrder(y, req + e, d);
  }

  lemma ProductGrows(a: real, b: real, k: real)
    requires 0.0 < k
    ensures a <= b ==> a * k <= b * k
    ensures a < b ==> a * k < b * k
  {
  }

  lemma QuotientOrder(a: real, b: real, d: real)
    requires 0.0 < d
    ensures a * d <= b * d ==> a <= b
    ensures a * d < b * d ==> a < b
  {
  }

  /** The distance between the request and what source i gives. */
  function Error(i: nat, req: real): real
    requires i < 4 && Admissible(i, req)
  {
    TriedIsFloor(i, req);
    Abs(req - Frequency(i, Tried(i, req)))
  }

  lemma ErrorBound(i: nat, req: real)
    requires i < 4 && Admissible(i, req)
    ensures var d := Ratio(Tried(i, req));
            2.0 <= d && req <= Frequency(i, Tried(i, req)) && Error(i, req) < req / (1024.0 * d)
    ensures Error(i, req) < 1.0e9
  {
    hide Tried;
    Admits(i, req);
    TriedIsFloor(i, req);
    var f, d := SOURCES[i].frequency, Ratio(Tried(i, req));
    QuotientBounds(f, req, f / req, d);
    BoundIsSmall(req, d);
  }

  lemma BoundIsSmall(req: real, d: real)
    requires 0.0 < req <= 5.0e8 && 2.0 <= d
    ensures req / (1024.0 * d) < 1.0e9
  {
    var e := req / (1024.0 * d);
    assert e * (1024.0 * d) == req < 1.0e9 * (1024.0 * d);
    QuotientOrder(e, 1.0e9, 1024.0 * d);
  }

  // ----- The search -----

  /** Source i is as good as every admissible source and better than every earlier one, among the first n. */
  ghost predicate Best(i: nat, req: real, n: nat)
    requires i < n <= 4
  {
    && Admissible(i, req)
    && forall j :: 0 <= j < n && Admissible(j, req) ==>
         Error(i, req) <= Error(j, req) && (j < i ==> Error(i, req) < Error(j, req))
  }

  /** The loop of `StartClock`; -1 stands for no suitable source. */
  method ChooseDivider(req: real) returns (best: int, d: Divider)
    ensures best == -1 <==> forall i :: 0 <= i < 4 ==> !Admissible(i, req)
    ensures best != -1 ==> 0 <= best < 4 && Best(best, req, 4) && d == Tried(best, req)
  {
    hide Tried;
    best, d := -1, Divider(-1, -1);
    var smallestErrorSoFar := 1.0e9;
    for i := 0 to 4
      invariant best == -1 ==> smallestErrorSoFar == 1.0e9 && forall j :: 0 <= j < i ==> !Admissible(j, req)
      invariant best != -1 ==> 0 <= best < i && Best(best, req, i)
      invariant best != -1 ==> d == Tried(best, req) && smallestErrorSoFar == Error(best, req)
    {
      var f := SOURCES[i].frequency;
      if req == 0.0 || f / req < 2.0 || f / req > 4095.0 {
        continue;
      }
      TriedIsFloor(i, req);
      ErrorBound(i, req);
      var tested := Tried(i, req);
      var error := Abs(req - f / Ratio(tested));
      if error >= smallestErrorSoFar {
        continue;
      }
      smallestErrorSoFar, best, d := error, i, tested;
    }
  }

  lemma AdmissibleIff(i: nat, req: real)
    requires i < 4
    ensures Admissible(i, req) <==> 0.0 < req && 2.0 * req <= SOURCES[i].frequency <= 4095.0 * req
  {
    var f := SOURCES[i].frequency;
    assert f > 0.0;
    if req > 0.0 {
      QuotientTimes(f, req);
      QuotientLimit(f, req, f / req, 2.0);
      QuotientLimit(f, req, f / req, 4095.0);
    } else if req < 0.0 {
      NegativeQuotient(f, req);
    }
  }

  /** Comparing a quotient with a limit is comparing the dividend with the limit's multiple. */
  lemma QuotientLimit(f: real, req: real, x: real, limit: real)
    requires 0.0 < req && x * req == f
    ensures limit <= x <==> limit * req <= f
    ensures x <= limit <==> f <= limit * req
  {
    if x < limit {
      ProductGrows(x, limit, req);
      assert x * req < limit * req;
    } else if limit < x {
      ProductGrows(limit, x, req);
      assert limit * req < x * req;
    }
  }

  lemma QuotientTimes(f: real, req: real)
    requires req != 0.0
    ensures f / req * req == f
  {
  }

  lemma NegativeQuotient(f: real, req: real)
    requires f > 0.0 && req < 0.0
    ensures f / req < 0.0
  {
  }

  /** The four sources leave no gap: a request can be served exactly between 19.2 MHz/4095 and 500 MHz. */
  lemma ServedRange(req: real)
    ensures (exists i :: 0 <= i < 4 && Admissible(i, req)) <==> 19.2e6 / 4095.0 <= req <= 5.0e8
  {
    hide Admissible;
    AdmissibleIff(0, req);
    AdmissibleIff(1, req);
    AdmissibleIff(2, req);
    AdmissibleIff(3, req);
    if 19.2e6 / 4095.0 <= req <= 5.0e8 {
      assert Admissible(0, req) || Admissible(1, req) || Admissible(2, req) || Admissible(3, req);
    }
    forall i | 0 <= i < 4 && Admissible(i, req)
      ensures 19.2e6 / 4095.0 <= req <= 5.0e8
    {
      AdmissibleIff(i, req);
    }
  }

  /**
   Whatever source the search picks, the frequency is at least the one requested and misses it by less than
   req/(1024 D).
   */
  lemma ChosenFrequency(best: nat, req: real)
    requires best < 4 && Best(best, req, 4)
    ensures var d := Tried(best, req);
            && Ratio(d) >= 2.0 && d.divI * 1024 + d.divF == (SOURCES[best].frequency / req * 1024.0).Floor
            && req <= Frequency(best, d) < req + req / (1024.0 * Ratio(d))
  {
    TriedIsFloor(best, req);
    ErrorBound(best, req);
  }

  /** The frequency that source f makes with the ratio to the request rounded down to a 1024th. */
  function Rounded(f: real, req: real): real
    requires 0.0 < req && 2.0 <= f / req
  {
    var d := (f / req * 1024.0).Floor as real / 1024.0;
    assert d >= 2.0;
    f / d
  }

  /** No clock of the four comes closer to the request, and of those that come as close none is faster. */
  lemma NoneCloser(best: nat, req: real, f: real)
    requires best < 4 && Best(best, req, 4)
    requires f == 19.2e6 || f == 216.0e6 || f == 500.0e6 || f == 1000.0e6
    requires 0.0 < req && 2.0 <= f / req <= 4095.0
    ensures Ratio(Tried(best, req)) >= 2.0
    ensures var made := Frequency(best, Tried(best, req));
            || Abs(req - made) < Abs(req - Rounded(f, req))
            || (Abs(req - made) == Abs(req - Rounded(f, req)) && f <= SOURCES[best].frequency)
  {
    hide Tried, Frequency, Rounded, Best, Ratio, Abs;
    var i := if f == 1000.0e6 then 0 else if f == 500.0e6 then 1 else if f == 216.0e6 then 2 else 3;
    assert SOURCES[i].frequency == f;
    IsNotCloser(best, req, i);
  }

  lemma IsNotCloser(best: nat, req: real, i: nat)
    requires best < 4 && Best(best, req, 4) && i < 4
    requires 0.0 < req && 2.0 <= SOURCES[i].frequency / req <= 4095.0
    ensures Ratio(Tried(best, req)) >= 2.0
    ensures var made, other := Frequency(best, Tried(best, req)), Rounded(SOURCES[i].frequency, req);
            || Abs(req - made) < Abs(req - other)
            || (Abs(req - made) == Abs(req - other) && SOURCES[i].frequency <= SOURCES[best].frequency)
  {
    hide Tried, Frequency, Rounded, Error, Ratio, Abs, Admissible;
    SuitsIs(i, req);
    ErrorIs(best, req);
    ErrorIs(i, req);
    if !(best > i) {
      Faster(best, i);
    }
  }

  lemma SuitsIs(i: nat, req: real)
    requires i < 4 && 0.0 < req && 2.0 <= SOURCES[i].frequency / req <= 4095.0
    ensures Admissible(i, req)
  {
  }

  lemma ErrorIs(i: nat, req: real)
    requires i < 4 && Admissible(i, req)
    ensures 0.0 < req && 2.0 <= SOURCES[i].frequency / req && Ratio(Tried(i, req)) >= 2.0
    ensures Error(i, req) == Abs(req - Frequency(i, Tried(i, req))) == Abs(req - Rounded(SOURCES[i].frequency, req))
  {
    Admits(i, req);
    TriedIsFloor(i, req);
    var d := Tried(i, req);
    var n := (SOURCES[i].frequency / req * 1024.0).Floor;
    assert d.divI * 1024 + d.divF == n;
    assert Ratio(d) == n as real / 1024.0;
  }

  lemma Faster(i: nat, j: nat)
    requires i <= j < 4
    ensures SOURCES[j].frequency <= SOURCES[i].frequency
  {
  }

  /** Each of the five carriers can be made, to better than three hundredths of a hertz; the two round ones exactly. */
  lemma StationCarriers(req: real, best: nat)
    requires req == 77500.0 || req == 60000.0 || req == 40000.0 || req == 68500.0
    requires best < 4 && Best(best, req, 4)
    ensures Error(best, req) < 0.03
    ensures Ratio(Tried(best, req)) >= 2.0 && req <= Frequency(best, Tried(best, req)) < req + 0.03
    ensures req == 60000.0 || req == 40000.0 ==> Frequency(best, Tried(best, req)) == req
    ensures req == 60000.0 || req == 40000.0 ==> Error(best, req) == 0.0
  {
    hide Tried, Error;
    ErrorMade(best, req);
    if req == 40000.0 {
      ExactSource(3, req);
    } else if req == 60000.0 {
      ExactSource(2, req);
    } else {
      assert Admissible(2, req);
      ErrorBound(2, req);
      TriedIsFloor(2, req);
      var d := Ratio(Tried(2, req));
      var e := req / (1024.0 * d);
      assert e * (1024.0 * d) == req < 0.03 * (1024.0 * d);
      QuotientOrder(e, 0.03, 1024.0 * d);
    }
  }

  lemma ErrorMade(i: nat, req: real)
    requires i < 4 && Admissible(i, req)
    ensures Ratio(Tried(i, req)) >= 2.0 && 0.0 <= Error(i, req) == Frequency(i, Tried(i, req)) - req
  {
    hide Tried;
    ErrorBound(i, req);
  }

  lemma ExactSource(i: nat, req: real)
    requires (i == 3 && req == 40000.0) || (i == 2 && req == 60000.0)
    ensures Admissible(i, req) && Error(i, req) == 0.0
  {
    var x := SOURCES[i].frequency / req;
    assert x == (if i == 3 then 480.0 else 3600.0);
    assert Tried(i, req) == Divider(if i == 3 then 480 else 3600, 0);
    assert Ratio(Tried(i, req)) == x;
    assert SOURCES[i].frequency / x == req;
  }
}
