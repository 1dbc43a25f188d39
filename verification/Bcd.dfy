/** Binary-coded decimals, as the encoders write them and as a receiver weighs them. */
module Bcd {
  import opened Words

  /** `to_bcd` of DCF77 and MSF: two digits of four bits. */
  function ToBcd(n: nat): Word {
    TwoDigits(n / 10 % 10, n % 10)
  }

  function TwoDigits(tens: nat, units: nat): Word {
    Or(Shl(U64(tens), 4), U64(units))
  }

  /** `to_bcd` of JJY: three digits of four bits. */
  function ToBcd3(n: nat): Word {
    ThreePackedDigits(U64(n / 100 % 10), U64(n / 10 % 10), U64(n % 10))
  }

  function ThreePackedDigits(hundreds: Word, tens: Word, units: Word): Word {
    Or(Or(Shl(hundreds, 8), Shl(tens, 4)), units)
  }

  /** `to_padded5_bcd` of WWVB and JJY: three digits of four bits, a zero bit between them. */
  function ToPadded5Bcd(n: nat): Word {
    PaddedDigits(n / 100 % 10, n / 10 % 10, n % 10)
  }

  function PaddedDigits(hundreds: nat, tens: nat, units: nat): Word {
    Or(Or(Shl(U64(hundreds), 10), Shl(U64(tens), 5)), U64(units))
  }

  // ----- Reading the numbers back -----

  /** The weights of a two-digit field, lowest bit first: 1, 2, 4, 8, 10, 20, 40, 80. */
  function BcdValue(bits: seq<bool>): nat
    requires 4 <= |bits|
  {
    ToNat(bits[..4]) + 10 * ToNat(bits[4..])
  }

  /** The weights of a padded field: as above with positions 4 and 9 skipped, then 100 and 200. */
  function PaddedValue(bits: seq<bool>): nat
    requires 5 <= |bits|
  {
    ToNat(bits[..4]) + 10 * ToNat(bits[5..if |bits| < 9 then |bits| else 9])
      + 100 * ToNat(if |bits| < 10 then [] else bits[10..])
  }

  /** A two-digit field whose digits are decimal. */
  predicate IsBcd(bits: seq<bool>) {
    4 <= |bits| && ToNat(bits[..4]) < 10 && ToNat(bits[4..]) < 10
  }

  /** A padded field whose digits are decimal and whose places between them are zero. */
  predicate IsPadded(bits: seq<bool>) {
    && 5 <= |bits| && ToNat(bits[..4]) < 10 && ToNat(bits[5..if |bits| < 9 then |bits| else 9]) < 10
    && !bits[4] && (|bits| > 9 ==> !bits[9])
  }

  /** There is one way to write a number in a two-digit field. */
  lemma BcdDetermines(a: seq<bool>, b: seq<bool>)
    requires IsBcd(a) && IsBcd(b) && |a| == |b| && BcdValue(a) == BcdValue(b)
    ensures a == b
  {
    hide ToNat;
    SameBits(a[..4], b[..4]);
    SameBits(a[4..], b[4..]);
    assert a == a[..4] + a[4..] && b == b[..4] + b[4..];
  }

  /** And one way in a padded field. */
  lemma PaddedDetermines(a: seq<bool>, b: seq<bool>)
    requires IsPadded(a) && IsPadded(b) && |a| == |b| && PaddedValue(a) == PaddedValue(b)
    ensures a == b
  {
    hide ToNat;
    var top := if |a| < 9 then |a| else 9;
    SameBits(a[..4], b[..4]);
    SameBits(a[5..top], b[5..top]);
    if |a| >= 10 {
      SameBits(a[10..], b[10..]);
      assert a == a[..4] + [a[4]] + a[5..9] + [a[9]] + a[10..];
      assert b == b[..4] + [b[4]] + b[5..9] + [b[9]] + b[10..];
    } else {
      assert a == a[..4] + [a[4]] + a[5..top] && b == b[..4] + [b[4]] + b[5..top];
    }
  }

  lemma TwoNibbles(t: Word, u: Word, k: nat)
    requires 4 <= k <= 8 && Narrow(t, k - 4) && Narrow(u, 4)
    ensures var b := Or(Shl(t, 4), u); b[..4] == u[..4] && b[4..k] == t[..k - 4] && Narrow(b, k)
  {
  }

  /** A number below 100 whose tens fit into k-4 bits takes k bits and reads back as itself. */
  lemma BcdRoundTrip(n: nat, k: nat)
    requires n < 100 && 4 <= k <= 8 && n / 10 < Pow2(k - 4)
    ensures Narrow(ToBcd(n), k) && BcdValue(ToBcd(n)[..k]) == n && IsBcd(ToBcd(n)[..k])
    ensures ToNat(ToBcd(n)[..4]) == n % 10 && ToNat(ToBcd(n)[4..k]) == n / 10
  {
    hide TwoDigits, BcdValue, ToNat, Narrow, Pow2;
    var t, u := n / 10 % 10, n % 10;
    assert t == n / 10 && n == 10 * t + u;
    TwoDigitsRoundTrip(t, u, k);
  }

  lemma TwoDigitsRoundTrip(t: nat, u: nat, k: nat)
    requires t < 10 && u < 10 && 4 <= k <= 8 && t < Pow2(k - 4)
    ensures Narrow(TwoDigits(t, u), k) && BcdValue(TwoDigits(t, u)[..k]) == 10 * t + u && IsBcd(TwoDigits(t, u)[..k])
    ensures ToNat(TwoDigits(t, u)[..4]) == u && ToNat(TwoDigits(t, u)[4..k]) == t
  {
    DigitFits(u);
    HighBits(u, 4, 64);
    HighBits(t, k - 4, 64);
    TwoNibbles(U64(t), U64(u), k);
    LowBitsRoundTrip(u, 4, 64);
    LowBitsRoundTrip(t, k - 4, 64);
    var b := TwoDigits(t, u);
    assert b[..k][..4] == b[..4] && b[..k][4..] == b[4..k];
  }

  lemma SmallPowers()
    ensures Pow2(0) == 1 && Pow2(1) == 2 && Pow2(2) == 4 && Pow2(3) == 8 && Pow2(4) == 16
  {
  }

  /** A single digit in the two-digit form is the digit in binary. */
  lemma OneDigit(d: nat, k: nat)
    requires d < 10 && k <= 4 && d < Pow2(k)
    ensures Narrow(ToBcd(d), k) && ToNat(ToBcd(d)[..k]) == d
  {
    hide FromNat, ToNat;
    HighBits(0, 0, 64);
    HighBits(d, k, 64);
    LowBitsRoundTrip(d, k, 64);
    ZeroTens(U64(0), U64(d));
  }

  lemma ZeroTens(z: Word, u: Word)
    requires Narrow(z, 0)
    ensures Or(Shl(z, 4), u) == u
  {
  }

  /** Below 100 the hundreds digit adds nothing. */
  lemma ToBcd3IsToBcd(n: nat)
    requires n < 100
    ensures ToBcd3(n) == ToBcd(n)
  {
    hide FromNat;
    assert n / 100 % 10 == 0;
    HighBits(0, 0, 64);
    NoHundreds(U64(0), U64(n / 10 % 10), U64(n % 10));
  }

  lemma NoHundreds(z: Word, t: Word, u: Word)
    requires Narrow(z, 0)
    ensures ThreePackedDigits(z, t, u) == Or(Shl(t, 4), u)
  {
  }

  lemma DigitFits(d: nat)
    requires d < 10
    ensures d < Pow2(4)
  {
  }

  lemma PaddedNibbles(h: Word, t: Word, u: Word, k: nat)
    requires 5 <= k <= 14 && Narrow(u, 4) && Narrow(t, 4) && Narrow(h, 4)
    requires if k <= 9 then Narrow(t, k - 5) && Narrow(h, 0) else k >= 10 && Narrow(h, k - 10)
    ensures var b := Or(Or(Shl(h, 10), Shl(t, 5)), u);
            && b[..4] == u[..4] && b[5..if k < 9 then k else 9] == t[..if k < 9 then k - 5 else 4]
            && (k >= 10 ==> b[10..k] == h[..k - 10])
            && !b[4] && !b[9] && Narrow(b, k)
  {
  }

  lemma PaddedDigitsRoundTrip(h: nat, t: nat, u: nat, k: nat)
    requires h < 10 && t < 10 && u < 10 && 5 <= k <= 14
    requires if k <= 9 then t < Pow2(k - 5) && h == 0 else k >= 10 && h < Pow2(k - 10)
    ensures var b := PaddedDigits(h, t, u);
            && Narrow(b, k) && !b[4] && !b[9] && PaddedValue(b[..k]) == 100 * h + 10 * t + u && IsPadded(b[..k])
  {
    DigitFits(h);
    DigitFits(t);
    DigitFits(u);
    HighBits(h, 4, 64);
    HighBits(t, 4, 64);
    HighBits(u, 4, 64);
    LowBitsRoundTrip(u, 4, 64);
    var b := PaddedDigits(h, t, u);
    if k <= 9 {
      HighBits(t, k - 5, 64);
      HighBits(h, 0, 64);
      LowBitsRoundTrip(t, k - 5, 64);
    } else {
      HighBits(h, k - 10, 64);
      LowBitsRoundTrip(t, 4, 64);
      LowBitsRoundTrip(h, k - 10, 64);
      assert b[..k][10..] == b[10..k];
    }
    PaddedNibbles(U64(h), U64(t), U64(u), k);
    var top := if k < 9 then k else 9;
    assert b[..k][..4] == b[..4] && b[..k][5..top] == b[5..top];
  }

  /** A number reads back from its padded form, and no bit falls on the places between its digits. */
  lemma PaddedRoundTrip(n: nat, k: nat)
    requires n < 1000 && 5 <= k <= 14
    requires if k <= 9 then n < 100 && n / 10 < Pow2(k - 5) else k >= 10 && n / 100 < Pow2(k - 10)
    ensures var b := ToPadded5Bcd(n);
            Narrow(b, k) && !b[4] && !b[9] && PaddedValue(b[..k]) == n && IsPadded(b[..k])
  {
    ThreeDigits(n);
    PaddedDigitsRoundTrip(n / 100 % 10, n / 10 % 10, n % 10, k);
  }

  lemma ThreeDigits(n: nat)
    requires n < 1000
    ensures n == 100 * (n / 100 % 10) + 10 * (n / 10 % 10) + n % 10
    ensures n < 100 ==> n / 100 % 10 == 0 && n / 10 % 10 == n / 10
    ensures n / 100 % 10 == n / 100
  {
  }
}
