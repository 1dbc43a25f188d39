/**
 Machine words. A `uint64_t` or a 32-bit register is the list of its bits,
 lowest bit first; the operators are C's, with bits shifted beyond the width dropped.
 */
module Words {
  import opened BitSeqs

  type Word = w: seq<bool> | |w| == 64 ghost witness seq(64, i => false)

  type Register = w: seq<bool> | |w| == 32 ghost witness seq(32, i => false)

  function Zeros(n: nat): seq<bool> {
    seq(n, i => false)
  }

  /** C's `%`: the remainder has the sign of the dividend. */
  function Remainder(a: int, b: int): int
    requires b > 0
  {
    if a >= 0 then a % b else -((-a) % b)
  }

  function Pow2(i: nat): nat {
    if i == 0 then 1 else 2 * Pow2(i - 1)
  }

  /** Binary digit i of n. */
  predicate Digit(n: nat, i: nat) {
    if i == 0 then n % 2 == 1 else Digit(n / 2, i - 1)
  }

  /** A number as a word of the given width. */
  function FromNat(n: nat, width: nat): (w: seq<bool>)
    ensures |w| == width
  {
    seq(width, i requires 0 <= i < width => Digit(n, i))
  }

  /** A number as a 64-bit word. */
  function U64(n: nat): Word {
    FromNat(n, 64)
  }

  /** The number that a list of bits, lowest first, stands for. */
  function ToNat(bits: seq<bool>): nat {
    if bits == [] then 0 else BitValue(bits[0]) + 2 * ToNat(bits[1..])
  }

  function Or(a: seq<bool>, b: seq<bool>): (w: seq<bool>)
    requires |a| == |b|
    ensures |w| == |a|
  {
    seq(|a|, i requires 0 <= i < |a| => a[i] || b[i])
  }

  function And(a: seq<bool>, b: seq<bool>): (w: seq<bool>)
    requires |a| == |b|
    ensures |w| == |a|
  {
    seq(|a|, i requires 0 <= i < |a| => a[i] && b[i])
  }

  function Not(a: seq<bool>): (w: seq<bool>)
    ensures |w| == |a|
  {
    seq(|a|, i requires 0 <= i < |a| => !a[i])
  }

  function Shl(a: seq<bool>, k: nat): (w: seq<bool>)
    ensures |w| == |a|
  {
    seq(|a|, i requires 0 <= i < |a| => i >= k && a[i - k])
  }

  function Shr(a: seq<bool>, k: nat): (w: seq<bool>)
    ensures |w| == |a|
  {
    seq(|a|, i requires 0 <= i < |a| => i + k < |a| && a[i + k])
  }

  /** `x - 1`, by borrowing: the zeros below the lowest one become ones, that one becomes zero. */
  function Decrement(x: seq<bool>): (w: seq<bool>)
    ensures |w| == |x|
  {
    if x == [] then [] else if x[0] then [false] + x[1..] else [true] + Decrement(x[1..])
  }

  // ----- Numbers and their digits -----

  /** No bit from position k on is set. */
  ghost predicate Narrow(w: seq<bool>, k: nat) {
    forall i :: k <= i < |w| ==> !w[i]
  }

  lemma {:induction false} NoDigit(n: nat, k: nat, i: nat)
    requires n < Pow2(k) && k <= i
    ensures !Digit(n, i)
    decreases i
  {
    if i == 0 {
    } else {
      NoDigit(n / 2, if k > 0 then k - 1 else 0, i - 1);
    }
  }

  lemma HighBits(n: nat, k: nat, width: nat)
    requires n < Pow2(k)
    ensures Narrow(FromNat(n, width), k)
  {
    forall i | k <= i < width
      ensures !FromNat(n, width)[i]
    {
      NoDigit(n, k, i);
    }
  }

  /** A number of three digits, as a word. */
  lemma LowDigits(n: nat, width: nat)
    requires n < 8 && 3 <= width
    ensures var w := FromNat(n, width);
            Narrow(w, 3) && w[0] == (n % 2 == 1) && w[1] == (n / 2 % 2 == 1) && w[2] == (n / 4 == 1)
  {
    assert Pow2(3) == 8;
    HighBits(n, 3, width);
    assert Digit(n, 1) == Digit(n / 2, 0);
    assert Digit(n, 2) == Digit(n / 2, 1) == Digit(n / 2 / 2, 0);
  }

  lemma HigherDigits(n: nat, width: nat)
    requires width > 0
    ensures FromNat(n, width)[0] == (n % 2 == 1)
    ensures FromNat(n, width)[1..] == FromNat(n / 2, width - 1)
  {
  }

  /** Writing a number in enough bits and reading it back. */
  lemma {:induction false} NatRoundTrip(n: nat, width: nat)
    requires n < Pow2(width)
    ensures ToNat(FromNat(n, width)) == n
    decreases width
  {
    if width == 0 {
    } else {
      NatRoundTrip(n / 2, width - 1);
      HigherDigits(n, width);
    }
  }

  /** The lowest k bits of a number below 2^k read back as the number. */
  lemma LowBitsRoundTrip(n: nat, k: nat, width: nat)
    requires n < Pow2(k) && k <= width
    ensures ToNat(FromNat(n, width)[..k]) == n
  {
    assert FromNat(n, width)[..k] == FromNat(n, k);
    NatRoundTrip(n, k);
  }

  /** Bits of one length that stand for the same number are the same bits. */
  lemma {:induction false} SameBits(a: seq<bool>, b: seq<bool>)
    requires |a| == |b| && ToNat(a) == ToNat(b)
    ensures a == b
  {
    if a == [] {
    } else {
      SameBits(a[1..], b[1..]);
      assert a == [a[0]] + a[1..] && b == [b[0]] + b[1..];
    }
  }

  lemma {:induction false} DecrementSubtracts(x: seq<bool>)
    requires ToNat(x) > 0
    ensures ToNat(Decrement(x)) == ToNat(x) - 1
  {
    if x[0] {
    } else {
      DecrementSubtracts(x[1..]);
    }
  }

  lemma OneBit(b: seq<bool>)
    requires |b| == 1
    ensures ToNat(b) == BitValue(b[0])
  {
  }

  lemma TwoBits(b: seq<bool>)
    requires |b| == 2
    ensures ToNat(b) == BitValue(b[0]) + 2 * BitValue(b[1])
  {
    var t := b[1..];
    assert ToNat(t) == BitValue(t[0]) + 2 * ToNat(t[1..]);
  }

  lemma ThreeBits(b: seq<bool>)
    requires |b| == 3
    ensures ToNat(b) == BitValue(b[0]) + 2 * BitValue(b[1]) + 4 * BitValue(b[2])
  {
    TwoBits(b[1..]);
  }

  lemma FourBits(b: seq<bool>)
    requires |b| == 4
    ensures ToNat(b) == BitValue(b[0]) + 2 * BitValue(b[1]) + 4 * BitValue(b[2]) + 8 * BitValue(b[3])
  {
    ThreeBits(b[1..]);
  }

  // ----- Words built from fields -----

  /** The `width` lowest bits of `value`, to be OR-ed in at position `at`. */
  datatype Field = Field(value: Word, at: nat, width: nat)

  ghost predicate Fits(f: Field) {
    f.at + f.width <= 64 && Narrow(f.value, f.width)
  }

  predicate Apart(f: Field, g: Field) {
    f.at + f.width <= g.at || g.at + g.width <= f.at
  }

  /** Every field fits its places and no two fields share one. */
  ghost predicate Disjoint(fields: seq<Field>) {
    && (forall i :: 0 <= i < |fields| ==> Fits(fields[i]))
    && (forall i, j :: 0 <= i < j < |fields| ==> Apart(fields[i], fields[j]))
  }

  /** Position i belongs to none of the fields. */
  ghost predicate Uncovered(fields: seq<Field>, i: nat) {
    forall j :: 0 <= j < |fields| ==> !(fields[j].at <= i < fields[j].at + fields[j].width)
  }

  /** `w = 0; w |= f0 << at0; w |= f1 << at1; ...` */
  function OrAll(fields: seq<Field>): Word {
    if fields == [] then U64(0)
    else var f := fields[|fields| - 1]; Or(OrAll(fields[..|fields| - 1]), Shl(f.value, f.at))
  }

  lemma OrNext(fields: seq<Field>, j: nat)
    requires j < |fields|
    ensures OrAll(fields[..j + 1]) == Or(OrAll(fields[..j]), Shl(fields[j].value, fields[j].at))
    ensures fields[..|fields|] == fields && OrAll(fields[..0]) == U64(0)
  {
    assert fields[..j + 1][..j] == fields[..j];
  }

  /** The value of field j read back from the word. */
  function Extract(w: Word, f: Field): seq<bool>
    requires f.at + f.width <= 64
  {
    w[f.at..f.at + f.width]
  }

  /** Places outside all fields stay clear. */
  lemma {:induction false} UncoveredClear(fields: seq<Field>, i: nat)
    requires Disjoint(fields) && i < 64 && Uncovered(fields, i)
    ensures !OrAll(fields)[i]
  {
    ZeroWord();
    if fields == [] {
    } else {
      var n := |fields| - 1;
      UncoveredClear(fields[..n], i);
      assert Fits(fields[n]) && !(fields[n].at <= i < fields[n].at + fields[n].width);
    }
  }

  /** Each field can be read back from the word. */
  lemma {:induction false} FieldReadsBack(fields: seq<Field>, j: nat)
    requires Disjoint(fields) && j < |fields|
    ensures Extract(OrAll(fields), fields[j]) == fields[j].value[..fields[j].width]
  {
    var n := |fields| - 1;
    var front, f, g := fields[..n], fields[n], fields[j];
    assert Fits(f) && Fits(g);
    if j < n {
      assert Apart(g, f);
      FieldReadsBack(front, j);
      NotDisturbed(OrAll(front), f, g);
    } else {
      forall i | f.at <= i < f.at + f.width
        ensures !OrAll(front)[i]
      {
        forall k | 0 <= k < |front|
          ensures !(front[k].at <= i < front[k].at + front[k].width)
        {
          assert Apart(fields[k], fields[n]);
        }
        UncoveredClear(front, i);
      }
      Place(OrAll(front), f);
    }
  }

  lemma Place(w: Word, f: Field)
    requires Fits(f) && forall i :: f.at <= i < f.at + f.width ==> !w[i]
    ensures Extract(Or(w, Shl(f.value, f.at)), f) == f.value[..f.width]
  {
  }

  lemma NotDisturbed(w: Word, f: Field, g: Field)
    requires Fits(f) && Fits(g) && Apart(g, f)
    ensures Extract(Or(w, Shl(f.value, f.at)), g) == Extract(w, g)
  {
  }

  lemma ParityIsBit(odd: bool)
    ensures var p := U64(if odd then 1 else 0); Narrow(p, 1) && p[0] == odd
  {
    assert Pow2(1) == 2;
    HighBits(if odd then 1 else 0, 1, 64);
  }

  lemma ZeroWord()
    ensures forall i :: 0 <= i < 64 ==> !U64(0)[i]
  {
    HighBits(0, 0, 64);
  }

  lemma FirstField(w: Word)
    ensures Or(U64(0), Shl(w, 0)) == w
  {
    ZeroWord();
  }

  /** OR-ing a one-bit word into a clear place sets that place to the bit. */
  lemma AddBit(w: Word, odd: bool, k: nat)
    requires k < 64 && !w[k]
    ensures Or(w, Shl(U64(if odd then 1 else 0), k)) == w[k := odd]
  {
    hide FromNat;
    ParityIsBit(odd);
  }

  // ----- The parity loop of DCF77, JJY and MSF -----

  /** The value of `parity`: 1 when an odd number of the bits lo..hi (both inclusive) is set. */
  function ParityWord(w: Word, lo: nat, hi: nat): Word
    requires lo <= hi < 64
  {
    U64(if OddCount(w[lo..hi + 1]) then 1 else 0)
  }

  /** `parity`: counts the set bits one by one and keeps the lowest bit of the count. */
  method Parity(d: Word, from: nat, toIncluding: nat) returns (p: Word)
    requires from <= toIncluding < 64
    ensures p == ParityWord(d, from, toIncluding)
  {
    var result := 0;
    var bit := from;
    while bit <= toIncluding
      invariant from <= bit <= toIncluding + 1
      invariant result + CountTrue(d[bit..toIncluding + 1]) == CountTrue(d[from..toIncluding + 1])
    {
      CountRange(d, bit, toIncluding + 1);
      if d[bit] {
        result := result + 1;
      }
      bit := bit + 1;
    }
    p := U64(result % 2);
  }

  // ----- The clear-lowest-set-bit loop of BPC -----

  /** `x & (x - 1)` has exactly one bit fewer set. */
  lemma {:induction false} ClearLowest(x: seq<bool>)
    requires CountTrue(x) > 0
    ensures CountTrue(And(x, Decrement(x))) == CountTrue(x) - 1
  {
    var y := And(x, Decrement(x));
    if x[0] {
      assert y == [false] + x[1..];
    } else {
      assert y == [false] + And(x[1..], Decrement(x[1..]));
      ClearLowest(x[1..]);
    }
  }

  lemma {:induction false} ZeroCount(x: seq<bool>)
    ensures ToNat(x) == 0 <==> CountTrue(x) == 0
  {
    if x == [] {
    } else {
      ZeroCount(x[1..]);
    }
  }

  /**
   `popcount_parity` (and `even_parity` of the self-test): one turn of the loop per set bit.
   The result is the parity that the bit-by-bit scan finds over the whole word.
   */
  method PopcountParity(word: Word) returns (p: nat)
    ensures p == if OddCount(word) then 1 else 0
  {
    p := 0;
    var x := word;
    while ToNat(x) != 0
      invariant p < 2 && (CountTrue(x) + p) % 2 == CountTrue(word) % 2
      decreases CountTrue(x)
    {
      ZeroCount(x);
      ClearLowest(x);
      p := 1 - p;
      x := And(x, Decrement(x));
    }
    ZeroCount(x);
  }
}
