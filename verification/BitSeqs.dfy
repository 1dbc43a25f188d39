/**
 Received bits: counting, and what a parity group detects.
 A receiver holds one bit per second (or per word position) as a `seq<bool>`.
 */
module BitSeqs {

  function BitValue(b: bool): nat {
    if b then 1 else 0
  }

  function CountTrue(bits: seq<bool>): nat {
    if bits == [] then 0 else BitValue(bits[0]) + CountTrue(bits[1..])
  }

  predicate OddCount(bits: seq<bool>) {
    CountTrue(bits) % 2 == 1
  }

  lemma {:induction false} CountConcat(a: seq<bool>, b: seq<bool>)
    ensures CountTrue(a + b) == CountTrue(a) + CountTrue(b)
  {
    if a == [] {
      assert a + b == b;
    } else {
      assert (a + b)[1..] == a[1..] + b;
      CountConcat(a[1..], b);
    }
  }

  lemma {:induction false} CountNone(bits: seq<bool>)
    requires forall i :: 0 <= i < |bits| ==> !bits[i]
    ensures CountTrue(bits) == 0
  {
    if bits == [] {
    } else {
      CountNone(bits[1..]);
    }
  }

  /** A group followed by its own parity bit holds an even number of ones; with the inverted bit, an odd number. */
  lemma ParityBitCompletes(bits: seq<bool>, lo: nat, k: nat)
    requires lo <= k < |bits|
    ensures OddCount(bits[lo..k + 1]) <==> bits[k] != OddCount(bits[lo..k])
  {
    assert bits[lo..k + 1] == bits[lo..k] + [bits[k]];
    CountConcat(bits[lo..k], [bits[k]]);
  }

  lemma AppendedParity(group: seq<bool>, p: bool)
    ensures OddCount(group + [p]) <==> p != OddCount(group)
  {
    CountConcat(group, [p]);
  }

  lemma CountRange(bits: seq<bool>, lo: nat, hi: nat)
    requires lo < hi <= |bits|
    ensures CountTrue(bits[lo..hi]) == BitValue(bits[lo]) + CountTrue(bits[lo + 1..hi])
  {
  }

  // ----- Transmission errors and parity groups -----

  /** `bits` after the receiver has misread exactly the positions set in `errors`. */
  function Flip(bits: seq<bool>, errors: seq<bool>): (r: seq<bool>)
    requires |bits| == |errors|
    ensures |r| == |bits|
  {
    seq(|bits|, i requires 0 <= i < |bits| => bits[i] != errors[i])
  }

  /** Number of positions set in both lists. */
  function Overlap(a: seq<bool>, b: seq<bool>): nat
    requires |a| == |b|
  {
    if a == [] then 0 else BitValue(a[0] && b[0]) + Overlap(a[1..], b[1..])
  }

  lemma {:induction false} CountFlip(bits: seq<bool>, errors: seq<bool>)
    requires |bits| == |errors|
    ensures CountTrue(Flip(bits, errors)) + 2 * Overlap(bits, errors) == CountTrue(bits) + CountTrue(errors)
  {
    if bits == [] {
    } else {
      assert Flip(bits, errors)[1..] == Flip(bits[1..], errors[1..]);
      CountFlip(bits[1..], errors[1..]);
    }
  }

  /**
   A group passes its check when its count, its parity bit included, has the agreed parity.
   An error pattern goes unnoticed exactly when it hits an even number of the group's bits.
   */
  lemma ErrorDetected(group: seq<bool>, errors: seq<bool>)
    requires |group| == |errors|
    ensures OddCount(Flip(group, errors)) != OddCount(group) <==> OddCount(errors)
  {
    CountFlip(group, errors);
  }

  /** Number of positions in which two received groups differ. */
  function Distance(a: seq<bool>, b: seq<bool>): nat
    requires |a| == |b|
  {
    CountTrue(Flip(a, b))
  }

  lemma {:induction false} DistanceZero(a: seq<bool>, b: seq<bool>)
    requires |a| == |b| && Distance(a, b) == 0
    ensures a == b
  {
    if a == [] {
    } else {
      assert Flip(a, b)[1..] == Flip(a[1..], b[1..]);
      DistanceZero(a[1..], b[1..]);
      assert a == [a[0]] + a[1..] && b == [b[0]] + b[1..];
    }
  }

  /** Two different groups with the same parity differ in at least two bits. */
  lemma ParityDistance(a: seq<bool>, b: seq<bool>)
    requires |a| == |b| && a != b
    requires OddCount(a) == OddCount(b)
    ensures Distance(a, b) >= 2
  {
    CountFlip(a, b);
    if Distance(a, b) == 0 {
      DistanceZero(a, b);
    }
  }

  /** Reading a group out of a misread frame. */
  lemma FlipRange(bits: seq<bool>, errors: seq<bool>, lo: nat, hi: nat)
    requires |bits| == |errors| && lo <= hi <= |bits|
    ensures Flip(bits, errors)[lo..hi] == Flip(bits[lo..hi], errors[lo..hi])
  {
  }

  /** The same for a group whose parity bit stands elsewhere. */
  lemma FlipGroup(bits: seq<bool>, errors: seq<bool>, lo: nat, hi: nat, p: nat)
    requires |bits| == |errors| && lo <= hi <= |bits| && p < |bits|
    ensures var r := Flip(bits, errors);
            r[lo..hi] + [r[p]] == Flip(bits[lo..hi] + [bits[p]], errors[lo..hi] + [errors[p]])
  {
  }
}
