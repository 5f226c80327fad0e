/**
 * Binary vectors and matrices over GF(2).
 *
 * A bit is an integer 0 or 1, as in the Python lists of the original code;
 * a vector is a sequence of bits and a matrix a sequence of rows.
 * Addition is computed "mod 2", exactly as the original writes it.
 */
module Bits {

  type Matrix = seq<seq<int>>

  /** 2 ** e */
  function Pow2(e: nat): (p: nat)
    ensures p >= 1
  {
    if e == 0 then 1 else 2 * Pow2(e - 1)
  }

  lemma {:induction false} Pow2Add(a: nat, b: nat)
    ensures Pow2(a + b) == Pow2(a) * Pow2(b)
  {
    if b > 0 {
      Pow2Add(a, b - 1);
      calc {
        Pow2(a + b);
        2 * Pow2(a + b - 1);
        2 * (Pow2(a) * Pow2(b - 1));
        Pow2(a) * (2 * Pow2(b - 1));
        Pow2(a) * Pow2(b);
      }
    }
  }

  predicate IsBit(x: int) {
    x == 0 || x == 1
  }

  predicate IsBits(s: seq<int>) {
    forall i :: 0 <= i < |s| ==> IsBit(s[i])
  }

  /** All entries are zero (the negation of Python's `any(s)`). */
  predicate IsZero(s: seq<int>) {
    forall i :: 0 <= i < |s| ==> s[i] == 0
  }

  /** The preallocated `[0] * m`. */
  function Zeros(m: nat): (z: seq<int>) {
    seq(m, _ => 0)
  }

  /** The m-bit unit vector with its 1 at position i (all zero when i is out of range). */
  function Unit(m: nat, i: int): (e: seq<int>) {
    seq(m, j => if j == i then 1 else 0)
  }

  /** Component-wise addition over GF(2). */
  function Xor(a: seq<int>, b: seq<int>): (c: seq<int>)
    requires |a| == |b|
    ensures |c| == |a| && IsBits(c)
  {
    seq(|a|, j requires 0 <= j < |a| => (a[j] + b[j]) % 2)
  }

  /** The bit at position p flipped as `(x + 1) % 2`, every other bit kept. */
  function Flip(s: seq<int>, p: nat): (f: seq<int>)
    requires p < |s|
  {
    s[p := (s[p] + 1) % 2]
  }

  /**
   * The GF(2) dot product, accumulated from the left as a running total
   * kept reduced mod 2.
   */
  function Dot(a: seq<int>, b: seq<int>): (d: int)
    requires |a| == |b|
    ensures IsBit(d)
  {
    if |a| == 0 then 0
    else (Dot(a[..|a| - 1], b[..|b| - 1]) + a[|a| - 1] * b[|b| - 1]) % 2
  }

  /** The number of entries equal to 1 (Python's `row.count(1)`). */
  function Weight(s: seq<int>): (w: nat) {
    if |s| == 0 then 0
    else Weight(s[..|s| - 1]) + (if s[|s| - 1] == 1 then 1 else 0)
  }

  /** Column j of a matrix, top to bottom. */
  function Column(m: Matrix, j: nat): (c: seq<int>)
    requires forall i :: 0 <= i < |m| ==> j < |m[i]|
    ensures |c| == |m|
  {
    seq(|m|, i requires 0 <= i < |m| => m[i][j])
  }

  /**
   * The r-bit representation of v, most significant bit first: the digits of
   * Python's `bin(v)[2:].zfill(r)` for 1 <= v < 2 ** r.
   */
  function ToBits(v: nat, r: nat): (b: seq<int>)
    requires v < Pow2(r)
    ensures |b| == r
  {
    if r == 0 then [] else ToBits(v / 2, r - 1) + [v % 2]
  }

  /** The number of 1 bits among the r low-order bits of v. */
  function PopCount(v: nat, r: nat): (c: nat) {
    if r == 0 then 0 else PopCount(v / 2, r - 1) + v % 2
  }

  /** The integer a bit vector denotes, most significant bit first. */
  function Value(b: seq<int>): (v: int) {
    if |b| == 0 then 0 else 2 * Value(b[..|b| - 1]) + b[|b| - 1]
  }

  // ---------------------------------------------------------------------
  // Binary representation

  lemma {:induction false} ValueOfToBits(v: nat, r: nat)
    requires v < Pow2(r)
    ensures Value(ToBits(v, r)) == v
  {
    if r > 0 {
      var b := ToBits(v, r);
      assert b[..r - 1] == ToBits(v / 2, r - 1);
      ValueOfToBits(v / 2, r - 1);
    }
  }

  /** Different integers below 2 ** r have different representations. */
  lemma ToBitsInjective(v: nat, w: nat, r: nat)
    requires v < Pow2(r) && w < Pow2(r)
    ensures ToBits(v, r) == ToBits(w, r) <==> v == w
  {
    ValueOfToBits(v, r);
    ValueOfToBits(w, r);
  }

  lemma {:induction false} ToBitsIsBits(v: nat, r: nat)
    requires v < Pow2(r)
    ensures IsBits(ToBits(v, r))
  {
    if r > 0 {
      ToBitsIsBits(v / 2, r - 1);
    }
  }

  /** Counting the 1s of the vector is counting the 1 bits of the integer. */
  lemma {:induction false} WeightOfToBits(v: nat, r: nat)
    requires v < Pow2(r)
    ensures Weight(ToBits(v, r)) == PopCount(v, r)
  {
    if r > 0 {
      var b := ToBits(v, r);
      assert b[..r - 1] == ToBits(v / 2, r - 1);
      WeightOfToBits(v / 2, r - 1);
    }
  }

  /** Below 2^r, only 0 has no 1 bits. */
  lemma {:induction false} PopCountIsZero(v: nat, r: nat)
    requires v < Pow2(r)
    ensures PopCount(v, r) == 0 <==> v == 0
  {
    if r > 0 {
      PopCountIsZero(v / 2, r - 1);
    }
  }

  /** Shifting in a low bit 0 keeps the count, a low bit 1 adds one. */
  lemma PopCountShift(w: nat, r: nat)
    requires 1 <= r && w < Pow2(r - 1)
    ensures 2 * w + 1 < Pow2(r)
    ensures PopCount(2 * w, r) == PopCount(w, r - 1)
    ensures PopCount(2 * w + 1, r) == PopCount(w, r - 1) + 1
  {
    assert Pow2(r) == 2 * Pow2(r - 1);
    assert (2 * w) / 2 == w && (2 * w) % 2 == 0;
    assert (2 * w + 1) / 2 == w && (2 * w + 1) % 2 == 1;
  }

  lemma {:induction false} WeightOfUnit(m: nat, i: nat)
    requires i < m
    ensures Weight(Unit(m, i)) == 1
  {
    if m - 1 > i {
      assert Unit(m, i)[..m - 1] == Unit(m - 1, i);
      WeightOfUnit(m - 1, i);
    } else {
      assert Unit(m, i)[..m - 1] == Zeros(m - 1);
      WeightOfZero(Zeros(m - 1));
    }
  }

  lemma {:induction false} WeightOfZero(s: seq<int>)
    requires IsZero(s)
    ensures Weight(s) == 0
  {
    if |s| > 0 {
      WeightOfZero(s[..|s| - 1]);
    }
  }

  // ---------------------------------------------------------------------
  // The dot product

  lemma {:induction false} DotSymmetric(a: seq<int>, b: seq<int>)
    requires |a| == |b|
    ensures Dot(a, b) == Dot(b, a)
  {
    if |a| > 0 {
      DotSymmetric(a[..|a| - 1], b[..|b| - 1]);
    }
  }

  lemma {:induction false} DotZeros(a: seq<int>)
    ensures Dot(a, Zeros(|a|)) == 0
  {
    if |a| > 0 {
      assert Zeros(|a|)[..|a| - 1] == Zeros(|a| - 1);
      DotZeros(a[..|a| - 1]);
    }
  }

  /** Dotting with a unit vector picks out one entry (mod 2). */
  lemma {:induction false} DotUnit(a: seq<int>, i: nat)
    requires i < |a|
    ensures Dot(a, Unit(|a|, i)) == a[i] % 2
  {
    var m := |a|;
    if i < m - 1 {
      assert Unit(m, i)[..m - 1] == Unit(m - 1, i);
      DotUnit(a[..m - 1], i);
    } else {
      assert Unit(m, i)[..m - 1] == Zeros(m - 1);
      DotZeros(a[..m - 1]);
    }
  }

  /** The dot product of concatenations is the sum of the dot products. */
  lemma {:induction false} DotAppend(a1: seq<int>, a2: seq<int>, b1: seq<int>, b2: seq<int>)
    requires |a1| == |b1| && |a2| == |b2|
    ensures Dot(a1 + a2, b1 + b2) == (Dot(a1, b1) + Dot(a2, b2)) % 2
  {
    if |a2| == 0 {
      assert a1 + a2 == a1;
      assert b1 + b2 == b1;
    } else {
      var n2 := |a2|;
      assert (a1 + a2)[..|a1| + n2 - 1] == a1 + a2[..n2 - 1];
      assert (b1 + b2)[..|b1| + n2 - 1] == b1 + b2[..n2 - 1];
      DotAppend(a1, a2[..n2 - 1], b1, b2[..n2 - 1]);
    }
  }

  /** The dot product is linear in its first argument. */
  lemma {:induction false} DotXor(a: seq<int>, b: seq<int>, h: seq<int>)
    requires |a| == |b| == |h| && IsBits(h)
    ensures Dot(Xor(a, b), h) == (Dot(a, h) + Dot(b, h)) % 2
  {
    var m := |a|;
    if m > 0 {
      var c := Xor(a, b);
      assert c[..m - 1] == Xor(a[..m - 1], b[..m - 1]);
      assert c[m - 1] == (a[m - 1] + b[m - 1]) % 2;
      DotXor(a[..m - 1], b[..m - 1], h[..m - 1]);
      AddStep(Dot(a[..m - 1], h[..m - 1]), Dot(b[..m - 1], h[..m - 1]), a[m - 1], b[m - 1], h[m - 1]);
    }
  }

  /** One step of DotXor: adding (x + y) % 2 times a bit h to a sum of two bits. */
  lemma AddStep(p: int, q: int, x: int, y: int, h: int)
    requires IsBit(p) && IsBit(q) && IsBit(h)
    ensures ((p + q) % 2 + ((x + y) % 2) * h) % 2 == ((p + x * h) % 2 + (q + y * h) % 2) % 2
  {
  }

  /** On a binary vector, flipping a bit is adding a unit vector. */
  lemma FlipIsXor(s: seq<int>, p: nat)
    requires p < |s| && IsBits(s)
    ensures Flip(s, p) == Xor(s, Unit(|s|, p))
  {
  }

  /** Flipping the same bit twice restores a binary vector. */
  lemma FlipFlip(s: seq<int>, p: nat)
    requires p < |s| && IsBits(s)
    ensures Flip(Flip(s, p), p) == s
  {
  }
}
