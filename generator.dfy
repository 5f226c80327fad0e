/**
 * The systematic generator matrix G = [I_k | A] of a single-error-correcting
 * code. The rows of A are the first k vectors, in ascending numeric order,
 * among the non-zero r-bit vectors whose weight is not 1.
 */
module Generator {
  import opened Wrappers
  import opened Bits

  /**
   * The r-bit vectors of the integers 1 .. m-1, in ascending order, without
   * those of weight 1 (the unit vectors, which are the columns of I_r in H).
   */
  function NonBasisBelow(r: nat, m: nat): (vs: seq<seq<int>>)
    requires 1 <= m <= Pow2(r)
  {
    if m == 1 then []
    else NonBasisBelow(r, m - 1) + (if PopCount(m - 1, r) != 1 then [ToBits(m - 1, r)] else [])
  }

  /** All non-zero r-bit vectors of weight other than 1, ascending. */
  function NonBasis(r: nat): (vs: seq<seq<int>>) {
    NonBasisBelow(r, Pow2(r))
  }

  /** Row i of G: the unit vector e_i of length k followed by the row of A. */
  function SystematicRow(k: nat, i: nat, a: seq<int>): (row: seq<int>) {
    Unit(k, i) + a
  }

  // ---------------------------------------------------------------------
  // Counting: exactly r of the r-bit vectors have weight 1

  /** 1 when v < 2^r has exactly one 1 bit, else 0. */
  function UnitIndicator(r: nat, v: nat): (b: nat) {
    if v < Pow2(r) && PopCount(v, r) == 1 then 1 else 0
  }

  function UnitIndicators(r: nat): (f: nat -> nat) {
    v => UnitIndicator(r, v)
  }

  /** f(0) + f(1) + ... + f(m - 1) */
  function Count(f: nat -> nat, m: nat): (c: nat) {
    if m == 0 then 0 else Count(f, m - 1) + f(m - 1)
  }

  /**
   * The r-bit integer 2w has one 1 bit exactly when the (r-1)-bit w has;
   * 2w + 1 has one exactly when w = 0.
   */
  lemma IndicatorDouble(r: nat, w: nat)
    requires 1 <= r && w < Pow2(r - 1)
    ensures UnitIndicator(r, 2 * w) == UnitIndicator(r - 1, w)
    ensures UnitIndicator(r, 2 * w + 1) == if w == 0 then 1 else 0
  {
    PopCountShift(w, r);
    PopCountIsZero(w, r - 1);
  }

  lemma IndicatorsPaired(r: nat)
    requires r >= 1
    ensures forall w: nat :: w < Pow2(r - 1) ==>
      UnitIndicators(r)(2 * w) == UnitIndicators(r - 1)(w)
      && UnitIndicators(r)(2 * w + 1) == if w == 0 then 1 else 0
  {
    forall w: nat | w < Pow2(r - 1)
      ensures UnitIndicators(r)(2 * w) == UnitIndicators(r - 1)(w)
      ensures UnitIndicators(r)(2 * w + 1) == if w == 0 then 1 else 0
    {
      IndicatorDouble(r, w);
    }
  }

  /**
   * Summing f over 0 .. 2m-1 in pairs: when f(2w) = g(w) and f(2w + 1) is 1
   * exactly for w = 0, the sum is that of g over 0 .. m-1, plus one.
   */
  lemma {:induction false} CountDouble(f: nat -> nat, g: nat -> nat, m: nat)
    requires forall w: nat :: w < m ==> f(2 * w) == g(w) && f(2 * w + 1) == if w == 0 then 1 else 0
    ensures Count(f, 2 * m) == Count(g, m) + (if m >= 1 then 1 else 0)
  {
    if m > 0 {
      CountDouble(f, g, m - 1);
      assert Count(f, 2 * m) == Count(f, 2 * (m - 1)) + f(2 * (m - 1)) + f(2 * (m - 1) + 1);
    }
  }

  lemma CountUnitStep(r: nat)
    requires r >= 1
    requires Count(UnitIndicators(r - 1), Pow2(r - 1)) == r - 1
    ensures Count(UnitIndicators(r), Pow2(r)) == r
  {
    IndicatorsPaired(r);
    CountDouble(UnitIndicators(r), UnitIndicators(r - 1), Pow2(r - 1));
  }

  /** Exactly r of the integers below 2^r have one 1 bit. */
  lemma {:induction false} CountUnitAll(r: nat)
    ensures Count(UnitIndicators(r), Pow2(r)) == r
  {
    if r == 0 {
      assert Count(UnitIndicators(0), 1) == UnitIndicator(0, 0) == 0;
    } else {
      CountUnitAll(r - 1);
      CountUnitStep(r);
    }
  }

  lemma {:induction false} NonBasisBelowCount(r: nat, m: nat)
    requires 1 <= m <= Pow2(r)
    ensures |NonBasisBelow(r, m)| + Count(UnitIndicators(r), m) == m - 1
  {
    if m == 1 {
      PopCountIsZero(0, r);
      assert Count(UnitIndicators(r), 1) == UnitIndicator(r, 0) == 0;
    } else {
      NonBasisBelowCount(r, m - 1);
      assert |NonBasisBelow(r, m)| == |NonBasisBelow(r, m - 1)| + 1 - UnitIndicator(r, m - 1);
    }
  }

  /** There are 2^r - 1 - r non-basis vectors of length r. */
  lemma NonBasisCount(r: nat)
    ensures |NonBasis(r)| == Pow2(r) - 1 - r
  {
    NonBasisBelowCount(r, Pow2(r));
    CountUnitAll(r);
  }

  // ---------------------------------------------------------------------
  // What the enumeration contains, and in which order

  /** Each entry of NonBasisBelow(r, m) is the vector of an eligible integer below m. */
  lemma {:induction false} NonBasisBelowEntries(r: nat, m: nat)
    requires 1 <= m <= Pow2(r)
    ensures forall i :: 0 <= i < |NonBasisBelow(r, m)| ==>
      var x := NonBasisBelow(r, m)[i];
      1 <= Value(x) < m && x == ToBits(Value(x), r) && PopCount(Value(x), r) != 1
  {
    if m > 1 {
      NonBasisBelowEntries(r, m - 1);
      ValueOfToBits(m - 1, r);
    }
  }

  /** The integers of NonBasisBelow(r, m) ascend strictly. */
  lemma {:induction false} NonBasisBelowAscending(r: nat, m: nat)
    requires 1 <= m <= Pow2(r)
    ensures forall i, j :: 0 <= i < j < |NonBasisBelow(r, m)| ==>
      Value(NonBasisBelow(r, m)[i]) < Value(NonBasisBelow(r, m)[j])
  {
    if m > 1 {
      NonBasisBelowAscending(r, m - 1);
      NonBasisBelowEntries(r, m - 1);
      ValueOfToBits(m - 1, r);
    }
  }

  /** Every eligible integer below m has its vector in NonBasisBelow(r, m). */
  lemma {:induction false} NonBasisBelowComplete(r: nat, m: nat)
    requires 1 <= m <= Pow2(r)
    ensures forall v :: 1 <= v < m && PopCount(v, r) != 1 ==> ToBits(v, r) in NonBasisBelow(r, m)
  {
    if m > 1 {
      NonBasisBelowComplete(r, m - 1);
    }
  }

  /**
   * The rows of A for the given k: every row is the r-bit vector of an
   * integer in 1 .. 2^r-1 whose weight is neither 0 nor 1; the rows ascend
   * strictly as integers, so they are pairwise distinct; and every eligible
   * integer left out is larger than every row taken, so the rows are the
   * first k eligible vectors.
   */
  lemma SelectedRows(r: nat, k: nat)
    requires k <= |NonBasis(r)|
    ensures forall i :: 0 <= i < k ==>
      var x := NonBasis(r)[i];
      1 <= Value(x) < Pow2(r) && x == ToBits(Value(x), r) && Weight(x) >= 2
    ensures forall i, j :: 0 <= i < j < k ==>
      Value(NonBasis(r)[i]) < Value(NonBasis(r)[j])
    ensures forall i, j :: 0 <= i < j < k ==> NonBasis(r)[i] != NonBasis(r)[j]
    ensures forall v :: (1 <= v < Pow2(r) && Weight(ToBits(v, r)) != 1
      && ToBits(v, r) !in NonBasis(r)[..k]) ==>
      forall i :: 0 <= i < k ==> Value(NonBasis(r)[i]) < v
  {
    var nb := NonBasis(r);
    NonBasisBelowEntries(r, Pow2(r));
    NonBasisBelowAscending(r, Pow2(r));
    NonBasisBelowComplete(r, Pow2(r));
    forall i | 0 <= i < k
      ensures Weight(nb[i]) >= 2
    {
      WeightOfToBits(Value(nb[i]), r);
      PopCountIsZero(Value(nb[i]), r);
    }
    forall v | 1 <= v < Pow2(r) && Weight(ToBits(v, r)) != 1 && ToBits(v, r) !in nb[..k]
      ensures forall i :: 0 <= i < k ==> Value(nb[i]) < v
    {
      WeightOfToBits(v, r);
      var t :| 0 <= t < |nb| && nb[t] == ToBits(v, r);
      ValueOfToBits(v, r);
    }
  }

  /** The weights and vectors of the 3-bit integers 1 .. 7. */
  lemma ThreeBitVectors()
    ensures Pow2(3) == 8
    ensures PopCount(1, 3) == 1 && PopCount(2, 3) == 1 && PopCount(4, 3) == 1
    ensures PopCount(3, 3) == 2 && PopCount(5, 3) == 2 && PopCount(6, 3) == 2 && PopCount(7, 3) == 3
    ensures ToBits(3, 3) == [0, 1, 1] && ToBits(5, 3) == [1, 0, 1]
    ensures ToBits(6, 3) == [1, 1, 0] && ToBits(7, 3) == [1, 1, 1]
  {
    assert Pow2(3) == 8;
    assert ToBits(1, 2) == [0, 1] && ToBits(2, 2) == [1, 0] && ToBits(3, 2) == [1, 1];
  }

  /** For r = 3 the rows are 3, 5, 6 and 7: those of the (7, 4) Hamming code. */
  lemma NonBasisOfThree()
    ensures NonBasis(3) == [[0, 1, 1], [1, 0, 1], [1, 1, 0], [1, 1, 1]]
  {
    ThreeBitVectors();
    assert NonBasisBelow(3, 3) == [];
    assert NonBasisBelow(3, 4) == [[0, 1, 1]];
    assert NonBasisBelow(3, 5) == [[0, 1, 1]];
    assert NonBasisBelow(3, 6) == [[0, 1, 1], [1, 0, 1]];
    assert NonBasisBelow(3, 7) == [[0, 1, 1], [1, 0, 1], [1, 1, 0]];
  }

  // ---------------------------------------------------------------------
  // The builder

  /**
   * Builds G = [I_k | A], or None when r = n - k < 2. The caller must
   * supply enough non-basis vectors for A (n + 1 <= 2^r, the exact Hamming
   * bound); otherwise the original indexes past the end of A.
   */
  method GenerateG(n: nat, k: nat) returns (g: Option<Matrix>)
    requires n >= k + 2 ==> n + 1 <= Pow2(n - k)
    ensures g.None? <==> n < k + 2
    ensures g.Some? ==> k <= |NonBasis(n - k)| && |g.value| == k
    ensures g.Some? ==> forall i :: 0 <= i < k ==>
      g.value[i] == SystematicRow(k, i, NonBasis(n - k)[i]) && |g.value[i]| == n
    ensures g.Some? ==> forall i, j :: 0 <= i < k && 0 <= j < k ==>
      g.value[i][j] == if i == j then 1 else 0
  {
    if n < k + 2 {
      return None;
    }
    var r: nat := n - k;
    var top := Pow2(r);

    var allVectors := AllVectors(r);
    var nonBasis := DropBasis(r, allVectors);
    assert k <= |nonBasis| by {
      NonBasisCount(r);
    }
    var a := nonBasis[..k];
    assert forall t :: 0 <= t < k ==> |a[t]| == r by {
      NonBasisBelowEntries(r, top);
    }

    var rows := Assemble(n, k, a);
    return Some(rows);
  }

  /** All non-zero r-bit vectors, in ascending order: entry t is the vector of t + 1. */
  method AllVectors(r: nat) returns (allVectors: seq<seq<int>>)
    ensures |allVectors| == Pow2(r) - 1
    ensures forall t :: 0 <= t < |allVectors| ==> allVectors[t] == ToBits(t + 1, r)
  {
    allVectors := [];
    for i := 1 to Pow2(r)
      invariant |allVectors| == i - 1
      invariant forall t :: 0 <= t < i - 1 ==> allVectors[t] == ToBits(t + 1, r)
    {
      var vec := ToBits(i, r);
      allVectors := allVectors + [vec];
    }
  }

  /** Keeps the vectors whose count of 1s is not exactly one. */
  method DropBasis(r: nat, allVectors: seq<seq<int>>) returns (nonBasis: seq<seq<int>>)
    requires |allVectors| == Pow2(r) - 1
    requires forall t :: 0 <= t < |allVectors| ==> allVectors[t] == ToBits(t + 1, r)
    ensures nonBasis == NonBasis(r)
  {
    nonBasis := [];
    var onesPerRow := seq(|allVectors|, t requires 0 <= t < |allVectors| => Weight(allVectors[t]));
    for i := 0 to |onesPerRow|
      invariant nonBasis == NonBasisBelow(r, i + 1)
    {
      WeightOfToBits(i + 1, r);
      if onesPerRow[i] != 1 {
        nonBasis := nonBasis + [allVectors[i]];
      }
    }
  }

  /** G = [I_k | A], built row by row in a zero-filled buffer of length n. */
  method Assemble(n: nat, k: nat, a: seq<seq<int>>) returns (rows: Matrix)
    requires k <= n && |a| == k && forall t :: 0 <= t < k ==> |a[t]| == n - k
    ensures |rows| == k
    ensures forall i :: 0 <= i < k ==> rows[i] == SystematicRow(k, i, a[i])
  {
    var r := n - k;
    rows := [];
    for i := 0 to k
      invariant |rows| == i
      invariant forall t :: 0 <= t < i ==> rows[t] == SystematicRow(k, t, a[t])
    {
      var row := new int[n](_ => 0);
      row[i] := 1;
      for j := 0 to r
        invariant forall t :: 0 <= t < k ==> row[t] == if t == i then 1 else 0
        invariant forall t :: 0 <= t < j ==> row[k + t] == a[i][t]
      {
        row[k + j] := a[i][j];
      }
      assert row[..] == SystematicRow(k, i, a[i]);
      rows := rows + [row[..]];
    }
  }
}
