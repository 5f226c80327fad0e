/**
 * Feasibility of an (n, k, d) binary code: the Hamming (sphere-packing),
 * Singleton and Varshamov-Gilbert bounds, evaluated as plain inequalities.
 */
module Bounds {
  import opened Bits

  datatype BoundChecks = BoundChecks(hamming: bool, singleton: bool, vg: bool)

  /** The binomial coefficient C(m, i), zero when i > m (as Python's `math.comb`). */
  function Binomial(m: nat, i: nat): (c: nat) {
    if i == 0 then 1
    else if m == 0 then 0
    else Binomial(m - 1, i - 1) + Binomial(m - 1, i)
  }

  /** The sum of C(m, i) for 0 <= i < count. */
  function BinomialSum(m: nat, count: nat): (s: nat) {
    if count == 0 then 0 else BinomialSum(m, count - 1) + Binomial(m, count - 1)
  }

  /**
   * The three bounds for n, k and minimum distance d (the correction
   * capability t of the original is not used by it). The Hamming bound
   * 2^k <= 2^n / (1 + n) is compared exactly as 2^k * (1 + n) <= 2^n.
   */
  function CheckBounds(n: nat, k: nat, d: int): (b: BoundChecks)
    ensures n <= k ==> b == BoundChecks(false, false, false)
    ensures n > k ==> (b.hamming <==> n + 1 <= Pow2(n - k))
    ensures n > k ==> (b.singleton <==> n - k >= d - 1)
    ensures n > k ==> (b.vg <==> BinomialSum(n - 1, if d >= 1 then d - 1 else 0) < Pow2(n - k))
  {
    var r := n - k;
    if r <= 0 then BoundChecks(false, false, false)
    else
      HammingBoundExact(n, k);
      var hamming := Pow2(k) * (1 + n) <= Pow2(n);
      var singleton := r >= d - 1;
      var vgSum := BinomialSum(n - 1, if d >= 1 then d - 1 else 0);
      var vg := vgSum < Pow2(r);
      BoundChecks(hamming, singleton, vg)
  }

  /**
   * The exact Hamming bound for one corrected error is equivalent to
   * n + 1 <= 2^r, that is k <= 2^r - 1 - r.
   */
  lemma HammingBoundExact(n: nat, k: nat)
    requires n > k
    ensures Pow2(k) * (1 + n) <= Pow2(n) <==> n + 1 <= Pow2(n - k)
  {
    Pow2Add(k, n - k);
    MulCancel(Pow2(k), 1 + n, Pow2(n - k));
  }

  /** A positive factor can be cancelled from both sides of an inequality. */
  lemma MulCancel(a: nat, x: nat, y: nat)
    requires a >= 1
    ensures a * x <= a * y <==> x <= y
  {
    if x <= y {
      assert a * y == a * x + a * (y - x);
    } else {
      assert a * x == a * y + a * (x - y);
      assert a * (x - y) >= x - y;
    }
  }

  lemma {:induction false} BinomialOne(m: nat)
    ensures Binomial(m, 1) == m
  {
    if m > 0 {
      BinomialOne(m - 1);
    }
  }

  /**
   * For d = 3 the Varshamov-Gilbert sum C(n-1, 0) + C(n-1, 1) is n,
   * so that bound says n < 2^r.
   */
  lemma VgSumForDistanceThree(n: nat)
    requires n >= 1
    ensures BinomialSum(n - 1, 2) == n
  {
    BinomialOne(n - 1);
    assert BinomialSum(n - 1, 1) == 1;
  }

  /**
   * For d = 3 all three bounds hold exactly when r >= 2 and n + 1 <= 2^r;
   * the Hamming and Varshamov-Gilbert verdicts then always agree.
   */
  lemma BoundsForDistanceThree(n: nat, k: nat)
    ensures CheckBounds(n, k, 3).hamming == CheckBounds(n, k, 3).vg
    ensures CheckBounds(n, k, 3) == BoundChecks(true, true, true)
            <==> n >= k + 2 && n + 1 <= Pow2(n - k)
  {
    if n > k {
      VgSumForDistanceThree(n);
    }
  }

  /** The (7, 4) Hamming code's parameters pass all three bounds, (7, 5) fails. */
  lemma CheckBoundsExamples()
    ensures CheckBounds(7, 4, 3) == BoundChecks(true, true, true)
    ensures CheckBounds(7, 5, 3) == BoundChecks(false, true, false)
    ensures CheckBounds(5, 5, 3) == BoundChecks(false, false, false)
  {
  }
}
