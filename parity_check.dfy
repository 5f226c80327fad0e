/**
 * The parity-check matrix H = [A^T | I_r] of a systematic generator
 * matrix G = [I_k | A], and why it checks G's code.
 */
module ParityCheck {
  import opened Bits
  import opened Generator

  /** G is a k x n binary matrix whose first k columns form I_k. */
  predicate IsSystematic(g: Matrix, n: nat, k: nat) {
    k <= n && |g| == k
    && (forall i :: 0 <= i < k ==> |g[i]| == n && IsBits(g[i]))
    && (forall i, j :: 0 <= i < k && 0 <= j < k ==> g[i][j] == if i == j then 1 else 0)
  }

  /**
   * H is the (n - k) x n matrix [A^T | I_r] for the right-hand block A of
   * G: H[i][j] = A[j][i] = G[j][k + i] on the left and the identity on
   * the right.
   */
  predicate IsParityForm(h: Matrix, g: Matrix, n: nat, k: nat)
    requires k <= n && |g| == k && forall i :: 0 <= i < k ==> |g[i]| == n
  {
    |h| == n - k
    && (forall i :: 0 <= i < n - k ==> |h[i]| == n)
    && (forall i, j :: 0 <= i < n - k && 0 <= j < k ==> h[i][j] == g[j][k + i])
    && (forall i, j :: 0 <= i < n - k && k <= j < n ==> h[i][j] == if j - k == i then 1 else 0)
  }

  /** Builds H from G: extracts A, transposes it, and appends I_r. */
  method GetHFromG(g: Matrix, n: nat, k: nat) returns (h: Matrix)
    requires k <= n && |g| == k && forall i :: 0 <= i < k ==> |g[i]| == n
    ensures IsParityForm(h, g, n, k)
  {
    var r := n - k;
    var a := seq(|g|, i requires 0 <= i < |g| => g[i][k..]);

    // A^T, of size r x k.
    var aT: Matrix := [];
    for j := 0 to r
      invariant |aT| == j
      invariant forall t :: 0 <= t < j ==> |aT[t]| == k
      invariant forall t, i :: 0 <= t < j && 0 <= i < k ==> aT[t][i] == g[i][k + t]
    {
      var newRow: seq<int> := [];
      for i := 0 to k
        invariant |newRow| == i
        invariant forall t :: 0 <= t < i ==> newRow[t] == a[t][j]
      {
        newRow := newRow + [a[i][j]];
      }
      aT := aT + [newRow];
    }

    // H = [A^T | I_r].
    h := [];
    for i := 0 to r
      invariant |h| == i
      invariant forall t :: 0 <= t < i ==> |h[t]| == n
      invariant forall t, j :: 0 <= t < i && 0 <= j < k ==> h[t][j] == g[j][k + t]
      invariant forall t, j :: 0 <= t < i && k <= j < n ==> h[t][j] == if j - k == t then 1 else 0
    {
      var row := new int[n](_ => 0);
      for j := 0 to k
        invariant forall t :: 0 <= t < j ==> row[t] == g[t][k + i]
        invariant forall t :: k <= t < n ==> row[t] == 0
      {
        row[j] := aT[i][j];
      }
      for j := 0 to r
        invariant forall t :: 0 <= t < k ==> row[t] == g[t][k + i]
        invariant forall t :: k <= t < n ==> row[t] == if t - k == i && t - k < j then 1 else 0
      {
        if j == i {
          row[k + j] := 1;
        }
      }
      h := h + [row[..]];
    }
  }

  /** The generator matrix the builder returns is systematic and binary. */
  lemma GeneratedIsSystematic(n: nat, k: nat, g: Matrix)
    requires k <= n && k <= |NonBasis(n - k)| && |g| == k
    requires forall i :: 0 <= i < k ==> g[i] == SystematicRow(k, i, NonBasis(n - k)[i])
    ensures IsSystematic(g, n, k)
  {
    NonBasisBelowEntries(n - k, Pow2(n - k));
    forall i | 0 <= i < k
      ensures |g[i]| == n && IsBits(g[i])
    {
      ToBitsIsBits(Value(NonBasis(n - k)[i]), n - k);
    }
  }

  /** The left block of H holds entries of G, so H is binary when G is. */
  lemma ParityFormIsBinary(h: Matrix, g: Matrix, n: nat, k: nat)
    requires IsSystematic(g, n, k) && IsParityForm(h, g, n, k)
    ensures forall i :: 0 <= i < n - k ==> IsBits(h[i])
  {
    forall i, j | 0 <= i < n - k && 0 <= j < n
      ensures IsBit(h[i][j])
    {
      if j < k {
        assert IsBits(g[j]);
      }
    }
  }

  /**
   * Every row of G is orthogonal to every row of H: G H^T = A + A = 0
   * over GF(2).
   */
  lemma GeneratorOrthogonal(g: Matrix, h: Matrix, n: nat, k: nat, i: nat, l: nat)
    requires IsSystematic(g, n, k) && IsParityForm(h, g, n, k)
    requires i < k && l < n - k
    ensures Dot(g[i], h[l]) == 0
  {
    var r := n - k;
    var left := seq(k, j requires 0 <= j < k => g[j][k + l]);
    assert g[i] == Unit(k, i) + g[i][k..];
    assert h[l] == left + Unit(r, l);
    DotAppend(Unit(k, i), g[i][k..], left, Unit(r, l));
    DotSymmetric(Unit(k, i), left);
    DotUnit(left, i);
    DotUnit(g[i][k..], l);
  }

  /**
   * When the rows of A are pairwise distinct and each has at least two 1s,
   * the n columns of H are non-zero and pairwise distinct: columns j < k
   * are the rows of A, the others the unit vectors of length r.
   */
  lemma ColumnsDistinctNonZero(g: Matrix, h: Matrix, n: nat, k: nat)
    requires IsSystematic(g, n, k) && IsParityForm(h, g, n, k)
    requires forall i, j :: 0 <= i < j < k ==> g[i][k..] != g[j][k..]
    requires forall i :: 0 <= i < k ==> Weight(g[i][k..]) >= 2
    ensures forall j :: 0 <= j < n ==> !IsZero(Column(h, j))
    ensures forall j1, j2 :: 0 <= j1 < j2 < n ==> Column(h, j1) != Column(h, j2)
  {
    var r := n - k;
    forall j | 0 <= j < n
      ensures j < k ==> Column(h, j) == g[j][k..]
      ensures k <= j ==> Column(h, j) == Unit(r, j - k)
      ensures 1 <= Weight(Column(h, j))
    {
      if j < k {
        assert Column(h, j) == g[j][k..];
      } else {
        assert Column(h, j) == Unit(r, j - k);
        WeightOfUnit(r, j - k);
      }
    }
    forall j | 0 <= j < n
      ensures !IsZero(Column(h, j))
    {
      if IsZero(Column(h, j)) {
        WeightOfZero(Column(h, j));
      }
    }
    forall j1, j2 | 0 <= j1 < j2 < n
      ensures Column(h, j1) != Column(h, j2)
    {
      if k <= j1 {
        assert Column(h, j1)[j1 - k] != Column(h, j2)[j1 - k];
      } else if k <= j2 {
        WeightOfUnit(r, j2 - k);
      }
    }
  }
}
