/**
 * Encoding: the codeword of an information word u is the GF(2) sum of the
 * rows of G selected by the 1 bits of u.
 */
module Encoder {
  import opened Bits
  import opened ParityCheck

  /** The sum, mod 2, of the rows G[i] with u[i] == 1, as a vector of length n. */
  function Combination(u: seq<int>, g: Matrix, n: nat): (c: seq<int>)
    requires |u| <= |g| && forall i :: 0 <= i < |u| ==> |g[i]| == n
    ensures |c| == n && IsBits(c)
  {
    if |u| == 0 then Zeros(n)
    else if u[|u| - 1] == 1 then Xor(Combination(u[..|u| - 1], g, n), g[|u| - 1])
    else Combination(u[..|u| - 1], g, n)
  }

  /** Adds the selected rows of G into a zero-filled codeword, in place. */
  method Encode(u: seq<int>, g: Matrix, n: nat, k: nat) returns (codeword: seq<int>)
    requires |u| == k && |g| == k && forall i :: 0 <= i < k ==> |g[i]| == n
    ensures codeword == Combination(u, g, n)
  {
    var c := new int[n](_ => 0);
    for i := 0 to k
      invariant c[..] == Combination(u[..i], g, n)
    {
      assert u[..i + 1][..i] == u[..i];
      if u[i] == 1 {
        ghost var before := c[..];
        for j := 0 to n
          invariant forall t :: 0 <= t < j ==> c[t] == (before[t] + g[i][t]) % 2
          invariant forall t :: j <= t < n ==> c[t] == before[t]
        {
          c[j] := (c[j] + g[i][j]) % 2;
        }
        assert c[..] == Xor(before, g[i]);
      }
    }
    assert u[..k] == u;
    codeword := c[..];
  }

  /**
   * With a systematic G, the first k bits of the codeword of a binary word
   * u are u itself.
   */
  lemma EncodedSystematic(u: seq<int>, g: Matrix, n: nat, k: nat)
    requires IsSystematic(g, n, k) && |u| == k && IsBits(u)
    ensures Combination(u, g, n)[..k] == u
  {
    CombinationPrefix(u, g, n, k);
  }

  lemma {:induction false} CombinationPrefix(u: seq<int>, g: Matrix, n: nat, k: nat)
    requires IsSystematic(g, n, k) && |u| <= k && IsBits(u)
    ensures forall j :: 0 <= j < k ==>
      Combination(u, g, n)[j] == if j < |u| then u[j] else 0
  {
    var m := |u|;
    if m > 0 {
      var p := u[..m - 1];
      CombinationPrefix(p, g, n, k);
      if u[m - 1] == 1 {
        forall j | 0 <= j < k
          ensures Combination(u, g, n)[j] == if j < m then u[j] else 0
        {
          assert Combination(u, g, n)[j] == (Combination(p, g, n)[j] + g[m - 1][j]) % 2;
        }
      }
    }
  }

  /**
   * Every codeword has a zero syndrome: each row of G, and hence each GF(2)
   * sum of rows, is orthogonal to every row of H.
   */
  lemma {:induction false} EncodedSyndromeZero(u: seq<int>, g: Matrix, h: Matrix, n: nat, k: nat)
    requires IsSystematic(g, n, k) && IsParityForm(h, g, n, k) && |u| <= k
    ensures forall l :: 0 <= l < n - k ==> Dot(Combination(u, g, n), h[l]) == 0
  {
    var m := |u|;
    ParityFormIsBinary(h, g, n, k);
    forall l | 0 <= l < n - k
      ensures Dot(Combination(u, g, n), h[l]) == 0
    {
      if m == 0 {
        DotSymmetric(Zeros(n), h[l]);
        DotZeros(h[l]);
      } else {
        var p := u[..m - 1];
        EncodedSyndromeZero(p, g, h, n, k);
        if u[m - 1] == 1 {
          DotXor(Combination(p, g, n), g[m - 1], h[l]);
          GeneratorOrthogonal(g, h, n, k, m - 1, l);
        }
      }
    }
  }
}
