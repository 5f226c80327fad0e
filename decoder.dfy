/**
 * Syndrome decoding of at most one error: the syndrome of the received
 * word is compared with the columns of H, and the first matching position
 * is flipped.
 */
module Decoder {
  import opened Wrappers
  import opened Bits

  /** s = received * H^T over GF(2): one bit per row of H. */
  function Syndrome(received: seq<int>, h: Matrix): (s: seq<int>)
    requires forall i :: 0 <= i < |h| ==> |h[i]| == |received|
    ensures |s| == |h| && IsBits(s)
  {
    seq(|h|, i requires 0 <= i < |h| => Dot(received, h[i]))
  }

  /**
   * Returns the first k bits of the corrected word, the syndrome, and the
   * corrected position: the first column of H equal to a non-zero
   * syndrome, or None when the syndrome is zero or matches no column.
   */
  method Decode(received: seq<int>, h: Matrix, n: nat, k: nat)
    returns (info: seq<int>, syndrome: seq<int>, errorPos: Option<nat>)
    requires k <= n && |received| == n && |h| == n - k
    requires forall i :: 0 <= i < n - k ==> |h[i]| == n
    ensures syndrome == Syndrome(received, h)
    ensures errorPos.None? <==>
      IsZero(syndrome) || forall j :: 0 <= j < n ==> Column(h, j) != syndrome
    ensures errorPos.Some? ==>
      errorPos.value < n && Column(h, errorPos.value) == syndrome
      && forall j :: 0 <= j < errorPos.value ==> Column(h, j) != syndrome
    ensures errorPos.Some? ==> info == Flip(received, errorPos.value)[..k]
    ensures errorPos.None? ==> info == received[..k]
  {
    var r := n - k;
    var s := new int[r](_ => 0);
    for i := 0 to r
      invariant forall t :: 0 <= t < i ==> s[t] == Dot(received, h[t])
    {
      var total := 0;
      for j := 0 to n
        invariant total == Dot(received[..j], h[i][..j])
      {
        assert received[..j + 1][..j] == received[..j];
        assert h[i][..j + 1][..j] == h[i][..j];
        total := (total + received[j] * h[i][j]) % 2;
      }
      assert received[..n] == received && h[i][..n] == h[i];
      s[i] := total;
    }
    syndrome := s[..];

    errorPos := None;
    if !IsZero(syndrome) {
      for j := 0 to n
        invariant forall q :: 0 <= q < j ==> Column(h, q) != syndrome
      {
        var column := seq(r, i requires 0 <= i < r => h[i][j]);
        assert column == Column(h, j);
        if column == syndrome {
          errorPos := Some(j);
          break;
        }
      }
    }

    var corrected := received;
    if errorPos.Some? {
      corrected := corrected[errorPos.value := (corrected[errorPos.value] + 1) % 2];
    }
    info := corrected[..k];
  }

  /**
   * A single flipped bit of a binary word with zero syndrome produces the
   * column of H at the flipped position as the syndrome.
   */
  lemma SingleErrorSyndrome(c: seq<int>, h: Matrix, p: nat)
    requires p < |c| && IsBits(c)
    requires forall i :: 0 <= i < |h| ==> |h[i]| == |c| && IsBits(h[i])
    requires IsZero(Syndrome(c, h))
    ensures Syndrome(Flip(c, p), h) == Column(h, p)
  {
    FlipIsXor(c, p);
    forall l | 0 <= l < |h|
      ensures Syndrome(Flip(c, p), h)[l] == Column(h, p)[l]
    {
      assert Syndrome(c, h)[l] == 0;
      DotXor(c, Unit(|c|, p), h[l]);
      DotSymmetric(Unit(|c|, p), h[l]);
      DotUnit(h[l], p);
    }
  }
}
