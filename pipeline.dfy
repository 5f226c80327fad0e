/**
 * The demonstration flow of the program for distance d = 3: check the
 * bounds, build G and H, encode an information word, pass the codeword
 * through a channel that flips at most one bit, and decode it.
 */
module Pipeline {
  import opened Wrappers
  import opened Bits
  import opened Bounds
  import opened Generator
  import opened ParityCheck
  import opened Encoder
  import opened Decoder

  /**
   * The bound check for d = 3 accepts (n, k) exactly when the generator
   * has r = n - k >= 2 and there are at least k non-basis vectors to fill A.
   */
  lemma BoundsGate(n: nat, k: nat)
    ensures CheckBounds(n, k, 3) == BoundChecks(true, true, true)
            <==> n >= k + 2 && k <= |NonBasis(n - k)|
  {
    BoundsForDistanceThree(n, k);
    if n >= k {
      NonBasisCount(n - k);
    }
  }

  /**
   * The parity-check matrix of the generator built for (n, k) has n
   * distinct non-zero columns, so each single error has its own syndrome.
   */
  lemma GeneratedColumns(n: nat, k: nat, g: Matrix, h: Matrix)
    requires k <= n && k <= |NonBasis(n - k)| && |g| == k
    requires forall i :: 0 <= i < k ==> g[i] == SystematicRow(k, i, NonBasis(n - k)[i])
    requires IsSystematic(g, n, k) && IsParityForm(h, g, n, k)
    ensures forall j :: 0 <= j < n ==> !IsZero(Column(h, j))
    ensures forall j1, j2 :: 0 <= j1 < j2 < n ==> Column(h, j1) != Column(h, j2)
  {
    SelectedRows(n - k, k);
    forall i | 0 <= i < k
      ensures g[i][k..] == NonBasis(n - k)[i]
    {
      assert g[i] == Unit(k, i) + NonBasis(n - k)[i];
    }
    ColumnsDistinctNonZero(g, h, n, k);
  }

  /**
   * Encodes u and decodes the codeword after the channel has flipped the
   * bit at `error`, if any: the decoder finds exactly that position,
   * reports a zero syndrome exactly when nothing was flipped, and always
   * returns u.
   */
  method Transmit(n: nat, k: nat, u: seq<int>, error: Option<nat>)
    returns (codeword: seq<int>, info: seq<int>, syndrome: seq<int>, errorPos: Option<nat>)
    requires CheckBounds(n, k, 3) == BoundChecks(true, true, true)
    requires |u| == k && IsBits(u)
    requires error.Some? ==> error.value < n
    ensures |codeword| == n && codeword[..k] == u
    ensures IsZero(syndrome) <==> error.None?
    ensures errorPos == error
    ensures info == u
  {
    BoundsForDistanceThree(n, k);
    BoundsGate(n, k);
    var r := n - k;
    var generated := GenerateG(n, k);
    var g := generated.value;
    GeneratedIsSystematic(n, k, g);
    var h := GetHFromG(g, n, k);
    ParityFormIsBinary(h, g, n, k);

    codeword := Encode(u, g, n, k);
    EncodedSystematic(u, g, n, k);
    EncodedSyndromeZero(u, g, h, n, k);
    assert IsZero(Syndrome(codeword, h));

    var received := if error.Some? then Flip(codeword, error.value) else codeword;
    info, syndrome, errorPos := Decode(received, h, n, k);

    if error.Some? {
      var p := error.value;
      SingleErrorSyndrome(codeword, h, p);
      GeneratedColumns(n, k, g, h);
      FlipFlip(codeword, p);
    }
  }
}
