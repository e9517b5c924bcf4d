/** Flash bytes. */
module Flash {
  import opened Common

  function Erased(n: nat): (s: seq<uint8>)
    ensures |s| == n
  {
    seq(n, _ => 255)
  }

  /** A part of a part. */
  lemma SubSlice<T>(b: seq<T>, o: nat, n: nat, i: nat, j: nat)
    requires o + n <= |b| && i <= j <= n
    ensures b[o..o + n][i..j] == b[o + i..o + j]
  {
    var s := b[o..o + n];
    forall k | 0 <= k < j - i
      ensures s[i..j][k] == b[o + i..o + j][k]
    {
      assert s[i + k] == b[o + (i + k)];
    }
  }
}
