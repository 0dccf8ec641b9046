/** Small notions about sequences shared by the models. */
module Sequences {
  import opened Bits

  predicate Distinct(s: seq<nat>) {
    forall i, j :: 0 <= i < j < |s| ==> s[i] != s[j]
  }

  // n zero bytes.
  function Nulls(n: nat): (b: seq<byte>)
    ensures |b| == n
  {
    seq(n, _ => 0)
  }
}
