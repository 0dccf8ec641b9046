/** Numbers as bytes, lowest byte first. */
module LittleEndian {
  import opened Arithmetic
  import opened Bits

  // The n low bytes of a number, little end first.
  function Le(v: nat, n: nat): (b: seq<byte>)
    ensures |b| == n
  {
    if n == 0 then [] else [v % 256] + Le(v / 256, n - 1)
  }

  function FromLe(b: seq<byte>): nat {
    if b == [] then 0 else
      var low: int := b[0];
      low + 256 * FromLe(b[1..])
  }

  function Power256(n: nat): (p: nat)
    ensures p > 0
  {
    if n == 0 then 1 else 256 * Power256(n - 1)
  }

  lemma {:induction false} FromLeOfLe(v: nat, n: nat)
    requires v < Power256(n)
    ensures FromLe(Le(v, n)) == v
  {
    if n > 0 {
      assert Le(v, n)[1..] == Le(v / 256, n - 1);
      FromLeOfLe(v / 256, n - 1);
    }
  }

  lemma DivTwice(v: nat, p: nat)
    requires p > 0
    ensures v / 256 / p == v / (256 * p)
  {
    var q := v / 256;
    var k := q / p;
    assert q == p * k + q % p;
    assert 256 * (p * k) == 256 * p * k;
    DivUnique(v, 256 * p, k, 256 * (q % p) + v % 256);
  }

  /** Byte i is the i-th digit to base 256. */
  lemma {:induction false} LeByte(v: nat, n: nat, i: nat)
    requires i < n
    ensures Le(v, n)[i] == v / Power256(i) % 256
  {
    if i > 0 {
      LeByte(v / 256, n - 1, i - 1);
      DivTwice(v, Power256(i - 1));
    }
  }
}
