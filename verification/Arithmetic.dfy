/** Facts about integer division that the solver needs spelled out. */
module Arithmetic {

  lemma MultipleLarge(c: int, d: int)
    requires c >= 0
    ensures d >= 1 ==> c * d >= c
    ensures d <= -1 ==> c * d <= -c
  {
  }

  lemma DivUnique(a: int, c: int, q: int, r: int)
    requires c > 0 && a == c * q + r && 0 <= r < c
    ensures a / c == q && a % c == r
  {
    var d := q - a / c;
    assert c * d == a % c - r;
    MultipleLarge(c, d);
  }

  lemma DivBounds(a: int, c: int)
    requires c > 0
    ensures c * (a / c) <= a < c * (a / c) + c
    ensures a == c * (a / c) + a % c
  {
  }
}
