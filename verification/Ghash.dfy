/** mul_blocks and ghash: multiplication in GF(2^128) modulo x^128 + x^7 + x^2 + x + 1 (section 6.3 of NIST
    SP 800-38D), its field laws, and the hash as a polynomial in the hash key (section 6.4). */
module Ghash {

  function ZeroBits(): seq<bool> {
    seq(128, _ => false)
  }

  // Bit 127 - k of the source's bitset is the coefficient of x^k here.
  type Element = e: seq<bool> | |e| == 128 witness ZeroBits()

  function Zero(): Element {
    ZeroBits()
  }

  function Xor(a: Element, b: Element): Element {
    seq(128, k requires 0 <= k < 128 => a[k] != b[k])
  }

  function Scaled(bit: bool, a: Element): Element {
    if bit then a else Zero()
  }

  // The coefficients of x^7 + x^2 + x + 1: the constant R.
  predicate InR(k: int) {
    k == 0 || k == 1 || k == 2 || k == 7
  }

  // V >> 1, and R added when the bit shifted out was set: multiplication by x.
  function TimesX(v: Element): Element {
    seq(128, k requires 0 <= k < 128 => (k > 0 && v[k - 1]) != (v[127] && InR(k)))
  }

  // The loop over the bits x of the first factor, lowest power first.
  function Combined(x: seq<bool>, v: Element): Element {
    if x == [] then Zero() else Xor(Scaled(x[0], v), Combined(x[1..], TimesX(v)))
  }

  function Product(x: Element, y: Element): Element {
    Combined(x, y)
  }

  // ---- the vector space ----

  lemma XorSwaps(a: Element, b: Element, c: Element, d: Element)
    ensures Xor(Xor(a, b), Xor(c, d)) == Xor(Xor(a, c), Xor(b, d))
  {
  }

  lemma XorZero(a: Element)
    ensures Xor(a, Zero()) == a && Xor(Zero(), a) == a
  {
  }

  lemma XorAssociates(a: Element, b: Element, c: Element)
    ensures Xor(Xor(a, b), c) == Xor(a, Xor(b, c))
  {
  }

  lemma TimesXLinear(a: Element, b: Element)
    ensures TimesX(Xor(a, b)) == Xor(TimesX(a), TimesX(b))
  {
  }

  lemma TimesXZero()
    ensures TimesX(Zero()) == Zero()
  {
  }

  lemma ScaledLinear(bit: bool, a: Element, b: Element)
    ensures Scaled(bit, Xor(a, b)) == Xor(Scaled(bit, a), Scaled(bit, b))
  {
    hide Xor, Zero;
    XorZero(Zero());
  }

  lemma ScaledTimesX(bit: bool, a: Element)
    ensures TimesX(Scaled(bit, a)) == Scaled(bit, TimesX(a))
  {
    hide TimesX, Zero;
    TimesXZero();
  }

  lemma {:induction false} CombinedLinear(x: seq<bool>, a: Element, b: Element)
    ensures Combined(x, Xor(a, b)) == Xor(Combined(x, a), Combined(x, b))
    decreases |x|
  {
    hide Xor, TimesX, Scaled, Zero;
    if x == [] {
      XorZero(Zero());
    } else {
      ScaledLinear(x[0], a, b);
      TimesXLinear(a, b);
      CombinedLinear(x[1..], TimesX(a), TimesX(b));
      XorSwaps(Scaled(x[0], a), Scaled(x[0], b), Combined(x[1..], TimesX(a)), Combined(x[1..], TimesX(b)));
    }
  }

  lemma {:induction false} CombinedTimesX(x: seq<bool>, v: Element)
    ensures Combined(x, TimesX(v)) == TimesX(Combined(x, v))
    decreases |x|
  {
    hide Xor, TimesX, Scaled, Zero;
    if x == [] {
      TimesXZero();
    } else {
      ScaledTimesX(x[0], v);
      CombinedTimesX(x[1..], TimesX(v));
      TimesXLinear(Scaled(x[0], v), Combined(x[1..], TimesX(v)));
    }
  }

  lemma {:induction false} CombinedZero(x: seq<bool>)
    ensures Combined(x, Zero()) == Zero()
    decreases |x|
  {
    hide Xor, TimesX, Zero;
    if x == [] {
    } else {
      TimesXZero();
      CombinedZero(x[1..]);
      XorZero(Zero());
    }
  }

  lemma CombinedScaled(x: seq<bool>, bit: bool, v: Element)
    ensures Combined(x, Scaled(bit, v)) == Scaled(bit, Combined(x, v))
  {
    hide Combined, Zero;
    CombinedZero(x);
  }

  // Multiplications by two polynomials in x commute as operations on any element.
  lemma {:induction false} CombinedCommutes(x: seq<bool>, y: seq<bool>, v: Element)
    ensures Combined(x, Combined(y, v)) == Combined(y, Combined(x, v))
    decreases |x|
  {
    hide Xor, TimesX, Scaled, Zero;
    if x == [] {
      CombinedZero(y);
    } else {
      var rest := Combined(x[1..], TimesX(v));
      CombinedTimesX(y, v);
      CombinedCommutes(x[1..], y, TimesX(v));
      CombinedScaled(y, x[0], v);
      CombinedLinear(y, Scaled(x[0], v), rest);
    }
  }

  // ---- powers of x ----

  function Monomial(k: nat): Element
    requires k < 128
  {
    seq(128, i requires 0 <= i < 128 => i == k)
  }

  lemma NextMonomial(k: nat)
    requires k < 127
    ensures TimesX(Monomial(k)) == Monomial(k + 1)
  {
  }

  // The part of y from x^k on.
  function From(y: Element, k: nat): Element
    requires k <= 128
  {
    seq(128, i requires 0 <= i < 128 => i >= k && y[i])
  }

  lemma FromNext(y: Element, k: nat)
    requires k < 128
    ensures From(y, k) == Xor(Scaled(y[k], Monomial(k)), From(y, k + 1))
  {
  }

  lemma {:induction false} CombinedMonomial(y: Element, k: nat)
    requires k < 128
    ensures Combined(y[k..], Monomial(k)) == From(y, k)
    decreases 128 - k
  {
    hide Xor, TimesX, Scaled, Zero, Monomial, From;
    FromNext(y, k);
    assert y[k..][1..] == y[k + 1..];
    if k == 127 {
      assert y[k + 1..] == [];
      FromEnd(y);
    } else {
      NextMonomial(k);
      CombinedMonomial(y, k + 1);
    }
  }

  lemma FromEnd(y: Element)
    ensures From(y, 128) == Zero() && From(y, 0) == y
  {
  }

  lemma ProductOne(y: Element)
    ensures Product(y, Monomial(0)) == y
  {
    hide Combined, Monomial, From;
    CombinedMonomial(y, 0);
    FromEnd(y);
    assert y[0..] == y;
  }

  // ---- the field laws ----

  lemma ProductCommutes(x: Element, y: Element)
    ensures Product(x, y) == Product(y, x)
  {
    hide Combined, Monomial;
    ProductOne(x);
    ProductOne(y);
    CombinedCommutes(x, y, Monomial(0));
  }

  lemma ProductAssociates(x: Element, y: Element, z: Element)
    ensures Product(Product(x, y), z) == Product(x, Product(y, z))
  {
    hide Combined;
    ProductCommutes(Product(x, y), z);
    ProductCommutes(y, z);
    CombinedCommutes(x, z, y);
  }

  lemma ProductDistributes(x: Element, y: Element, z: Element)
    ensures Product(x, Xor(y, z)) == Xor(Product(x, y), Product(x, z))
    ensures Product(Xor(x, y), z) == Xor(Product(x, z), Product(y, z))
  {
    hide Combined, Xor;
    CombinedLinear(x, y, z);
    CombinedLinear(z, x, y);
    ProductCommutes(Xor(x, y), z);
    ProductCommutes(x, z);
    ProductCommutes(y, z);
  }

  // ---- the product is the remainder of the polynomial product ----

  type Poly = seq<bool>

  predicate Coefficient(p: Poly, k: int) {
    0 <= k < |p| && p[k]
  }

  function Sum(p: Poly, q: Poly): Poly {
    seq(if |p| > |q| then |p| else |q|, k requires k >= 0 => Coefficient(p, k) != Coefficient(q, k))
  }

  // The schoolbook product of two polynomials over GF(2).
  function Convolved(x: Poly, y: Poly): Poly {
    if x == [] then [] else Sum(if x[0] then y else [], [false] + Convolved(x[1..], y))
  }

  // Reduction by Horner's rule from the highest power down, and the quotient digits it produces.
  function Reduced(p: Poly): Element {
    if p == [] then Zero() else Xor(Scaled(p[0], Monomial(0)), TimesX(Reduced(p[1..])))
  }

  function Quotient(p: Poly): Poly {
    if p == [] then [] else [Reduced(p[1..])[127]] + Quotient(p[1..])
  }

  // Coefficient k of q * (x^128 + x^7 + x^2 + x + 1).
  predicate TimesModulus(q: Poly, k: int) {
    (Coefficient(q, k) != Coefficient(q, k - 1))
    != ((Coefficient(q, k - 2) != Coefficient(q, k - 7)) != Coefficient(q, k - 128))
  }

  lemma {:induction false} DivisionIdentity(p: Poly, k: nat)
    ensures Coefficient(p, k) <==> (TimesModulus(Quotient(p), k) != Coefficient(Reduced(p), k))
    decreases |p|
  {
    hide Reduced, Quotient;
    if p == [] {
      assert Quotient(p) == [] && Reduced(p) == Zero() by {
        DivisionBase();
      }
    } else {
      var r, q := Reduced(p[1..]), Quotient(p[1..]);
      DivisionUnfold(p);
      if k > 0 {
        DivisionIdentity(p[1..], k - 1);
      }
      DivisionStep(p[0], r, q, k);
      assert Coefficient(p, k) == if k == 0 then p[0] else Coefficient(p[1..], k - 1);
    }
  }

  lemma DivisionBase()
    ensures Quotient([]) == [] && Reduced([]) == Zero()
  {
  }

  lemma DivisionUnfold(p: Poly)
    requires p != []
    ensures Quotient(p) == [Reduced(p[1..])[127]] + Quotient(p[1..])
    ensures Reduced(p) == Xor(Scaled(p[0], Monomial(0)), TimesX(Reduced(p[1..])))
  {
  }

  lemma DivisionStep(b: bool, r: Element, q: Poly, k: nat)
    ensures var next := Xor(Scaled(b, Monomial(0)), TimesX(r));
            (TimesModulus([r[127]] + q, k) != Coefficient(next, k))
            == if k == 0 then b else TimesModulus(q, k - 1) != Coefficient(r, k - 1)
  {
    var h := [r[127]] + q;
    ShiftedCoefficient(r[127], q, k);
    ShiftedCoefficient(r[127], q, k - 1);
    ShiftedCoefficient(r[127], q, k - 2);
    ShiftedCoefficient(r[127], q, k - 7);
    ShiftedCoefficient(r[127], q, k - 128);
  }

  lemma ShiftedCoefficient(b: bool, q: Poly, k: int)
    ensures Coefficient([b] + q, k) == if k == 0 then b else Coefficient(q, k - 1)
  {
  }

  lemma ReducedShift(p: Poly)
    ensures Reduced([false] + p) == TimesX(Reduced(p))
  {
    hide Xor, TimesX, Monomial, Zero;
    var q := [false] + p;
    assert q[1..] == p;
    XorZero(TimesX(Reduced(p)));
  }

  lemma SumParts(p: Poly, q: Poly)
    requires p != [] && q != []
    ensures Sum(p, q) != [] && Sum(p, q)[0] == (p[0] != q[0]) && Sum(p, q)[1..] == Sum(p[1..], q[1..])
  {
  }

  lemma SumEmpty(p: Poly)
    ensures Sum([], p) == p && Sum(p, []) == p
  {
  }

  lemma ScaledSum(a: bool, b: bool, m: Element)
    ensures Scaled(a != b, m) == Xor(Scaled(a, m), Scaled(b, m))
  {
  }

  lemma {:induction false} ReducedSum(p: Poly, q: Poly)
    ensures Reduced(Sum(p, q)) == Xor(Reduced(p), Reduced(q))
    decreases |p|
  {
    hide Xor, TimesX, Monomial, Scaled, Zero, Sum;
    SumEmpty(p);
    SumEmpty(q);
    if p == [] {
      XorZero(Reduced(q));
    } else if q == [] {
      XorZero(Reduced(p));
    } else {
      var one := Monomial(0);
      var r, t := Reduced(p[1..]), Reduced(q[1..]);
      SumParts(p, q);
      ReducedSum(p[1..], q[1..]);
      TimesXLinear(r, t);
      ScaledSum(p[0], q[0], one);
      XorSwaps(Scaled(p[0], one), Scaled(q[0], one), TimesX(r), TimesX(t));
    }
  }

  function Widened(p: Poly): Element {
    seq(128, k requires 0 <= k < 128 => Coefficient(p, k))
  }

  lemma WidenedStep(p: Poly)
    requires 0 < |p| <= 128
    ensures Widened(p) == Xor(Scaled(p[0], Monomial(0)), TimesX(Widened(p[1..])))
  {
  }

  lemma {:induction false} ReducedShort(p: Poly)
    requires |p| <= 128
    ensures Reduced(p) == Widened(p)
  {
    hide Xor, TimesX, Monomial, Scaled, Coefficient;
    if p == [] {
      assert Widened(p) == Zero() by {
        WidenedEmpty();
      }
    } else {
      ReducedShort(p[1..]);
      WidenedStep(p);
    }
  }

  lemma WidenedEmpty()
    ensures Widened([]) == Zero()
  {
  }

  lemma WidenedElement(y: Element)
    ensures Widened(y) == y
  {
  }

  lemma {:induction false} ReducedConvolved(x: Poly, y: Element)
    ensures Reduced(Convolved(x, y)) == Combined(x, y)
  {
    hide Xor, TimesX, Monomial, Scaled, Coefficient, Widened, Sum, Zero, Reduced;
    if x == [] {
      DivisionBase();
    } else {
      var rest := Convolved(x[1..], y);
      var head := if x[0] then y else [];
      ReducedConvolved(x[1..], y);
      ReducedShift(rest);
      CombinedTimesX(x[1..], y);
      ReducedSum(head, [false] + rest);
      ReducedShort(y);
      WidenedElement(y);
      DivisionBase();
      ScaledHead(x[0], y);
    }
  }

  lemma ScaledHead(bit: bool, y: Element)
    requires Reduced(y) == y && Reduced([]) == Zero()
    ensures Reduced(if bit then y else []) == Scaled(bit, y)
  {
    hide Reduced;
  }

  /** The polynomial product of two elements is a multiple of the modulus plus mul_blocks' result, which has
      fewer than 129 coefficients: mul_blocks computes the remainder. */
  lemma ProductIsRemainder(x: Element, y: Element, k: nat)
    ensures Coefficient(Convolved(x, y), k)
       <==> (TimesModulus(Quotient(Convolved(x, y)), k) != Coefficient(Product(x, y), k))
  {
    hide Coefficient, TimesModulus, Quotient, Convolved, Combined, Reduced;
    ReducedConvolved(x, y);
    DivisionIdentity(Convolved(x, y), k);
  }

  /** mul_blocks. */
  method MulBlocks(x: Element, y: Element) returns (z: Element)
    ensures z == Product(x, y)
  {
    hide Xor, TimesX, Zero;
    z := Zero();
    var v: Element := y;
    XorZero(Product(x, y));
    assert x[0..] == x;
    var i := 127;
    while i >= 0
      invariant -1 <= i <= 127
      invariant Product(x, y) == Xor(z, Combined(x[127 - i..], v))
      decreases i
    {
      var k := 127 - i;
      assert x[k..][1..] == x[k + 1..];
      XorAssociates(z, Scaled(x[k], v), Combined(x[k + 1..], TimesX(v)));
      if !x[k] {
        XorZero(z);
      } else {
        z := Xor(z, v);
      }
      v := TimesX(v);
      i := i - 1;
    }
    XorZero(z);
  }

  // ---- the hash ----

  function Hashed(h: Element, xs: seq<Element>): Element {
    if xs == [] then Zero() else Product(Xor(Hashed(h, xs[..|xs| - 1]), xs[|xs| - 1]), h)
  }

  method GHash(h: Element, xs: seq<Element>) returns (y: Element)
    ensures y == Hashed(h, xs)
  {
    hide Xor, Product, Zero;
    y := Zero();
    for i := 0 to |xs|
      invariant y == Hashed(h, xs[..i])
    {
      assert xs[..i + 1][..i] == xs[..i];
      y := MulBlocks(Xor(y, xs[i]), h);
    }
    assert xs[..|xs|] == xs;
  }

  function Power(h: Element, n: nat): Element {
    if n == 0 then Monomial(0) else Product(Power(h, n - 1), h)
  }

  function Polynomial(h: Element, xs: seq<Element>): Element {
    if xs == [] then Zero() else Xor(Product(xs[0], Power(h, |xs|)), Polynomial(h, xs[1..]))
  }

  lemma PowerOne(h: Element)
    ensures Power(h, 1) == h
  {
    hide Product, Monomial;
    assert Power(h, 0) == Monomial(0);
    ProductCommutes(Monomial(0), h);
    ProductOne(h);
  }

  lemma ProductZero(h: Element)
    ensures Product(Zero(), h) == Zero()
  {
    hide Combined;
    ProductCommutes(Zero(), h);
    CombinedZero(h);
  }

  lemma {:induction false} PolynomialMore(h: Element, xs: seq<Element>, z: Element)
    ensures Polynomial(h, xs + [z]) == Product(Xor(Polynomial(h, xs), z), h)
    decreases |xs|
  {
    hide Product, Xor, Zero, Power;
    if xs == [] {
      assert xs + [z] == [z];
      assert Polynomial(h, [z]) == Xor(Product(z, Power(h, 1)), Zero());
      XorZero(z);
      XorZero(Product(z, h));
      PowerOne(h);
    } else {
      var n := |xs|;
      var first, rest := Product(xs[0], Power(h, n)), Polynomial(h, xs[1..]);
      assert (xs + [z])[1..] == xs[1..] + [z];
      PolynomialMore(h, xs[1..], z);
      PowerNext(h, n);
      ProductAssociates(xs[0], Power(h, n), h);
      ProductDistributes(first, Xor(rest, z), h);
      ProductDistributes(h, first, Xor(rest, z));
      XorAssociates(first, rest, z);
    }
  }

  lemma PowerNext(h: Element, n: nat)
    ensures Power(h, n + 1) == Product(Power(h, n), h)
  {
  }

  /** ghash is X1 * H^m + X2 * H^(m-1) + ... + Xm * H. */
  lemma {:induction false} HashedIsPolynomial(h: Element, xs: seq<Element>)
    ensures Hashed(h, xs) == Polynomial(h, xs)
  {
    hide Product, Xor, Zero, Power;
    if xs == [] {
    } else {
      var k := |xs| - 1;
      HashedIsPolynomial(h, xs[..k]);
      PolynomialMore(h, xs[..k], xs[k]);
      assert xs[..k] + [xs[k]] == xs;
    }
  }
}
