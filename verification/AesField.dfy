/** The substitution table in the field: section 5.1.1 of FIPS 197 defines it by inverses in GF(2^8) and an affine map. */
module AesField {
  import opened AesTables
  import opened AesWord

  // Each bit is added to the four bits after it, cyclically, and to the constant.
  function Affine(b: bv8): bv8 {
    b ^ ((b << 1) | (b >> 7)) ^ ((b << 2) | (b >> 6)) ^ ((b << 3) | (b >> 5)) ^ ((b << 4) | (b >> 4)) ^ 0x63
  }

  function AffineInverse(s: bv8): bv8 {
    ((s << 1) | (s >> 7)) ^ ((s << 3) | (s >> 5)) ^ ((s << 6) | (s >> 2)) ^ 0x05
  }

  // One doubling of b, as far as the lowest bit of what is left of the other factor selects it.
  function Selected(b: bv8, rest: bv8): bv8 {
    if rest & 1 != 0 then b else 0
  }

  // The product without its recursion.
  function Times(b: bv8, m: bv8): bv8 {
    var b1 := Mul2(b);
    var b2 := Mul2(b1);
    var b3 := Mul2(b2);
    var b4 := Mul2(b3);
    var b5 := Mul2(b4);
    var b6 := Mul2(b5);
    var b7 := Mul2(b6);
    Add(Selected(b, m), Add(Selected(b1, m >> 1), Add(Selected(b2, m >> 2), Add(Selected(b3, m >> 3),
      Add(Selected(b4, m >> 4), Add(Selected(b5, m >> 5), Add(Selected(b6, m >> 6), Selected(b7, m >> 7))))))))
  }

  lemma MulNext(b: bv8, m: bv8, half: bv8)
    requires half == m >> 1
    ensures Mul(b, m) == Add(Selected(b, m), Mul(Mul2(b), half))
  {
    hide Mul2, Add;
    if m == 0 {
      MulZero(b);
      MulZero(Mul2(b));
      AddZero(0);
    } else if m & 1 != 0 {
      MulOdd(b, m, half);
    } else {
      MulEven(b, m, half);
      AddZero(Mul(Mul2(b), half));
    }
  }

  lemma Shifts(m: bv8)
    ensures m >> 2 == (m >> 1) >> 1 && m >> 3 == (m >> 2) >> 1 && m >> 4 == (m >> 3) >> 1 && m >> 5 == (m >> 4) >> 1
    ensures m >> 6 == (m >> 5) >> 1 && m >> 7 == (m >> 6) >> 1 && (m >> 7) >> 1 == 0
  {
  }

  lemma TimesIsMul(b: bv8, m: bv8)
    ensures Times(b, m) == Mul(b, m)
  {
    hide Mul2, Add, Mul, Selected;
    var b1 := Mul2(b);
    var b2 := Mul2(b1);
    var b3 := Mul2(b2);
    var b4 := Mul2(b3);
    var b5 := Mul2(b4);
    var b6 := Mul2(b5);
    var b7 := Mul2(b6);
    Shifts(m);
    MulNext(b, m, m >> 1);
    MulNext(b1, m >> 1, m >> 2);
    MulNext(b2, m >> 2, m >> 3);
    MulNext(b3, m >> 3, m >> 4);
    MulNext(b4, m >> 4, m >> 5);
    MulNext(b5, m >> 5, m >> 6);
    MulNext(b6, m >> 6, m >> 7);
    MulNext(b7, m >> 7, 0);
    MulZero(Mul2(b7));
    AddZero(Selected(b7, m >> 7));
  }

  lemma SboxTimes(b: bv8)
    ensures Times(b, AffineInverse(Sbox(b))) == if b == 0 then 0 else 1
  {
  }

  lemma SboxOfZero()
    ensures AffineInverse(Sbox(0)) == 0
  {
  }

  lemma AffineUndone(s: bv8)
    ensures Affine(AffineInverse(s)) == s
  {
  }

  /** Every entry of the table is the affine image of the inverse of its place in GF(2^8), and zero counts as its own
      inverse. */
  lemma SboxIsAffineInverse(b: bv8) returns (i: bv8)
    ensures Sbox(b) == Affine(i)
    ensures if b == 0 then i == 0 else Mul(b, i) == 1
  {
    hide Sbox, Times, Affine, AffineInverse, Mul;
    i := AffineInverse(Sbox(b));
    AffineUndone(Sbox(b));
    SboxOfZero();
    SboxTimes(b);
    TimesIsMul(b, i);
  }
}
