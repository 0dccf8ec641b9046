/** The steps of an AES round on one word of the state, and that each step's inverse undoes it. */
module AesWord {
  import opened AesTables

  type Word = bv32

  // ---- words and bytes ----

  function Join(b0: bv8, b1: bv8, b2: bv8, b3: bv8): Word {
    (b0 as bv32) | ((b1 as bv32) << 8) | ((b2 as bv32) << 16) | ((b3 as bv32) << 24)
  }

  function Byte0(w: Word): bv8 { (w & 0xFF) as bv8 }
  function Byte1(w: Word): bv8 { ((w >> 8) & 0xFF) as bv8 }
  function Byte2(w: Word): bv8 { ((w >> 16) & 0xFF) as bv8 }
  function Byte3(w: Word): bv8 { ((w >> 24) & 0xFF) as bv8 }

  lemma JoinBytes(w: Word)
    ensures Join(Byte0(w), Byte1(w), Byte2(w), Byte3(w)) == w
  {
  }

  lemma BytesOfJoin(b0: bv8, b1: bv8, b2: bv8, b3: bv8)
    ensures var w := Join(b0, b1, b2, b3);
            Byte0(w) == b0 && Byte1(w) == b1 && Byte2(w) == b2 && Byte3(w) == b3
  {
  }

  // ---- the steps on one word, and their inverses ----

  function SubWord(w: Word): Word {
    Join(Sbox(Byte0(w)), Sbox(Byte1(w)), Sbox(Byte2(w)), Sbox(Byte3(w)))
  }

  function InvSubWord(w: Word): Word {
    Join(InvSbox(Byte0(w)), InvSbox(Byte1(w)), InvSbox(Byte2(w)), InvSbox(Byte3(w)))
  }

  lemma SubWordInverse(w: Word)
    ensures InvSubWord(SubWord(w)) == w
  {
    hide Sbox, InvSbox, Join, Byte0, Byte1, Byte2, Byte3;
    BytesOfJoin(Sbox(Byte0(w)), Sbox(Byte1(w)), Sbox(Byte2(w)), Sbox(Byte3(w)));
    SboxInverse(Byte0(w));
    SboxInverse(Byte1(w));
    SboxInverse(Byte2(w));
    SboxInverse(Byte3(w));
    JoinBytes(w);
  }

  // ---- GF(2^8), section 4 of FIPS 197 ----

  function Add(a: bv8, b: bv8): bv8 {
    a ^ b
  }

  // Doubling modulo x^8 + x^4 + x^3 + x + 1.
  function Mul2(b: bv8): bv8 {
    if b & 0x80 != 0 then Add(b << 1, 0x1B) else b << 1
  }

  // The product: the sum of the doublings of b that the bits of m select.
  function Mul(b: bv8, m: bv8): bv8
    decreases m
  {
    if m == 0 then 0
    else if m & 1 != 0 then Add(b, Mul(Mul2(b), m >> 1))
    else Mul(Mul2(b), m >> 1)
  }

  lemma AddAssociates(a: bv8, b: bv8, c: bv8)
    ensures Add(Add(a, b), c) == Add(a, Add(b, c))
  {
  }

  lemma AddCommutes(a: bv8, b: bv8)
    ensures Add(a, b) == Add(b, a)
  {
  }

  lemma AddZero(a: bv8)
    ensures Add(a, 0) == a && Add(0, a) == a
  {
  }

  lemma AddTwice(a: bv8)
    ensures Add(a, a) == 0
  {
  }

  lemma AddSwaps(a: bv8, b: bv8, p: bv8, q: bv8)
    ensures Add(Add(a, b), Add(p, q)) == Add(Add(a, p), Add(b, q))
  {
    hide Add;
    AddAssociates(a, b, Add(p, q));
    AddAssociates(b, p, q);
    AddCommutes(b, p);
    AddAssociates(p, b, q);
    AddAssociates(a, p, Add(b, q));
  }

  // Eight rounds reach the end of any byte: after i of them fewer than 8 - i bits of m are left.
  predicate Left(i: int, rest: bv8) {
    && (i >= 1 ==> rest < 0x80) && (i >= 2 ==> rest < 0x40) && (i >= 3 ==> rest < 0x20) && (i >= 4 ==> rest < 0x10)
    && (i >= 5 ==> rest < 0x08) && (i >= 6 ==> rest < 0x04) && (i >= 7 ==> rest < 0x02) && (i >= 8 ==> rest < 0x01)
  }

  lemma LeftAll(rest: bv8)
    ensures Left(0, rest)
  {
  }

  lemma LeftNone(rest: bv8)
    requires Left(8, rest)
    ensures rest == 0
  {
  }

  lemma LeftHalves(i: nat, rest: bv8)
    requires i < 8 && Left(i, rest)
    ensures Left(i + 1, rest >> 1)
  {
  }

  method MulBytes(b: bv8, m: bv8) returns (v: bv8)
    ensures v == Mul(b, m)
  {
    hide Mul2, Add, Left;
    v := 0;
    var t, rest := b, m;
    AddZero(Mul(b, m));
    LeftAll(m);
    for i := 0 to 8
      invariant Mul(b, m) == Add(v, Mul(t, rest))
      invariant Left(i, rest)
    {
      LeftHalves(i, rest);
      if rest & 1 != 0 {
        AddAssociates(v, t, Mul(Mul2(t), rest >> 1));
        v := Add(v, t);
      }
      t := Mul2(t);
      rest := rest >> 1;
    }
    LeftNone(rest);
    AddZero(v);
  }

  lemma MulZero(b: bv8)
    ensures Mul(b, 0) == 0
  {
  }

  lemma MulEven(b: bv8, m: bv8, half: bv8)
    requires m & 1 == 0 && half == m >> 1
    ensures Mul(b, m) == Mul(Mul2(b), half)
  {
    hide Mul2, Add;
  }

  lemma MulOdd(b: bv8, m: bv8, half: bv8)
    requires m & 1 == 1 && half == m >> 1
    ensures Mul(b, m) == Add(b, Mul(Mul2(b), half))
  {
    hide Mul2, Add;
  }

  lemma ShiftXor(a: bv8, b: bv8)
    ensures Add(a, b) << 1 == Add(a << 1, b << 1)
    ensures Add(a, b) & 0x80 != 0 <==> (a & 0x80 != 0) != (b & 0x80 != 0)
  {
  }

  lemma Mul2Linear(a: bv8, b: bv8)
    ensures Mul2(Add(a, b)) == Add(Mul2(a), Mul2(b))
  {
    hide Add;
    var p, q := a << 1, b << 1;
    ShiftXor(a, b);
    AddAssociates(p, q, 0x1B);
    AddCommutes(q, 0x1B);
    AddAssociates(p, 0x1B, q);
    AddSwaps(p, 0x1B, q, 0x1B);
    AddTwice(0x1B);
    AddZero(Add(p, q));
  }

  lemma {:induction false} MulLinear(a: bv8, b: bv8, m: bv8)
    ensures Mul(Add(a, b), m) == Add(Mul(a, m), Mul(b, m))
    decreases m
  {
    hide Mul2, Add;
    if m == 0 {
      AddZero(0);
    } else {
      Mul2Linear(a, b);
      MulLinear(Mul2(a), Mul2(b), m >> 1);
      AddSwaps(a, b, Mul(Mul2(a), m >> 1), Mul(Mul2(b), m >> 1));
    }
  }

  function Add4(a: bv8, b: bv8, c: bv8, d: bv8): bv8 {
    Add(Add(Add(a, b), c), d)
  }

  lemma MulSum(a: bv8, b: bv8, c: bv8, d: bv8, m: bv8)
    ensures Mul(Add4(a, b, c, d), m) == Add4(Mul(a, m), Mul(b, m), Mul(c, m), Mul(d, m))
  {
    hide Add, Mul;
    MulLinear(Add(Add(a, b), c), d, m);
    MulLinear(Add(a, b), c, m);
    MulLinear(a, b, m);
  }

  lemma MulAdd(b: bv8, m: bv8, n: bv8)
    ensures Mul(b, Add(m, n)) == Add(Mul(b, m), Mul(b, n))
    decreases m
  {
    hide Mul2, Add, Mul;
    if m == 0 {
      MulZero(b);
      AddZero(n);
      AddZero(Mul(b, n));
    } else {
      Halves(m);
      MulAdd(Mul2(b), m >> 1, n >> 1);
      MulAddStep(b, m, n);
    }
  }

  lemma MulAddStep(b: bv8, m: bv8, n: bv8)
    requires Mul(Mul2(b), Add(m >> 1, n >> 1)) == Add(Mul(Mul2(b), m >> 1), Mul(Mul2(b), n >> 1))
    ensures Mul(b, Add(m, n)) == Add(Mul(b, m), Mul(b, n))
  {
    hide Mul2, Add, Mul;
    var h, k := m >> 1, n >> 1;
    var x, y := Mul(Mul2(b), h), Mul(Mul2(b), k);
    XorParts(m, n);
    if m & 1 == 0 && n & 1 == 0 {
      MulEven(b, m, h);
      MulEven(b, n, k);
      MulEven(b, Add(m, n), Add(h, k));
    } else if m & 1 == 0 {
      MulEven(b, m, h);
      MulOdd(b, n, k);
      MulOdd(b, Add(m, n), Add(h, k));
      AddAssociates(b, x, y);
      AddCommutes(b, x);
      AddAssociates(x, b, y);
    } else if n & 1 == 0 {
      MulOdd(b, m, h);
      MulEven(b, n, k);
      MulOdd(b, Add(m, n), Add(h, k));
      AddAssociates(b, x, y);
    } else {
      MulOdd(b, m, h);
      MulOdd(b, n, k);
      MulEven(b, Add(m, n), Add(h, k));
      AddSwaps(b, x, b, y);
      AddTwice(b);
      AddZero(Add(x, y));
    }
  }

  lemma Halves(m: bv8)
    requires m != 0
    ensures m >> 1 < m
  {
  }

  lemma XorParts(m: bv8, n: bv8)
    ensures Add(m, n) >> 1 == Add(m >> 1, n >> 1)
    ensures m & 1 == 0 || m & 1 == 1
    ensures n & 1 == 0 || n & 1 == 1
    ensures m & 1 == n & 1 ==> Add(m, n) & 1 == 0
    ensures m & 1 != n & 1 ==> Add(m, n) & 1 == 1
  {
  }

  lemma Fold(a: bv8, b: bv8, c: bv8, d: bv8)
    ensures Add4(a, b, c, d) == a ^ b ^ c ^ d
  {
  }

  lemma MulAdd4(b: bv8, m0: bv8, m1: bv8, m2: bv8, m3: bv8)
    ensures Add4(Mul(b, m0), Mul(b, m1), Mul(b, m2), Mul(b, m3)) == Mul(b, Add4(m0, m1, m2, m3))
  {
    hide Add, Mul;
    MulAdd(b, m0, m1);
    MulAdd(b, Add(m0, m1), m2);
    MulAdd(b, Add(Add(m0, m1), m2), m3);
  }

  // ---- mixing one column ----

  // One output byte of mix_columns; the other three are the same sum of the rotated inputs.
  function Mix0(v0: bv8, v1: bv8, v2: bv8, v3: bv8): bv8 {
    Add4(Mul2(v0), Add(Mul2(v1), v1), v2, v3)
  }

  function MixWord(w: Word): Word {
    var v0, v1, v2, v3 := Byte0(w), Byte1(w), Byte2(w), Byte3(w);
    Join(Mix0(v0, v1, v2, v3), Mix0(v1, v2, v3, v0), Mix0(v2, v3, v0, v1), Mix0(v3, v0, v1, v2))
  }

  function InvMix0(v0: bv8, v1: bv8, v2: bv8, v3: bv8): bv8 {
    Add4(Mul(v0, 0x0E), Mul(v1, 0x0B), Mul(v2, 0x0D), Mul(v3, 0x09))
  }

  function InvMixWord(w: Word): Word {
    var v0, v1, v2, v3 := Byte0(w), Byte1(w), Byte2(w), Byte3(w);
    Join(InvMix0(v0, v1, v2, v3), InvMix0(v1, v2, v3, v0), InvMix0(v2, v3, v0, v1), InvMix0(v3, v0, v1, v2))
  }

  lemma Add4Swaps(a: bv8, b: bv8, c: bv8, d: bv8, p: bv8, q: bv8, r: bv8, s: bv8)
    ensures Add(Add4(a, b, c, d), Add4(p, q, r, s)) == Add4(Add(a, p), Add(b, q), Add(c, r), Add(d, s))
  {
    hide Add;
    AddSwaps(Add(Add(a, b), c), d, Add(Add(p, q), r), s);
    AddSwaps(Add(a, b), c, Add(p, q), r);
    AddSwaps(a, b, p, q);
  }

  // The product of the two matrices of sections 5.1.3 and 5.3.3 of FIPS 197, entry by entry.
  lemma Diagonal(a: bv8)
    ensures Add4(Mul(Mul2(a), 0x0E), Mul(a, 0x0B), Mul(a, 0x0D), Mul(Add(Mul2(a), a), 0x09)) == a
  {
    hide Add, Add4, Mul, Mul2;
    var t := Mul2(a);
    MulLinear(t, a, 0x09);
    MulZero(t);
    MulZero(a);
    AddZero(Mul(t, 0x0E));
    AddZero(Mul(a, 0x0B));
    AddZero(Mul(a, 0x0D));
    Add4Swaps(Mul(t, 0x0E), Mul(t, 0x00), Mul(t, 0x00), Mul(t, 0x09),
              Mul(a, 0x00), Mul(a, 0x0B), Mul(a, 0x0D), Mul(a, 0x09));
    MulAdd4(t, 0x0E, 0x00, 0x00, 0x09);
    assert Add4(0x0E, 0x00, 0x00, 0x09) == 0x07 by { Fold(0x0E, 0x00, 0x00, 0x09); }
    MulAdd4(a, 0x00, 0x0B, 0x0D, 0x09);
    assert Add4(0x00, 0x0B, 0x0D, 0x09) == 0x0F by { Fold(0x00, 0x0B, 0x0D, 0x09); }
    MulOdd(a, 0x0F, 0x07);
    AddCommutes(a, Mul(t, 0x07));
    AddAssociates(Mul(t, 0x07), Mul(t, 0x07), a);
    AddTwice(Mul(t, 0x07));
    AddZero(a);
  }

  lemma OneRight(a: bv8)
    ensures Add4(Mul(Add(Mul2(a), a), 0x0E), Mul(Mul2(a), 0x0B), Mul(a, 0x0D), Mul(a, 0x09)) == 0
  {
    hide Add, Add4, Mul, Mul2;
    var t := Mul2(a);
    MulLinear(t, a, 0x0E);
    MulZero(t);
    MulZero(a);
    AddZero(Mul(t, 0x0B));
    AddZero(Mul(a, 0x0D));
    AddZero(Mul(a, 0x09));
    Add4Swaps(Mul(t, 0x0E), Mul(t, 0x0B), Mul(t, 0x00), Mul(t, 0x00),
              Mul(a, 0x0E), Mul(a, 0x00), Mul(a, 0x0D), Mul(a, 0x09));
    MulAdd4(t, 0x0E, 0x0B, 0x00, 0x00);
    assert Add4(0x0E, 0x0B, 0x00, 0x00) == 0x05 by { Fold(0x0E, 0x0B, 0x00, 0x00); }
    MulAdd4(a, 0x0E, 0x00, 0x0D, 0x09);
    assert Add4(0x0E, 0x00, 0x0D, 0x09) == 0x0A by { Fold(0x0E, 0x00, 0x0D, 0x09); }
    MulEven(a, 0x0A, 0x05);
    AddTwice(Mul(t, 0x05));
  }

  lemma TwoRight(a: bv8)
    ensures Add4(Mul(a, 0x0E), Mul(Add(Mul2(a), a), 0x0B), Mul(Mul2(a), 0x0D), Mul(a, 0x09)) == 0
  {
    hide Add, Add4, Mul, Mul2;
    var t := Mul2(a);
    MulLinear(t, a, 0x0B);
    MulZero(t);
    MulZero(a);
    AddZero(Mul(a, 0x0E));
    AddZero(Mul(t, 0x0D));
    AddZero(Mul(a, 0x09));
    Add4Swaps(Mul(t, 0x00), Mul(t, 0x0B), Mul(t, 0x0D), Mul(t, 0x00),
              Mul(a, 0x0E), Mul(a, 0x0B), Mul(a, 0x00), Mul(a, 0x09));
    MulAdd4(t, 0x00, 0x0B, 0x0D, 0x00);
    assert Add4(0x00, 0x0B, 0x0D, 0x00) == 0x06 by { Fold(0x00, 0x0B, 0x0D, 0x00); }
    MulAdd4(a, 0x0E, 0x0B, 0x00, 0x09);
    assert Add4(0x0E, 0x0B, 0x00, 0x09) == 0x0C by { Fold(0x0E, 0x0B, 0x00, 0x09); }
    MulEven(a, 0x0C, 0x06);
    AddTwice(Mul(t, 0x06));
  }

  lemma ThreeRight(a: bv8)
    ensures Add4(Mul(a, 0x0E), Mul(a, 0x0B), Mul(Add(Mul2(a), a), 0x0D), Mul(Mul2(a), 0x09)) == 0
  {
    hide Add, Add4, Mul, Mul2;
    var t := Mul2(a);
    MulLinear(t, a, 0x0D);
    MulZero(t);
    MulZero(a);
    AddZero(Mul(a, 0x0E));
    AddZero(Mul(a, 0x0B));
    AddZero(Mul(t, 0x09));
    Add4Swaps(Mul(t, 0x00), Mul(t, 0x00), Mul(t, 0x0D), Mul(t, 0x09),
              Mul(a, 0x0E), Mul(a, 0x0B), Mul(a, 0x0D), Mul(a, 0x00));
    MulAdd4(t, 0x00, 0x00, 0x0D, 0x09);
    assert Add4(0x00, 0x00, 0x0D, 0x09) == 0x04 by { Fold(0x00, 0x00, 0x0D, 0x09); }
    MulAdd4(a, 0x0E, 0x0B, 0x0D, 0x00);
    assert Add4(0x0E, 0x0B, 0x0D, 0x00) == 0x08 by { Fold(0x0E, 0x0B, 0x0D, 0x00); }
    MulEven(a, 0x08, 0x04);
    AddTwice(Mul(t, 0x04));
  }

  lemma Rotate4(a: bv8, b: bv8, c: bv8, d: bv8)
    ensures Add4(b, c, d, a) == Add4(a, b, c, d)
  {
    hide Add;
    AddCommutes(Add(Add(b, c), d), a);
    AddAssociates(a, Add(b, c), d);
    AddAssociates(a, b, c);
  }

  lemma RowsAndColumns(t00: bv8, t01: bv8, t02: bv8, t03: bv8,
                       t10: bv8, t11: bv8, t12: bv8, t13: bv8,
                       t20: bv8, t21: bv8, t22: bv8, t23: bv8,
                       t30: bv8, t31: bv8, t32: bv8, t33: bv8)
    ensures Add4(Add4(t00, t01, t02, t03), Add4(t11, t12, t13, t10),
                 Add4(t22, t23, t20, t21), Add4(t33, t30, t31, t32))
         == Add4(Add4(t00, t10, t20, t30), Add4(t01, t11, t21, t31),
                 Add4(t02, t12, t22, t32), Add4(t03, t13, t23, t33))
  {
    hide Add;
    Rotate4(t10, t11, t12, t13);
    Rotate4(t22, t23, t20, t21);
    Rotate4(t23, t20, t21, t22);
    Rotate4(t30, t31, t32, t33);
    Rotate4(t31, t32, t33, t30);
    Rotate4(t32, t33, t30, t31);
    Rotate4(t20, t21, t22, t23);
    Rotate4(t21, t22, t23, t20);
    Add4Swaps(t00, t01, t02, t03, t10, t11, t12, t13);
    Add4Swaps(Add(t00, t10), Add(t01, t11), Add(t02, t12), Add(t03, t13), t20, t21, t22, t23);
    Add4Swaps(Add(Add(t00, t10), t20), Add(Add(t01, t11), t21), Add(Add(t02, t12), t22), Add(Add(t03, t13), t23),
              t30, t31, t32, t33);
  }

  lemma UnmixByte(v0: bv8, v1: bv8, v2: bv8, v3: bv8)
    ensures InvMix0(Mix0(v0, v1, v2, v3), Mix0(v1, v2, v3, v0), Mix0(v2, v3, v0, v1), Mix0(v3, v0, v1, v2)) == v0
  {
    hide Add, Mul2, Mul;
    var a, b, c, d := Mul2(v0), Mul2(v1), Mul2(v2), Mul2(v3);
    MulSum(a, Add(b, v1), v2, v3, 0x0E);
    MulSum(b, Add(c, v2), v3, v0, 0x0B);
    MulSum(c, Add(d, v3), v0, v1, 0x0D);
    MulSum(d, Add(a, v0), v1, v2, 0x09);
    RowsAndColumns(
      Mul(a, 0x0E), Mul(Add(b, v1), 0x0E), Mul(v2, 0x0E), Mul(v3, 0x0E),
      Mul(v0, 0x0B), Mul(b, 0x0B), Mul(Add(c, v2), 0x0B), Mul(v3, 0x0B),
      Mul(v0, 0x0D), Mul(v1, 0x0D), Mul(c, 0x0D), Mul(Add(d, v3), 0x0D),
      Mul(Add(a, v0), 0x09), Mul(v1, 0x09), Mul(v2, 0x09), Mul(d, 0x09));
    AddZero(v0);
    Diagonal(v0);
    OneRight(v1);
    TwoRight(v2);
    ThreeRight(v3);
  }

  lemma MixWordInverse(w: Word)
    ensures InvMixWord(MixWord(w)) == w
  {
    hide Mix0, InvMix0, Join, Byte0, Byte1, Byte2, Byte3;
    var v0, v1, v2, v3 := Byte0(w), Byte1(w), Byte2(w), Byte3(w);
    BytesOfJoin(Mix0(v0, v1, v2, v3), Mix0(v1, v2, v3, v0), Mix0(v2, v3, v0, v1), Mix0(v3, v0, v1, v2));
    UnmixByte(v0, v1, v2, v3);
    UnmixByte(v1, v2, v3, v0);
    UnmixByte(v2, v3, v0, v1);
    UnmixByte(v3, v0, v1, v2);
    JoinBytes(w);
  }
}
