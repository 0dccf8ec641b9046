/** The bits of a 64-bit word: shifts and masks, and the bit counting functions of the C++ standard library. */
module Word64 {
  type Word = bv64

  const ALL_ONES: Word := 0xFFFF_FFFF_FFFF_FFFF

  // A bit position as a machine number, by counting up.
  function Index(i: nat): bv8
    requires i < 256
  {
    if i == 0 then 0 else Index(i - 1) + 1
  }

  predicate Bit(w: Word, b: bv8)
    requires b < 64
  {
    (w >> b) & 1 == 1
  }

  // ---- positions ----

  lemma NextValue(b: bv8)
    requires b != 0xFF
    ensures (b + 1) as nat == b as nat + 1
  {
  }

  lemma {:induction false} IndexValue(i: nat)
    requires i < 256
    ensures Index(i) as nat == i
  {
    if i == 0 {
    } else {
      IndexValue(i - 1);
      NextValue(Index(i - 1));
    }
  }

  lemma LessValue(x: bv8, y: bv8)
    ensures x < y <==> (x as nat) < (y as nat)
  {
  }

  lemma IndexOrder(i: nat, j: nat)
    requires i < 256 && j < 256
    ensures Index(i) < Index(j) <==> i < j
    ensures Index(i) == Index(j) <==> i == j
  {
    hide Index;
    IndexValue(i);
    IndexValue(j);
    LessValue(Index(i), Index(j));
  }

  lemma IndexSmall(i: nat)
    requires i < 256
    ensures Index(i) < 64 <==> i < 64
  {
    hide Index;
    IndexValue(i);
    LessValue(Index(i), 64);
  }

  // ---- bits by number ----

  predicate BitAt(w: Word, i: nat)
    requires i < 64
  {
    IndexSmall(i);
    Bit(w, Index(i))
  }

  function And(a: Word, b: Word): Word { a & b }
  function Or(a: Word, b: Word): Word { a | b }
  function Not(a: Word): Word { !a }

  function One(k: nat): Word
    requires k < 64
  {
    IndexSmall(k);
    1 << Index(k)
  }

  // (1 << k) - 1
  function LowMask(k: nat): Word
    requires k < 64
  {
    One(k) - 1
  }

  // w >> k and w << k, one place at a time.
  function ShiftRight(w: Word, k: nat): Word {
    if k == 0 then w else ShiftRight(w, k - 1) >> 1
  }

  function ShiftLeft(w: Word, k: nat): Word {
    if k == 0 then w else ShiftLeft(w, k - 1) << 1
  }

  lemma AndBit(a: Word, c: Word, b: bv8)
    requires b < 64
    ensures Bit(And(a, c), b) == (Bit(a, b) && Bit(c, b))
  {
  }

  lemma OrBit(a: Word, c: Word, b: bv8)
    requires b < 64
    ensures Bit(Or(a, c), b) == (Bit(a, b) || Bit(c, b))
  {
  }

  lemma NotBit(a: Word, b: bv8)
    requires b < 64
    ensures Bit(Not(a), b) == !Bit(a, b)
  {
  }

  lemma MaskBit(k: bv8, b: bv8)
    requires k < 64 && b < 64
    ensures Bit((1 << k) - 1, b) == (b < k)
  {
  }

  lemma OneBit(k: bv8, b: bv8)
    requires k < 64 && b < 64
    ensures Bit(1 << k, b) == (b == k)
  {
  }

  lemma ShrOneBit(w: Word, b: bv8)
    requires b < 64
    ensures Bit(w >> 1, b) == (b < 63 && Bit(w, b + 1))
  {
  }

  lemma ShlOneBit(w: Word, b: bv8)
    requires b < 64
    ensures Bit(w << 1, b) == (b > 0 && Bit(w, b - 1))
  {
  }

  lemma TestBit(w: Word, b: bv8)
    requires b < 64
    ensures (And(w, 1 << b) != 0) == Bit(w, b)
  {
  }

  lemma LogicBits(a: Word, c: Word, i: nat)
    requires i < 64
    ensures BitAt(And(a, c), i) <==> BitAt(a, i) && BitAt(c, i)
    ensures BitAt(Or(a, c), i) <==> BitAt(a, i) || BitAt(c, i)
    ensures BitAt(Not(a), i) <==> !BitAt(a, i)
  {
    hide Index, And, Or, Not, Bit;
    IndexSmall(i);
    AndBit(a, c, Index(i));
    OrBit(a, c, Index(i));
    NotBit(a, Index(i));
  }

  lemma LowMaskBits(k: nat, i: nat)
    requires k < 64 && i < 64
    ensures BitAt(LowMask(k), i) <==> i < k
  {
    hide Index, Bit, And;
    IndexSmall(k);
    IndexSmall(i);
    IndexOrder(i, k);
    MaskBit(Index(k), Index(i));
  }

  lemma OneBits(k: nat, i: nat)
    requires k < 64 && i < 64
    ensures BitAt(One(k), i) <==> i == k
  {
    hide Index, Bit, And;
    IndexSmall(k);
    IndexSmall(i);
    IndexOrder(i, k);
    OneBit(Index(k), Index(i));
  }

  lemma TestOne(w: Word, k: nat)
    requires k < 64
    ensures And(w, One(k)) != 0 <==> BitAt(w, k)
  {
    hide Index, Bit, And;
    IndexSmall(k);
    TestBit(w, Index(k));
  }

  lemma IndexBelow63(k: nat)
    requires k < 63
    ensures Index(k) < 63 && Index(k + 1) == Index(k) + 1 && Index(k + 1) < 64
  {
    IndexSmall(k + 1);
    IndexSmall(k);
    Below63(Index(k));
  }

  lemma Below63(b: bv8)
    requires b < 64 && b + 1 < 64
    ensures b < 63
  {
  }

  lemma OneRight(w: Word, i: nat)
    requires i < 64
    ensures BitAt(w >> 1, i) <==> i + 1 < 64 && BitAt(w, i + 1)
  {
    hide Index, Bit;
    IndexSmall(i);
    ShrOneBit(w, Index(i));
    if i < 63 {
      IndexBelow63(i);
    } else {
      IndexValue(63);
      SameValue(Index(63), 63);
    }
  }

  lemma OneLeft(w: Word, i: nat)
    requires i < 64
    ensures BitAt(w << 1, i) <==> i > 0 && BitAt(w, i - 1)
  {
    hide Index, Bit;
    IndexSmall(i);
    ShlOneBit(w, Index(i));
    IndexOrder(0, i);
    assert Index(0) == 0 by {
      IndexZero();
    }
    if i > 0 {
      IndexBelow63(i - 1);
      AddSub(Index(i - 1), 1);
    }
  }

  lemma IndexZero()
    ensures Index(0) == 0
  {
  }

  lemma {:induction false} RightBits(w: Word, k: nat, i: nat)
    requires k < 64 && i < 64
    ensures BitAt(ShiftRight(w, k), i) <==> k + i < 64 && BitAt(w, k + i)
    decreases k
  {
    hide BitAt;
    if k == 0 {
    } else {
      OneRight(ShiftRight(w, k - 1), i);
      if i < 63 {
        RightBits(w, k - 1, i + 1);
      }
    }
  }

  lemma {:induction false} LeftBits(w: Word, k: nat, i: nat)
    requires k < 64 && i < 64
    ensures BitAt(ShiftLeft(w, k), i) <==> k <= i && BitAt(w, i - k)
    decreases k
  {
    hide BitAt;
    if k == 0 {
    } else {
      OneLeft(ShiftLeft(w, k - 1), i);
      if i > 0 {
        LeftBits(w, k - 1, i - 1);
      }
    }
  }

  lemma AddSub(a: bv8, b: bv8)
    ensures (a + b) - b == a
  {
  }

  // ---- words without a clear or without a set bit ----

  // The b low bits of a word; shifting by the whole width gives zero, and then all bits are meant.
  function LowPart(w: Word, b: bv8): Word
    requires b <= 64
  {
    w & ((1 << b) - 1)
  }

  lemma LowClearStep(w: Word, b: bv8)
    requires b < 64 && LowPart(w, b) == 0 && !Bit(w, b)
    ensures b + 1 <= 64 && LowPart(w, b + 1) == 0
  {
  }

  lemma {:induction false} LowClear(w: Word, n: nat)
    requires n <= 64 && forall i :: 0 <= i < n ==> !BitAt(w, i)
    ensures Index(n) <= 64 && LowPart(w, Index(n)) == 0
  {
    if n == 0 {
    } else {
      LowClear(w, n - 1);
      hide Index, Bit, LowPart;
      IndexSmall(n - 1);
      assert !BitAt(w, n - 1);
      LowClearStep(w, Index(n - 1));
      IndexNext(n - 1);
    }
  }

  lemma IndexNext(n: nat)
    requires n < 64
    ensures Index(n + 1) == Index(n) + 1 && Index(n + 1) <= 64
  {
    IndexSmall(n);
    Below65(Index(n));
  }

  lemma Below65(b: bv8)
    requires b < 64
    ensures b + 1 <= 64
  {
  }

  lemma NoBits(w: Word)
    requires forall i :: 0 <= i < 64 ==> !BitAt(w, i)
    ensures w == 0
  {
    LowClear(w, 64);
    assert Index(64) == 64 by {
      IndexValue(64);
      SameValue(Index(64), 64);
    }
    hide Index;
    WholePart(w);
  }

  lemma WholePart(w: Word)
    ensures LowPart(w, 64) == w
  {
  }

  lemma SameValue(x: bv8, y: bv8)
    requires x as nat == y as nat
    ensures x == y
  {
  }

  lemma ZeroBit(b: bv8)
    requires b < 64
    ensures !Bit(0, b)
  {
  }

  /** A word is zero exactly when it has no set bit, and all ones exactly when it has no clear bit. */
  lemma WordIs(w: Word)
    ensures w == 0 <==> forall i :: 0 <= i < 64 ==> !BitAt(w, i)
    ensures w == ALL_ONES <==> forall i :: 0 <= i < 64 ==> BitAt(w, i)
  {
    ZeroIs(w);
    ZeroIs(Not(w));
    forall i | 0 <= i < 64
      ensures BitAt(Not(w), i) <==> !BitAt(w, i)
    {
      LogicBits(w, w, i);
    }
    hide BitAt;
    NotZero(w);
  }

  lemma ZeroIs(w: Word)
    ensures w == 0 <==> forall i :: 0 <= i < 64 ==> !BitAt(w, i)
  {
    if w == 0 {
      forall i | 0 <= i < 64
        ensures !BitAt(w, i)
      {
        IndexSmall(i);
        ZeroBit(Index(i));
        hide Index;
      }
    } else if forall i :: 0 <= i < 64 ==> !BitAt(w, i) {
      NoBits(w);
      assert false;
    }
  }

  lemma NotZero(w: Word)
    ensures Not(w) == 0 <==> w == ALL_ONES
  {
  }

  // ---- std::countr_zero, countr_one, countl_zero and countl_one ----

  // The number of bits from position i on, counting up, that equal value before one that does not.
  function RunUp(w: Word, value: bool, i: nat): (n: nat)
    requires i <= 64
    ensures i + n <= 64
    ensures forall j :: i <= j < i + n ==> BitAt(w, j) == value
    ensures i + n < 64 ==> BitAt(w, i + n) != value
    decreases 64 - i
  {
    if i == 64 || BitAt(w, i) != value then 0 else 1 + RunUp(w, value, i + 1)
  }

  // The same counting down from position i - 1.
  function RunDown(w: Word, value: bool, i: nat): (n: nat)
    requires i <= 64
    ensures n <= i
    ensures forall j :: i - n <= j < i ==> BitAt(w, j) == value
    ensures n < i ==> BitAt(w, i - n - 1) != value
  {
    if i == 0 || BitAt(w, i - 1) != value then 0 else 1 + RunDown(w, value, i - 1)
  }

  function CountrZero(w: Word): nat { RunUp(w, false, 0) }
  function CountrOne(w: Word): nat { RunUp(w, true, 0) }
  function CountlZero(w: Word): nat { RunDown(w, false, 64) }
  function CountlOne(w: Word): nat { RunDown(w, true, 64) }
}
