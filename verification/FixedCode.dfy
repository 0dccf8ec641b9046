/** The fixed code of section 3.2.6 of RFC 1951: the canonical codes of the fixed lengths, in closed form. */
module FixedCode {
  import opened Bits
  import opened CanonicalCode
  import opened Inflate

  function Clamp(n: int, low: int, high: int): nat
    requires low <= high
  {
    if n <= low then 0 else if n <= high then n - low else high - low
  }

  // How many of the first n symbols have length l.
  function FixedCount(n: nat, l: nat): nat {
    if l == 7 then Clamp(n, 256, 280)
    else if l == 8 then Clamp(n, 0, 144) + Clamp(n, 280, 288)
    else if l == 9 then Clamp(n, 144, 256)
    else 0
  }

  lemma {:induction false} CountFixed(n: nat, l: nat)
    requires n <= 288
    ensures Count(FixedLens()[..n], l) == FixedCount(n, l)
  {
    if n != 0 {
      CountFixed(n - 1, l);
      CountStep(FixedLens(), n - 1, l);
    }
  }

  lemma UsedFixed(l: nat)
    ensures Used(FixedLens(), l) == FixedCount(288, l)
  {
    CountFixed(288, l);
    assert FixedLens()[..288] == FixedLens();
  }

  lemma {:induction false} FirstCodeLow(l: nat)
    requires l <= 7
    ensures FirstCode(FixedLens(), l) == 0
  {
    if l != 0 {
      FirstCodeLow(l - 1);
      UsedFixed(l - 1);
    }
  }

  lemma FirstCodes()
    ensures FirstCode(FixedLens(), 7) == 0
    ensures FirstCode(FixedLens(), 8) == 48
    ensures FirstCode(FixedLens(), 9) == 400
  {
    hide Count, Used;
    FirstCodeLow(7);
    UsedFixed(7);
    UsedFixed(8);
  }

  lemma FixedUsable()
    ensures Usable(FixedLens())
  {
    hide Count, FirstCode, Pow2;
    FirstCodes();
    Pow2Values();
    forall l | 1 <= l <= MAX_LEN
      ensures LevelFits(FixedLens(), l)
    {
      UsedFixed(l);
      UsedIsCount(l);
    }
  }

  lemma UsedIsCount(l: nat)
    requires l >= 1
    ensures Used(FixedLens(), l) == Count(FixedLens(), l)
  {
  }

  // The numbers that the writer's four huff macros send.
  function HuffCode(n: nat): nat
    requires n < 288
  {
    if n <= 143 then 0x30 + n
    else if n <= 255 then 0x190 + n - 144
    else if n <= 279 then n - 256
    else 0xC0 + n - 280
  }

  lemma FixedCodes(n: nat)
    requires n < 288
    ensures Code(FixedLens(), n) == HuffCode(n)
    ensures HuffCode(n) < Pow2(FixedLens()[n])
  {
    hide Count, FirstCode, Pow2;
    FirstCodes();
    CountFixed(n, FixedLens()[n]);
    Pow2Values();
  }

  // ---- distances: thirty-two codes of five bits ----

  lemma {:induction false} CountDist(n: nat, l: nat)
    requires n <= 32
    ensures Count(FixedDistLens()[..n], l) == if l == 5 then n else 0
  {
    if n != 0 {
      CountDist(n - 1, l);
      CountStep(FixedDistLens(), n - 1, l);
    }
  }

  lemma {:induction false} FirstCodeDist(l: nat)
    requires l <= 5
    ensures FirstCode(FixedDistLens(), l) == 0
  {
    if l != 0 {
      FirstCodeDist(l - 1);
      CountDist(32, l - 1);
      assert FixedDistLens()[..32] == FixedDistLens();
    }
  }

  lemma DistUsable()
    ensures Usable(FixedDistLens())
  {
    hide Count, FirstCode, Pow2;
    FirstCodeDist(5);
    Pow2Values();
    assert FixedDistLens()[..32] == FixedDistLens();
    forall l | 1 <= l <= MAX_LEN
      ensures LevelFits(FixedDistLens(), l)
    {
      CountDist(32, l);
    }
  }

  lemma DistCodes(n: nat)
    requires n < 32
    ensures Code(FixedDistLens(), n) == n < Pow2(5)
  {
    hide Count, FirstCode, Pow2;
    FirstCodeDist(5);
    CountDist(n, 5);
    Pow2Values();
  }
}
