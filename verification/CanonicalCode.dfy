/** Canonical Huffman codes (section 3.2.2 of RFC 1951): from a list of code lengths to prefix-free
    codes, and how a 16-bit window of the input selects at most one of them. */
module CanonicalCode {
  import opened Bits

  datatype Option<+T> = None | Some(value: T)

  const MAX_LEN: nat := 15
  const NSYMS: nat := 288

  ghost predicate ValidLens(lens: seq<nat>) {
    |lens| <= NSYMS && forall i :: 0 <= i < |lens| ==> lens[i] <= MAX_LEN
  }

  // How many symbols have length l.
  function Count(lens: seq<nat>, l: nat): (c: nat)
    ensures c <= |lens|
  {
    if lens == [] then 0
    else Count(lens[..|lens| - 1], l) + (if lens[|lens| - 1] == l then 1 else 0)
  }

  function Used(lens: seq<nat>, l: nat): nat {
    if l == 0 then 0 else Count(lens, l)
  }

  // The smallest code of length l, and how many symbols have shorter codes.
  function FirstCode(lens: seq<nat>, l: nat): nat {
    if l == 0 then 0 else 2 * (FirstCode(lens, l - 1) + Used(lens, l - 1))
  }

  function FirstSymbol(lens: seq<nat>, l: nat): nat {
    if l == 0 then 0 else FirstSymbol(lens, l - 1) + Used(lens, l - 1)
  }

  function Code(lens: seq<nat>, i: nat): nat
    requires i < |lens|
  {
    FirstCode(lens, lens[i]) + Count(lens[..i], lens[i])
  }

  // A code is sent most significant bit first.
  function CodeBits(lens: seq<nat>, i: nat): (b: seq<bool>)
    requires i < |lens|
    ensures |b| == lens[i]
  {
    Reverse(NatBits(Code(lens, i), lens[i]))
  }

  ghost predicate LevelFits(lens: seq<nat>, l: nat) {
    Count(lens, l) > 0 ==> FirstCode(lens, l) + Count(lens, l) <= Pow2(l)
  }

  // The length lists the table builder accepts.
  ghost predicate Accepts(lens: seq<nat>) {
    forall l :: 1 <= l <= MAX_LEN ==> LevelFits(lens, l)
  }

  // The symbol whose code starts the bit string.
  function SymbolBelow(lens: seq<nat>, bits: seq<bool>, n: nat): (r: Option<nat>)
    requires n <= |lens|
    ensures r.Some? ==> r.value < n && lens[r.value] > 0 && CodeBits(lens, r.value) <= bits
    ensures r.None? ==> forall i :: 0 <= i < n && lens[i] > 0 ==> !(CodeBits(lens, i) <= bits)
  {
    if n == 0 then None
    else if lens[n - 1] > 0 && CodeBits(lens, n - 1) <= bits then Some(n - 1)
    else SymbolBelow(lens, bits, n - 1)
  }

  function Symbol(lens: seq<nat>, bits: seq<bool>): Option<nat> {
    SymbolBelow(lens, bits, |lens|)
  }

  // ---- counting ----

  lemma CountStep(lens: seq<nat>, i: nat, l: nat)
    requires i < |lens|
    ensures Count(lens[..i + 1], l) == Count(lens[..i], l) + (if lens[i] == l then 1 else 0)
  {
    assert lens[..i + 1][..i] == lens[..i];
  }

  lemma {:induction false} CountMono(lens: seq<nat>, i: nat, j: nat, l: nat)
    requires i <= j <= |lens|
    ensures Count(lens[..i], l) <= Count(lens[..j], l)
    decreases j
  {
    if i < j {
      CountMono(lens, i, j - 1, l);
      CountStep(lens, j - 1, l);
    }
  }

  lemma RankBelowCount(lens: seq<nat>, i: nat)
    requires i < |lens|
    ensures Count(lens[..i], lens[i]) < Count(lens, lens[i])
  {
    CountStep(lens, i, lens[i]);
    CountMono(lens, i + 1, |lens|, lens[i]);
    assert lens[..|lens|] == lens;
  }

  lemma RankInjective(lens: seq<nat>, i: nat, j: nat)
    requires i < j < |lens| && lens[i] == lens[j]
    ensures Count(lens[..i], lens[i]) < Count(lens[..j], lens[j])
  {
    CountStep(lens, i, lens[i]);
    CountMono(lens, i + 1, j, lens[i]);
  }

  // All symbols fit in the value table.
  lemma {:induction false} FirstSymbolStep(n: nat, lens: seq<nat>)
    requires lens != []
    ensures var short := lens[..|lens| - 1];
            FirstSymbol(lens, n) == FirstSymbol(short, n) + (if 1 <= lens[|lens| - 1] < n then 1 else 0)
  {
    if n != 0 {
      FirstSymbolStep(n - 1, lens);
    }
  }

  lemma {:induction false} FirstSymbolBound(lens: seq<nat>, n: nat)
    ensures FirstSymbol(lens, n) <= |lens|
  {
    if lens == [] {
      FirstSymbolEmpty(n);
    } else {
      FirstSymbolStep(n, lens);
      FirstSymbolBound(lens[..|lens| - 1], n);
    }
  }

  lemma {:induction false} FirstSymbolEmpty(n: nat)
    ensures FirstSymbol([], n) == 0
  {
    if n != 0 {
      FirstSymbolEmpty(n - 1);
    }
  }

  lemma {:induction false} FirstSymbolMono(lens: seq<nat>, l: nat, m: nat)
    requires l < m
    ensures FirstSymbol(lens, l) + Used(lens, l) <= FirstSymbol(lens, m)
    decreases m
  {
    if l < m - 1 {
      FirstSymbolMono(lens, l, m - 1);
    }
  }

  // Position of symbol i in the value table; distinct symbols get distinct positions.
  function Position(lens: seq<nat>, i: nat): nat
    requires i < |lens|
  {
    FirstSymbol(lens, lens[i]) + Count(lens[..i], lens[i])
  }

  lemma PositionInjective(lens: seq<nat>, i: nat, j: nat)
    requires i < j < |lens| && lens[i] > 0 && lens[j] > 0
    ensures Position(lens, i) != Position(lens, j)
  {
    if lens[i] == lens[j] {
      RankInjective(lens, i, j);
    } else {
      RankBelowCount(lens, i);
      RankBelowCount(lens, j);
      if lens[i] < lens[j] {
        FirstSymbolMono(lens, lens[i], lens[j]);
      } else {
        FirstSymbolMono(lens, lens[j], lens[i]);
      }
    }
  }

  lemma PositionBound(lens: seq<nat>, i: nat)
    requires i < |lens| && lens[i] > 0
    ensures Position(lens, i) < |lens|
  {
    RankBelowCount(lens, i);
    FirstSymbolMono(lens, lens[i], lens[i] + 1);
    FirstSymbolBound(lens, lens[i] + 1);
  }

  // ---- codes fit, level by level ----

  lemma {:induction false} LevelBound(lens: seq<nat>, l: nat)
    requires Accepts(lens) && l <= MAX_LEN
    ensures FirstCode(lens, l) <= Pow2(l)
    ensures FirstCode(lens, l) + Used(lens, l) <= Pow2(l)
  {
    if l != 0 {
      LevelBound(lens, l - 1);
      assert LevelFits(lens, l);
    }
  }

  lemma CodeBound(lens: seq<nat>, i: nat)
    requires Accepts(lens) && i < |lens| && 1 <= lens[i] <= MAX_LEN
    ensures FirstCode(lens, lens[i]) <= Code(lens, i) < FirstCode(lens, lens[i]) + Count(lens, lens[i])
    ensures Code(lens, i) < Pow2(lens[i])
  {
    RankBelowCount(lens, i);
    LevelBound(lens, lens[i]);
  }

  // ---- the codes in the order of section 3.2.2 of RFC 1951: shorter first, then by symbol ----

  predicate CodeBefore(lens: seq<nat>, i: nat, j: nat)
    requires i < |lens| && j < |lens|
  {
    lens[i] < lens[j] || (lens[i] == lens[j] && i < j)
  }

  predicate UsedSymbol(lens: seq<nat>, i: nat) {
    i < |lens| && lens[i] > 0
  }

  // j is the next used symbol after i.
  ghost predicate Follows(lens: seq<nat>, i: nat, j: nat) {
    && UsedSymbol(lens, i) && UsedSymbol(lens, j) && CodeBefore(lens, i, j)
    && forall k: nat :: UsedSymbol(lens, k) && CodeBefore(lens, i, k) ==> k == j || CodeBefore(lens, j, k)
  }

  ghost predicate FirstUsed(lens: seq<nat>, j: nat) {
    UsedSymbol(lens, j) && forall k: nat :: UsedSymbol(lens, k) ==> k == j || CodeBefore(lens, j, k)
  }

  lemma {:induction false} CountSame(lens: seq<nat>, i: nat, j: nat, l: nat)
    requires i <= j <= |lens| && forall k :: i <= k < j ==> lens[k] != l
    ensures Count(lens[..j], l) == Count(lens[..i], l)
    decreases j
  {
    if i < j {
      CountSame(lens, i, j - 1, l);
      CountStep(lens, j - 1, l);
    }
  }

  lemma UsedNone(lens: seq<nat>, l: nat)
    requires forall k: nat :: UsedSymbol(lens, k) ==> lens[k] != l
    ensures Used(lens, l) == 0
  {
    if l > 0 {
      forall k | 0 <= k < |lens|
        ensures lens[k] != l
      {
        var n: nat := k;
        assert lens[n] > 0 ==> UsedSymbol(lens, n);
      }
      CountSame(lens, 0, |lens|, l);
      assert lens[..|lens|] == lens;
    }
  }

  // Without symbols in between, the first code of a longer length is the end of the shorter one, shifted.
  lemma {:induction false} FirstCodeShifted(lens: seq<nat>, l: nat, m: nat)
    requires l < m && forall n :: l < n < m ==> Used(lens, n) == 0
    ensures FirstCode(lens, m) == Shl(FirstCode(lens, l) + Used(lens, l), m - l)
    decreases m
  {
    if l < m - 1 {
      FirstCodeShifted(lens, l, m - 1);
    }
  }

  /** The first code is all zeros, and every further one is the one before it plus one, shifted to its length. */
  lemma NextCode(lens: seq<nat>, i: nat, j: nat)
    requires Follows(lens, i, j)
    ensures Code(lens, j) == Shl(Code(lens, i) + 1, lens[j] - lens[i])
  {
    hide Count, FirstCode;
    CountStep(lens, i, lens[i]);
    if lens[i] == lens[j] {
      forall k | i < k < j
        ensures lens[k] != lens[i]
      {
        var n: nat := k;
        assert UsedSymbol(lens, n) ==> !CodeBefore(lens, i, n) || CodeBefore(lens, j, n);
      }
      CountSame(lens, i + 1, j, lens[i]);
    } else {
      forall k | i < k < |lens|
        ensures lens[k] != lens[i]
      {
        var n: nat := k;
        assert UsedSymbol(lens, n) ==> !CodeBefore(lens, i, n) || n == j || CodeBefore(lens, j, n);
      }
      CountSame(lens, i + 1, |lens|, lens[i]);
      assert lens[..|lens|] == lens;
      forall n | lens[i] < n < lens[j]
        ensures Used(lens, n) == 0
      {
        UsedNone(lens, n);
      }
      FirstCodeShifted(lens, lens[i], lens[j]);
      FirstOfLength(lens, j);
    }
  }

  lemma FirstOfLength(lens: seq<nat>, j: nat)
    requires UsedSymbol(lens, j)
    requires forall k: nat :: UsedSymbol(lens, k) && lens[k] == lens[j] ==> j <= k
    ensures Code(lens, j) == FirstCode(lens, lens[j])
  {
    hide FirstCode;
    forall k | 0 <= k < j
      ensures lens[k] != lens[j]
    {
      var n: nat := k;
      assert lens[n] == lens[j] ==> UsedSymbol(lens, n);
    }
    CountSame(lens, 0, j, lens[j]);
    assert lens[..0] == [];
  }

  lemma FirstCodeZero(lens: seq<nat>, j: nat)
    requires FirstUsed(lens, j)
    ensures Code(lens, j) == 0
  {
    hide Count, FirstCode;
    forall n | 0 < n < lens[j]
      ensures Used(lens, n) == 0
    {
      UsedNone(lens, n);
    }
    FirstCodeShifted(lens, 0, lens[j]);
    NothingBelow(lens);
    ShlOne(lens[j]);
    FirstOfLength(lens, j);
  }

  lemma NothingBelow(lens: seq<nat>)
    ensures FirstCode(lens, 0) + Used(lens, 0) == 0
  {
  }

  // ---- the 16-bit window, first bit most significant ----

  ghost function Top(bits: seq<bool>): (k: nat)
    requires |bits| >= 16
  {
    BitsNat(Reverse(bits[..16]))
  }

  lemma ReverseTwice(b: seq<bool>)
    ensures Reverse(Reverse(b)) == b
  {
  }

  lemma TopHighBits(bits: seq<bool>, l: nat)
    requires |bits| >= 16 && l <= 16
    ensures Reverse(NatBits(Shr(Top(bits), 16 - l), l)) == bits[..l]
    ensures Shr(Top(bits), 16 - l) < Pow2(l)
  {
    hide NatBits, BitsNat, Shr, Low, Pow2;
    var rev := Reverse(bits[..16]);
    NatBitsOfBitsNat(rev);
    NatBitsSplit(Top(bits), 16, 16 - l);
    assert NatBits(Shr(Top(bits), 16 - l), l) == rev[16 - l..];
    assert rev[16 - l..] == Reverse(bits[..l]);
    ReverseTwice(bits[..l]);
    ShrBound(Top(bits), 16 - l, l);
  }

  lemma PrefixIffTop(bits: seq<bool>, c: nat, l: nat)
    requires |bits| >= 16 && l <= 16 && c < Pow2(l)
    ensures Reverse(NatBits(c, l)) <= bits <==> Shr(Top(bits), 16 - l) == c
  {
    var high := Shr(Top(bits), 16 - l);
    TopHighBits(bits, l);
    if Reverse(NatBits(c, l)) <= bits {
      assert Reverse(NatBits(c, l)) == bits[..l];
      ReverseTwice(NatBits(c, l));
      ReverseTwice(NatBits(high, l));
      NatBitsInjective(high, c, l);
    }
  }

  lemma ShrRange(k: nat, n: nat, a: nat)
    ensures Shl(a, n) <= k <==> a <= Shr(k, n)
  {
    var h := Shr(k, n);
    LowShr(k, n);
    ShlLinear(a, h, n);
    ShlLinear(h, a, n);
  }

  // Where length-l codes end in the window; the next length starts there.
  ghost function LevelEnd(lens: seq<nat>, l: nat): nat
    requires l <= 16
  {
    Shl(FirstCode(lens, l) + Used(lens, l), 16 - l)
  }

  lemma {:induction false} ShlDouble(v: nat, n: nat)
    ensures Shl(2 * v, n) == Shl(v, n + 1)
  {
    if n != 0 {
      ShlDouble(v, n - 1);
    }
  }

  lemma LevelStart(lens: seq<nat>, l: nat)
    requires 1 <= l <= 16
    ensures Shl(FirstCode(lens, l), 16 - l) == LevelEnd(lens, l - 1)
    ensures LevelEnd(lens, l - 1) <= LevelEnd(lens, l)
  {
    ShlDouble(FirstCode(lens, l - 1) + Used(lens, l - 1), 16 - l);
    ShlLinear(FirstCode(lens, l), FirstCode(lens, l) + Used(lens, l), 16 - l);
  }

  lemma {:induction false} LevelEndMono(lens: seq<nat>, l: nat, m: nat)
    requires l <= m <= 16
    ensures LevelEnd(lens, l) <= LevelEnd(lens, m)
    decreases m
  {
    if l < m {
      LevelEndMono(lens, l, m - 1);
      LevelStart(lens, m);
    }
  }

  // The window lies in level l exactly when its first l bits are one of that level's codes.
  lemma InLevel(lens: seq<nat>, k: nat, l: nat)
    requires 1 <= l <= 15
    ensures LevelEnd(lens, l - 1) <= k < LevelEnd(lens, l)
            <==> FirstCode(lens, l) <= Shr(k, 16 - l) < FirstCode(lens, l) + Used(lens, l)
  {
    LevelStart(lens, l);
    ShrRange(k, 16 - l, FirstCode(lens, l));
    ShrRange(k, 16 - l, FirstCode(lens, l) + Used(lens, l));
  }

  lemma SymbolLevel(lens: seq<nat>, bits: seq<bool>, i: nat)
    requires Accepts(lens) && ValidLens(lens) && |bits| >= 16 && i < |lens| && lens[i] > 0
    ensures CodeBits(lens, i) <= bits <==> Shr(Top(bits), 16 - lens[i]) == Code(lens, i)
    ensures CodeBits(lens, i) <= bits
            ==> LevelEnd(lens, lens[i] - 1) <= Top(bits) < LevelEnd(lens, lens[i])
  {
    CodeBound(lens, i);
    PrefixIffTop(bits, Code(lens, i), lens[i]);
    InLevel(lens, Top(bits), lens[i]);
  }

  // The code is prefix-free: no input starts with the codes of two symbols.
  lemma PrefixFree(lens: seq<nat>, bits: seq<bool>, i: nat, j: nat)
    requires Accepts(lens) && ValidLens(lens)
    requires i < |lens| && j < |lens| && lens[i] > 0 && lens[j] > 0
    requires CodeBits(lens, i) <= bits && CodeBits(lens, j) <= bits
    ensures i == j
  {
    var long := bits + Zeros(16);
    SymbolLevel(lens, long, i);
    SymbolLevel(lens, long, j);
    if lens[i] < lens[j] {
      LevelEndMono(lens, lens[i], lens[j] - 1);
    } else if lens[j] < lens[i] {
      LevelEndMono(lens, lens[j], lens[i] - 1);
    } else if i < j {
      RankInjective(lens, i, j);
    } else if j < i {
      RankInjective(lens, j, i);
    }
  }

  // Decoding is exact: the chosen symbol is the one and only symbol whose code starts the input.
  lemma SymbolIff(lens: seq<nat>, bits: seq<bool>, i: nat)
    requires Accepts(lens) && ValidLens(lens) && i < |lens|
    ensures Symbol(lens, bits) == Some(i) <==> lens[i] > 0 && CodeBits(lens, i) <= bits
  {
    var r := Symbol(lens, bits);
    if r.Some? && lens[i] > 0 && CodeBits(lens, i) <= bits {
      PrefixFree(lens, bits, i, r.value);
    }
  }

  // ---- acceptance is the Kraft inequality ----

  ghost function KraftSum(lens: seq<nat>): nat
    requires forall i :: 0 <= i < |lens| ==> lens[i] <= MAX_LEN
  {
    if lens == [] then 0
    else KraftSum(lens[..|lens| - 1])
         + (if lens[|lens| - 1] == 0 then 0 else Pow2(MAX_LEN - lens[|lens| - 1]))
  }

  lemma {:induction false} LevelTotalStep(lens: seq<nat>, l: nat)
    requires lens != [] && l <= MAX_LEN
    ensures var short, s := lens[..|lens| - 1], lens[|lens| - 1];
            FirstCode(lens, l) + Used(lens, l)
            == FirstCode(short, l) + Used(short, l) + (if 1 <= s <= l then Pow2(l - s) else 0)
  {
    if l != 0 {
      LevelTotalStep(lens, l - 1);
    }
  }

  lemma {:induction false} LevelTotalEmpty(l: nat)
    ensures FirstCode([], l) + Used([], l) == 0
  {
    if l != 0 {
      LevelTotalEmpty(l - 1);
    }
  }

  lemma {:induction false} KraftIsTotal(lens: seq<nat>)
    requires ValidLens(lens)
    ensures KraftSum(lens) == FirstCode(lens, MAX_LEN) + Used(lens, MAX_LEN)
  {
    if lens == [] {
      LevelTotalEmpty(MAX_LEN);
    } else {
      KraftIsTotal(lens[..|lens| - 1]);
      LevelTotalStep(lens, MAX_LEN);
    }
  }

  lemma {:induction false} TotalBound(lens: seq<nat>, l: nat)
    requires ValidLens(lens)
    requires l <= MAX_LEN && KraftSum(lens) <= Pow2(MAX_LEN)
    ensures FirstCode(lens, l) + Used(lens, l) <= Pow2(l)
    decreases MAX_LEN - l
  {
    if l == MAX_LEN {
      KraftIsTotal(lens);
    } else {
      TotalBound(lens, l + 1);
      assert FirstCode(lens, l + 1) == 2 * (FirstCode(lens, l) + Used(lens, l));
    }
  }

  // The builder accepts exactly the length lists some prefix code can have.
  lemma AcceptsIffKraft(lens: seq<nat>)
    requires ValidLens(lens)
    ensures Accepts(lens) <==> KraftSum(lens) <= Pow2(MAX_LEN)
  {
    if Accepts(lens) {
      LevelBound(lens, MAX_LEN);
      KraftIsTotal(lens);
    }
    if KraftSum(lens) <= Pow2(MAX_LEN) {
      forall l | 1 <= l <= MAX_LEN
        ensures LevelFits(lens, l)
      {
        TotalBound(lens, l);
      }
    }
  }
}
