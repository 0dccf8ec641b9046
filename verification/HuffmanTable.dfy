/** stbi__zhuffman: the decoding tables, and the builder that fills them from a list of lengths. */
module HuffmanTable {
  import opened Bits
  import opened BitReversal
  import opened CanonicalCode

  const FAST_BITS: nat := 9
  const FAST_SIZE: nat := 512

  // What the fast table holds for a 9-bit window once the first n symbols are entered.
  function FastEntry(lens: seq<nat>, n: nat, j: nat): nat
    requires n <= |lens|
  {
    if n == 0 then 0
    else if 1 <= lens[n - 1] <= FAST_BITS && CodeBits(lens, n - 1) <= NatBits(j, FAST_BITS)
    then lens[n - 1] * FAST_SIZE + (n - 1)
    else FastEntry(lens, n - 1, j)
  }

  // Stepping through the table entries that share their s low bits.
  lemma LowStep(j: nat, s: nat)
    ensures Low(j + Pow2(s), s) == Low(j, s)
  {
    LowShr(j, s);
    ShlOne(s);
    ShlLinear(Shr(j, s), 1, s);
    LowShrOfSum(Low(j, s), Shr(j, s) + 1, s);
  }

  lemma LowGap(a: nat, b: nat, s: nat)
    requires a < b < a + Pow2(s)
    ensures Low(a, s) != Low(b, s)
  {
    if Low(a, s) == Low(b, s) {
      LowShr(a, s);
      LowShr(b, s);
      ShlLinear(Shr(a, s), Shr(b, s), s);
      ShlLinear(Shr(b, s), Shr(a, s), s);
    }
  }

  // An entry belongs to a code exactly when its low bits are the reversed code.
  lemma EntryMatches(lens: seq<nat>, i: nat, j: nat)
    requires Accepts(lens) && ValidLens(lens) && i < |lens| && 1 <= lens[i] <= FAST_BITS
    ensures CodeBits(lens, i) <= NatBits(j, FAST_BITS)
            <==> Low(j, lens[i]) == BitReverse(Code(lens, i), lens[i])
    ensures FastEntry(lens, i + 1, j)
            == if Low(j, lens[i]) == BitReverse(Code(lens, i), lens[i]) then lens[i] * FAST_SIZE + i
               else FastEntry(lens, i, j)
  {
    var s := lens[i];
    var rev := BitReverse(Code(lens, i), s);
    BitReverseReverses(Code(lens, i), s);
    NatBitsPrefix(j, FAST_BITS, s);
    NatBitsLow(j, s);
    if CodeBits(lens, i) <= NatBits(j, FAST_BITS) {
      NatBitsInjective(Low(j, s), rev, s);
    }
  }

  lemma FirstLevel(lens: seq<nat>)
    ensures FirstCode(lens, 1) == 0 && FirstSymbol(lens, 1) == 0
  {
  }

  lemma NextLevel(lens: seq<nat>, l: nat)
    ensures FirstCode(lens, l + 1) == 2 * (FirstCode(lens, l) + Used(lens, l))
    ensures FirstSymbol(lens, l + 1) == FirstSymbol(lens, l) + Used(lens, l)
  {
  }

  lemma CountNone(lens: seq<nat>, l: nat)
    ensures Count(lens[..0], l) == 0
  {
  }

  class ZHuffman {
    const fast: array<nat>
    const firstCode: array<nat>
    const maxCode: array<nat>
    const firstSymbol: array<nat>
    const size: array<nat>
    const value: array<nat>

    ghost predicate Shape() {
      && fast.Length == FAST_SIZE && firstCode.Length == 16 && maxCode.Length == 17
      && firstSymbol.Length == 16 && size.Length == NSYMS && value.Length == NSYMS
      && firstCode != firstSymbol && size != value
    }

    ghost function Repr(): set<object> {
      {fast, firstCode, maxCode, firstSymbol, size, value}
    }

    ghost predicate LevelsBuilt(lens: seq<nat>, n: nat)
      requires Shape() && n <= 16
      reads firstCode, firstSymbol, maxCode
    {
      forall l :: 1 <= l < n ==>
        && firstCode[l] == FirstCode(lens, l)
        && firstSymbol[l] == FirstSymbol(lens, l)
        && maxCode[l] == LevelEnd(lens, l)
    }

    ghost predicate SymbolsBuilt(lens: seq<nat>, n: nat)
      requires Shape() && n <= |lens| <= NSYMS
      reads size, value
    {
      forall i :: 0 <= i < n && lens[i] > 0 ==>
        && Position(lens, i) < NSYMS
        && size[Position(lens, i)] == lens[i]
        && value[Position(lens, i)] == i
    }

    ghost predicate FastBuilt(lens: seq<nat>, n: nat)
      requires Shape() && n <= |lens|
      reads fast
    {
      forall j :: 0 <= j < FAST_SIZE ==> fast[j] == FastEntry(lens, n, j)
    }

    // The tables are those of the canonical code with these lengths.
    ghost predicate Represents(lens: seq<nat>)
      reads Repr()
    {
      && Shape() && ValidLens(lens) && Accepts(lens)
      && LevelsBuilt(lens, 16) && maxCode[16] == 0x10000
      && SymbolsBuilt(lens, |lens|)
      && FastBuilt(lens, |lens|)
    }

    constructor ()
      ensures Shape() && fresh(Repr())
    {
      fast := new nat[FAST_SIZE](_ => 0);
      firstCode := new nat[16](_ => 0);
      maxCode := new nat[17](_ => 0);
      firstSymbol := new nat[16](_ => 0);
      size := new nat[NSYMS](_ => 0);
      value := new nat[NSYMS](_ => 0);
    }

    // The builder: it accepts exactly the lists that fit a prefix code, and then holds their tables.
    method Build(sizeList: seq<nat>) returns (ok: bool)
      requires Shape() && ValidLens(sizeList)
      modifies Repr()
      ensures ok <==> Accepts(sizeList)
      ensures ok ==> Represents(sizeList)
    {
      var sizes := CountSizes(sizeList);
      ClearFast();
      var i := 1;
      while i < 16
        invariant 1 <= i <= 16
        invariant forall l :: 1 <= l < i ==> Count(sizeList, l) <= Pow2(l)
        invariant forall j :: 0 <= j < FAST_SIZE ==> fast[j] == 0
      {
        if sizes[i] > Pow2(i) {
          assert !LevelFits(sizeList, i);
          return false;
        }
        i := i + 1;
      }
      var nextCode;
      ok, nextCode := BuildLevels(sizeList, sizes);
      if !ok {
        return;
      }
      maxCode[16] := 0x10000;
      EnterSymbols(sizeList, nextCode);
    }

    method EnterSymbols(lens: seq<nat>, firstCodes: seq<nat>)
      requires Shape() && ValidLens(lens) && Accepts(lens)
      requires LevelsBuilt(lens, 16) && FastBuilt(lens, 0)
      requires |firstCodes| == 16 && forall l :: 1 <= l < 16 ==> firstCodes[l] == FirstCode(lens, l)
      modifies fast, size, value
      ensures SymbolsBuilt(lens, |lens|) && FastBuilt(lens, |lens|)
    {
      hide Count, Used, FirstCode, FirstSymbol, LevelEnd, Position, Shl;
      assert forall l :: Count(lens[..0], l) == 0 by {
        forall l ensures Count(lens[..0], l) == 0 { CountNone(lens, l); }
      }
      var nextCode := firstCodes;
      var i := 0;
      while i < |lens|
        invariant 0 <= i <= |lens|
        invariant |nextCode| == 16
        invariant forall l :: 1 <= l < 16 ==>
          nextCode[l] == FirstCode(lens, l) + Count(lens[..i], l)
        invariant SymbolsBuilt(lens, i)
        invariant FastBuilt(lens, i)
      {
        var s := lens[i];
        if s != 0 {
          EnterSymbol(lens, i, nextCode[s]);
          nextCode := nextCode[s := nextCode[s] + 1];
        } else {
          assert FastBuilt(lens, i + 1);
        }
        forall l | 1 <= l < 16
          ensures nextCode[l] == FirstCode(lens, l) + Count(lens[..i + 1], l)
        {
          CountStep(lens, i, l);
        }
        i := i + 1;
      }
    }

    static method CountSizes(sizeList: seq<nat>) returns (sizes: seq<nat>)
      requires ValidLens(sizeList)
      ensures |sizes| == 17
      ensures forall l :: 0 <= l < 16 ==> sizes[l] == Used(sizeList, l)
    {
      sizes := seq(17, l => 0);
      var i := 0;
      while i < |sizeList|
        invariant 0 <= i <= |sizeList| && |sizes| == 17
        invariant forall l :: 0 <= l < 16 ==> sizes[l] == Count(sizeList[..i], l)
      {
        forall l | 0 <= l < 16
          ensures Count(sizeList[..i + 1], l)
                  == Count(sizeList[..i], l) + (if sizeList[i] == l then 1 else 0)
        {
          CountStep(sizeList, i, l);
        }
        sizes := sizes[sizeList[i] := sizes[sizeList[i]] + 1];
        i := i + 1;
      }
      assert sizeList[..i] == sizeList;
      sizes := sizes[0 := 0];
    }

    method ClearFast()
      requires Shape()
      modifies fast
      ensures forall j :: 0 <= j < FAST_SIZE ==> fast[j] == 0
    {
      for j := 0 to FAST_SIZE
        invariant forall k :: 0 <= k < j ==> fast[k] == 0
      {
        fast[j] := 0;
      }
    }

    method BuildLevels(ghost lens: seq<nat>, sizes: seq<nat>) returns (ok: bool, nextCode: seq<nat>)
      requires Shape() && ValidLens(lens) && |sizes| == 17
      requires forall l :: 0 <= l < 16 ==> sizes[l] == Used(lens, l)
      modifies firstCode, firstSymbol, maxCode
      ensures ok <==> Accepts(lens)
      ensures ok ==> LevelsBuilt(lens, 16) && |nextCode| == 16
      ensures ok ==> forall l :: 1 <= l < 16 ==> nextCode[l] == FirstCode(lens, l)
    {
      hide Count, Used, FirstCode, FirstSymbol, LevelEnd, Pow2;
      FirstLevel(lens);
      nextCode := seq(16, l => 0);
      var code, k, i := 0, 0, 1;
      while i < 16
        invariant 1 <= i <= 16 && |nextCode| == 16
        invariant code == FirstCode(lens, i) && k == FirstSymbol(lens, i)
        invariant LevelsBuilt(lens, i)
        invariant forall l :: 1 <= l < i ==> nextCode[l] == FirstCode(lens, l)
        invariant forall l :: 1 <= l < i ==> LevelFits(lens, l)
      {
        nextCode := nextCode[i := code];
        var fits := BuildLevel(lens, i, code, k, sizes[i]);
        if !fits {
          return false, nextCode;
        }
        NextLevel(lens, i);
        code := 2 * (code + sizes[i]);
        k := k + sizes[i];
        i := i + 1;
      }
      ok := true;
    }

    method BuildLevel(ghost lens: seq<nat>, i: nat, first: nat, k: nat, used: nat) returns (fits: bool)
      requires Shape() && 1 <= i < 16
      requires first == FirstCode(lens, i) && k == FirstSymbol(lens, i) && used == Used(lens, i)
      requires LevelsBuilt(lens, i)
      modifies firstCode, firstSymbol, maxCode
      ensures fits <==> LevelFits(lens, i)
      ensures fits ==> LevelsBuilt(lens, i + 1)
    {
      firstCode[i] := first;
      firstSymbol[i] := k;
      var code := first + used;
      if used != 0 {
        if code - 1 >= Pow2(i) {
          return false;
        }
      }
      maxCode[i] := Shl(code, 16 - i);
      fits := true;
    }

    method EnterSymbol(lens: seq<nat>, i: nat, code: nat)
      requires Shape() && ValidLens(lens) && Accepts(lens)
      requires i < |lens| && lens[i] > 0 && code == Code(lens, i)
      requires LevelsBuilt(lens, 16) && SymbolsBuilt(lens, i) && FastBuilt(lens, i)
      modifies fast, size, value
      ensures SymbolsBuilt(lens, i + 1) && FastBuilt(lens, i + 1)
    {
      var s := lens[i];
      CodeBound(lens, i);
      PositionBound(lens, i);
      var c := code - firstCode[s] + firstSymbol[s];
      assert c == Position(lens, i);
      size[c] := s;
      value[c] := i;
      forall j | 0 <= j < i && lens[j] > 0
        ensures Position(lens, j) != c
      {
        PositionInjective(lens, j, i);
      }
      if s <= FAST_BITS {
        FillFast(lens, i, code);
      }
    }

    method FillFast(lens: seq<nat>, i: nat, code: nat)
      requires Shape() && ValidLens(lens) && Accepts(lens)
      requires i < |lens| && 1 <= lens[i] <= FAST_BITS && code == Code(lens, i)
      requires FastBuilt(lens, i)
      modifies fast
      ensures FastBuilt(lens, i + 1)
    {
      hide FastEntry, Low, Code, Accepts, Count, FirstCode;
      var s := lens[i];
      var rev := BitReverse(code, s);
      var j := rev;
      BitReverseReverses(code, s);
      LowOfSmall(rev, s);
      forall k | 0 <= k < rev
        ensures Low(k, s) != rev
      {
        LowGap(k, rev, s);
      }
      while j < FAST_SIZE
        invariant Low(j, s) == rev
        invariant forall k :: 0 <= k < FAST_SIZE ==>
          fast[k] == if k < j && Low(k, s) == rev then s * FAST_SIZE + i else FastEntry(lens, i, k)
        decreases FAST_SIZE - j
      {
        fast[j] := s * FAST_SIZE + i;
        forall k | j < k < j + Pow2(s)
          ensures Low(k, s) != rev
        {
          LowGap(j, k, s);
        }
        LowStep(j, s);
        j := j + Pow2(s);
      }
      forall k | 0 <= k < FAST_SIZE
        ensures fast[k] == FastEntry(lens, i + 1, k)
      {
        EntryMatches(lens, i, k);
      }
    }
  }

  // ---- what the two lookups find ----

  lemma EntryParts(s: nat, i: nat)
    requires i < 512
    ensures (s * 512 + i) / 512 == s && (s * 512 + i) % 512 == i
  {
  }

  lemma {:induction false} FastEntryExact(lens: seq<nat>, n: nat, j: nat)
    requires ValidLens(lens) && n <= |lens|
    ensures var e := FastEntry(lens, n, j);
            && (e == 0 ==> forall i :: 0 <= i < n && 1 <= lens[i] <= FAST_BITS
                              ==> !(CodeBits(lens, i) <= NatBits(j, FAST_BITS)))
            && (e != 0 ==> var i := e % FAST_SIZE;
                           && i < n && lens[i] == e / FAST_SIZE && 1 <= lens[i] <= FAST_BITS
                           && CodeBits(lens, i) <= NatBits(j, FAST_BITS))
  {
    if n != 0 {
      if 1 <= lens[n - 1] <= FAST_BITS && CodeBits(lens, n - 1) <= NatBits(j, FAST_BITS) {
        EntryParts(lens[n - 1], n - 1);
      } else {
        FastEntryExact(lens, n - 1, j);
      }
    }
  }

  // Only the low bits of the buffer select the entry.
  lemma {:induction false} FastEntryLow(lens: seq<nat>, n: nat, j: nat)
    requires n <= |lens|
    ensures FastEntry(lens, n, Low(j, FAST_BITS)) == FastEntry(lens, n, j)
  {
    if n != 0 {
      FastEntryLow(lens, n - 1, j);
      NatBitsLow(j, FAST_BITS);
    }
  }

  lemma PrefixOfPrefix(code: seq<bool>, bits: seq<bool>, n: nat)
    requires |code| <= n <= |bits|
    ensures code <= bits <==> code <= bits[..n]
  {
  }

  // The fast table: a non-zero entry is the symbol and its length; a zero entry means no short code.
  lemma FastLookup(lens: seq<nat>, bits: seq<bool>, j: nat)
    requires ValidLens(lens) && Accepts(lens)
    requires |bits| >= FAST_BITS && bits[..FAST_BITS] == NatBits(j, FAST_BITS)
    ensures var e := FastEntry(lens, |lens|, j);
            && (e != 0 ==> && e % FAST_SIZE < |lens|
                           && Symbol(lens, bits) == Some(e % FAST_SIZE)
                           && lens[e % FAST_SIZE] == e / FAST_SIZE)
            && (e == 0 ==> forall i :: 0 <= i < |lens| && 1 <= lens[i] <= FAST_BITS
                              ==> !(CodeBits(lens, i) <= bits))
  {
    var e := FastEntry(lens, |lens|, j);
    FastEntryExact(lens, |lens|, j);
    if e != 0 {
      var i := e % FAST_SIZE;
      PrefixOfPrefix(CodeBits(lens, i), bits, FAST_BITS);
      SymbolIff(lens, bits, i);
    } else {
      forall i | 0 <= i < |lens| && 1 <= lens[i] <= FAST_BITS
        ensures !(CodeBits(lens, i) <= bits)
      {
        PrefixOfPrefix(CodeBits(lens, i), bits, FAST_BITS);
      }
    }
  }

  // The symbol of a given length and rank.
  function RankSymbol(lens: seq<nat>, l: nat, r: nat, n: nat): (i: nat)
    requires n <= |lens| && r < Count(lens[..n], l)
    ensures i < n && lens[i] == l && Count(lens[..i], l) == r
    decreases n
  {
    assert n > 0 && lens[..n][..n - 1] == lens[..n - 1];
    if lens[n - 1] == l && Count(lens[..n - 1], l) == r then n - 1
    else RankSymbol(lens, l, r, n - 1)
  }

  // A window inside level l starts with a code of that length: every code of the level is in use.
  lemma LevelSymbol(lens: seq<nat>, bits: seq<bool>, l: nat) returns (i: nat)
    requires ValidLens(lens) && Accepts(lens) && |bits| >= 16 && 1 <= l <= 15
    requires LevelEnd(lens, l - 1) <= Top(bits) < LevelEnd(lens, l)
    ensures i < |lens| && lens[i] == l && Symbol(lens, bits) == Some(i)
    ensures Code(lens, i) == Shr(Top(bits), 16 - l)
    ensures Position(lens, i) == Shr(Top(bits), 16 - l) - FirstCode(lens, l) + FirstSymbol(lens, l)
  {
    InLevel(lens, Top(bits), l);
    assert lens[..|lens|] == lens;
    i := RankSymbol(lens, l, Shr(Top(bits), 16 - l) - FirstCode(lens, l), |lens|);
    SymbolLevel(lens, bits, i);
    SymbolIff(lens, bits, i);
  }

  // Without a short code at the front, the window lies beyond the levels of the fast table.
  lemma {:induction false} BeyondShortLevels(lens: seq<nat>, bits: seq<bool>, l: nat)
    requires ValidLens(lens) && Accepts(lens) && |bits| >= 16 && l <= FAST_BITS
    requires forall i :: 0 <= i < |lens| && 1 <= lens[i] <= FAST_BITS ==> !(CodeBits(lens, i) <= bits)
    ensures LevelEnd(lens, l) <= Top(bits)
  {
    if l == 0 {
      ShlOne(16);
    } else {
      BeyondShortLevels(lens, bits, l - 1);
      if Top(bits) < LevelEnd(lens, l) {
        var i := LevelSymbol(lens, bits, l);
      }
    }
  }

  // Beyond the last level no code matches.
  lemma BeyondAllLevels(lens: seq<nat>, bits: seq<bool>)
    requires ValidLens(lens) && Accepts(lens) && |bits| >= 16
    requires LevelEnd(lens, 15) <= Top(bits)
    ensures Symbol(lens, bits) == None
  {
    var r := Symbol(lens, bits);
    if r.Some? {
      SymbolLevel(lens, bits, r.value);
      LevelEndMono(lens, lens[r.value], 15);
    }
  }

  lemma WindowTop(bits: seq<bool>, window: nat)
    requires |bits| >= 16 && bits[..16] == NatBits(window, 16)
    ensures BitReverse(window, 16) == Top(bits)
    ensures Top(bits) < 0x10000
  {
    Pow2Values();
  }
}
