/** BitArray: words in an array, against the set of indices whose bit is one. The scalar code is modelled. */
module BitArrays {
  import opened Word64

  datatype Range = Range(first: nat, second: nat)

  // Membership of an index in the set the words stand for.
  predicate IsSet(words: seq<Word>, i: nat) {
    i < 64 * |words| && BitAt(words[i / 64], i % 64)
  }

  // ---- masks ----

  // The bits from k on, and the bits up to and including k.
  function StartMask(k: nat): Word
    requires k < 64
  {
    Not(LowMask(k))
  }

  function EndMask(k: nat): Word
    requires k < 64
  {
    if k == 63 then ALL_ONES else LowMask(k + 1)
  }

  lemma MaskBits(s: nat, e: nat, i: nat)
    requires s < 64 && e < 64 && i < 64
    ensures BitAt(StartMask(s), i) <==> s <= i
    ensures BitAt(EndMask(e), i) <==> i <= e
  {
    hide BitAt, LowMask, Not;
    LogicBits(LowMask(s), 0, i);
    LowMaskBits(s, i);
    if e == 63 {
      WordIs(ALL_ONES);
    } else {
      LowMaskBits(e + 1, i);
    }
  }

  // Bit i of a word that has the bits of a and those of m.
  lemma OrBits(a: Word, m: Word)
    ensures forall i :: 0 <= i < 64 ==> (BitAt(Or(a, m), i) <==> BitAt(a, i) || BitAt(m, i))
  {
    hide BitAt, Or;
    forall i | 0 <= i < 64
      ensures BitAt(Or(a, m), i) <==> BitAt(a, i) || BitAt(m, i)
    {
      LogicBits(a, m, i);
    }
  }

  lemma AndBits(a: Word, m: Word)
    ensures forall i :: 0 <= i < 64 ==> (BitAt(And(a, m), i) <==> BitAt(a, i) && BitAt(m, i))
  {
    hide BitAt, And;
    forall i | 0 <= i < 64
      ensures BitAt(And(a, m), i) <==> BitAt(a, i) && BitAt(m, i)
    {
      LogicBits(a, m, i);
    }
  }

  lemma NotBits(a: Word)
    ensures forall i :: 0 <= i < 64 ==> (BitAt(Not(a), i) <==> !BitAt(a, i))
  {
    hide BitAt, Not;
    forall i | 0 <= i < 64
      ensures BitAt(Not(a), i) <==> !BitAt(a, i)
    {
      LogicBits(a, a, i);
    }
  }

  lemma RangeMasks(s: nat, e: nat)
    requires s < 64 && e < 64
    ensures forall i :: 0 <= i < 64 ==> (BitAt(StartMask(s), i) <==> s <= i) && (BitAt(EndMask(e), i) <==> i <= e)
  {
    hide BitAt, StartMask, EndMask;
    forall i | 0 <= i < 64
      ensures (BitAt(StartMask(s), i) <==> s <= i) && (BitAt(EndMask(e), i) <==> i <= e)
    {
      MaskBits(s, e, i);
    }
  }

  // ---- what one word must become ----

  // The indices of word w that lie in [start, end).
  predicate Inside(w: nat, i: nat, start: nat, end: nat) {
    start <= 64 * w + i < end
  }

  // Word w after the range has been added, removed, or cut out of the word of another array.
  predicate Added(was: Word, now: Word, w: nat, start: nat, end: nat) {
    forall i :: 0 <= i < 64 ==> (BitAt(now, i) <==> BitAt(was, i) || Inside(w, i, start, end))
  }

  predicate Removed(was: Word, now: Word, w: nat, start: nat, end: nat) {
    forall i :: 0 <= i < 64 ==> (BitAt(now, i) <==> BitAt(was, i) && !Inside(w, i, start, end))
  }

  predicate Copied(other: Word, now: Word, w: nat, start: nat, end: nat) {
    forall i :: 0 <= i < 64 ==> (BitAt(now, i) <==> BitAt(other, i) && Inside(w, i, start, end))
  }

  // The mask the code uses for word w of the range: the first word, a word between, the last word, or both ends.
  function RangeMask(w: nat, start: nat, end: nat): Word
    requires start < end && start / 64 <= w <= (end - 1) / 64
  {
    var first, last := start / 64, (end - 1) / 64;
    if first == last then And(StartMask(start % 64), EndMask((end - 1) % 64))
    else if w == first then StartMask(start % 64)
    else if w == last then EndMask((end - 1) % 64)
    else ALL_ONES
  }

  lemma RangeMaskBits(w: nat, start: nat, end: nat)
    requires start < end && start / 64 <= w <= (end - 1) / 64
    ensures forall i :: 0 <= i < 64 ==> (BitAt(RangeMask(w, start, end), i) <==> Inside(w, i, start, end))
  {
    hide BitAt, StartMask, EndMask, And;
    var s, e := start % 64, (end - 1) % 64;
    RangeMasks(s, e);
    AndBits(StartMask(s), EndMask(e));
    WordIs(ALL_ONES);
  }

  lemma OrAdds(was: Word, w: nat, start: nat, end: nat)
    requires start < end && start / 64 <= w <= (end - 1) / 64
    ensures Added(was, Or(was, RangeMask(w, start, end)), w, start, end)
  {
    hide BitAt, RangeMask, Or;
    RangeMaskBits(w, start, end);
    OrBits(was, RangeMask(w, start, end));
  }

  lemma AndNotRemoves(was: Word, w: nat, start: nat, end: nat)
    requires start < end && start / 64 <= w <= (end - 1) / 64
    ensures Removed(was, And(was, Not(RangeMask(w, start, end))), w, start, end)
  {
    hide BitAt, RangeMask, And, Not;
    RangeMaskBits(w, start, end);
    NotBits(RangeMask(w, start, end));
    AndBits(was, Not(RangeMask(w, start, end)));
  }

  lemma AndCopies(other: Word, w: nat, start: nat, end: nat)
    requires start < end && start / 64 <= w <= (end - 1) / 64
    ensures Copied(other, And(other, RangeMask(w, start, end)), w, start, end)
  {
    hide BitAt, RangeMask, And;
    RangeMaskBits(w, start, end);
    AndBits(other, RangeMask(w, start, end));
  }

  lemma WithOnes(a: Word)
    ensures Or(a, ALL_ONES) == ALL_ONES && And(a, ALL_ONES) == a && And(a, Not(ALL_ONES)) == 0
  {
  }

  // The complements that UnsetRange computes directly.
  lemma Complements(s: nat, e: nat, a: Word)
    requires s < 64 && e < 64
    ensures Not(StartMask(s)) == LowMask(s)
    ensures Not(EndMask(e)) == if e == 63 then 0 else Not(LowMask(e + 1))
    ensures Not(And(StartMask(s), EndMask(e))) == Or(LowMask(s), Not(EndMask(e)))
  {
    hide LowMask;
    NotNot(LowMask(s));
    NotAnd(StartMask(s), EndMask(e));
  }

  lemma NotNot(a: Word)
    ensures Not(Not(a)) == a
  {
  }

  lemma NotAnd(a: Word, b: Word)
    ensures Not(And(a, b)) == Or(Not(a), Not(b))
  {
  }

  // Outside the words of the range nothing lies inside it.
  lemma NoneInside(w: nat, start: nat, end: nat)
    requires start < end && (w < start / 64 || (end - 1) / 64 < w)
    ensures forall i :: 0 <= i < 64 ==> !Inside(w, i, start, end)
  {
  }

  lemma SameAdded(a: Word, w: nat, start: nat, end: nat)
    requires start < end && (w < start / 64 || (end - 1) / 64 < w)
    ensures Added(a, a, w, start, end) && Removed(a, a, w, start, end) && Copied(a, 0, w, start, end)
  {
    hide BitAt;
    NoneInside(w, start, end);
    WordIs(0);
    hide Inside;
  }

  // ---- from words to indices ----

  ghost predicate UnionRange(was: seq<Word>, now: seq<Word>, start: nat, end: nat) {
    |now| == |was| && forall i: nat :: IsSet(now, i) <==> IsSet(was, i) || (i < 64 * |was| && start <= i < end)
  }

  ghost predicate MinusRange(was: seq<Word>, now: seq<Word>, start: nat, end: nat) {
    |now| == |was| && forall i: nat :: IsSet(now, i) <==> IsSet(was, i) && !(start <= i < end)
  }

  ghost predicate CutRange(other: seq<Word>, now: seq<Word>, start: nat, end: nat) {
    |now| == |other| && forall i: nat :: IsSet(now, i) <==> IsSet(other, i) && start <= i < end
  }

  lemma IndexParts(i: nat)
    ensures i == 64 * (i / 64) + i % 64 && 0 <= i % 64 < 64
  {
  }

  lemma CopiedWords(other: seq<Word>, start: nat, end: nat)
    requires start < end
    ensures forall w :: 0 <= w < |other| && (w < start / 64 || (end - 1) / 64 < w) ==> Copied(other[w], 0, w, start, end)
    ensures forall w :: 0 <= w < |other| && start / 64 <= w <= (end - 1) / 64 ==>
              Copied(other[w], And(other[w], RangeMask(w, start, end)), w, start, end)
  {
    hide Copied, RangeMask, And;
    forall w | 0 <= w < |other|
      ensures w < start / 64 || (end - 1) / 64 < w ==> Copied(other[w], 0, w, start, end)
      ensures start / 64 <= w <= (end - 1) / 64 ==>
                Copied(other[w], And(other[w], RangeMask(w, start, end)), w, start, end)
    {
      if w < start / 64 || (end - 1) / 64 < w {
        SameAdded(other[w], w, start, end);
      } else {
        AndCopies(other[w], w, start, end);
      }
    }
  }

  lemma WordsAdded(was: seq<Word>, now: seq<Word>, start: nat, end: nat)
    requires |now| == |was| && forall w :: 0 <= w < |was| ==> Added(was[w], now[w], w, start, end)
    ensures UnionRange(was, now, start, end)
  {
    hide BitAt;
    forall i: nat
      ensures IsSet(now, i) <==> IsSet(was, i) || (i < 64 * |was| && start <= i < end)
    {
      IndexParts(i);
      if i < 64 * |was| {
        assert Added(was[i / 64], now[i / 64], i / 64, start, end);
        assert Inside(i / 64, i % 64, start, end) <==> start <= i < end;
      }
    }
  }

  lemma WordsRemoved(was: seq<Word>, now: seq<Word>, start: nat, end: nat)
    requires |now| == |was| && forall w :: 0 <= w < |was| ==> Removed(was[w], now[w], w, start, end)
    ensures MinusRange(was, now, start, end)
  {
    hide BitAt;
    forall i: nat
      ensures IsSet(now, i) <==> IsSet(was, i) && !(start <= i < end)
    {
      IndexParts(i);
      if i < 64 * |was| {
        assert Removed(was[i / 64], now[i / 64], i / 64, start, end);
        assert Inside(i / 64, i % 64, start, end) <==> start <= i < end;
      }
    }
  }

  lemma WordsCopied(other: seq<Word>, now: seq<Word>, start: nat, end: nat)
    requires |now| == |other| && forall w :: 0 <= w < |other| ==> Copied(other[w], now[w], w, start, end)
    ensures CutRange(other, now, start, end)
  {
    hide BitAt;
    forall i: nat
      ensures IsSet(now, i) <==> IsSet(other, i) && start <= i < end
    {
      IndexParts(i);
      if i < 64 * |other| {
        assert Copied(other[i / 64], now[i / 64], i / 64, start, end);
        assert Inside(i / 64, i % 64, start, end) <==> start <= i < end;
      }
    }
  }

  lemma BitSet(words: seq<Word>, i: nat)
    requires i < 64 * |words|
    ensures var now := words[i / 64 := Or(words[i / 64], One(i % 64))];
            forall j: nat :: IsSet(now, j) <==> IsSet(words, j) || j == i
  {
    var now := words[i / 64 := Or(words[i / 64], One(i % 64))];
    forall j: nat
      ensures IsSet(now, j) <==> IsSet(words, j) || j == i
    {
      hide BitAt, Or, One;
      IndexParts(i);
      IndexParts(j);
      LogicBits(words[i / 64], One(i % 64), j % 64);
      OneBits(i % 64, j % 64);
    }
  }

  lemma BitReset(words: seq<Word>, i: nat)
    requires i < 64 * |words|
    ensures var now := words[i / 64 := And(words[i / 64], Not(One(i % 64)))];
            forall j: nat :: IsSet(now, j) <==> IsSet(words, j) && j != i
  {
    var now := words[i / 64 := And(words[i / 64], Not(One(i % 64)))];
    forall j: nat
      ensures IsSet(now, j) <==> IsSet(words, j) && j != i
    {
      hide BitAt, And, Not, One;
      IndexParts(i);
      IndexParts(j);
      LogicBits(words[i / 64], Not(One(i % 64)), j % 64);
      LogicBits(One(i % 64), 0, j % 64);
      OneBits(i % 64, j % 64);
    }
  }

  /** The range of the least set index from start on: up to the next clear index, or empty at the end. */
  ghost predicate IsFirstRange(words: seq<Word>, start: nat, r: Range) {
    var n := 64 * |words|;
    if r.first == n then r.second == n && forall i :: start <= i < n ==> !IsSet(words, i)
    else
      && start <= r.first < r.second <= n
      && (forall i :: start <= i < r.first ==> !IsSet(words, i))
      && (forall i :: r.first <= i < r.second ==> IsSet(words, i))
      && (r.second < n ==> !IsSet(words, r.second))
  }

  /** The range of the greatest set index below end: down to the clear index before it, or empty at zero. */
  ghost predicate IsLastRange(words: seq<Word>, end: nat, r: Range) {
    if r.second == 0 then r.first == 0 && forall i :: 0 <= i < end ==> !IsSet(words, i)
    else
      && r.first < r.second <= end && r.second <= 64 * |words|
      && (forall i :: r.second <= i < end ==> !IsSet(words, i))
      && (forall i :: r.first <= i < r.second ==> IsSet(words, i))
      && (r.first > 0 ==> !IsSet(words, r.first - 1))
  }

  class BitArray {
    var data: array<Word>

    ghost predicate Valid()
      reads this, data
    {
      data.Length > 0
    }

    constructor (words: nat)
      requires words > 0
      ensures Valid() && fresh(data) && data.Length == words && forall i: nat :: !IsSet(data[..], i)
    {
      data := new Word[words](_ => 0);
      new;
      WordIs(0);
      hide BitAt;
    }

    /** The sub-range constructor: a copy of the bits of another array inside the range, all others clear. */
    constructor Sub(other: BitArray, start: nat, end: nat)
      requires other.Valid()
      ensures Valid() && fresh(data) && data.Length == other.data.Length
      ensures if start >= end || end > 64 * other.data.Length then forall i: nat :: !IsSet(data[..], i)
              else CutRange(other.data[..], data[..], start, end)
    {
      var n := other.data.Length;
      data := new Word[n](_ => 0);
      new;
      var d := data;
      WordIs(0);
      hide BitAt, StartMask, EndMask, And, Copied, CutRange, IsSet;
      if start >= end || end > 64 * n {
        NothingSet(data[..]);
        return;
      }
      var firstWord, lastWord := start / 64, (end - 1) / 64;
      var startMask, endMask := StartMask(start % 64), EndMask((end - 1) % 64);
      CopiedWords(other.data[..], start, end);
      if firstWord == lastWord {
        data[firstWord] := And(other.data[firstWord], And(startMask, endMask));
      } else {
        data[firstWord] := And(other.data[firstWord], startMask);
        var i := firstWord + 1;
        while i < lastWord
          invariant firstWord < i <= lastWord && data == d && fresh(d)
          invariant forall w :: 0 <= w < n && (w < firstWord || i <= w) ==> data[w] == 0
          invariant forall w :: firstWord <= w < i ==> data[w] == And(other.data[w], RangeMask(w, start, end))
        {
          WithOnes(other.data[i]);
          data[i] := other.data[i];
          i := i + 1;
        }
        data[lastWord] := And(other.data[lastWord], endMask);
      }
      WordsCopied(other.data[..], data[..], start, end);
    }

    method SetRange(start: nat, end: nat)
      requires Valid()
      modifies data
      ensures if end > 64 * data.Length then data[..] == old(data[..])
              else UnionRange(old(data[..]), data[..], start, end)
    {
      hide BitAt, StartMask, EndMask, Or, And, Added, UnionRange, IsSet;
      ghost var was := data[..];
      var n := data.Length;
      if start >= end || end > 64 * n {
        if start >= end {
          EmptyRange(was, start, end);
        }
        return;
      }
      var firstWord, lastWord := start / 64, (end - 1) / 64;
      var startMask, endMask := StartMask(start % 64), EndMask((end - 1) % 64);
      forall w | 0 <= w < n
        ensures w < firstWord || lastWord < w ==> Added(was[w], was[w], w, start, end)
        ensures firstWord <= w <= lastWord ==> Added(was[w], Or(was[w], RangeMask(w, start, end)), w, start, end)
      {
        if w < firstWord || lastWord < w {
          SameAdded(was[w], w, start, end);
        } else {
          OrAdds(was[w], w, start, end);
        }
      }
      if firstWord == lastWord {
        data[firstWord] := Or(data[firstWord], And(startMask, endMask));
      } else {
        data[firstWord] := Or(data[firstWord], startMask);
        var i := firstWord + 1;
        while i < lastWord
          invariant firstWord < i <= lastWord
          invariant forall w :: 0 <= w < n && (w < firstWord || i <= w) ==> data[w] == was[w]
          invariant forall w :: firstWord <= w < i ==> data[w] == Or(was[w], RangeMask(w, start, end))
        {
          WithOnes(was[i]);
          data[i] := ALL_ONES;
          i := i + 1;
        }
        data[lastWord] := Or(data[lastWord], endMask);
      }
      WordsAdded(was, data[..], start, end);
    }

    method UnsetRange(start: nat, end: nat)
      requires Valid()
      modifies data
      ensures if end > 64 * data.Length then data[..] == old(data[..])
              else MinusRange(old(data[..]), data[..], start, end)
    {
      hide BitAt, StartMask, EndMask, Or, And, Not, Removed, MinusRange, IsSet, LowMask;
      ghost var was := data[..];
      var n := data.Length;
      if start >= end || end > 64 * n {
        if start >= end {
          EmptyRange(was, start, end);
        }
        return;
      }
      var firstWord, lastWord := start / 64, (end - 1) / 64;
      var endBit := (end - 1) % 64;
      var startMask := LowMask(start % 64);
      var endMask := if endBit == 63 then 0 else Not(LowMask(endBit + 1));
      Complements(start % 64, endBit, 0);
      forall w | 0 <= w < n
        ensures w < firstWord || lastWord < w ==> Removed(was[w], was[w], w, start, end)
        ensures firstWord <= w <= lastWord ==> Removed(was[w], And(was[w], Not(RangeMask(w, start, end))), w, start, end)
      {
        if w < firstWord || lastWord < w {
          SameAdded(was[w], w, start, end);
        } else {
          AndNotRemoves(was[w], w, start, end);
        }
      }
      if firstWord == lastWord {
        data[firstWord] := And(data[firstWord], Or(startMask, endMask));
      } else {
        data[firstWord] := And(data[firstWord], startMask);
        var i := firstWord + 1;
        while i < lastWord
          invariant firstWord < i <= lastWord
          invariant forall w :: 0 <= w < n && (w < firstWord || i <= w) ==> data[w] == was[w]
          invariant forall w :: firstWord <= w < i ==> data[w] == And(was[w], Not(RangeMask(w, start, end)))
        {
          WithOnes(was[i]);
          data[i] := 0;
          i := i + 1;
        }
        data[lastWord] := And(data[lastWord], endMask);
      }
      WordsRemoved(was, data[..], start, end);
    }

    method Set(i: nat)
      requires Valid() && i < 64 * data.Length
      modifies data
      ensures |data[..]| == |old(data[..])|
      ensures forall j: nat :: IsSet(data[..], j) <==> IsSet(old(data[..]), j) || j == i
    {
      BitSet(data[..], i);
      ghost var next := data[..][i / 64 := Or(data[i / 64], One(i % 64))];
      data[i / 64] := Or(data[i / 64], One(i % 64));
      assert data[..] == next;
    }

    method Unset(i: nat)
      requires Valid() && i < 64 * data.Length
      modifies data
      ensures |data[..]| == |old(data[..])|
      ensures forall j: nat :: IsSet(data[..], j) <==> IsSet(old(data[..]), j) && j != i
    {
      BitReset(data[..], i);
      ghost var next := data[..][i / 64 := And(data[i / 64], Not(One(i % 64)))];
      data[i / 64] := And(data[i / 64], Not(One(i % 64)));
      assert data[..] == next;
    }

    method Get(i: nat) returns (b: bool)
      requires Valid() && i < 64 * data.Length
      ensures b <==> IsSet(data[..], i)
    {
      hide BitAt, And, One;
      b := And(data[i / 64], One(i % 64)) != 0;
      TestOne(data[i / 64], i % 64);
    }

    // The next clear index from the start of a word on, or the end.
    method FindEndBit(from: nat) returns (e: nat)
      requires Valid() && from <= data.Length
      ensures 64 * from <= e <= 64 * data.Length
      ensures forall i :: 64 * from <= i < e ==> IsSet(data[..], i)
      ensures e < 64 * data.Length ==> !IsSet(data[..], e)
    {
      hide BitAt, IsSet, CountrOne;
      var word := from;
      while word < data.Length
        invariant from <= word <= data.Length
        invariant forall i :: 64 * from <= i < 64 * word ==> IsSet(data[..], i)
      {
        OnesFrom(data[..], word);
        if data[word] != ALL_ONES {
          return 64 * word + CountrOne(data[word]);
        }
        word := word + 1;
      }
      return 64 * data.Length;
    }

    // The first run of ones in a word that is word number index with some low bits cleared.
    method WordBits(index: nat, word: Word, ghost low: nat) returns (r: Range)
      requires Valid() && index < data.Length && low <= 64 && word != 0
      requires forall i :: 0 <= i < 64 ==> (BitAt(word, i) <==> BitAt(data[index], i) && low <= i)
      ensures 64 * index + low <= r.first < r.second <= 64 * data.Length
      ensures forall i :: 64 * index + low <= i < r.first ==> !IsSet(data[..], i)
      ensures forall i :: r.first <= i < r.second ==> IsSet(data[..], i)
      ensures r.second < 64 * data.Length ==> !IsSet(data[..], r.second)
    {
      hide BitAt, ShiftRight, IsSet, CountrZero, CountrOne;
      var emptyBits := CountrZero(word);
      FirstRun(data[..], index, word, low);
      var onesCount := CountrOne(ShiftRight(word, emptyBits));
      var startBit := 64 * index + emptyBits;
      if onesCount + emptyBits < 64 {
        return Range(startBit, startBit + onesCount);
      }
      var e := FindEndBit(index + 1);
      return Range(startBit, e);
    }

    /** FirstRangeFrom. */
    method FirstRangeFrom(start: nat) returns (r: Range)
      requires Valid()
      ensures IsFirstRange(data[..], start, r)
    {
      hide BitAt, And, StartMask;
      var n := 64 * data.Length;
      if start >= n {
        return Range(n, n);
      }
      var startWord, startBit := start / 64, start % 64;
      var maskedFirst := And(data[startWord], StartMask(startBit));
      RangeMasks(startBit, 63);
      AndBits(data[startWord], StartMask(startBit));
      if maskedFirst != 0 {
        r := WordBits(startWord, maskedFirst, startBit);
        return;
      }
      WordIs(maskedFirst);
      ClearFrom(data[..], startWord, startBit);
      var word := startWord + 1;
      while word < data.Length
        invariant startWord < word <= data.Length
        invariant forall i :: start <= i < 64 * word ==> !IsSet(data[..], i)
      {
        WordIs(data[word]);
        if data[word] != 0 {
          r := WordBits(word, data[word], 0);
          return;
        }
        ClearFrom(data[..], word, 0);
        word := word + 1;
      }
      return Range(n, n);
    }

    // One past the last clear index below the given word, or zero.
    method FindStartBit(from: nat) returns (b: nat)
      requires Valid() && from <= data.Length
      ensures b <= 64 * from
      ensures forall i :: b <= i < 64 * from ==> IsSet(data[..], i)
      ensures b > 0 ==> !IsSet(data[..], b - 1)
    {
      hide BitAt, IsSet, CountlOne;
      var word := from;
      while word > 0
        invariant 0 <= word <= from
        invariant forall i :: 64 * word <= i < 64 * from ==> IsSet(data[..], i)
      {
        OnesBelow(data[..], word - 1);
        if data[word - 1] != ALL_ONES {
          return 64 * word - CountlOne(data[word - 1]);
        }
        word := word - 1;
      }
      return 0;
    }

    // The last run of ones in a word that is word number index - 1 with its bits from high on cleared.
    method WordBitsBack(index: nat, word: Word, ghost high: nat) returns (r: Range)
      requires Valid() && 0 < index <= data.Length && high <= 64 && word != 0
      requires forall i :: 0 <= i < 64 ==> (BitAt(word, i) <==> BitAt(data[index - 1], i) && i < high)
      ensures r.first < r.second <= 64 * (index - 1) + high
      ensures forall i :: r.second <= i < 64 * (index - 1) + high ==> !IsSet(data[..], i)
      ensures forall i :: r.first <= i < r.second ==> IsSet(data[..], i)
      ensures r.first > 0 ==> !IsSet(data[..], r.first - 1)
    {
      hide BitAt, ShiftLeft, IsSet, CountlZero, CountlOne;
      var emptyBits := CountlZero(word);
      LastRun(data[..], index - 1, word, high);
      var onesCount := CountlOne(ShiftLeft(word, emptyBits));
      var endBit := 64 * index - emptyBits;
      if emptyBits + onesCount < 64 {
        return Range(endBit - onesCount, endBit);
      }
      var b := FindStartBit(index - 1);
      return Range(b, endBit);
    }

    /** LastRangeFrom; an end past the array counts as its end. */
    method LastRangeFrom(from: nat) returns (r: Range)
      requires Valid()
      ensures IsLastRange(data[..], if from > 64 * data.Length then 64 * data.Length else from, r)
    {
      hide BitAt, And, EndMask, IsSet;
      if from == 0 {
        return Range(0, 0);
      }
      var end := if from > 64 * data.Length then 64 * data.Length else from;
      var endWord, endBit := (end - 1) / 64 + 1, (end - 1) % 64;
      var maskedLast := And(data[endWord - 1], EndMask(endBit));
      RangeMasks(0, endBit);
      AndBits(data[endWord - 1], EndMask(endBit));
      if maskedLast != 0 {
        r := WordBitsBack(endWord, maskedLast, endBit + 1);
        return;
      }
      WordIs(maskedLast);
      ClearBelow(data[..], endWord - 1, endBit + 1);
      var word := endWord - 1;
      while word > 0
        invariant 0 <= word < endWord
        invariant forall i :: 64 * word <= i < end ==> !IsSet(data[..], i)
      {
        WordIs(data[word - 1]);
        if data[word - 1] != 0 {
          r := WordBitsBack(word, data[word - 1], 64);
          return;
        }
        ClearBelow(data[..], word - 1, 64);
        word := word - 1;
      }
      return Range(0, 0);
    }

    /** Iterating from begin() to end(): each maximal run of set indices once, in order. */
    method Ranges() returns (rs: seq<Range>)
      requires Valid()
      ensures AreRuns(data[..], rs, 64 * data.Length)
    {
      hide IsSet;
      var n := 64 * data.Length;
      rs := [];
      var range := FirstRangeFrom(0);
      while range != Range(n, n)
        invariant range.first <= n
        invariant AreRuns(data[..], rs, range.first)
        invariant range.first < n ==> IsRun(data[..], range)
        invariant range.first == n ==> range.second == n
        decreases n - range.first
      {
        ghost var was, before := range, rs;
        rs := rs + [range];
        range := FirstRangeFrom(range.second);
        RunsMore(data[..], before, was, range);
      }
    }
  }

  // A maximal run of set indices.
  ghost predicate IsRun(words: seq<Word>, r: Range) {
    && r.first < r.second <= 64 * |words|
    && (forall i :: r.first <= i < r.second ==> IsSet(words, i))
    && (r.first > 0 ==> !IsSet(words, r.first - 1))
    && (r.second < 64 * |words| ==> !IsSet(words, r.second))
  }

  predicate InSome(rs: seq<Range>, i: nat) {
    exists k :: 0 <= k < |rs| && rs[k].first <= i < rs[k].second
  }

  /** The ranges are maximal runs in increasing order, and below the limit they hold exactly the set indices. */
  ghost predicate AreRuns(words: seq<Word>, rs: seq<Range>, limit: nat) {
    && (forall k :: 0 <= k < |rs| ==> IsRun(words, rs[k]))
    && (forall j, k :: 0 <= j < k < |rs| ==> rs[j].second < rs[k].first)
    && (forall k :: 0 <= k < |rs| ==> rs[k].second <= limit)
    && (|rs| > 0 && limit < 64 * |words| ==> rs[|rs| - 1].second < limit)
    && (forall i: nat :: i < limit ==> (IsSet(words, i) <==> InSome(rs, i)))
  }

  lemma RunsMore(words: seq<Word>, rs: seq<Range>, r: Range, next: Range)
    requires AreRuns(words, rs, r.first) && r.first < 64 * |words| && IsRun(words, r)
    requires IsFirstRange(words, r.second, next)
    ensures AreRuns(words, rs + [r], next.first)
    ensures next.first <= 64 * |words| && (next.first < 64 * |words| ==> IsRun(words, next) && r.second < next.first)
    ensures next.first == 64 * |words| ==> next.second == 64 * |words|
  {
    hide IsSet;
    var all := rs + [r];
    if next.first < 64 * |words| {
      assert IsSet(words, next.first);
      assert next.first > r.second;
    }
    forall i: nat | i < next.first
      ensures IsSet(words, i) <==> InSome(all, i)
    {
      InSomeMore(rs, r, i);
      if i < r.first {
        assert IsSet(words, i) <==> InSome(rs, i);
      } else {
        assert !InSome(rs, i);
      }
    }
  }

  lemma InSomeMore(rs: seq<Range>, r: Range, i: nat)
    ensures InSome(rs + [r], i) <==> InSome(rs, i) || r.first <= i < r.second
  {
    var all := rs + [r];
    if InSome(rs, i) {
      var k :| 0 <= k < |rs| && rs[k].first <= i < rs[k].second;
      assert all[k] == rs[k];
    }
    if r.first <= i < r.second {
      assert all[|rs|] == r;
    }
  }

  lemma ClearBelow(words: seq<Word>, w: nat, high: nat)
    requires w < |words| && high <= 64 && forall i :: 0 <= i < high ==> !BitAt(words[w], i)
    ensures forall i :: 64 * w <= i < 64 * w + high ==> !IsSet(words, i)
  {
    hide BitAt, IsSet;
    IndexBits(words, w);
    forall i | 64 * w <= i < 64 * w + high
      ensures !IsSet(words, i)
    {
      assert IsSet(words, 64 * w + (i - 64 * w)) <==> BitAt(words[w], i - 64 * w);
    }
  }

  lemma OnesBelow(words: seq<Word>, w: nat)
    requires w < |words|
    ensures words[w] == ALL_ONES ==> forall i :: 64 * w <= i < 64 * w + 64 ==> IsSet(words, i)
    ensures words[w] != ALL_ONES ==>
              var b := 64 * w + 64 - CountlOne(words[w]);
              64 * w < b && (forall i :: b <= i < 64 * w + 64 ==> IsSet(words, i)) && !IsSet(words, b - 1)
  {
    hide BitAt, IsSet;
    WordIs(words[w]);
    IndexBits(words, w);
    var n := CountlOne(words[w]);
    forall i | 64 * w + 64 - n <= i < 64 * w + 64
      ensures IsSet(words, i)
    {
      assert IsSet(words, 64 * w + (i - 64 * w)) <==> BitAt(words[w], i - 64 * w);
    }
    if words[w] != ALL_ONES {
      assert IsSet(words, 64 * w + (63 - n)) <==> BitAt(words[w], 63 - n);
    }
  }

  lemma LastRun(words: seq<Word>, index: nat, word: Word, high: nat)
    requires index < |words| && high <= 64 && word != 0
    requires forall i :: 0 <= i < 64 ==> (BitAt(word, i) <==> BitAt(words[index], i) && i < high)
    ensures var empty := CountlZero(word);
            var ones := CountlOne(ShiftLeft(word, empty));
            && 64 - empty <= high && 0 < ones && empty + ones <= 64
            && (forall i :: 64 * index + 64 - empty <= i < 64 * index + high ==> !IsSet(words, i))
            && (forall i :: 64 * index + 64 - empty - ones <= i < 64 * index + 64 - empty ==> IsSet(words, i))
            && (empty + ones < 64 ==> !IsSet(words, 64 * index + 64 - empty - ones - 1))
  {
    hide BitAt, IsSet, ShiftLeft, CountlZero, CountlOne;
    LastRunBits(word);
    IndexBits(words, index);
    var empty := CountlZero(word);
    InOneWordBack(words, index, word, high, empty, CountlOne(ShiftLeft(word, empty)));
  }

  lemma LastRunBits(word: Word)
    requires word != 0
    ensures var empty := CountlZero(word);
            var ones := CountlOne(ShiftLeft(word, empty));
            && 0 < ones && empty + ones <= 64
            && (forall i :: 64 - empty <= i < 64 ==> !BitAt(word, i))
            && (forall i :: 64 - empty - ones <= i < 64 - empty ==> BitAt(word, i))
            && (empty + ones < 64 ==> !BitAt(word, 63 - empty - ones))
  {
    hide BitAt, ShiftLeft, RunDown;
    WordIs(word);
    var empty := CountlZero(word);
    assert empty < 64 && BitAt(word, 63 - empty);
    var shifted := ShiftLeft(word, empty);
    LeftAll(word, empty);
    var ones := CountlOne(shifted);
    hide CountlZero, CountlOne, RunDown;
    OnesAtTop(word, shifted, empty, ones);
  }

  lemma LeftAll(word: Word, empty: nat)
    requires empty < 64
    ensures forall i :: 0 <= i < 64 ==> (BitAt(ShiftLeft(word, empty), i) <==> empty <= i && BitAt(word, i - empty))
  {
    hide BitAt, ShiftLeft;
    forall i | 0 <= i < 64
      ensures BitAt(ShiftLeft(word, empty), i) <==> empty <= i && BitAt(word, i - empty)
    {
      LeftBits(word, empty, i);
    }
  }

  lemma OnesAtTop(word: Word, shifted: Word, empty: nat, n: nat)
    requires empty < 64 && n <= 64 && BitAt(word, 63 - empty)
    requires forall i :: 0 <= i < 64 ==> (BitAt(shifted, i) <==> empty <= i && BitAt(word, i - empty))
    requires forall i :: 64 - n <= i < 64 ==> BitAt(shifted, i)
    requires n < 64 ==> !BitAt(shifted, 63 - n)
    ensures 0 < n && empty + n <= 64
    ensures forall i :: 64 - empty - n <= i < 64 - empty ==> BitAt(word, i)
    ensures empty + n < 64 ==> !BitAt(word, 63 - empty - n)
  {
    hide BitAt;
    assert BitAt(shifted, 63);
    assert BitAt(shifted, 64 - n);
    forall i | 64 - empty - n <= i < 64 - empty
      ensures BitAt(word, i)
    {
      var k := i + empty;
      assert BitAt(shifted, k);
      assert k - empty == i;
    }
    if empty + n < 64 {
      assert !BitAt(shifted, 63 - n);
    }
  }

  lemma InOneWordBack(words: seq<Word>, index: nat, word: Word, high: nat, empty: nat, ones: nat)
    requires index < |words| && high <= 64 && 0 < ones && empty + ones <= 64
    requires forall i :: 0 <= i < 64 ==> (BitAt(word, i) <==> BitAt(words[index], i) && i < high)
    requires forall i :: 0 <= i < 64 ==> (IsSet(words, 64 * index + i) <==> BitAt(words[index], i))
    requires forall i :: 64 - empty <= i < 64 ==> !BitAt(word, i)
    requires forall i :: 64 - empty - ones <= i < 64 - empty ==> BitAt(word, i)
    requires empty + ones < 64 ==> !BitAt(word, 63 - empty - ones)
    ensures 64 - empty <= high
    ensures forall i :: 64 * index + 64 - empty <= i < 64 * index + high ==> !IsSet(words, i)
    ensures forall i :: 64 * index + 64 - empty - ones <= i < 64 * index + 64 - empty ==> IsSet(words, i)
    ensures empty + ones < 64 ==> !IsSet(words, 64 * index + 63 - empty - ones)
  {
    hide BitAt, IsSet;
    assert BitAt(word, 63 - empty);
    forall i | 64 * index + 64 - empty <= i < 64 * index + high
      ensures !IsSet(words, i)
    {
      var b := i - 64 * index;
      assert !BitAt(word, b);
      assert IsSet(words, 64 * index + b) <==> BitAt(words[index], b);
    }
    forall i | 64 * index + 64 - empty - ones <= i < 64 * index + 64 - empty
      ensures IsSet(words, i)
    {
      var b := i - 64 * index;
      assert BitAt(word, b);
      assert IsSet(words, 64 * index + b) <==> BitAt(words[index], b);
    }
    if empty + ones < 64 {
      var b := 63 - empty - ones;
      assert BitAt(word, b + 1);
      assert IsSet(words, 64 * index + b) <==> BitAt(words[index], b);
    }
  }

  // A word without a set bit from low on.
  lemma ClearFrom(words: seq<Word>, w: nat, low: nat)
    requires w < |words| && forall i :: low <= i < 64 ==> !BitAt(words[w], i)
    ensures forall i :: 64 * w + low <= i < 64 * w + 64 ==> !IsSet(words, i)
  {
    hide BitAt;
    forall i | 64 * w + low <= i < 64 * w + 64
      ensures !IsSet(words, i)
    {
      IndexParts(i);
      assert i / 64 == w;
    }
  }

  // The bits of a word by their indices in the array.
  lemma IndexBits(words: seq<Word>, w: nat)
    requires w < |words|
    ensures forall i :: 0 <= i < 64 ==> (IsSet(words, 64 * w + i) <==> BitAt(words[w], i))
  {
    hide BitAt;
    forall i | 0 <= i < 64
      ensures IsSet(words, 64 * w + i) <==> BitAt(words[w], i)
    {
      IndexParts(64 * w + i);
    }
  }

  lemma OnesFrom(words: seq<Word>, w: nat)
    requires w < |words|
    ensures words[w] == ALL_ONES ==> forall i :: 64 * w <= i < 64 * w + 64 ==> IsSet(words, i)
    ensures words[w] != ALL_ONES ==>
              var n := CountrOne(words[w]);
              n < 64 && (forall i :: 64 * w <= i < 64 * w + n ==> IsSet(words, i)) && !IsSet(words, 64 * w + n)
  {
    hide BitAt, IsSet;
    WordIs(words[w]);
    IndexBits(words, w);
    var n := CountrOne(words[w]);
    forall i | 64 * w <= i < 64 * w + n
      ensures IsSet(words, i)
    {
      assert IsSet(words, 64 * w + (i - 64 * w)) <==> BitAt(words[w], i - 64 * w);
    }
  }

  lemma FirstRun(words: seq<Word>, index: nat, word: Word, low: nat)
    requires index < |words| && low <= 64 && word != 0
    requires forall i :: 0 <= i < 64 ==> (BitAt(word, i) <==> BitAt(words[index], i) && low <= i)
    ensures var empty := CountrZero(word);
            var ones := CountrOne(ShiftRight(word, empty));
            && low <= empty && 0 < ones && empty + ones <= 64
            && (forall i :: 64 * index + low <= i < 64 * index + empty ==> !IsSet(words, i))
            && (forall i :: 64 * index + empty <= i < 64 * index + empty + ones ==> IsSet(words, i))
            && (empty + ones < 64 ==> !IsSet(words, 64 * index + empty + ones))
  {
    hide BitAt, IsSet, ShiftRight, CountrZero, CountrOne;
    FirstRunBits(word);
    IndexBits(words, index);
    var empty := CountrZero(word);
    InOneWord(words, index, word, low, empty, CountrOne(ShiftRight(word, empty)));
  }

  lemma FirstRunBits(word: Word)
    requires word != 0
    ensures var empty := CountrZero(word);
            var ones := CountrOne(ShiftRight(word, empty));
            && 0 < ones && empty + ones <= 64
            && (forall i :: 0 <= i < empty ==> !BitAt(word, i))
            && (forall i :: empty <= i < empty + ones ==> BitAt(word, i))
            && (empty + ones < 64 ==> !BitAt(word, empty + ones))
  {
    hide BitAt, ShiftRight;
    WordIs(word);
    var empty := CountrZero(word);
    assert empty < 64 && BitAt(word, empty);
    var shifted := ShiftRight(word, empty);
    RightAll(word, empty);
    var ones := CountrOne(shifted);
    hide CountrZero, CountrOne, RunUp;
    OnesInWord(word, shifted, empty, ones);
  }

  lemma RightAll(word: Word, empty: nat)
    requires empty < 64
    ensures forall i :: 0 <= i < 64 ==> (BitAt(ShiftRight(word, empty), i) <==> empty + i < 64 && BitAt(word, empty + i))
  {
    hide BitAt, ShiftRight;
    forall i | 0 <= i < 64
      ensures BitAt(ShiftRight(word, empty), i) <==> empty + i < 64 && BitAt(word, empty + i)
    {
      RightBits(word, empty, i);
    }
  }

  lemma OnesInWord(word: Word, shifted: Word, empty: nat, n: nat)
    requires empty < 64 && n <= 64 && BitAt(word, empty)
    requires forall i :: 0 <= i < 64 ==> (BitAt(shifted, i) <==> empty + i < 64 && BitAt(word, empty + i))
    requires forall i :: 0 <= i < n ==> BitAt(shifted, i)
    requires n < 64 ==> !BitAt(shifted, n)
    ensures 0 < n && empty + n <= 64
    ensures forall i :: empty <= i < empty + n ==> BitAt(word, i)
    ensures empty + n < 64 ==> !BitAt(word, empty + n)
  {
    hide BitAt;
    assert BitAt(shifted, 0);
    assert BitAt(shifted, n - 1);
    forall i | empty <= i < empty + n
      ensures BitAt(word, i)
    {
      assert BitAt(shifted, i - empty);
    }
    if n < 64 {
      assert !BitAt(shifted, n);
    }
  }

  lemma InOneWord(words: seq<Word>, index: nat, word: Word, low: nat, empty: nat, ones: nat)
    requires index < |words| && low <= 64 && 0 < ones && empty + ones <= 64
    requires forall i :: 0 <= i < 64 ==> (BitAt(word, i) <==> BitAt(words[index], i) && low <= i)
    requires forall i :: 0 <= i < 64 ==> (IsSet(words, 64 * index + i) <==> BitAt(words[index], i))
    requires forall i :: 0 <= i < empty ==> !BitAt(word, i)
    requires forall i :: empty <= i < empty + ones ==> BitAt(word, i)
    requires empty + ones < 64 ==> !BitAt(word, empty + ones)
    ensures low <= empty
    ensures forall i :: 64 * index + low <= i < 64 * index + empty ==> !IsSet(words, i)
    ensures forall i :: 64 * index + empty <= i < 64 * index + empty + ones ==> IsSet(words, i)
    ensures empty + ones < 64 ==> !IsSet(words, 64 * index + empty + ones)
  {
    hide BitAt, IsSet;
    assert BitAt(word, empty);
    forall i | 64 * index + low <= i < 64 * index + empty
      ensures !IsSet(words, i)
    {
      var b := i - 64 * index;
      assert !BitAt(word, b);
      assert IsSet(words, 64 * index + b) <==> BitAt(words[index], b);
    }
    forall i | 64 * index + empty <= i < 64 * index + empty + ones
      ensures IsSet(words, i)
    {
      var b := i - 64 * index;
      assert BitAt(word, b);
      assert IsSet(words, 64 * index + b) <==> BitAt(words[index], b);
    }
    if empty + ones < 64 {
      var b := empty + ones;
      assert IsSet(words, 64 * index + b) <==> BitAt(words[index], b);
    }
  }

  lemma NothingSet(words: seq<Word>)
    requires forall w :: 0 <= w < |words| ==> words[w] == 0
    ensures forall i: nat :: !IsSet(words, i)
  {
    WordIs(0);
    hide BitAt;
  }

  lemma EmptyRange(words: seq<Word>, start: nat, end: nat)
    requires start >= end
    ensures UnionRange(words, words, start, end) && MinusRange(words, words, start, end)
  {
    hide IsSet;
  }
}
