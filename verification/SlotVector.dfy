/** SlotVector: values in slots, a bit per slot, and a free list, against a map from ids to values. */
module SlotVectors {
  import opened CanonicalCode
  import opened Sequences
  import opened Word64
  import opened BitArrays

  const INITIAL_CAPACITY := 2048

  function WordsFor(capacity: nat): nat {
    (capacity + 63) / 64
  }

  // The new slots from high - 1 down to low, so that the lowest is taken first from the back.
  function Descending(low: nat, high: nat): (s: seq<nat>)
    requires low <= high
    ensures |s| == high - low && forall i :: 0 <= i < |s| ==> s[i] == high - 1 - i
  {
    seq(high - low, i requires 0 <= i < high - low => high - 1 - i)
  }

  // ---- bits ----

  lemma BitRead(words: seq<Word>, i: nat)
    requires i < 64 * |words|
    ensures And(ShiftRight(words[i / 64], i % 64), 1) != 0 <==> IsSet(words, i)
  {
    hide BitAt, And, ShiftRight;
    RightBits(words[i / 64], i % 64, 0);
    assert One(0) == 1 by {
      OneZero();
    }
    TestOne(ShiftRight(words[i / 64], i % 64), 0);
  }

  lemma OneZero()
    ensures One(0) == 1
  {
  }

  function ZeroWords(n: nat): (w: seq<Word>)
    ensures |w| == n && forall i :: 0 <= i < n ==> w[i] == 0
  {
    seq(n, _ => 0)
  }

  lemma Resized(words: seq<Word>, n: nat)
    requires |words| <= n
    ensures var now := words + ZeroWords(n - |words|);
            forall j: nat :: IsSet(now, j) <==> IsSet(words, j)
  {
    hide BitAt;
    var now := words + ZeroWords(n - |words|);
    WordIs(0);
    forall j: nat
      ensures IsSet(now, j) <==> IsSet(words, j)
    {
      IndexParts(j);
    }
  }

  class SlotVector<T> {
    var values: array<Option<T>>
    var storedBitset: seq<Word>
    var freeList: seq<nat>

    /** A slot holds a value exactly when its bit is set, and the free list has each other slot once. */
    ghost predicate Valid()
      reads this, values
    {
      && |storedBitset| == WordsFor(values.Length)
      && (forall i: nat :: IsSet(storedBitset, i) ==> i < values.Length)
      && (forall i :: 0 <= i < values.Length ==> (values[i].Some? <==> IsSet(storedBitset, i)))
      && Distinct(freeList)
      && (forall k :: 0 <= k < |freeList| ==> freeList[k] < values.Length && !IsSet(storedBitset, freeList[k]))
      && (forall i :: 0 <= i < values.Length && !IsSet(storedBitset, i) ==> i in freeList)
    }

    // The live ids and their values.
    ghost function Contents(): map<nat, T>
      reads this, values
    {
      map i: nat | i < values.Length && values[i].Some? :: values[i].value
    }

    constructor ()
      ensures Valid() && fresh(values) && Contents() == map[] && values.Length == 2048
    {
      values := new Option<T>[0];
      storedBitset, freeList := [], [];
      new;
      Reserve(INITIAL_CAPACITY);
    }

    // Moving the values of one word of the bitset into the new storage.
    method MoveWord(newValues: array<Option<T>>, w: nat)
      requires w < |storedBitset| && newValues != values && newValues.Length >= values.Length
      requires forall i: nat :: IsSet(storedBitset, i) ==> i < values.Length
      modifies newValues
      ensures forall i :: 0 <= i < newValues.Length ==>
                newValues[i] == if 64 * w <= i < 64 * w + 64 && IsSet(storedBitset, i) then values[i]
                                else old(newValues[i])
    {
      hide BitAt, IsSet, And;
      var bits := storedBitset[w];
      var bit := 0;
      RestStart(storedBitset, w);
      while bits != 0
        invariant 0 <= bit <= 64 && Rest(bits, storedBitset, w, bit)
        invariant forall i :: 0 <= i < newValues.Length ==>
                    newValues[i] == if 64 * w <= i < 64 * w + bit && IsSet(storedBitset, i) then values[i]
                                    else old(newValues[i])
        decreases 64 - bit
      {
        hide Rest;
        RestHead(bits, storedBitset, w, bit);
        var i := 64 * w + bit;
        if And(bits, 1) != 0 {
          newValues[i] := values[i];
        }
        RestNext(bits, bits >> 1, storedBitset, w, bit);
        bits := bits >> 1;
        bit := bit + 1;
      }
      RestDone(storedBitset, w, bit);
    }

    /** Reserve: every live value keeps its id, and the new slots become free, the lowest to be taken first. */
    method Reserve(newCapacity: nat)
      requires Valid() && newCapacity >= values.Length
      modifies this
      ensures Valid() && fresh(values) && values.Length == newCapacity
      ensures forall i :: 0 <= i < |old(values[..])| ==> values[i] == old(values[..])[i]
      ensures forall i :: |old(values[..])| <= i < newCapacity ==> values[i] == None
      ensures freeList == old(freeList) + Descending(|old(values[..])|, newCapacity)
    {
      hide IsSet;
      var newValues := new Option<T>[newCapacity](_ => None);
      var capacity := values.Length;
      ghost var was, bitset, free := values, storedBitset, freeList;
      var w := 0;
      while w < |storedBitset|
        invariant values == was && storedBitset == bitset && freeList == free && Valid()
        invariant 0 <= w <= |storedBitset| && fresh(newValues) && newValues != values
        invariant forall i :: 0 <= i < newCapacity ==>
                    newValues[i] == if i < 64 * w && IsSet(storedBitset, i) then values[i] else None
      {
        MoveWord(newValues, w);
        w := w + 1;
      }
      AllMoved(was[..], newValues[..], bitset);
      Resized(bitset, WordsFor(newCapacity));
      storedBitset := storedBitset + ZeroWords(WordsFor(newCapacity) - |storedBitset|);
      freeList := freeList + Descending(capacity, newCapacity);
      values := newValues;
      MoreFree(free, capacity, newCapacity, bitset);
    }

    // Growing when no slot is free: to twice the capacity, or to one slot.
    method EnsureFree()
      requires Valid()
      modifies this
      ensures Valid() && freeList != [] && Contents() == old(Contents())
      ensures values == old(values) || fresh(values)
    {
      if freeList == [] {
        hide IsSet, Distinct;
        var capacity := values.Length;
        Reserve(if capacity > 0 then 2 * capacity else 1);
        assert Contents() == old(Contents());
      }
    }

    // FreeValueIndex: the back of the free list.
    method FreeValueIndex() returns (index: nat)
      requires Valid()
      modifies this
      ensures index < values.Length && index !in old(Contents()) && !IsSet(storedBitset, index)
      ensures (values == old(values) || fresh(values)) && Contents() == old(Contents())
      ensures AllBut(index)
    {
      hide IsSet, Distinct;
      EnsureFree();
      index := freeList[|freeList| - 1];
      TakenBack(freeList);
      freeList := freeList[..|freeList| - 1];
    }

    // Valid, except that one slot without a value is missing from the free list.
    ghost predicate AllBut(index: nat)
      reads this, values
    {
      && index < values.Length && |storedBitset| == WordsFor(values.Length)
      && (forall i: nat :: IsSet(storedBitset, i) ==> i < values.Length)
      && (forall i :: 0 <= i < values.Length ==> (values[i].Some? <==> IsSet(storedBitset, i)))
      && Distinct(freeList)
      && (forall k :: 0 <= k < |freeList| ==>
            freeList[k] < values.Length && !IsSet(storedBitset, freeList[k]) && freeList[k] != index)
      && (forall i :: 0 <= i < values.Length && !IsSet(storedBitset, i) && i != index ==> i in freeList)
    }

    /** insert stores the value under an id that was not live; every other id keeps its value. */
    method Insert(value: T) returns (id: nat)
      requires Valid()
      modifies this, values
      ensures Valid() && (values == old(values) || fresh(values))
      ensures id !in old(Contents()) && Contents() == old(Contents())[id := value]
    {
      hide IsSet, Or, One;
      id := FreeValueIndex();
      values[id] := Some(value);
      BitSet(storedBitset, id);
      storedBitset := storedBitset[id / 64 := Or(storedBitset[id / 64], One(id % 64))];
    }

    /** erase removes one live id. */
    method Erase(id: nat)
      requires Valid() && id in Contents()
      modifies this, values
      ensures Valid() && values == old(values)
      ensures Contents() == old(Contents()) - {id} && freeList == old(freeList) + [id]
    {
      hide IsSet;
      values[id] := None;
      freeList := freeList + [id];
      BitReset(storedBitset, id);
      storedBitset := storedBitset[id / 64 := And(storedBitset[id / 64], Not(One(id % 64)))];
      assert id == freeList[|freeList| - 1];
      assert forall i :: i in old(freeList) ==> i in freeList;
    }

    method IsAllocated(id: nat) returns (b: bool)
      requires Valid() && id < values.Length
      ensures b <==> id in Contents()
    {
      hide IsSet;
      BitRead(storedBitset, id);
      b := And(ShiftRight(storedBitset[id / 64], id % 64), 1) != 0;
    }

    /** size counts the live ids. */
    method Size() returns (n: nat)
      requires Valid()
      ensures n == |Contents()|
    {
      hide IsSet;
      CountFree(freeList, Contents().Keys, values.Length);
      n := values.Length - |freeList|;
    }

    // AdvanceToValid: the next live id from slot on, or the capacity.
    method AdvanceToValid(from: nat) returns (slot: nat)
      requires Valid() && from <= values.Length
      ensures from <= slot <= values.Length
      ensures forall i :: from <= i < slot ==> i !in Contents()
      ensures slot < values.Length ==> slot in Contents()
    {
      slot := from;
      while slot < values.Length
        invariant from <= slot <= values.Length
        invariant forall i :: from <= i < slot ==> i !in Contents()
      {
        var live := IsAllocated(slot);
        if live {
          return;
        }
        slot := slot + 1;
      }
    }

    /** Iterating from begin() to end() visits each live id once, in increasing order. */
    method Ids() returns (ids: seq<nat>)
      requires Valid()
      ensures forall j, k :: 0 <= j < k < |ids| ==> ids[j] < ids[k]
      ensures forall i :: i in ids <==> i in Contents()
    {
      ids := [];
      var slot := AdvanceToValid(0);
      while slot != values.Length
        invariant slot <= values.Length && (slot < values.Length ==> slot in Contents())
        invariant forall j, k :: 0 <= j < k < |ids| ==> ids[j] < ids[k]
        invariant forall k :: 0 <= k < |ids| ==> ids[k] < slot
        invariant forall i :: i in ids <==> i in Contents() && i < slot
        decreases values.Length - slot
      {
        ids := ids + [slot];
        slot := AdvanceToValid(slot + 1);
      }
    }
  }

  function Below(n: nat): (s: set<nat>)
    ensures |s| == n && forall i: nat :: i in s <==> i < n
  {
    if n == 0 then {} else Below(n - 1) + {n - 1}
  }

  function Elements(s: seq<nat>): (e: set<nat>)
    ensures forall i: nat :: i in e <==> i in s
  {
    if s == [] then {} else Elements(s[..|s| - 1]) + {s[|s| - 1]}
  }

  lemma {:induction false} DistinctSize(s: seq<nat>)
    requires Distinct(s)
    ensures |Elements(s)| == |s|
  {
    if s == [] {
    } else {
      var k := |s| - 1;
      DistinctSize(s[..k]);
      assert s[k] !in Elements(s[..k]);
    }
  }

  // The free list and the live ids share out the slots.
  lemma CountFree(free: seq<nat>, live: set<nat>, capacity: nat)
    requires Distinct(free)
    requires forall k :: 0 <= k < |free| ==> free[k] < capacity && free[k] !in live
    requires forall i: nat :: i in live ==> i < capacity
    requires forall i: nat :: i < capacity && i !in live ==> i in free
    ensures |free| <= capacity && |live| == capacity - |free|
  {
    hide Below, Elements;
    DistinctSize(free);
    assert Below(capacity) == Elements(free) + live;
    assert Elements(free) !! live;
  }

  // Taking the back off a list without repetitions.
  lemma TakenBack(all: seq<nat>)
    requires Distinct(all) && all != []
    ensures var k := |all| - 1;
            && Distinct(all[..k]) && (forall j :: 0 <= j < k ==> all[..k][j] != all[k])
            && forall i :: i in all && i != all[k] ==> i in all[..k]
  {
    var k := |all| - 1;
    forall i | i in all && i != all[k]
      ensures i in all[..k]
    {
      var j :| 0 <= j < |all| && all[j] == i;
      assert all[..k][j] == i;
    }
  }

  // With every set bit below the capacity, the words cover all moved values; the others were empty.
  lemma AllMoved<T>(was: seq<Option<T>>, now: seq<Option<T>>, words: seq<Word>)
    requires |words| == WordsFor(|was|) && |was| <= |now|
    requires forall i: nat :: IsSet(words, i) ==> i < |was|
    requires forall i :: 0 <= i < |was| ==> (was[i].Some? <==> IsSet(words, i))
    requires forall i :: 0 <= i < |now| ==> now[i] == if i < 64 * |words| && IsSet(words, i) then was[i] else None
    ensures forall i :: 0 <= i < |was| ==> now[i] == was[i]
    ensures forall i :: |was| <= i < |now| ==> now[i] == None
  {
    hide IsSet;
  }

  lemma MoreFree(free: seq<nat>, low: nat, high: nat, words: seq<Word>)
    requires low <= high && Distinct(free)
    requires forall k :: 0 <= k < |free| ==> free[k] < low && !IsSet(words, free[k])
    requires forall i: nat :: IsSet(words, i) ==> i < low
    requires forall i :: 0 <= i < low && !IsSet(words, i) ==> i in free
    ensures var all := free + Descending(low, high);
            && Distinct(all)
            && (forall k :: 0 <= k < |all| ==> all[k] < high && !IsSet(words, all[k]))
            && (forall i :: 0 <= i < high && !IsSet(words, i) ==> i in all)
  {
    hide IsSet;
    var all := free + Descending(low, high);
    forall i | 0 <= i < high && !IsSet(words, i)
      ensures i in all
    {
      if i >= low {
        assert all[|free| + (high - 1 - i)] == i;
      }
    }
  }

  // The bits still to be looked at: bit number j of bits is bit number bit + j of word w.
  predicate Rest(bits: Word, words: seq<Word>, w: nat, bit: nat) {
    forall j :: 0 <= j < 64 ==> (BitAt(bits, j) <==> bit + j < 64 && IsSet(words, 64 * w + bit + j))
  }

  lemma RestStart(words: seq<Word>, w: nat)
    requires w < |words|
    ensures Rest(words[w], words, w, 0)
  {
    hide BitAt, IsSet;
    IndexBits(words, w);
  }

  lemma RestHead(bits: Word, words: seq<Word>, w: nat, bit: nat)
    requires Rest(bits, words, w, bit) && bits != 0
    ensures bit < 64 && (And(bits, 1) != 0 <==> IsSet(words, 64 * w + bit))
  {
    hide BitAt, IsSet, And;
    WordIs(bits);
    TestOne(bits, 0);
    OneZero();
  }

  lemma RestNext(bits: Word, next: Word, words: seq<Word>, w: nat, bit: nat)
    requires Rest(bits, words, w, bit) && next == bits >> 1 && bit < 64
    ensures Rest(next, words, w, bit + 1)
  {
    hide BitAt, IsSet;
    forall j | 0 <= j < 64
      ensures BitAt(next, j) <==> bit + 1 + j < 64 && IsSet(words, 64 * w + (bit + 1) + j)
    {
      OneRight(bits, j);
      if j < 63 {
        assert BitAt(bits, j + 1) <==> bit + (j + 1) < 64 && IsSet(words, 64 * w + bit + (j + 1));
        assert 64 * w + bit + (j + 1) == 64 * w + (bit + 1) + j;
      }
    }
  }

  lemma RestDone(words: seq<Word>, w: nat, bit: nat)
    requires Rest(0, words, w, bit)
    ensures forall i :: 64 * w + bit <= i < 64 * w + 64 ==> !IsSet(words, i)
  {
    hide BitAt, IsSet;
    WordIs(0);
    forall i | 64 * w + bit <= i < 64 * w + 64
      ensures !IsSet(words, i)
    {
      var j := i - (64 * w + bit);
      assert BitAt(0, j) <==> bit + j < 64 && IsSet(words, 64 * w + bit + j);
    }
  }
}
