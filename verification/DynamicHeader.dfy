/** An independent writer of dynamic block headers, from the wording of section 3.2.7 of RFC 1951, and that the reader
    accepts exactly what it writes: the two codes come back as they were given, and no other header is accepted. */
module DynamicHeader {
  import opened Bits
  import opened CanonicalCode
  import opened Inflate
  import opened Deflate
  import opened Sequences

  // ---- the order of the code-length code ----

  /** The three run symbols and zero come first, then the lengths around eight, alternately one up and one down. */
  lemma DezigzagOrder()
    ensures |DEZIGZAG| == 19
    ensures DEZIGZAG[0] == 16 && DEZIGZAG[1] == 17 && DEZIGZAG[2] == 18 && DEZIGZAG[3] == 0
    ensures forall k :: 0 <= k < 8 ==> DEZIGZAG[4 + 2 * k] == 8 + k
    ensures forall k :: 0 <= k < 7 ==> DEZIGZAG[5 + 2 * k] == 7 - k
    ensures Distinct(DEZIGZAG)
  {
  }

  // The symbol at a place of the order, and the place of a symbol.
  function SymbolAt(place: nat): (s: nat)
    requires place < 19
    ensures s < 19
  {
    if place < 3 then 16 + place
    else if place == 3 then 0
    else if place % 2 == 0 then 8 + (place - 4) / 2
    else 7 - (place - 5) / 2
  }

  function PlaceOf(symbol: nat): (p: nat)
    requires symbol < 19
    ensures p < 19 && SymbolAt(p) == symbol
  {
    if symbol >= 16 then symbol - 16
    else if symbol == 0 then 3
    else if symbol >= 8 then 4 + 2 * (symbol - 8)
    else 5 + 2 * (7 - symbol)
  }

  lemma OrderIs(place: nat)
    requires place < 19
    ensures DEZIGZAG[place] == SymbolAt(place) && PlaceOf(SymbolAt(place)) == place
  {
  }

  // ---- the writer ----

  // A code length, the last one again 3 to 6 times, or a run of zeros of 3 to 10 or 11 to 138.
  datatype Item = One(len: nat) | Again(count: nat) | FewZeros(count: nat) | ManyZeros(count: nat)

  predicate ItemOk(i: Item) {
    match i
    case One(len) => len <= 15
    case Again(count) => 3 <= count <= 6
    case FewZeros(count) => 3 <= count <= 10
    case ManyZeros(count) => 11 <= count <= 138
  }

  function ItemSymbol(i: Item): (s: nat)
    requires ItemOk(i)
    ensures s < 19
  {
    match i
    case One(len) => len
    case Again(_) => 16
    case FewZeros(_) => 17
    case ManyZeros(_) => 18
  }

  function ExtraBits(i: Item): seq<bool>
    requires ItemOk(i)
  {
    match i
    case One(_) => []
    case Again(count) => NatBits(count - 3, 2)
    case FewZeros(count) => NatBits(count - 3, 3)
    case ManyZeros(count) => NatBits(count - 11, 7)
  }

  // The lengths sent so far and those the item adds; nothing can be repeated at the start.
  function Extended(i: Item, sofar: seq<nat>): Option<seq<nat>> {
    match i
    case One(len) => Some(sofar + [len])
    case Again(count) => if sofar == [] then None else Some(sofar + Repeat(sofar[|sofar| - 1], count))
    case FewZeros(count) => Some(sofar + Repeat(0, count))
    case ManyZeros(count) => Some(sofar + Repeat(0, count))
  }

  function AllExtended(items: seq<Item>, sofar: seq<nat>): Option<seq<nat>> {
    if items == [] then Some(sofar)
    else
      match Extended(items[0], sofar)
      case None => None
      case Some(more) => AllExtended(items[1..], more)
  }

  datatype Header = Header(hclen: nat, sizes: seq<nat>, items: seq<Item>)

  ghost predicate Sendable(h: Header, i: Item)
    requires |h.sizes| == 19
  {
    ItemOk(i) && h.sizes[ItemSymbol(i)] > 0
  }

  ghost predicate HeaderOk(h: Header) {
    && 4 <= h.hclen <= 19 && |h.sizes| == 19 && Usable(h.sizes)
    && (forall s :: 0 <= s < 19 ==> h.sizes[s] <= 7)
    && (forall s :: 0 <= s < 19 && PlaceOf(s) >= h.hclen ==> h.sizes[s] == 0)
    && forall k :: 0 <= k < |h.items| ==> Sendable(h, h.items[k])
  }

  // The header describes the two codes: their lengths one after the other are what the items stand for.
  ghost predicate Describes(h: Header, lens: seq<nat>, distLens: seq<nat>) {
    && HeaderOk(h) && 257 <= |lens| <= 288 && 1 <= |distLens| <= 32
    && AllExtended(h.items, []) == Some(lens + distLens)
  }

  function FieldBits(sizes: seq<nat>, place: nat, hclen: nat): seq<bool>
    requires |sizes| == 19 && place <= hclen <= 19
    decreases hclen - place
  {
    if place == hclen then [] else NatBits(sizes[SymbolAt(place)], 3) + FieldBits(sizes, place + 1, hclen)
  }

  function ItemBits(sizes: seq<nat>, i: Item): seq<bool>
    requires |sizes| == 19 && ItemOk(i)
  {
    CodeBits(sizes, ItemSymbol(i)) + ExtraBits(i)
  }

  function ItemsBits(sizes: seq<nat>, items: seq<Item>): seq<bool>
    requires |sizes| == 19 && forall k :: 0 <= k < |items| ==> ItemOk(items[k])
  {
    if items == [] then [] else ItemBits(sizes, items[0]) + ItemsBits(sizes, items[1..])
  }

  function CountBits(hlit: nat, hdist: nat, hclen: nat): seq<bool>
    requires hlit >= 257 && hdist >= 1 && hclen >= 4
  {
    NatBits(hlit - 257, 5) + (NatBits(hdist - 1, 5) + NatBits(hclen - 4, 4))
  }

  ghost function DescriptionBits(h: Header, hlit: nat, hdist: nat): seq<bool>
    requires HeaderOk(h) && hlit >= 257 && hdist >= 1
  {
    CountBits(hlit, hdist, h.hclen) + (FieldBits(h.sizes, 0, h.hclen) + ItemsBits(h.sizes, h.items))
  }

  // ---- what is written is read ----

  lemma CountsRead(hlit: nat, hdist: nat, hclen: nat, x: seq<bool>)
    requires 257 <= hlit <= 288 && 1 <= hdist <= 32 && 4 <= hclen <= 19
    ensures TakeCounts(CountBits(hlit, hdist, hclen) + x) == Some(Taken(Counts(hlit, hdist, hclen), x))
  {
    hide NatBits, Take;
    Pow2Values();
    var l, d, c := NatBits(hlit - 257, 5), NatBits(hdist - 1, 5), NatBits(hclen - 4, 4);
    assert (l + (d + c)) + x == l + (d + (c + x));
    NumberRead(hlit - 257, 5, d + (c + x));
    NumberRead(hdist - 1, 5, c + x);
    NumberRead(hclen - 4, 4, x);
  }

  // The sizes before a place are filled in, all others are still zero.
  ghost predicate FilledBefore(sizes: seq<nat>, now: seq<nat>, place: nat)
    requires |sizes| == 19
  {
    |now| == 19 && forall s :: 0 <= s < 19 ==> now[s] == if PlaceOf(s) < place then sizes[s] else 0
  }

  lemma {:induction false} FieldsRead(sizes: seq<nat>, now: seq<nat>, place: nat, hclen: nat, x: seq<bool>)
    requires |sizes| == 19 && place <= hclen <= 19 && FilledBefore(sizes, now, place)
    requires forall s :: 0 <= s < 19 ==> sizes[s] <= 7
    requires forall s :: 0 <= s < 19 && PlaceOf(s) >= hclen ==> sizes[s] == 0
    ensures CodeLengthSizes(FieldBits(sizes, place, hclen) + x, place, hclen, now) == Some(Taken(sizes, x))
    decreases hclen - place
  {
    hide NatBits, Take;
    if place == hclen {
      assert now == sizes;
      assert [] + x == x;
    } else {
      OrderIs(place);
      var s := SymbolAt(place);
      var field, tail := NatBits(sizes[s], 3), FieldBits(sizes, place + 1, hclen);
      assert (field + tail) + x == field + (tail + x);
      Pow2Values();
      NumberRead(sizes[s], 3, tail + x);
      var next := now[s := sizes[s]];
      assert FilledBefore(sizes, next, place + 1) by {
        forall t | 0 <= t < 19
          ensures next[t] == if PlaceOf(t) < place + 1 then sizes[t] else 0
        {
          assert SymbolAt(PlaceOf(t)) == t;
        }
      }
      FieldsRead(sizes, next, place + 1, hclen, x);
    }
  }

  lemma ItemRead(sizes: seq<nat>, i: Item, sofar: seq<nat>, total: nat, x: seq<bool>)
    requires |sizes| == 19 && Usable(sizes) && ItemOk(i) && sizes[ItemSymbol(i)] > 0
    requires |sofar| < total && forall k :: 0 <= k < |sofar| ==> sofar[k] <= MAX_LEN
    requires Extended(i, sofar).Some? && |Extended(i, sofar).value| <= total
    ensures LengthStep(sizes, ItemBits(sizes, i) + x, sofar, total) == Some(Taken(Extended(i, sofar).value, x))
  {
    hide NatBits, Take, TakeSymbol, CodeBits, Accepts;
    Pow2Values();
    var code, extra := CodeBits(sizes, ItemSymbol(i)), ExtraBits(i);
    assert (code + extra) + x == code + (extra + x);
    SymbolRead(sizes, ItemSymbol(i), extra + x);
    match i {
      case One(_) => assert [] + x == x;
      case Again(count) => NumberRead(count - 3, 2, x);
      case FewZeros(count) => NumberRead(count - 3, 3, x);
      case ManyZeros(count) => NumberRead(count - 11, 7, x);
    }
  }

  lemma {:induction false} Grows(items: seq<Item>, sofar: seq<nat>)
    requires forall k :: 0 <= k < |items| ==> ItemOk(items[k])
    requires AllExtended(items, sofar).Some?
    ensures |AllExtended(items, sofar).value| >= |sofar| + |items|
  {
    if items != [] {
      Grows(items[1..], Extended(items[0], sofar).value);
    }
  }

  lemma {:induction false} ItemsRead(sizes: seq<nat>, items: seq<Item>, sofar: seq<nat>, total: nat, x: seq<bool>)
    requires |sizes| == 19 && Usable(sizes)
    requires forall k :: 0 <= k < |items| ==> ItemOk(items[k]) && sizes[ItemSymbol(items[k])] > 0
    requires |sofar| <= total && forall k :: 0 <= k < |sofar| ==> sofar[k] <= MAX_LEN
    requires AllExtended(items, sofar).Some? && |AllExtended(items, sofar).value| == total
    ensures Lengths(sizes, ItemsBits(sizes, items) + x, sofar, total)
            == Some(Taken(AllExtended(items, sofar).value, x))
    decreases |items|
  {
    hide ItemBits, LengthStep, Usable;
    Grows(items, sofar);
    if items == [] {
      assert [] + x == x;
    } else {
      var first, tail := ItemBits(sizes, items[0]), ItemsBits(sizes, items[1..]);
      var more := Extended(items[0], sofar).value;
      Grows(items[1..], more);
      assert (first + tail) + x == first + (tail + x);
      ItemRead(sizes, items[0], sofar, total, tail + x);
      ItemsRead(sizes, items[1..], more, total, x);
    }
  }

  /** A header that describes two codes is read as exactly these two, and what follows it is left. */
  lemma HeaderRoundTrip(h: Header, lens: seq<nat>, distLens: seq<nat>, x: seq<bool>)
    requires Describes(h, lens, distLens) && Usable(lens) && Usable(distLens)
    ensures DynamicLengths(DescriptionBits(h, |lens|, |distLens|) + x) == Some(Taken(CodePair(lens, distLens), x))
  {
    hide TakeCounts, CodeLengthSizes, Lengths, FieldBits, ItemsBits, CountBits, Accepts, AllExtended;
    var c, f, i := CountBits(|lens|, |distLens|, h.hclen), FieldBits(h.sizes, 0, h.hclen), ItemsBits(h.sizes, h.items);
    assert (c + (f + i)) + x == c + (f + (i + x));
    CountsRead(|lens|, |distLens|, h.hclen, f + (i + x));
    FieldsRead(h.sizes, NoSizes(), 0, h.hclen, i + x);
    ItemsRead(h.sizes, h.items, [], |lens| + |distLens|, x);
    assert (lens + distLens)[..|lens|] == lens && (lens + distLens)[|lens|..] == distLens;
  }

  // ---- only what is written is read ----

  lemma NumberWritten(bits: seq<bool>, n: nat)
    requires Take(bits, n).Some?
    ensures Take(bits, n).value.value < Pow2(n)
    ensures bits == NatBits(Take(bits, n).value.value, n) + Take(bits, n).value.rest
  {
    hide NatBits, BitsNat, Pow2;
    NatBitsOfBitsNat(bits[..n]);
    assert bits == bits[..n] + bits[n..];
  }

  lemma SymbolWritten(lens: seq<nat>, bits: seq<bool>)
    requires Usable(lens) && TakeSymbol(lens, bits).Some?
    ensures var t := TakeSymbol(lens, bits).value; lens[t.value] > 0 && bits == CodeBits(lens, t.value) + t.rest
  {
    hide Accepts, Code;
    SymbolIff(lens, bits, TakeSymbol(lens, bits).value.value);
  }

  lemma CountsWritten(bits: seq<bool>)
    requires TakeCounts(bits).Some?
    ensures var t := TakeCounts(bits).value;
            && 257 <= t.value.hlit <= 288 && 1 <= t.value.hdist <= 32 && 4 <= t.value.hclen <= 19
            && bits == CountBits(t.value.hlit, t.value.hdist, t.value.hclen) + t.rest
  {
    hide NatBits, Take;
    Pow2Values();
    NumberWritten(bits, 5);
    var l := Take(bits, 5).value;
    NumberWritten(l.rest, 5);
    var d := Take(l.rest, 5).value;
    NumberWritten(d.rest, 4);
  }

  lemma {:induction false} FieldsWritten(bits: seq<bool>, now: seq<nat>, place: nat, hclen: nat)
    requires place <= hclen <= 19 && |now| == 19 && forall s :: 0 <= s < 19 ==> now[s] <= 7
    requires forall s :: 0 <= s < 19 && PlaceOf(s) >= place ==> now[s] == 0
    requires CodeLengthSizes(bits, place, hclen, now).Some?
    ensures var t := CodeLengthSizes(bits, place, hclen, now).value;
            && bits == FieldBits(t.value, place, hclen) + t.rest
            && (forall s :: 0 <= s < 19 && PlaceOf(s) < place ==> t.value[s] == now[s])
            && (forall s :: 0 <= s < 19 && PlaceOf(s) >= hclen ==> t.value[s] == 0)
    decreases hclen - place
  {
    hide NatBits, Take, PlaceOf, SymbolAt, Pow2;
    if place < hclen {
      OrderIs(place);
      assert Pow2(3) == 8 by {
        Pow2Values();
      }
      NumberWritten(bits, 3);
      var t := Take(bits, 3).value;
      FieldsWritten(t.rest, now[SymbolAt(place) := t.value], place + 1, hclen);
    }
  }

  lemma ItemWritten(sizes: seq<nat>, bits: seq<bool>, sofar: seq<nat>, total: nat) returns (i: Item)
    requires |sizes| == 19 && Usable(sizes) && |sofar| < total
    requires forall k :: 0 <= k < |sofar| ==> sofar[k] <= MAX_LEN
    requires LengthStep(sizes, bits, sofar, total).Some?
    ensures var t := LengthStep(sizes, bits, sofar, total).value;
            && ItemOk(i) && sizes[ItemSymbol(i)] > 0 && Extended(i, sofar) == Some(t.value)
            && bits == ItemBits(sizes, i) + t.rest
  {
    hide NatBits, Take, TakeSymbol, CodeBits, Accepts;
    Pow2Values();
    SymbolWritten(sizes, bits);
    var c := TakeSymbol(sizes, bits).value;
    if c.value < 16 {
      i := One(c.value);
    } else {
      var n := if c.value == 16 then 2 else if c.value == 17 then 3 else 7;
      NumberWritten(c.rest, n);
      var t := Take(c.rest, n).value;
      i := if c.value == 16 then Again(t.value + 3) else if c.value == 17 then FewZeros(t.value + 3)
           else ManyZeros(t.value + 11);
    }
    assert bits == CodeBits(sizes, c.value) + (ExtraBits(i) + LengthStep(sizes, bits, sofar, total).value.rest);
  }

  lemma {:induction false} ItemsWritten(sizes: seq<nat>, bits: seq<bool>, sofar: seq<nat>, total: nat)
    returns (items: seq<Item>)
    requires |sizes| == 19 && Usable(sizes) && |sofar| <= total
    requires forall k :: 0 <= k < |sofar| ==> sofar[k] <= MAX_LEN
    requires Lengths(sizes, bits, sofar, total).Some?
    ensures forall k :: 0 <= k < |items| ==> ItemOk(items[k]) && sizes[ItemSymbol(items[k])] > 0
    ensures var t := Lengths(sizes, bits, sofar, total).value;
            AllExtended(items, sofar) == Some(t.value) && bits == ItemsBits(sizes, items) + t.rest
    decreases total - |sofar|
  {
    hide LengthStep, ItemBits, Usable;
    if |sofar| == total {
      items := [];
    } else {
      var first := ItemWritten(sizes, bits, sofar, total);
      var t := LengthStep(sizes, bits, sofar, total).value;
      var more := ItemsWritten(sizes, t.rest, t.value, total);
      items := [first] + more;
      assert items[1..] == more;
    }
  }

  // Every header that is read was written by some description.
  lemma HeaderWritten(bits: seq<bool>) returns (h: Header)
    requires DynamicLengths(bits).Some?
    ensures var t := DynamicLengths(bits).value;
            && Describes(h, t.value.lens, t.value.distLens)
            && bits == DescriptionBits(h, |t.value.lens|, |t.value.distLens|) + t.rest
  {
    hide TakeCounts, CodeLengthSizes, Lengths, FieldBits, ItemsBits, CountBits, Accepts, AllExtended;
    CountsWritten(bits);
    var c := TakeCounts(bits).value;
    FieldsWritten(c.rest, NoSizes(), 0, c.value.hclen);
    var s := CodeLengthSizes(c.rest, 0, c.value.hclen, NoSizes()).value;
    var items := ItemsWritten(s.value, s.rest, [], c.value.hlit + c.value.hdist);
    h := Header(c.value.hclen, s.value, items);
    var l := Lengths(s.value, s.rest, [], c.value.hlit + c.value.hdist).value;
    assert l.value == l.value[..c.value.hlit] + l.value[c.value.hlit..];
  }

  ghost predicate Writes(h: Header, lens: seq<nat>, distLens: seq<nat>, bits: seq<bool>, x: seq<bool>) {
    Describes(h, lens, distLens) && bits == DescriptionBits(h, |lens|, |distLens|) + x
  }

  /** The reader takes two codes out of a bit string exactly when a header for them, followed by the rest, is there. */
  lemma HeaderReadIff(bits: seq<bool>, lens: seq<nat>, distLens: seq<nat>, x: seq<bool>)
    ensures DynamicLengths(bits) == Some(Taken(CodePair(lens, distLens), x))
            <==> Usable(lens) && Usable(distLens) && exists h :: Writes(h, lens, distLens, bits, x)
  {
    hide DynamicLengths, Describes, DescriptionBits, Usable;
    if DynamicLengths(bits) == Some(Taken(CodePair(lens, distLens), x)) {
      var h := HeaderWritten(bits);
      assert Writes(h, lens, distLens, bits, x);
    }
    if Usable(lens) && Usable(distLens) && exists h :: Writes(h, lens, distLens, bits, x) {
      var h :| Writes(h, lens, distLens, bits, x);
      HeaderRoundTrip(h, lens, distLens, x);
    }
  }

  // ---- every pair of codes can be sent ----

  // Sixteen codes of four bits, one for each length.
  function PlainSizes(): (s: seq<nat>)
    ensures |s| == 19
  {
    seq(19, i => if i < 16 then 4 else 0)
  }

  lemma {:induction false} PlainKraft(n: nat)
    requires n <= 19
    ensures KraftSum(PlainSizes()[..n]) == 2048 * if n < 16 then n else 16
  {
    if n > 0 {
      PlainKraft(n - 1);
      assert PlainSizes()[..n][..n - 1] == PlainSizes()[..n - 1];
      assert Pow2(MAX_LEN - 4) == 2048 by {
        Pow2Values();
        assert Pow2(10) == 1024;
      }
    }
  }

  function Plainly(all: seq<nat>): (items: seq<Item>)
    ensures |items| == |all| && forall k :: 0 <= k < |all| ==> items[k] == One(all[k])
  {
    seq(|all|, k requires 0 <= k < |all| => One(all[k]))
  }

  lemma {:induction false} PlainlyExtends(all: seq<nat>, sofar: seq<nat>)
    ensures AllExtended(Plainly(all), sofar) == Some(sofar + all)
  {
    if all == [] {
      assert sofar + all == sofar;
    } else {
      assert Plainly(all)[1..] == Plainly(all[1..]);
      PlainlyExtends(all[1..], sofar + [all[0]]);
      assert sofar + [all[0]] + all[1..] == sofar + all;
    }
  }

  lemma PlainUsable()
    ensures Usable(PlainSizes())
  {
    hide Accepts, KraftSum;
    PlainKraft(19);
    assert PlainSizes()[..19] == PlainSizes();
    Pow2Values();
    AcceptsIffKraft(PlainSizes());
  }

  lemma PlainHeaderOk(all: seq<nat>)
    requires forall k :: 0 <= k < |all| ==> all[k] <= MAX_LEN
    ensures HeaderOk(Header(19, PlainSizes(), Plainly(all)))
  {
    hide Usable, PlaceOf;
    PlainUsable();
  }

  /** No code is out of the writer's reach. */
  lemma EveryPairIsDescribed(lens: seq<nat>, distLens: seq<nat>)
    requires Usable(lens) && Usable(distLens) && 257 <= |lens| <= 288 && 1 <= |distLens| <= 32
    ensures Describes(Header(19, PlainSizes(), Plainly(lens + distLens)), lens, distLens)
  {
    hide Accepts, HeaderOk, Plainly, PlainSizes, AllExtended;
    PlainHeaderOk(lens + distLens);
    PlainlyExtends(lens + distLens, []);
    assert [] + (lens + distLens) == lens + distLens;
  }
}
