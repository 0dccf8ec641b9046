/** The shader cache's writer and reader: scalars, length-prefixed strings and nested containers in one archive. */
module Serdes {
  import opened Bits
  import opened LittleEndian
  import opened Sequences
  import opened CanonicalCode

  const OFFSET_LIMIT := 0x1_0000_0000
  const SIZE_BYTES := 8
  const INT_LIMIT := 0x8000_0000

  // A scalar is its bytes in memory; the schema is the C++ type that both sides agree on.
  datatype Value = Scalar(bytes: seq<byte>) | Str(chars: seq<byte>) | List(elems: seq<Value>)
  datatype Schema = ScalarOf(size: nat) | StrOf | ListOf(elem: Schema)

  /** The value has the type of the schema; lengths fit size_t, and the reader counts elements with an int. */
  predicate Matches(v: Value, s: Schema)
    decreases v
  {
    match s
    case ScalarOf(size) => v.Scalar? && |v.bytes| == size
    case StrOf => v.Str? && |v.chars| < Power256(SIZE_BYTES)
    case ListOf(elem) =>
      v.List? && |v.elems| < INT_LIMIT && forall i :: 0 <= i < |v.elems| ==> Matches(v.elems[i], elem)
  }

  // ---- the format ----

  function Encoded(v: Value): seq<byte>
    decreases v
  {
    match v
    case Scalar(bytes) => bytes
    case Str(chars) => Le(|chars|, SIZE_BYTES) + chars
    case List(elems) => Le(|elems|, SIZE_BYTES) + EncodedAll(elems)
  }

  function EncodedAll(elems: seq<Value>): seq<byte>
    decreases elems
  {
    if elems == [] then [] else EncodedAll(elems[..|elems| - 1]) + Encoded(elems[|elems| - 1])
  }

  datatype Got = Got(value: Value, rest: seq<byte>)
  datatype GotAll = GotAll(values: seq<Value>, rest: seq<byte>)

  // Reading a value of the schema from the front of the input; None is the failed assertion on corrupted input.
  function Decoded(s: Schema, input: seq<byte>): Option<Got>
    decreases s, 0, 0
  {
    match s
    case ScalarOf(size) =>
      if |input| < size then None else Some(Got(Scalar(input[..size]), input[size..]))
    case StrOf =>
      if |input| < SIZE_BYTES then None
      else
        var n, tail := FromLe(input[..SIZE_BYTES]), input[SIZE_BYTES..];
        if |tail| < n then None else Some(Got(Str(tail[..n]), tail[n..]))
    case ListOf(elem) =>
      if |input| < SIZE_BYTES then None
      else
        var got := DecodedAll(elem, FromLe(input[..SIZE_BYTES]), input[SIZE_BYTES..]);
        if got.None? then None else Some(Got(List(got.value.values), got.value.rest))
  }

  function DecodedAll(elem: Schema, n: nat, input: seq<byte>): Option<GotAll>
    decreases elem, 1, n
  {
    if n == 0 then Some(GotAll([], input))
    else
      var front := DecodedAll(elem, n - 1, input);
      if front.None? then None
      else
        var last := Decoded(elem, front.value.rest);
        if last.None? then None else Some(GotAll(front.value.values + [last.value.value], last.value.rest))
  }

  lemma SizeRead(n: nat, tail: seq<byte>)
    requires n < Power256(SIZE_BYTES)
    ensures var input := Le(n, SIZE_BYTES) + tail;
            FromLe(input[..SIZE_BYTES]) == n && input[SIZE_BYTES..] == tail
  {
    hide Le, FromLe, Power256;
    FromLeOfLe(n, SIZE_BYTES);
    assert (Le(n, SIZE_BYTES) + tail)[..SIZE_BYTES] == Le(n, SIZE_BYTES);
  }

  lemma IntFits()
    ensures INT_LIMIT < Power256(SIZE_BYTES)
  {
    assert Power256(1) == 256;
    assert Power256(2) == 65536;
    assert Power256(4) == 65536 * 65536;
    assert Power256(8) == Power256(4) * 256 * 256 * 256 * 256;
  }

  /** Reading with the schema of a written value gives the value back and leaves what follows it, at any nesting. */
  lemma {:induction false} DecodedEncoded(v: Value, s: Schema, rest: seq<byte>)
    requires Matches(v, s)
    ensures Decoded(s, Encoded(v) + rest) == Some(Got(v, rest))
    decreases v
  {
    hide Le, FromLe, Power256, EncodedAll, DecodedAll;
    match s
    case ScalarOf(size) =>
      assert (v.bytes + rest)[..size] == v.bytes;
    case StrOf =>
      var tail := v.chars + rest;
      assert Encoded(v) + rest == Le(|v.chars|, SIZE_BYTES) + tail;
      SizeRead(|v.chars|, tail);
      assert tail[..|v.chars|] == v.chars;
    case ListOf(elem) =>
      var tail := EncodedAll(v.elems) + rest;
      assert Encoded(v) + rest == Le(|v.elems|, SIZE_BYTES) + tail;
      IntFits();
      SizeRead(|v.elems|, tail);
      DecodedAllEncoded(v.elems, elem, rest);
  }

  lemma {:induction false} DecodedAllEncoded(elems: seq<Value>, elem: Schema, rest: seq<byte>)
    requires forall i :: 0 <= i < |elems| ==> Matches(elems[i], elem)
    ensures DecodedAll(elem, |elems|, EncodedAll(elems) + rest) == Some(GotAll(elems, rest))
    decreases elems
  {
    hide Encoded, Decoded, Matches;
    if elems == [] {
      assert [] + rest == rest;
    } else {
      var k := |elems| - 1;
      var tail := Encoded(elems[k]) + rest;
      assert EncodedAll(elems) + rest == EncodedAll(elems[..k]) + tail;
      DecodedAllEncoded(elems[..k], elem, tail);
      DecodedEncoded(elems[k], elem, rest);
      assert elems[..k] + [elems[k]] == elems;
    }
  }

  // How many characters or elements there are, and their bytes.
  function Length(v: Value): nat
    requires !v.Scalar?
  {
    if v.Str? then |v.chars| else |v.elems|
  }

  function Contents(v: Value): seq<byte>
    requires !v.Scalar?
  {
    if v.Str? then v.chars else EncodedAll(v.elems)
  }

  /** Strings and containers start with their length as a 64-bit number, lowest byte first, and scalars with nothing. */
  lemma PrefixBytes(v: Value, i: nat)
    requires !v.Scalar? && i < 8
    ensures |Encoded(v)| == 8 + |Contents(v)| && Encoded(v)[8..] == Contents(v)
    ensures Encoded(v)[i] == Length(v) / Power256(i) % 256
  {
    hide Le, EncodedAll, Power256;
    LeByte(Length(v), 8, i);
  }

  // ---- the archive ----

  class Archive {
    var container: seq<byte>
    var offset: nat

    constructor ()
      ensures container == [] && offset == 0
    {
      container, offset := [], 0;
    }

    constructor From(bytes: seq<byte>)
      ensures container == bytes && offset == 0
    {
      container, offset := bytes, 0;
    }

    method Grow(size: nat)
      modifies this`container
      ensures container == old(container) + Nulls(size)
    {
      container := container + Nulls(size);
    }

    // The offset is a 32-bit number.
    method Advance(size: nat)
      requires offset + size <= |container|
      modifies this`offset
      ensures offset == (old(offset) + size) % OFFSET_LIMIT
    {
      offset := (offset + size) % 0x1_0000_0000;
    }

    predicate IsEoS()
      reads this
    {
      offset >= |container|
    }

    /** Write of raw bytes: in place when they end before the end of the container, else after growing it. */
    method WriteBytes(bytes: seq<byte>)
      requires offset <= |container|
      modifies this
      ensures var grown := old(container) + (if old(offset) + |bytes| >= |old(container)| then Nulls(|bytes|) else []);
              && old(offset) + |bytes| <= |grown|
              && container == grown[..old(offset)] + bytes + grown[old(offset) + |bytes|..]
      ensures offset == (old(offset) + |bytes|) % OFFSET_LIMIT
    {
      if offset + |bytes| >= |container| {
        Grow(|bytes|);
      }
      container := container[..offset] + bytes + container[offset + |bytes|..];
      Advance(|bytes|);
    }

    // At the end of the container a write appends.
    method Append(bytes: seq<byte>)
      requires offset == |container| && |container| + |bytes| < OFFSET_LIMIT
      modifies this
      ensures container == old(container) + bytes && offset == |container|
    {
      WriteBytes(bytes);
      assert container == old(container) + bytes;
    }

    /** Write of a value: its encoding is appended, and the offset stays at the end. */
    method Write(v: Value)
      requires offset == |container| && |container| + |Encoded(v)| < OFFSET_LIMIT
      modifies this
      ensures container == old(container) + Encoded(v) && offset == |container|
      decreases v
    {
      hide Le;
      match v
      case Scalar(bytes) =>
        Append(bytes);
      case Str(chars) =>
        Append(Le(|chars|, SIZE_BYTES));
        Append(chars);
      case List(elems) =>
        ghost var was := container;
        var n := |elems|;
        Append(Le(n, SIZE_BYTES));
        for i := 0 to n
          invariant offset == |container|
          invariant container == was + Le(n, SIZE_BYTES) + EncodedAll(elems[..i])
        {
          PartEncoded(elems, i);
          Write(elems[i]);
        }
        assert elems[..n] == elems;
    }

    /** Read of raw bytes; None is the failed assertion. */
    method ReadBytes(size: nat) returns (bytes: Option<seq<byte>>)
      requires offset <= |container| < OFFSET_LIMIT
      modifies this`offset
      ensures offset <= |container|
      ensures if old(offset) + size > |container| then bytes == None && offset == old(offset)
              else bytes == Some(container[old(offset)..old(offset) + size]) && offset == old(offset) + size
    {
      if offset + size > |container| {
        return None;
      }
      bytes := Some(container[offset..offset + size]);
      Advance(size);
    }

    method ReadSize() returns (n: Option<nat>)
      requires offset <= |container| < OFFSET_LIMIT
      modifies this`offset
      ensures offset <= |container|
      ensures var input := container[old(offset)..];
              if |input| < SIZE_BYTES then n == None
              else n == Some(FromLe(input[..SIZE_BYTES])) && container[offset..] == input[SIZE_BYTES..]
    {
      hide FromLe;
      ghost var input := container[offset..];
      var bytes := ReadBytes(SIZE_BYTES);
      if bytes.None? {
        return None;
      }
      assert bytes.value == input[..SIZE_BYTES];
      n := Some(FromLe(bytes.value));
    }

    /** Read of a value of the schema: exactly what the format function reads from the rest of the container. */
    method Read(s: Schema) returns (v: Option<Value>)
      requires offset <= |container| < OFFSET_LIMIT
      modifies this`offset
      ensures offset <= |container|
      ensures match Decoded(s, container[old(offset)..])
              case None => v == None
              case Some(got) => v == Some(got.value) && container[offset..] == got.rest
      decreases s
    {
      hide FromLe;
      ghost var input := container[offset..];
      match s
      case ScalarOf(size) =>
        var bytes := ReadBytes(size);
        if bytes.None? {
          return None;
        }
        assert bytes.value == input[..size];
        v := Some(Scalar(bytes.value));
      case StrOf =>
        var length := ReadSize();
        if length.None? {
          return None;
        }
        ghost var tail := container[offset..];
        var chars := ReadBytes(length.value);
        if chars.None? {
          return None;
        }
        assert chars.value == tail[..length.value];
        v := Some(Str(chars.value));
      case ListOf(elem) =>
        var count := ReadSize();
        if count.None? {
          return None;
        }
        ghost var tail := container[offset..];
        var elems: seq<Value> := [];
        for i := 0 to count.value
          invariant offset <= |container|
          invariant DecodedAll(elem, i, tail) == Some(GotAll(elems, container[offset..]))
        {
          var one := Read(elem);
          if one.None? {
            FailsThrough(elem, i + 1, count.value, tail);
            return None;
          }
          elems := elems + [one.value];
        }
        v := Some(List(elems));
    }
  }

  // The first i elements and the next one take no more room than all of them.
  lemma PartEncoded(elems: seq<Value>, i: nat)
    requires i < |elems|
    ensures EncodedAll(elems[..i + 1]) == EncodedAll(elems[..i]) + Encoded(elems[i])
    ensures |EncodedAll(elems[..i + 1])| <= |EncodedAll(elems)|
    decreases |elems| - i
  {
    assert elems[..i + 1][..i] == elems[..i];
    hide Encoded;
    if i + 1 == |elems| {
      assert elems[..i + 1] == elems;
    } else {
      PartEncoded(elems, i + 1);
    }
  }

  lemma {:induction false} FailsThrough(elem: Schema, m: nat, n: nat, input: seq<byte>)
    requires m <= n && DecodedAll(elem, m, input) == None
    ensures DecodedAll(elem, n, input) == None
    decreases n
  {
    hide Decoded;
    if m < n {
      FailsThrough(elem, m, n - 1, input);
    }
  }

  lemma {:induction false} EncodedAllConcat(a: seq<Value>, b: seq<Value>)
    ensures EncodedAll(a + b) == EncodedAll(a) + EncodedAll(b)
    decreases |b|
  {
    hide Encoded;
    if b == [] {
      assert a + b == a;
    } else {
      assert (a + b)[..|a + b| - 1] == a + b[..|b| - 1];
      EncodedAllConcat(a, b[..|b| - 1]);
    }
  }

  // The encoding from element i on starts with that of element i.
  lemma EncodedFrom(vs: seq<Value>, i: nat)
    requires i < |vs|
    ensures EncodedAll(vs[i..]) == Encoded(vs[i]) + EncodedAll(vs[i + 1..])
  {
    hide Encoded;
    EncodedAllConcat([vs[i]], vs[i + 1..]);
    assert [vs[i]] + vs[i + 1..] == vs[i..];
    assert [vs[i]][..0] == [];
    assert EncodedAll([vs[i]]) == Encoded(vs[i]);
  }

  /** Writing any values one after the other into an empty archive and reading them back with the same types gives the
      values and ends at the end of the stream. */
  method RoundTrip(vs: seq<Value>, schemas: seq<Schema>) returns (r: seq<Value>, atEnd: bool)
    requires |schemas| == |vs| && forall i :: 0 <= i < |vs| ==> Matches(vs[i], schemas[i])
    requires |EncodedAll(vs)| < OFFSET_LIMIT
    ensures r == vs && atEnd
  {
    hide Encoded, Decoded, Matches, EncodedAll;
    var out := new Archive();
    NoneEncoded();
    for i := 0 to |vs|
      invariant out.offset == |out.container| && out.container == EncodedAll(vs[..i])
    {
      PartEncoded(vs, i);
      out.Write(vs[i]);
    }
    assert vs[..|vs|] == vs && vs[0..] == vs;
    var back := new Archive.From(out.container);
    r := [];
    for i := 0 to |vs|
      invariant back.container == EncodedAll(vs) && back.offset <= |back.container|
      invariant back.container[back.offset..] == EncodedAll(vs[i..])
      invariant r == vs[..i]
    {
      EncodedFrom(vs, i);
      DecodedEncoded(vs[i], schemas[i], EncodedAll(vs[i + 1..]));
      var one := back.Read(schemas[i]);
      r := r + [one.value];
    }
    assert vs[|vs|..] == [];
    atEnd := back.IsEoS();
  }

  lemma NoneEncoded()
    ensures EncodedAll([]) == []
  {
  }
}
