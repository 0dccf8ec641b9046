/** stbi_zlib_compress as a whole, and the round trip with the reader. */
module ZlibCompress {
  import opened Bits
  import opened CanonicalCode
  import opened Inflate
  import opened Deflate
  import opened ZBufReader
  import opened ZlibStream
  import opened StoredRoundTrip
  import opened ZlibWriter

  // ---- the match finder ----

  // How far the data at a and at b agree, up to the limit and to 258 bytes.
  function CommonFrom(data: seq<byte>, a: nat, b: nat, limit: nat, n: nat): (r: nat)
    requires a < b && b + limit <= |data|
    ensures n <= limit ==> n <= r <= limit
    decreases limit - n
  {
    if n < limit && n < 258 && data[a + n] == data[b + n] then CommonFrom(data, a, b, limit, n + 1) else n
  }

  function Common(data: seq<byte>, a: nat, b: nat): nat
    requires a < b <= |data|
  {
    CommonFrom(data, a, b, |data| - b, 0)
  }

  // stbiw__zlib_countm
  method CountM(data: seq<byte>, a: nat, b: nat, limit: nat) returns (n: nat)
    requires a < b && b + limit <= |data|
    ensures n <= limit && n <= 258
    ensures data[a..a + n] == data[b..b + n]
    ensures n == CommonFrom(data, a, b, limit, 0)
  {
    n := 0;
    while n < limit && n < 258
      invariant n <= limit && n <= 258
      invariant data[a..a + n] == data[b..b + n]
      invariant CommonFrom(data, a, b, limit, 0) == CommonFrom(data, a, b, limit, n)
    {
      if data[a + n] != data[b + n] {
        return;
      }
      assert data[a..a + n + 1] == data[a..a + n] + [data[a + n]];
      assert data[b..b + n + 1] == data[b..b + n] + [data[b + n]];
      n := n + 1;
    }
  }

  function Mix(data0: bv32, data1: bv32, data2: bv32): bv32 {
    var h0 := data0 + (data1 << 8) + (data2 << 16);
    var h1 := h0 ^ (h0 << 3);
    var h2 := h1 + (h1 >> 5);
    var h3 := h2 ^ (h2 << 4);
    var h4 := h3 + (h3 >> 17);
    var h5 := h4 ^ (h4 << 25);
    h5 + (h5 >> 6)
  }

  function Bucket(h: bv32): (r: nat)
    ensures r < ZHASH
  {
    (h & 0x3FFF) as nat
  }

  // stbiw__zhash(data+i) & (stbiw__ZHASH-1)
  function Zhash(data: seq<byte>, i: nat): (h: nat)
    requires i + 3 <= |data|
    ensures h < ZHASH
  {
    Bucket(Mix(data[i] as bv32, data[i + 1] as bv32, data[i + 2] as bv32))
  }

  // A usable match for position i: inside the window, and equal byte for byte.
  ghost predicate IsMatch(data: seq<byte>, i: nat, loc: int, len: nat) {
    && 0 <= loc < i && i - loc <= 32767 && 3 <= len <= 258 && i + len <= |data|
    && data[loc..loc + len] == data[i..i + len]
  }

  ghost predicate Earlier(list: seq<nat>, i: nat) {
    forall k :: 0 <= k < |list| ==> list[k] < i
  }

  datatype Found = Found(len: nat, loc: int)

  // The longest match among the first n chained positions; a later one wins a tie, and 3 at -1 stands for none.
  ghost function Best(data: seq<byte>, i: nat, list: seq<nat>, n: nat): (f: Found)
    requires i < |data| && n <= |list| && Earlier(list, i)
    ensures 3 <= f.len && (f.loc != -1 ==> 0 <= f.loc < i && i + f.len <= |data|)
  {
    if n == 0 then Found(3, -1)
    else
      var before := Best(data, i, list, n - 1);
      if list[n - 1] > i - 32768 && Common(data, list[n - 1], i) >= before.len
      then Found(Common(data, list[n - 1], i), list[n - 1])
      else before
  }

  // The longest match among the chained positions; a later one wins a tie.
  method FindBest(data: seq<byte>, i: nat, hlist: seq<nat>) returns (best: nat, bestloc: int)
    requires i < |data| && Earlier(hlist, i)
    ensures bestloc == -1 || IsMatch(data, i, bestloc, best)
    ensures best >= 3 && (bestloc != -1 ==> best == Common(data, bestloc, i))
    ensures forall k :: 0 <= k < |hlist| && hlist[k] > i - 32768 ==>
      Common(data, hlist[k], i) <= best && (bestloc == -1 ==> Common(data, hlist[k], i) < best)
    ensures bestloc == -1 ==> best == 3
    ensures bestloc != -1 ==> exists k :: 0 <= k < |hlist| && hlist[k] > i - 32768 && hlist[k] == bestloc
    ensures Found(best, bestloc) == Best(data, i, hlist, |hlist|)
  {
    hide CommonFrom;
    best, bestloc := 3, -1;
    var j := 0;
    while j < |hlist|
      invariant 0 <= j <= |hlist| && best >= 3
      invariant bestloc == -1 || (IsMatch(data, i, bestloc, best) && best == Common(data, bestloc, i))
      invariant forall k :: 0 <= k < j && hlist[k] > i - 32768 ==>
        Common(data, hlist[k], i) <= best && (bestloc == -1 ==> Common(data, hlist[k], i) < best)
      invariant bestloc == -1 ==> best == 3
      invariant bestloc != -1 ==> exists k :: 0 <= k < j && hlist[k] > i - 32768 && hlist[k] == bestloc
      invariant Found(best, bestloc) == Best(data, i, hlist, j)
    {
      if hlist[j] > i - 32768 {
        var d := CountM(data, hlist[j], i, |data| - i);
        if d >= best {
          best, bestloc := d, hlist[j];
        }
      }
      j := j + 1;
    }
  }

  // Lazy matching: is some match at the next byte longer?
  method BetterNext(data: seq<byte>, i: nat, hlist: seq<nat>, best: nat) returns (better: bool)
    requires i + 1 < |data| && Earlier(hlist, i + 1)
    ensures better <==>
      exists k :: 0 <= k < |hlist| && hlist[k] > i - 32767 && Common(data, hlist[k], i + 1) > best
  {
    hide CommonFrom;
    better := false;
    var j := 0;
    while j < |hlist|
      invariant 0 <= j <= |hlist|
      invariant forall k :: 0 <= k < j && hlist[k] > i - 32767 ==> Common(data, hlist[k], i + 1) <= best
    {
      if hlist[j] > i - 32767 {
        var e := CountM(data, hlist[j], i + 1, |data| - i - 1);
        if e > best {
          return true;
        }
      }
      j := j + 1;
    }
  }

  ghost predicate Chains(table: array<seq<nat>>, i: nat)
    reads table
  {
    table.Length == ZHASH && forall h :: 0 <= h < ZHASH ==> Earlier(table[h], i)
  }

  // A chain with position i entered, and halved before when it has become too long.
  function Pushed(list: seq<nat>, i: nat, quality: nat): seq<nat> {
    (if |list| == 2 * quality then list[quality..] else list) + [i]
  }

  method PushChain(table: array<seq<nat>>, h: nat, i: nat, quality: nat)
    requires Chains(table, i) && h < ZHASH
    modifies table
    ensures Chains(table, i + 1)
    ensures table[..] == old(table[..])[h := Pushed(old(table[h]), i, quality)]
  {
    if |table[h]| == 2 * quality {
      table[h] := table[h][quality..];
    }
    table[h] := table[h] + [i];
  }

  // What is sent at position i: the best match of its chain, unless the next byte's chain has a longer one.
  ghost function Choice(data: seq<byte>, i: nat, list: seq<nat>, next: seq<nat>): (f: Found)
    requires i + 1 < |data| && Earlier(list, i) && Earlier(next, i + 1)
    ensures 3 <= f.len && (f.loc != -1 ==> 0 <= f.loc < i && i + f.len <= |data|)
  {
    var f := Best(data, i, list, |list|);
    if f.loc != -1 && (exists k :: 0 <= k < |next| && next[k] > i - 32767 && Common(data, next[k], i + 1) > f.len)
    then Found(f.len, -1) else f
  }

  // The best length among the positions of a chain that lie in the window, three when none is longer.
  ghost predicate IsBest(data: seq<byte>, i: nat, list: seq<nat>, best: nat)
    requires i < |data| && Earlier(list, i)
  {
    && best >= 3
    && (forall k :: 0 <= k < |list| && list[k] > i - 32768 ==> Common(data, list[k], i) <= best)
    && (best > 3 ==> exists k :: 0 <= k < |list| && list[k] > i - 32768 && Common(data, list[k], i) == best)
  }

  ghost predicate Reaches(data: seq<byte>, i: nat, list: seq<nat>, best: nat)
    requires i < |data| && Earlier(list, i)
  {
    exists k :: 0 <= k < |list| && list[k] > i - 32768 && Common(data, list[k], i) >= best
  }

  /** What the writer sends at position i: a longest match of its chain, unless the chain of the next byte has a
      longer one or there is none of length three. */
  method ChooseMatch(data: seq<byte>, i: nat, table: array<seq<nat>>, quality: nat) returns (best: nat, bestloc: int)
    requires i + 3 < |data| && Chains(table, i)
    modifies table
    ensures Chains(table, i + 1)
    ensures table[..] == old(table[..])[Zhash(data, i) := Pushed(old(table[..])[Zhash(data, i)], i, quality)]
    ensures IsBest(data, i, old(table[..])[Zhash(data, i)], best)
    ensures bestloc == -1 || IsMatch(data, i, bestloc, best)
    ensures bestloc != -1 <==>
      && Reaches(data, i, old(table[..])[Zhash(data, i)], best)
      && !Reaches(data, i + 1, table[Zhash(data, i + 1)], best + 1)
    ensures Found(best, bestloc) == Choice(data, i, old(table[..])[Zhash(data, i)], table[Zhash(data, i + 1)])
  {
    hide CommonFrom, Zhash;
    var h := Zhash(data, i);
    ghost var list := table[h];
    best, bestloc := FindBest(data, i, table[h]);
    PushChain(table, h, i, quality);
    if bestloc != -1 {
      h := Zhash(data, i + 1);
      var better := BetterNext(data, i, table[h], best);
      if better {
        bestloc := -1;
      }
    }
  }

  // Copying a match back reproduces the data it matched, even where source and target overlap.
  lemma {:induction false} CopyMatch(data: seq<byte>, i: nat, dist: nat, len: nat)
    requires 1 <= dist <= i && i + len <= |data|
    requires data[i - dist..i - dist + len] == data[i..i + len]
    ensures CopyBack(data[..i], dist, len) == data[..i + len]
    decreases len
  {
    if len != 0 {
      var a, b := data[i - dist..i - dist + len], data[i..i + len];
      assert a[0] == data[i - dist] && b[0] == data[i];
      assert data[..i] + [data[..i][i - dist]] == data[..i + 1];
      assert a[1..] == data[i + 1 - dist..i + 1 - dist + (len - 1)];
      assert b[1..] == data[i + 1..i + 1 + (len - 1)];
      CopyMatch(data, i + 1, dist, len - 1);
    }
  }

  // ---- the compressed stream ----

  ghost predicate Sent(w: BitWriter, start: seq<bool>, ts: seq<Token>, data: seq<byte>, i: nat)
    reads w
  {
    && w.Valid() && i <= |data|
    && (forall t :: t in ts ==> ValidToken(t))
    && w.Written() == start + TokensBits(ts)
    && Expand(ts) == Some(data[..i])
  }

  // One more token at the end.
  lemma TokensMore(ts: seq<Token>, t: Token, out: seq<byte>, more: seq<byte>)
    requires (forall u :: u in ts ==> ValidToken(u)) && ValidToken(t)
    requires Expand(ts) == Some(out) && Apply(t, out) == Some(more)
    ensures (forall u :: u in ts + [t] ==> ValidToken(u)) && Expand(ts + [t]) == Some(more)
    ensures TokensBits(ts + [t]) == TokensBits(ts) + TokenBits(t)
  {
    hide Apply, TokenBits;
    assert (ts + [t])[..|ts + [t]| - 1] == ts;
  }

  method SendLiteral(w: BitWriter, b: byte, ghost start: seq<bool>, ghost ts: seq<Token>,
                     ghost data: seq<byte>, ghost i: nat)
    returns (ghost ts': seq<Token>)
    requires Sent(w, start, ts, data, i) && i < |data| && b == data[i]
    modifies w
    ensures Sent(w, start, ts', data, i + 1) && ts' == ts + [Literal(b)]
  {
    hide NatBits, BytesBits, SymbolBits, TokensBits, Expand;
    ts' := ts + [Literal(b)];
    assert data[..i + 1] == data[..i] + [b];
    TokensMore(ts, Literal(b), data[..i], data[..i + 1]);
    Joined(start, TokensBits(ts), SymbolBits(b));
    w.Huff(b);
  }

  method SendMatch(w: BitWriter, best: nat, loc: nat, i: nat, ghost start: seq<bool>, ghost ts: seq<Token>,
                   ghost data: seq<byte>)
    returns (ghost ts': seq<Token>)
    requires Sent(w, start, ts, data, i) && IsMatch(data, i, loc, best)
    modifies w
    ensures Sent(w, start, ts', data, i + best) && ts' == ts + [Match(best, i - loc)]
  {
    hide NatBits, BytesBits, MatchBits, CopyBack, TokensBits, Expand;
    ts' := ts + [Match(best, i - loc)];
    CopyMatch(data, i, i - loc, best);
    TokensMore(ts, Match(best, i - loc), data[..i], data[..i + best]);
    Joined(start, TokensBits(ts), MatchBits(best, i - loc));
    w.AddMatch(best, i - loc);
  }

  // The tokens of the data from position i on, given the chains so far: greedy with one byte of look-ahead, and the
  // last three bytes as literals.
  ghost function Tokens(data: seq<byte>, i: nat, chains: seq<seq<nat>>, quality: nat): seq<Token>
    requires i <= |data| && AllEarlier(chains, i)
    decreases |data| - i
  {
    if i == |data| then []
    else if i + 3 >= |data| then
      AllLater(chains, i, i + 1);
      [Literal(data[i])] + Tokens(data, i + 1, chains, quality)
    else
      var after := Entered(data, i, chains, quality);
      var f := Choice(data, i, chains[Zhash(data, i)], after[Zhash(data, i + 1)]);
      if f.loc != -1 then
        AllLater(after, i + 1, i + f.len);
        [Match(f.len, i - f.loc)] + Tokens(data, i + f.len, after, quality)
      else [Literal(data[i])] + Tokens(data, i + 1, after, quality)
  }

  ghost predicate AllEarlier(chains: seq<seq<nat>>, i: nat) {
    |chains| == ZHASH && forall h :: 0 <= h < ZHASH ==> Earlier(chains[h], i)
  }

  lemma AllLater(chains: seq<seq<nat>>, i: nat, j: nat)
    requires AllEarlier(chains, i) && i <= j
    ensures AllEarlier(chains, j)
  {
  }

  // The chains with position i entered in its own.
  ghost function Entered(data: seq<byte>, i: nat, chains: seq<seq<nat>>, quality: nat): (c: seq<seq<nat>>)
    requires i + 3 <= |data| && AllEarlier(chains, i)
    ensures AllEarlier(c, i + 1)
  {
    chains[Zhash(data, i) := Pushed(chains[Zhash(data, i)], i, quality)]
  }

  function NoChains(): (c: seq<seq<nat>>)
    ensures |c| == ZHASH && forall h :: 0 <= h < ZHASH ==> c[h] == []
  {
    seq(ZHASH, _ => [])
  }

  method SendData(w: BitWriter, data: seq<byte>, quality: nat, ghost start: seq<bool>) returns (ghost ts: seq<Token>)
    requires w.Valid() && w.Written() == start
    modifies w
    ensures Sent(w, start, ts, data, |data|)
    ensures ts == Tokens(data, 0, NoChains(), quality)
  {
    hide NatBits, BytesBits, IsMatch, Sent, Tokens;
    ts := [];
    NothingSent(w, start, data);
    var table := new seq<nat>[ZHASH](_ => []);
    var i := 0;
    ghost var all := Tokens(data, 0, NoChains(), quality);
    assert table[..] == NoChains();
    while i < |data| - 3
      invariant Sent(w, start, ts, data, i) && Chains(table, i) && i <= |data|
      invariant AllEarlier(table[..], i) && ts + Tokens(data, i, table[..], quality) == all
      decreases |data| - i
    {
      var n;
      n, ts := SendNext(w, data, i, table, quality, start, ts);
      i := i + n;
    }
    ghost var chains := table[..];
    while i < |data|
      invariant Sent(w, start, ts, data, i) && i <= |data| && |data| <= i + 3
      invariant AllEarlier(chains, i) && ts + Tokens(data, i, chains, quality) == all
      decreases |data| - i
    {
      TailNext(data, i, chains, quality, ts);
      ts := SendLiteral(w, data[i], start, ts, data, i);
      i := i + 1;
    }
    NoneLeft(data, chains, quality, ts);
  }

  lemma NoneLeft(data: seq<byte>, chains: seq<seq<nat>>, quality: nat, ts: seq<Token>)
    requires AllEarlier(chains, |data|)
    ensures ts + Tokens(data, |data|, chains, quality) == ts
  {
  }

  lemma TailNext(data: seq<byte>, i: nat, chains: seq<seq<nat>>, quality: nat, ts: seq<Token>)
    requires i < |data| <= i + 3 && AllEarlier(chains, i)
    ensures AllEarlier(chains, i + 1)
    ensures ts + Tokens(data, i, chains, quality) == ts + [Literal(data[i])] + Tokens(data, i + 1, chains, quality)
  {
    AllLater(chains, i, i + 1);
  }

  // The first token from position i on, given what was chosen there.
  lemma FirstToken(data: seq<byte>, i: nat, chains: seq<seq<nat>>, quality: nat, f: Found, ts: seq<Token>)
    requires i + 3 < |data| && AllEarlier(chains, i)
    requires f == Choice(data, i, chains[Zhash(data, i)], Entered(data, i, chains, quality)[Zhash(data, i + 1)])
    ensures var after := Entered(data, i, chains, quality);
            && (f.loc == -1 ==> ts + Tokens(data, i, chains, quality)
                                == ts + [Literal(data[i])] + Tokens(data, i + 1, after, quality))
            && (f.loc != -1 ==> AllEarlier(after, i + f.len)
                                && ts + Tokens(data, i, chains, quality)
                                   == ts + [Match(f.len, i - f.loc)] + Tokens(data, i + f.len, after, quality))
  {
    hide Choice, Zhash, Pushed;
    var after := Entered(data, i, chains, quality);
    if f.loc != -1 {
      AllLater(after, i + 1, i + f.len);
    }
  }

  lemma NothingSent(w: BitWriter, start: seq<bool>, data: seq<byte>)
    requires w.Valid() && w.Written() == start
    ensures Sent(w, start, [], data, 0)
  {
    assert start + TokensBits([]) == start && data[..0] == [];
  }

  // One turn of the main loop.
  method SendNext(w: BitWriter, data: seq<byte>, i: nat, table: array<seq<nat>>, quality: nat,
                  ghost start: seq<bool>, ghost ts: seq<Token>)
    returns (n: nat, ghost ts': seq<Token>)
    requires i + 3 < |data| && Sent(w, start, ts, data, i) && Chains(table, i)
    modifies w, table
    ensures n >= 1 && i + n <= |data| && Sent(w, start, ts', data, i + n) && Chains(table, i + n)
    ensures AllEarlier(old(table[..]), i) && AllEarlier(table[..], i + n)
    ensures ts + Tokens(data, i, old(table[..]), quality) == ts' + Tokens(data, i + n, table[..], quality)
  {
    hide NatBits, BytesBits, IsMatch, Sent, Choice, Zhash, Pushed, Tokens, Reaches, IsBest;
    ghost var chains := table[..];
    var best, bestloc := ChooseMatch(data, i, table, quality);
    assert table[..] == Entered(data, i, chains, quality);
    FirstToken(data, i, chains, quality, Found(best, bestloc), ts);
    if bestloc != -1 {
      MatchAdvances(data, i, bestloc, best);
      ts' := SendMatch(w, best, bestloc, i, start, ts, data);
      n := best;
    } else {
      ts' := SendLiteral(w, data[i], start, ts, data, i);
      n := 1;
    }
    ChainsLater(table, i + 1, i + n);
  }

  lemma ChainsLater(table: array<seq<nat>>, i: nat, j: nat)
    requires Chains(table, i) && i <= j
    ensures Chains(table, j)
  {
  }

  lemma MatchAdvances(data: seq<byte>, i: nat, loc: int, len: nat)
    requires IsMatch(data, i, loc, len)
    ensures loc >= 0 && len >= 3 && i + len <= |data|
  {
  }

  // ---- the whole call ----

  const ZLIB_HEADER: seq<byte> := [0x78, 0x5E]

  lemma {:induction false} BytesInjective(s: seq<byte>, t: seq<byte>)
    requires BytesBits(s) == BytesBits(t)
    ensures s == t
  {
    BitsBytesOfBytesBits(s);
    BitsBytesOfBytesBits(t);
  }

  lemma BytesPrefix(s: seq<byte>, h: seq<byte>, x: seq<bool>)
    requires BytesBits(s) == BytesBits(h) + x
    ensures h <= s && BytesBits(s[|h|..]) == x
  {
    hide BytesBits;
    BytesBitsSplit(s, |h|);
    assert BytesBits(s)[..8 * |h|] == BytesBits(h);
    BytesInjective(s[..|h|], h);
  }

  lemma Placed(h: seq<bool>, one: seq<bool>, kind: seq<bool>, ts: seq<bool>, end: seq<bool>, pad: seq<bool>)
    ensures ((((h + one) + kind) + ts) + end) + pad == h + ((((one + kind) + ts) + end) + pad)
  {
  }

  // Before the check value: either one fixed block, padded to a byte, or stored blocks.
  method CompressBody(data: seq<byte>, qualityIn: int) returns (out: seq<byte>, ghost ts: seq<Token>, ghost pad: nat)
    ensures forall t :: t in ts ==> ValidToken(t)
    ensures Expand(ts) == Some(data)
    ensures ts == Tokens(data, 0, NoChains(), if qualityIn < 5 then 5 else qualityIn)
    ensures ZLIB_HEADER <= out && |out| >= 4 && BytesBits(out[2..]) == FixedBlock(ts) + Zeros(pad) && pad < 8
  {
    hide NatBits, BytesBits, SymbolBits, TokensBits, Expand, Zeros;
    var quality := if qualityIn < 5 then 5 else qualityIn;
    var w := new BitWriter();
    w.out := w.out + [0x78];
    w.out := w.out + [0x5E];
    assert w.out == ZLIB_HEADER;
    HeaderWritten(w);
    w.Add(1, 1);
    w.Add(1, 2);
    ghost var start := w.Written();
    ts := SendData(w, data, quality, start);
    assert data[..|data|] == data;
    w.Huff(256);
    ghost var sent := w.Written();
    w.PadToByte();
    pad :| pad < 8 && w.Written() == sent + Zeros(pad);
    Placed(BytesBits(ZLIB_HEADER), NatBits(1, 1), NatBits(1, 2), TokensBits(ts), SymbolBits(256), Zeros(pad));
    out := w.out;
    WrittenOut(w);
    BytesPrefix(out, ZLIB_HEADER, FixedBlock(ts) + Zeros(pad));
    EndLength();
  }

  lemma EndLength()
    ensures |SymbolBits(256)| == 7
  {
  }

  lemma HeaderWritten(w: BitWriter)
    requires w.out == ZLIB_HEADER && w.bitcount == 0 && w.bitbuf == 0
    ensures w.Valid() && w.Written() == BytesBits(ZLIB_HEADER)
    ensures 1 < Pow2(1) && 1 < Pow2(2)
  {
    Pow2Values();
  }

  lemma WrittenOut(w: BitWriter)
    requires w.bitcount == 0
    ensures w.Written() == BytesBits(w.out)
  {
  }

  // The fallback copies the data in blocks of at most 32767 bytes; it writes no more than was
  // allocated for the output that it replaces.
  method StoreInstead(data: seq<byte>, outIn: seq<byte>) returns (out: seq<byte>)
    requires ZLIB_HEADER <= outIn && |outIn| > |data| + 2 + ((|data| + 32766) / 32767) * 5
    ensures out == ZLIB_HEADER + StoredChunks(data) && |out| < |outIn|
  {
    hide StoredChunk;
    out := outIn[..2];
    var j := 0;
    assert data[0..] == data;
    while j < |data|
      invariant 0 <= j <= |data|
      invariant out + StoredChunks(data[j..]) == ZLIB_HEADER + StoredChunks(data)
    {
      var blocklen := |data| - j;
      if blocklen > 32767 {
        blocklen := 32767;
      }
      ghost var before := out;
      out := StoreBlock(out, data[j..j + blocklen], |data| - j == blocklen);
      NextChunk(data[j..], blocklen);
      assert data[j..][..blocklen] == data[j..j + blocklen] && data[j..][blocklen..] == data[j + blocklen..];
      assert before + (StoredChunk(data[j..j + blocklen], |data| - j == blocklen) + StoredChunks(data[j + blocklen..]))
          == out + StoredChunks(data[j + blocklen..]);
      j := j + blocklen;
    }
    assert data[j..] == [];
  }

  lemma NextChunk(data: seq<byte>, n: nat)
    requires data != [] && n == if |data| > 32767 then 32767 else |data|
    ensures StoredChunks(data) == StoredChunk(data[..n], |data| == n) + StoredChunks(data[n..])
  {
    if |data| <= 32767 {
      assert data[..n] == data && data[n..] == [];
      assert StoredChunk(data, true) + [] == StoredChunk(data, true);
    }
  }

  // One stored block: its five header bytes, then the bytes.
  method StoreBlock(outIn: seq<byte>, chunk: seq<byte>, final: bool) returns (out: seq<byte>)
    requires |chunk| <= 32767
    ensures out == outIn + StoredChunk(chunk, final)
  {
    var blocklen := |chunk|;
    out := outIn + [if final then 1 else 0];
    out := out + [blocklen % 256];
    out := out + [blocklen / 256];
    out := out + [255 - blocklen % 256]; // UCHAR(~blocklen)
    out := out + [255 - blocklen / 256];
    out := out + chunk;
  }

  // The size of header and stored chunks.
  function StoredSize(n: nat): nat {
    n + 2 + ((n + 32766) / 32767) * 5
  }

  // The output for these tokens: header, the fixed block filled up to a byte, and the check value; but stored chunks
  // instead of the block when that is longer than they are.
  ghost predicate OutputFor(data: seq<byte>, ts: seq<Token>, check: seq<byte>, out: seq<byte>) {
    && (forall t :: t in ts ==> ValidToken(t))
    && exists body, pad ::
         && FixedBody(ts, body, pad)
         && out == (if |body| > StoredSize(|data|) then Stored(data) else body) + check
  }

  function Stored(data: seq<byte>): seq<byte> {
    ZLIB_HEADER + StoredChunks(data)
  }

  // Header and fixed block, with fewer than eight zero bits behind.
  ghost predicate FixedBody(ts: seq<Token>, body: seq<byte>, pad: nat)
    requires forall t :: t in ts ==> ValidToken(t)
  {
    ZLIB_HEADER <= body && pad < 8 && BytesBits(body[2..]) == FixedBlock(ts) + Zeros(pad)
  }

  method Compress(data: seq<byte>, quality: int, check: seq<byte>) returns (out: seq<byte>)
    requires |check| == 4
    ensures OutputFor(data, Tokens(data, 0, NoChains(), if quality < 5 then 5 else quality), check, out)
    ensures ZLIB_HEADER <= out
    ensures |out| <= |data| + 6 + ((|data| + 32766) / 32767) * 5
    ensures data != [] ==> exists rest :: |rest| >= 32 && Decoded(out, true) == Some(Progress(data, rest))
    ensures data == [] ==> out == ZLIB_HEADER + check
  {
    hide NatBits, BytesBits, TokensBits, Expand, InflateBlocks, FixedBlock, StoredChunks;
    var body;
    ghost var ts, pad;
    body, ts, pad := CompressBody(data, quality);
    hide Tokens;
    ghost var fixed := body;
    if |body| > |data| + 2 + ((|data| + 32766) / 32767) * 5 {
      body := StoreInstead(data, body);
      out := body + check;
      assert out[2..] == StoredChunks(data) + check;
      HeaderAccepted(out);
      if data != [] {
        ChunksRead(data, check, []);
        assert [] + data == data;
        DecodedIs(out, data, BytesBits(check));
      } else {
        NoChunks();
      }
    } else {
      out := body + check;
      assert out[2..] == body[2..] + check;
      HeaderAccepted(out);
      BytesBitsConcat(body[2..], check);
      assert (FixedBlock(ts) + Zeros(pad)) + BytesBits(check) == FixedBlock(ts) + (Zeros(pad) + BytesBits(check));
      FixedBlockRead(ts, Zeros(pad) + BytesBits(check));
      DecodedIs(out, data, Zeros(pad) + BytesBits(check));
    }
    assert FixedBody(ts, fixed, pad);
  }

  lemma DecodedIs(out: seq<byte>, data: seq<byte>, rest: seq<bool>)
    requires ZlibHeader(out) && |rest| >= 32
    requires InflateBlocks(BytesBits(out[2..]), []) == Some(Progress(data, rest))
    ensures Decoded(out, true) == Some(Progress(data, rest))
  {
  }

  lemma NoChunks()
    ensures StoredChunks([]) == []
  {
  }

  lemma HeaderAccepted(out: seq<byte>)
    requires ZLIB_HEADER <= out && |out| > 2
    ensures ZlibHeader(out)
  {
    assert out[0] == 0x78 && out[1] == 0x5E;
  }

  // ---- the round trip ----

  // The output for no data holds only the header and the check value of no data.
  lemma EmptyRefused(pad: nat)
    ensures InflateBlocks(BytesBits([0, 0, 0, 1]) + ZeroBytes(pad), []) == None
  {
    hide BytesBits, StoredBlock, ByteBits, ZeroBytes;
    var x := BytesBits([0, 0, 1]) + ZeroBytes(pad);
    BytesBitsCons(0, [0, 0, 1]);
    assert [0] + [0, 0, 1] == [0, 0, 0, 1];
    var bits := BytesBits([0, 0, 0, 1]) + ZeroBytes(pad);
    assert bits == ByteBits(0) + x;
    FirstByte(false, x);
    assert |bits[3..]| % 8 == 5;
    StoredAligned(bits[3..], []);
    BadStored(pad);
  }

  // Length 0 with complement 1 is no stored block, whatever follows.
  lemma BadLengths(z: seq<bool>)
    requires |z| % 8 == 0
    ensures StoredBlock(BytesBits([0, 0, 1, 0]) + z, []) == None
  {
    hide BytesBits, BitsNat, BitsBytes;
    var h: seq<byte> := [0, 0, 1, 0];
    var b := BytesBits(h) + z;
    assert |b| % 8 == 0;
    assert b[0..] == b;
    HeaderBits(h);
    assert b[..16] == BytesBits(h)[..16] && b[16..32] == BytesBits(h)[16..32];
  }

  lemma BadStored(pad: nat)
    ensures StoredBlock(BytesBits([0, 0, 1]) + ZeroBytes(pad), []) == None
  {
    hide BytesBits, BitsNat, ByteBits, StoredBlock, ZeroBytes;
    var b := BytesBits([0, 0, 1]) + ZeroBytes(pad);
    if pad > 0 {
      ZeroByte();
      ZerosAdd(BytesBits([0, 0, 1]), 1, pad - 1);
      BytesBitsConcat([0, 0, 1], [0]);
      OneByte(0);
      assert [0, 0, 1] + [0] == [0, 0, 1, 0];
      BadLengths(ZeroBytes(pad - 1));
    } else {
      TooShort(b);
    }
  }

  lemma TooShort(b: seq<bool>)
    requires |b| < 32
    ensures StoredBlock(b, []) == None
  {
  }

  // Compressing and decoding returns the data, for every quality, if and only if there is any data.
  method RoundTrip(data: seq<byte>, quality: int, check: seq<byte>, initialSize: nat) returns (r: Option<seq<byte>>)
    requires |data| <= 0x7FFF_FFFF && 1 <= initialSize <= 0xFFFF_FFFF
    requires |check| == 4 && (data == [] ==> check == [0, 0, 0, 1])
    ensures r == Some(data) <==> data != []
    ensures data == [] ==> r == None
  {
    hide InflateBlocks, BytesBits, ZeroBytes;
    var out := Compress(data, quality, check);
    ghost var pad;
    r, pad := ZlibDecode(out, initialSize, true, true);
    if data == [] {
      EmptyRefused(pad);
      assert out[2..] == check;
    }
  }
}
