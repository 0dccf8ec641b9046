/** crypt_ctr and incr_counter: the counter counts modulo 2^128, and running the mode twice restores the data. */
module AesCtr {
  import opened AesState
  import opened AesRounds
  import opened AesKey
  import opened AesCbc
  import opened CanonicalCode
  import opened LittleEndian

  // The counter read as a number, first byte highest.
  function CounterValue(c: seq<bv8>): nat {
    if c == [] then 0 else 256 * CounterValue(c[..|c| - 1]) + ValueOf(c[|c| - 1])
  }

  // Adding a carry of zero or one into the last n bytes of the counter.
  function Carried(c: seq<bv8>, carry: nat): (r: seq<bv8>)
    requires carry <= 1
    ensures |r| == |c|
  {
    if c == [] then []
    else
      var k := |c| - 1;
      Carried(c[..k], if carry == 1 && c[k] == 0xFF then 1 else 0) + [if carry == 1 then c[k] + 1 else c[k]]
  }

  function Incremented(c: Block): Block {
    Carried(c, 1)
  }

  lemma {:induction false} CarriedValue(c: seq<bv8>, carry: nat)
    requires carry <= 1
    ensures CounterValue(c) < Power256(|c|)
    ensures CounterValue(Carried(c, carry))
         == (if CounterValue(c) + carry == Power256(|c|) then 0 else CounterValue(c) + carry)
  {
    hide ValueOf;
    if c == [] {
    } else {
      var k := |c| - 1;
      var up := if carry == 1 && c[k] == 0xFF then 1 else 0;
      CarriedValue(c[..k], up);
      CarriedStep(c, carry, up);
    }
  }

  lemma CarriedStep(c: seq<bv8>, carry: nat, up: nat)
    requires c != [] && carry <= 1 && up == if carry == 1 && c[|c| - 1] == 0xFF then 1 else 0
    requires var front := c[..|c| - 1];
             CounterValue(front) < Power256(|front|)
             && CounterValue(Carried(front, up))
             == (if CounterValue(front) + up == Power256(|front|) then 0 else CounterValue(front) + up)
    ensures CounterValue(c) < Power256(|c|)
    ensures CounterValue(Carried(c, carry))
         == (if CounterValue(c) + carry == Power256(|c|) then 0 else CounterValue(c) + carry)
  {
    hide ValueOf, Carried, CounterValue, Power256;
    var k := |c| - 1;
    var b := if carry == 1 then c[k] + 1 else c[k];
    CarriedLast(c, carry, up);
    ByteStep(c[k]);
    ValueLast(c[..k], c[k]);
    ValueLast(Carried(c[..k], up), b);
    assert c[..k] + [c[k]] == c;
    PowerNext(k);
    CarriedSum(CounterValue(c[..k]), CounterValue(Carried(c[..k], up)), Power256(k), ValueOf(c[k]), ValueOf(b),
               carry, up);
  }

  lemma PowerNext(n: nat)
    ensures Power256(n + 1) == 256 * Power256(n)
  {
  }

  lemma CarriedSum(v: nat, w: nat, p: nat, b: nat, c: nat, carry: nat, up: nat)
    requires v < p && b <= 255 && carry <= 1 && w == if v + up == p then 0 else v + up
    requires up == if carry == 1 && b == 255 then 1 else 0
    requires c == if carry == 0 then b else if b == 255 then 0 else b + 1
    ensures 256 * v + b < 256 * p
    ensures 256 * w + c == if 256 * v + b + carry == 256 * p then 0 else 256 * v + b + carry
  {
  }

  lemma CarriedLast(c: seq<bv8>, carry: nat, up: nat)
    requires c != [] && carry <= 1 && up == if carry == 1 && c[|c| - 1] == 0xFF then 1 else 0
    ensures var k := |c| - 1;
            Carried(c, carry) == Carried(c[..k], up) + [if carry == 1 then c[k] + 1 else c[k]]
  {
  }

  lemma ValueLast(c: seq<bv8>, b: bv8)
    ensures CounterValue(c + [b]) == 256 * CounterValue(c) + ValueOf(b)
  {
    hide ValueOf;
    assert (c + [b])[..|c|] == c;
  }

  lemma ByteStep(b: bv8)
    ensures 0 <= ValueOf(b) <= 255
    ensures ValueOf(b + 1) == if b == 0xFF then 0 else ValueOf(b) + 1
    ensures b == 0xFF <==> ValueOf(b) == 255
  {
  }

  lemma Wraps(v: nat, limit: nat)
    requires 0 < v <= limit
    ensures v % limit == if v == limit then 0 else v
  {
  }

  /** incr_counter adds one modulo 2^128. */
  lemma IncrementedValue(c: Block)
    ensures CounterValue(Incremented(c)) == (CounterValue(c) + 1) % Power256(16)
  {
    hide CounterValue, Power256, Carried;
    CarriedValue(c, 1);
    Wraps(CounterValue(c) + 1, Power256(16));
  }

  method IncrCounter(counter: array<bv8>)
    requires counter.Length == 16
    modifies counter
    ensures counter[..] == Incremented(old(counter[..]))
  {
    ghost var was := counter[..];
    var n := 16;
    var c: nat := 1;
    assert was[..16] == was;
    while n > 0
      invariant 0 <= n <= 16 && c <= 1
      invariant counter[..n] == was[..n]
      invariant Carried(was, 1) == Carried(was[..n], c) + counter[n..]
    {
      n := n - 1;
      var b := counter[n];
      assert was[..n + 1][..n] == was[..n];
      counter[n] := if c == 1 then b + 1 else b;
      c := if c == 1 && b == 0xFF then 1 else 0;
    }
  }

  // ---- the mode ----

  function CounterAt(nonce: Block, i: nat): Block {
    if i == 0 then nonce else Incremented(CounterAt(nonce, i - 1))
  }

  function KeyByte(keys: RoundKeys, nonce: Block, k: nat): bv8 {
    Encrypted(keys, CounterAt(nonce, k / 16))[k % 16]
  }

  function Crypted(keys: RoundKeys, nonce: Block, data: seq<bv8>): (r: seq<bv8>)
    ensures |r| == |data|
  {
    seq(|data|, k requires 0 <= k < |data| => XorByte(data[k], KeyByte(keys, nonce, k)))
  }

  /** Encryption and decryption are the same operation. */
  lemma CryptedTwice(keys: RoundKeys, nonce: Block, data: seq<bv8>)
    ensures Crypted(keys, nonce, Crypted(keys, nonce, data)) == data
  {
    hide XorByte, KeyByte;
    forall k | 0 <= k < |data|
      ensures Crypted(keys, nonce, Crypted(keys, nonce, data))[k] == data[k]
    {
      XorByteTwice(data[k], KeyByte(keys, nonce, k));
    }
  }

  lemma KeyByteIs(keys: RoundKeys, nonce: Block, pos: nat, block: nat, at: nat)
    requires pos == 16 * block + at && at < 16
    ensures KeyByte(keys, nonce, pos) == Encrypted(keys, CounterAt(nonce, block))[at]
  {
    hide Encrypted, CounterAt;
    assert pos / 16 == block && pos % 16 == at;
  }

  // The data once the bytes before pos are done.
  predicate DoneTo(keys: RoundKeys, nonce: Block, was: seq<bv8>, now: seq<bv8>, pos: nat) {
    && |now| == |was|
    && (forall k :: 0 <= k < |was| && k < pos ==> now[k] == XorByte(was[k], KeyByte(keys, nonce, k)))
    && (forall k :: pos <= k < |was| ==> now[k] == was[k])
  }

  lemma DoneMore(keys: RoundKeys, nonce: Block, was: seq<bv8>, now: seq<bv8>, pos: nat, keyByte: bv8)
    requires DoneTo(keys, nonce, was, now, pos) && pos < |now| && keyByte == KeyByte(keys, nonce, pos)
    ensures DoneTo(keys, nonce, was, now[pos := XorByte(now[pos], keyByte)], pos + 1)
  {
    hide KeyByte, XorByte;
  }

  // The key stream for the next block, and the counter moved on.
  method NextBlock(keys: RoundKeys, counter: array<bv8>, blk: array<bv8>, ghost nonce: Block, ghost blocks: nat)
    requires counter.Length == 16 && blk.Length == 16 && counter != blk && counter[..] == CounterAt(nonce, blocks)
    modifies counter, blk
    ensures blk[..] == Encrypted(keys, CounterAt(nonce, blocks)) && counter[..] == CounterAt(nonce, blocks + 1)
  {
    hide Encrypted, Incremented;
    EncryptState(keys, counter[..], blk, 0);
    assert blk[..] == Encrypted(keys, CounterAt(nonce, blocks));
    IncrCounter(counter);
  }

  /** crypt_ctr; false stands for kErrorInvalidKeySize. */
  method CryptCtr(data: array<bv8>, key: seq<bv8>, nonce: Block) returns (ok: bool)
    modifies data
    ensures ok <==> KeySizeOk(|key|)
    ensures ok ==> data[..] == Crypted(Expanded(key), nonce, old(data[..]))
    ensures !ok ==> data[..] == old(data[..])
  {
    if !KeySizeOk(|key|) {
      return false;
    }
    var expanded := ExpandKey(key);
    CryptBytes(expanded.value, data, nonce);
    return true;
  }

  // One byte of data against one byte of the key stream.
  method CryptByte(data: array<bv8>, pos: nat, blk: array<bv8>, blkpos: nat)
    requires pos < data.Length && blkpos < blk.Length && data != blk
    modifies data
    ensures data[..] == old(data[..])[pos := XorByte(old(data[pos]), blk[blkpos])]
  {
    hide XorByte;
    XorByteIs(data[pos], blk[blkpos]);
    data[pos] := data[pos] ^ blk[blkpos];
  }

  // The key stream block that is in use after the given number of blocks.
  ghost predicate InUse(keys: RoundKeys, nonce: Block, blk: seq<bv8>, blocks: nat) {
    blocks > 0 ==> blk == Encrypted(keys, CounterAt(nonce, blocks - 1))
  }

  lemma InUseByte(keys: RoundKeys, nonce: Block, blk: seq<bv8>, blocks: nat, pos: nat, at: nat)
    requires InUse(keys, nonce, blk, blocks) && |blk| == 16 && blocks > 0 && pos == 16 * (blocks - 1) + at && at < 16
    ensures blk[at] == KeyByte(keys, nonce, pos)
  {
    hide Encrypted, CounterAt, KeyByte;
    KeyByteIs(keys, nonce, pos, blocks - 1, at);
  }

  lemma NothingDone(keys: RoundKeys, nonce: Block, was: seq<bv8>, blk: seq<bv8>)
    ensures DoneTo(keys, nonce, was, was, 0) && InUse(keys, nonce, blk, 0) && CounterAt(nonce, 0) == nonce
  {
  }

  lemma AllDone(keys: RoundKeys, nonce: Block, was: seq<bv8>, now: seq<bv8>)
    requires DoneTo(keys, nonce, was, now, |now|)
    ensures now == Crypted(keys, nonce, was)
  {
    hide KeyByte, XorByte;
  }

  method CryptBytes(keys: RoundKeys, data: array<bv8>, nonce: Block)
    modifies data
    ensures data[..] == Crypted(keys, nonce, old(data[..]))
  {
    hide Encrypted, Incremented, CounterAt, XorByte, KeyByte, DoneTo, InUse, Crypted;
    ghost var was := data[..];
    var pos, blkpos := 0, 16;
    var blk, counter := new bv8[16](_ => 0), new bv8[16](i requires 0 <= i < 16 => nonce[i]);
    ghost var blocks := 0;
    assert counter[..] == nonce;
    NothingDone(keys, nonce, was, blk[..]);
    while pos < data.Length
      invariant 0 <= pos <= data.Length && 0 <= blkpos <= 16 && pos == 16 * blocks - 16 + blkpos
      invariant counter[..] == CounterAt(nonce, blocks)
      invariant InUse(keys, nonce, blk[..], blocks)
      invariant DoneTo(keys, nonce, was, data[..], pos)
    {
      if blkpos == 16 {
        NextBlock(keys, counter, blk, nonce, blocks);
        blkpos := 0;
        blocks := blocks + 1;
        NowInUse(keys, nonce, blk[..], blocks);
      }
      InUseByte(keys, nonce, blk[..], blocks, pos, blkpos);
      DoneMore(keys, nonce, was, data[..], pos, blk[blkpos]);
      CryptByte(data, pos, blk, blkpos);
      pos, blkpos := pos + 1, blkpos + 1;
    }
    AllDone(keys, nonce, was, data[..]);
  }

  lemma NowInUse(keys: RoundKeys, nonce: Block, blk: seq<bv8>, blocks: nat)
    requires blocks > 0 && blk == Encrypted(keys, CounterAt(nonce, blocks - 1))
    ensures InUse(keys, nonce, blk, blocks)
  {
  }
}
