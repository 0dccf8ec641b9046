/** Cipher block chaining with the padding of section 6.3 of RFC 5652: encrypt_cbc, decrypt_cbc, check_padding. */
module AesCbc {
  import opened AesState
  import opened AesRounds
  import opened AesKey
  import opened CanonicalCode

  datatype Error = Ok | InvalidDataSize | InvalidKeySize | InvalidBufferSize | InvalidKey

  // ---- chaining ----

  function XorByte(a: bv8, b: bv8): bv8 {
    a ^ b
  }

  function XorBlock(a: Block, b: Block): Block {
    seq(16, i requires 0 <= i < 16 => XorByte(a[i], b[i]))
  }

  lemma XorByteIs(a: bv8, b: bv8)
    ensures XorByte(a, b) == a ^ b
  {
  }

  lemma XorByteTwice(a: bv8, b: bv8)
    ensures XorByte(XorByte(a, b), b) == a
  {
  }

  lemma XorBlockTwice(a: Block, b: Block)
    ensures XorBlock(XorBlock(a, b), b) == a
  {
    hide XorByte;
    forall i | 0 <= i < 16
      ensures XorBlock(XorBlock(a, b), b)[i] == a[i]
    {
      XorByteTwice(a[i], b[i]);
    }
  }

  // A null initialisation vector leaves the first block as it is.
  function Masked(a: Block, iv: Option<Block>): Block {
    match iv
    case None => a
    case Some(v) => XorBlock(a, v)
  }

  lemma MaskedTwice(a: Block, iv: Option<Block>)
    ensures Masked(Masked(a, iv), iv) == a
  {
    hide XorBlock;
    match iv
    case None =>
    case Some(v) => XorBlockTwice(a, v);
  }

  type Blocks = seq<Block>

  function Chain(keys: RoundKeys, prev: Option<Block>, p: Blocks): (c: Blocks)
    ensures |c| == |p|
    decreases |p|
  {
    if p == [] then []
    else
      var c := Encrypted(keys, Masked(p[0], prev));
      [c] + Chain(keys, Some(c), p[1..])
  }

  function Unchain(keys: RoundKeys, prev: Option<Block>, c: Blocks): (p: Blocks)
    ensures |p| == |c|
    decreases |c|
  {
    if c == [] then [] else [Masked(Decrypted(keys, c[0]), prev)] + Unchain(keys, Some(c[0]), c[1..])
  }

  /** Decryption undoes encryption, block for block, whatever the keys and the vector are. */
  lemma {:induction false} UnchainChain(keys: RoundKeys, prev: Option<Block>, p: Blocks)
    ensures Unchain(keys, prev, Chain(keys, prev, p)) == p
    decreases |p|
  {
    hide Encrypted, Decrypted, Masked;
    if p == [] {
    } else {
      var masked := Masked(p[0], prev);
      var c := Encrypted(keys, masked);
      BlockInverse(keys, masked);
      MaskedTwice(p[0], prev);
      UnchainChain(keys, Some(c), p[1..]);
      assert Chain(keys, prev, p)[1..] == Chain(keys, Some(c), p[1..]);
    }
  }

  // The block before block i: the vector for the first, else ciphertext block i - 1.
  function Before(prev: Option<Block>, c: Blocks, i: nat): Option<Block>
    requires i <= |c|
  {
    if i == 0 then prev else Some(c[i - 1])
  }

  lemma {:induction false} ChainAt(keys: RoundKeys, prev: Option<Block>, p: Blocks, i: nat)
    requires i < |p|
    ensures var c := Chain(keys, prev, p);
            c[i] == Encrypted(keys, Masked(p[i], Before(prev, c, i)))
    decreases i
  {
    hide Encrypted, Masked;
    if i > 0 {
      var c := Encrypted(keys, Masked(p[0], prev));
      ChainAt(keys, Some(c), p[1..], i - 1);
    }
  }

  lemma {:induction false} UnchainAt(keys: RoundKeys, prev: Option<Block>, c: Blocks, i: nat)
    requires i < |c|
    ensures Unchain(keys, prev, c)[i] == Masked(Decrypted(keys, c[i]), Before(prev, c, i))
    decreases i
  {
    hide Decrypted, Masked;
    if i > 0 {
      UnchainAt(keys, Some(c[0]), c[1..], i - 1);
    }
  }

  // ---- bytes and blocks ----

  function Joined(b: Blocks): (s: seq<bv8>)
    ensures |s| == 16 * |b|
  {
    if b == [] then [] else Joined(b[..|b| - 1]) + b[|b| - 1]
  }

  function BlockAt(s: seq<bv8>, i: nat): Block
    requires 16 * i + 16 <= |s|
  {
    s[16 * i..16 * i + 16]
  }

  function Split(s: seq<bv8>, n: nat): (b: Blocks)
    requires 16 * n <= |s|
    ensures |b| == n && forall i :: 0 <= i < n ==> b[i] == BlockAt(s, i)
  {
    if n == 0 then [] else Split(s, n - 1) + [BlockAt(s, n - 1)]
  }

  lemma PrefixAndBlock(s: seq<bv8>, k: nat)
    requires 16 * k + 16 <= |s|
    ensures s[..16 * (k + 1)] == s[..16 * k] + BlockAt(s, k)
  {
    assert s[..16 * k + 16][..16 * k] == s[..16 * k];
  }

  lemma {:induction false} JoinedSplit(s: seq<bv8>, n: nat)
    requires 16 * n <= |s|
    ensures Joined(Split(s, n)) == s[..16 * n]
  {
    if n == 0 {
    } else {
      JoinedSplit(s, n - 1);
      assert Split(s, n)[..n - 1] == Split(s, n - 1);
      PrefixAndBlock(s, n - 1);
    }
  }

  lemma {:induction false} SplitJoined(b: Blocks, rest: seq<bv8>, n: nat)
    requires n <= |b|
    ensures Split(Joined(b) + rest, n) == b[..n]
    decreases |b|
  {
    if n == 0 {
    } else {
      var k := |b| - 1;
      var tail := b[k] + rest;
      assert Joined(b) + rest == Joined(b[..k]) + tail;
      if n == |b| {
        SplitJoined(b[..k], tail, k);
        SplitStable(Joined(b[..k]) + tail, n);
        assert BlockAt(Joined(b[..k]) + tail, k) == b[k];
      } else {
        SplitJoined(b[..k], tail, n);
      }
    }
  }

  lemma SplitStable(s: seq<bv8>, n: nat)
    requires 0 < n && 16 * n <= |s|
    ensures Split(s, n) == Split(s, n - 1) + [BlockAt(s, n - 1)]
  {
  }

  // ---- padding ----

  // kStateSize - rem stored in an unsigned char, by counting up, and the char read back as a number.
  function ByteOf(n: nat): bv8
    requires n < 256
  {
    if n == 0 then 0 else ByteOf(n - 1) + 1
  }

  function ValueOf(b: bv8): nat {
    b as nat
  }

  lemma ValueOfNext(b: bv8)
    requires b != 0xFF
    ensures ValueOf(b + 1) == ValueOf(b) + 1
  {
  }

  lemma {:induction false} ByteOfSmall(n: nat)
    requires n < 256
    ensures ValueOf(ByteOf(n)) == n
  {
    if n == 0 {
    } else {
      ByteOfSmall(n - 1);
      assert ValueOf(0xFF) == 255;
      ValueOfNext(ByteOf(n - 1));
    }
  }

  function PadCount(size: nat): (n: nat)
    ensures 1 <= n <= 16
  {
    16 - size % 16
  }

  function Padded(data: seq<bv8>): (p: seq<bv8>)
    ensures |p| == |data| + PadCount(|data|) && |p| % 16 == 0
  {
    data + seq(PadCount(|data|), _ => ByteOf(PadCount(|data|)))
  }

  /** What decryption leaves once the padding is taken off; a count of zero is accepted and removes nothing. */
  function Unpadded(plain: seq<bv8>): Option<seq<bv8>>
    requires |plain| >= 16
  {
    var n := ValueOf(plain[|plain| - 1]);
    if n > 16 || exists i :: |plain| - n <= i < |plain| && ValueOf(plain[i]) != n then None
    else Some(plain[..|plain| - n])
  }

  lemma UnpaddedPadded(data: seq<bv8>)
    ensures Unpadded(Padded(data)) == Some(data)
  {
    hide ByteOf, ValueOf;
    ByteOfSmall(PadCount(|data|));
    assert Padded(data)[..|data|] == data;
  }

  // ---- the two functions on whole messages ----

  // What encrypt_cbc encrypts. Without padding the empty message still fills one block.
  function Message(data: seq<bv8>, pads: bool): (m: seq<bv8>)
    requires pads || |data| % 16 == 0
    ensures |m| % 16 == 0 && 0 < |m|
  {
    if pads || data == [] then Padded(data) else data
  }

  function Ciphertext(keys: RoundKeys, iv: Option<Block>, m: seq<bv8>): (c: seq<bv8>)
    requires |m| % 16 == 0
    ensures |c| == |m|
  {
    Joined(Chain(keys, iv, Split(m, |m| / 16)))
  }

  function Plaintext(keys: RoundKeys, iv: Option<Block>, c: seq<bv8>): (m: seq<bv8>)
    requires |c| % 16 == 0
    ensures |m| == |c|
  {
    Joined(Unchain(keys, iv, Split(c, |c| / 16)))
  }

  lemma PlaintextOfCiphertext(keys: RoundKeys, iv: Option<Block>, m: seq<bv8>)
    requires |m| % 16 == 0
    ensures Plaintext(keys, iv, Ciphertext(keys, iv, m)) == m
  {
    hide Chain, Unchain;
    var n := |m| / 16;
    var b := Split(m, n);
    var c := Chain(keys, iv, b);
    SplitJoined(c, [], n);
    assert Joined(c) + [] == Joined(c) && c[..n] == c;
    UnchainChain(keys, iv, b);
    JoinedSplit(m, n);
    assert m[..16 * n] == m;
  }

  /** Decrypting and unpadding what was padded and encrypted gives the data back, at every length. */
  lemma CbcRoundTrip(keys: RoundKeys, iv: Option<Block>, data: seq<bv8>)
    ensures Unpadded(Plaintext(keys, iv, Ciphertext(keys, iv, Message(data, true)))) == Some(data)
  {
    hide Plaintext, Ciphertext, Unpadded;
    PlaintextOfCiphertext(keys, iv, Padded(data));
    UnpaddedPadded(data);
  }
}
