/** encrypt_cbc and decrypt_cbc as they fill their output buffers, and the round trip through both. */
module AesCbcCalls {
  import opened AesState
  import opened AesRounds
  import opened AesKey
  import opened AesCbc
  import opened CanonicalCode

  // ---- the conditions checked first ----

  function CheckEncrypt(size: nat, keySize: nat, outSize: nat, pads: bool): Error {
    if !pads && size % 16 != 0 then InvalidDataSize
    else if !KeySizeOk(keySize) then InvalidKeySize
    else if outSize < (if pads then size + PadCount(size) else size) then InvalidBufferSize
    else Ok
  }

  const SIZE_LIMIT := 0x1_0000_0000_0000_0000

  // With padding to remove, the size less one block is computed on 64 bits and wraps for an empty message.
  function CheckDecrypt(size: nat, keySize: nat, outSize: nat, pads: bool): Error
    requires size < SIZE_LIMIT
  {
    if size % 16 != 0 then InvalidDataSize
    else if !KeySizeOk(keySize) then InvalidKeySize
    else if !pads && outSize < size then InvalidBufferSize
    else if pads && outSize < (if size < 16 then size + SIZE_LIMIT - 16 else size - 16) then InvalidBufferSize
    else Ok
  }

  /** check_encrypt_cond. */
  method CheckEncryptCond(dataSize: nat, keySize: nat, encryptedSize: nat, pads: bool) returns (e: Error)
    ensures e == CheckEncrypt(dataSize, keySize, encryptedSize, pads)
  {
    if !pads && dataSize % 16 != 0 {
      return InvalidDataSize;
    }
    if !KeySizeOk(keySize) {
      return InvalidKeySize;
    }
    if pads {
      var requiredSize := dataSize + 16 - dataSize % 16;
      if encryptedSize < requiredSize {
        return InvalidBufferSize;
      }
    } else if encryptedSize < dataSize {
      return InvalidBufferSize;
    }
    return Ok;
  }

  /** check_decrypt_cond; the size less one block is computed on 64 bits. */
  method CheckDecryptCond(dataSize: nat, keySize: nat, decryptedSize: nat, pads: bool) returns (e: Error)
    requires dataSize < SIZE_LIMIT
    ensures e == CheckDecrypt(dataSize, keySize, decryptedSize, pads)
  {
    if dataSize % 16 != 0 {
      return InvalidDataSize;
    }
    if !KeySizeOk(keySize) {
      return InvalidKeySize;
    }
    if !pads {
      if decryptedSize < dataSize {
        return InvalidBufferSize;
      }
    } else if decryptedSize < (dataSize + 0x1_0000_0000_0000_0000 - 16) % 0x1_0000_0000_0000_0000 {
      return InvalidBufferSize;
    }
    return Ok;
  }

  /** check_padding. */
  method CheckPadding(padding: nat, last: array<bv8>) returns (ok: bool)
    requires last.Length == 16
    ensures ok <==> padding <= 16 && forall i :: 16 - padding <= i < 16 ==> ValueOf(last[i]) == padding
  {
    hide ValueOf;
    if padding > 16 {
      return false;
    }
    for i := 0 to padding
      invariant forall k :: 16 - i <= k < 16 ==> ValueOf(last[k]) == padding
    {
      if ValueOf(last[15 - i]) != padding {
        return false;
      }
    }
    return true;
  }

  predicate PaddedWell(last: seq<bv8>)
    requires |last| == 16
  {
    var n := ValueOf(last[15]);
    n <= 16 && forall i :: 16 - n <= i < 16 ==> ValueOf(last[i]) == n
  }

  // Only the last block decides what the padding is.
  lemma UnpaddedLast(front: seq<bv8>, last: seq<bv8>)
    requires |last| == 16
    ensures Unpadded(front + last)
         == if PaddedWell(last) then Some(front + last[..16 - ValueOf(last[15])]) else None
  {
    hide ValueOf;
    var plain := front + last;
    var n := ValueOf(last[15]);
    if n <= 16 {
      forall i | |plain| - n <= i < |plain|
        ensures plain[i] == last[i - |front|]
      {
      }
      forall i | 16 - n <= i < 16
        ensures last[i] == plain[|front| + i]
      {
      }
      assert plain[..|plain| - n] == front + last[..16 - n];
    }
  }

  /** xor_data. */
  method XorData(buf: array<bv8>, at: nat, v: Block)
    requires at + 16 <= buf.Length
    modifies buf
    ensures buf[..] == old(buf[..at]) + XorBlock(old(buf[at..at + 16]), v) + old(buf[at + 16..])
  {
    hide XorByte;
    ghost var was := buf[..];
    for i := 0 to 16
      invariant forall k :: at <= k < at + i ==> buf[k] == XorByte(was[k], v[k - at])
      invariant buf[..at] == was[..at] && buf[at + i..] == was[at + i..]
    {
      XorByteIs(buf[at + i], v[i]);
      buf[at + i] := buf[at + i] ^ v[i];
    }
    assert buf[at..at + 16] == XorBlock(was[at..at + 16], v);
    assert buf[..] == buf[..at] + buf[at..at + 16] + buf[at + 16..];
  }

  lemma JoinedMore(b: Blocks, i: nat)
    requires i < |b|
    ensures Joined(b[..i + 1]) == Joined(b[..i]) + b[i]
  {
    assert b[..i + 1][..i] == b[..i];
  }

  // The buffer holds the first i blocks of b and its old contents after them.
  predicate Holds(buf: array<bv8>, b: Blocks, i: nat, was: seq<bv8>)
    reads buf
    requires i <= |b| && 16 * |b| <= |was|
  {
    buf[..] == Joined(b[..i]) + was[16 * i..]
  }

  // Encrypting message block i, which buffer s holds, behind the blocks already written.
  method EncryptNext(keys: RoundKeys, iv: Option<Block>, s: Block, encrypted: array<bv8>, i: nat,
                     ghost m: Blocks, ghost was: seq<bv8>)
    requires i < |m| && s == m[i] && 16 * |m| <= |was|
    requires Holds(encrypted, Chain(keys, iv, m), i, was)
    modifies encrypted
    ensures Holds(encrypted, Chain(keys, iv, m), i + 1, was)
  {
    hide Encrypted, XorBlock, Chain;
    ghost var c := Chain(keys, iv, m);
    ChainAt(keys, iv, m, i);
    JoinedMore(c, i);
    var masked: Block := s;
    if i == 0 {
      masked := Masked(s, iv);
    } else {
      JoinedMore(c, i - 1);
      assert encrypted[..][16 * i - 16..16 * i] == c[i - 1];
      masked := XorBlock(s, encrypted[16 * i - 16..16 * i]);
    }
    EncryptState(keys, masked, encrypted, 16 * i);
  }

  lemma MessageBlock(data: seq<bv8>, pads: bool, i: nat)
    requires pads || |data| % 16 == 0
    requires 16 * i + 16 <= |data|
    ensures var m := Message(data, pads);
            16 * i + 16 <= |m| && BlockAt(m, i) == BlockAt(data, i)
  {
  }

  /** encrypt_cbc. Without padding the source writes a whole block even for an empty message. */
  method EncryptCbc(data: seq<bv8>, key: seq<bv8>, iv: Option<Block>, encrypted: array<bv8>, pads: bool)
    returns (e: Error)
    requires data == [] && !pads ==> encrypted.Length >= 16
    modifies encrypted
    ensures e == CheckEncrypt(|data|, |key|, encrypted.Length, pads)
    ensures e != Ok ==> encrypted[..] == old(encrypted[..])
    ensures e == Ok ==>
      var c := Ciphertext(Expanded(key), iv, Message(data, pads));
      |c| <= encrypted.Length && encrypted[..] == c + old(encrypted[..])[|c|..]
  {
    e := CheckEncryptCond(|data|, |key|, encrypted.Length, pads);
    if e != Ok {
      return;
    }
    var expanded := ExpandKey(key);
    EncryptBlocks(expanded.value, iv, data, encrypted, pads);
  }

  method EncryptBlocks(keys: RoundKeys, iv: Option<Block>, data: seq<bv8>, encrypted: array<bv8>, pads: bool)
    requires pads || |data| % 16 == 0
    requires |Message(data, pads)| <= encrypted.Length
    modifies encrypted
    ensures var c := Ciphertext(keys, iv, Message(data, pads));
            encrypted[..] == c + old(encrypted[..])[|c|..]
  {
    hide Chain, Holds;
    ghost var was := encrypted[..];
    ghost var msg := Message(data, pads);
    ghost var m := Split(msg, |msg| / 16);
    ghost var c := Chain(keys, iv, m);
    var padByte := ByteOf(PadCount(|data|));
    var ge16 := |data| >= 16;
    StartHolds(encrypted, c);
    var s: Block := if ge16 then data[..16] else data + seq(16 - |data|, _ => padByte);
    FirstOfMessage(data, pads);
    EncryptNext(keys, iv, s, encrypted, 0, m, was);
    var bc := |data| / 16;
    var i := 1;
    while i < bc
      invariant 1 <= i && (i <= bc || i == 1 <= |c|)
      invariant Holds(encrypted, c, i, was)
    {
      MessageBlock(data, pads, i);
      EncryptNext(keys, iv, BlockAt(data, i), encrypted, i, m, was);
      i := i + 1;
    }
    if pads && ge16 {
      var rem := |data| % 16;
      var ib: Block := data[|data| - rem..] + seq(16 - rem, _ => padByte);
      LastOfMessage(data);
      EncryptNext(keys, iv, ib, encrypted, bc, m, was);
    }
    EndHolds(encrypted, c, was);
  }

  lemma FirstOfMessage(data: seq<bv8>, pads: bool)
    requires pads || |data| % 16 == 0
    ensures |Message(data, pads)| >= 16
    ensures BlockAt(Message(data, pads), 0)
            == if |data| >= 16 then data[..16] else data + seq(16 - |data|, _ => ByteOf(PadCount(|data|)))
  {
    hide ByteOf;
  }

  lemma LastOfMessage(data: seq<bv8>)
    requires |data| >= 16
    ensures var bc, rem := |data| / 16, |data| % 16;
            && |Message(data, true)| == 16 * bc + 16
            && BlockAt(Message(data, true), bc) == data[|data| - rem..] + seq(16 - rem, _ => ByteOf(PadCount(|data|)))
  {
    hide ByteOf;
  }

  lemma StartHolds(buf: array<bv8>, b: Blocks)
    requires 16 * |b| <= buf.Length
    ensures Holds(buf, b, 0, buf[..])
  {
    assert Joined(b[..0]) == [];
  }

  lemma EndHolds(buf: array<bv8>, b: Blocks, was: seq<bv8>)
    requires 16 * |b| <= |was| && Holds(buf, b, |b|, was)
    ensures buf[..] == Joined(b) + was[16 * |b|..]
  {
    assert b[..|b|] == b;
  }

  // ---- decryption ----

  // Decrypting ciphertext block i into a buffer.
  method DecryptBlock(keys: RoundKeys, iv: Option<Block>, data: seq<bv8>, i: nat, buf: array<bv8>, at: nat,
                      ghost c: Blocks)
    requires i < |c| && 16 * |c| == |data| && c == Split(data, |c|)
    requires at + 16 <= buf.Length
    modifies buf
    ensures buf[..] == old(buf[..at]) + Unchain(keys, iv, c)[i] + old(buf[at + 16..])
  {
    hide Decrypted, XorBlock, Unchain;
    UnchainAt(keys, iv, c, i);
    DecryptState(keys, BlockAt(data, i), buf, at);
    var v := iv;
    if i > 0 {
      v := Some(BlockAt(data, i - 1));
    }
    assert v == Before(iv, c, i);
    if v.Some? {
      XorData(buf, at, v.value);
    }
  }

  // The message blocks before the last, written in place.
  method DecryptFront(keys: RoundKeys, iv: Option<Block>, data: seq<bv8>, decrypted: array<bv8>, bc: nat,
                      ghost c: Blocks)
    requires |c| == bc + 1 && 16 * |c| == |data| && c == Split(data, |c|)
    requires 1 <= bc && 16 * bc <= decrypted.Length
    modifies decrypted
    ensures decrypted[..] == Joined(Unchain(keys, iv, c)[..bc]) + old(decrypted[16 * bc..])
  {
    hide Unchain, Decrypted;
    ghost var was := decrypted[..];
    ghost var p := Unchain(keys, iv, c);
    assert Joined(p[..0]) == [];
    DecryptBlock(keys, iv, data, 0, decrypted, 0, c);
    JoinedMore(p, 0);
    var i := 1;
    while i < bc
      invariant 1 <= i <= bc
      invariant decrypted[..] == Joined(p[..i]) + was[16 * i..]
    {
      DecryptBlock(keys, iv, data, i, decrypted, 16 * i, c);
      JoinedMore(p, i);
      i := i + 1;
    }
  }

  // Copying part of the last block behind the front.
  method CopyLast(last: array<bv8>, decrypted: array<bv8>, at: nat, n: nat)
    requires last != decrypted && n <= last.Length && at + n <= decrypted.Length
    modifies decrypted
    ensures decrypted[..] == old(decrypted[..at]) + last[..n] + old(decrypted[at + n..])
  {
    ghost var was := decrypted[..];
    for i := 0 to n
      invariant decrypted[..] == was[..at] + last[..i] + was[at + i..]
    {
      decrypted[at + i] := last[i];
    }
  }

  // Everything behind the front before the last block is copied: cleared when there is only one block.
  function Behind(was: seq<bv8>, blocks: nat): (b: seq<bv8>)
    ensures |b| == |was|
  {
    if blocks == 1 then seq(|was|, _ => 0) else was
  }

  // The buffer once the first n bytes of the message are in place.
  predicate Left(buf: seq<bv8>, was: seq<bv8>, plain: seq<bv8>, n: nat)
    requires n <= |plain|
  {
    && n <= |was|
    && buf == plain[..n] + Behind(was, |plain| / 16)[n..]
  }

  // The answer to a call that passed the checks: what is in the buffer and which error is returned. With
  // padding to remove, a last block that is not padded is an invalid key, whatever the buffer's size.
  predicate Delivered(e: Error, paddedSize: nat, buf: seq<bv8>, was: seq<bv8>, plain: seq<bv8>, pads: bool)
    requires |plain| >= 16
  {
    if !pads then e == Ok && Left(buf, was, plain, |plain|)
    else
      && paddedSize == ValueOf(plain[|plain| - 1])
      && match Unpadded(plain)
         case None => e == InvalidKey && Left(buf, was, plain, |plain| - 16)
         case Some(p) =>
           && |p| + paddedSize == |plain|
           && if |p| <= |was| then e == Ok && Left(buf, was, plain, |p|)
              else e == InvalidBufferSize && Left(buf, was, plain, |plain| - 16)
  }

  /** decrypt_cbc; the first sixteen bytes of a single block are decrypted in the output buffer itself. */
  method DecryptCbc(data: seq<bv8>, key: seq<bv8>, iv: Option<Block>, decrypted: array<bv8>, pads: bool)
    returns (e: Error, paddedSize: nat)
    requires |data| + decrypted.Length + 16 < SIZE_LIMIT
    requires data == [] ==> pads
    requires |data| == 16 ==> decrypted.Length >= 16
    modifies decrypted
    ensures var check := CheckDecrypt(|data|, |key|, decrypted.Length, pads);
      if check != Ok then e == check && decrypted[..] == old(decrypted[..])
      else
        && |data| >= 16
        && Delivered(e, paddedSize, decrypted[..], old(decrypted[..]), Plaintext(Expanded(key), iv, data), pads)
  {
    hide Delivered, Expanded, Plaintext;
    paddedSize := 0;
    e := CheckDecryptCond(|data|, |key|, decrypted.Length, pads);
    if e != Ok {
      return;
    }
    var expanded := ExpandKey(key);
    e, paddedSize := DecryptBlocks(expanded.value, iv, data, decrypted, pads);
  }

  lemma NotPadded(last: Block, buf: seq<bv8>, was: seq<bv8>, front: seq<bv8>)
    requires !PaddedWell(last)
    requires |front| <= |was| && |front| % 16 == 0
    requires buf == front + Behind(was, |front| / 16 + 1)[|front|..]
    ensures Delivered(InvalidKey, ValueOf(last[15]), buf, was, front + last, true)
  {
    hide ValueOf, Unpadded, Behind;
    UnpaddedLast(front, last);
    assert front + last[..0] == front;
    IsLeft(buf, was, front, last, 0);
  }

  lemma TooSmall(last: Block, buf: seq<bv8>, was: seq<bv8>, front: seq<bv8>)
    requires PaddedWell(last) && |was| < |front| + 16 - ValueOf(last[15])
    requires |front| <= |was| && |front| % 16 == 0
    requires buf == front + Behind(was, |front| / 16 + 1)[|front|..]
    ensures Delivered(InvalidBufferSize, ValueOf(last[15]), buf, was, front + last, true)
  {
    hide ValueOf, Unpadded, Behind;
    UnpaddedLast(front, last);
    assert front + last[..0] == front;
    IsLeft(buf, was, front, last, 0);
  }

  lemma Fits(last: Block, buf: seq<bv8>, was: seq<bv8>, front: seq<bv8>)
    requires PaddedWell(last) && |front| + 16 - ValueOf(last[15]) <= |was|
    requires var n := 16 - ValueOf(last[15]);
             buf == front + last[..n] + Behind(was, |front| / 16 + 1)[|front| + n..]
    requires |front| % 16 == 0
    ensures Delivered(Ok, ValueOf(last[15]), buf, was, front + last, true)
  {
    hide ValueOf, Unpadded, Behind;
    UnpaddedLast(front, last);
    IsLeft(buf, was, front, last, 16 - ValueOf(last[15]));
  }

  lemma Whole(last: Block, buf: seq<bv8>, was: seq<bv8>, front: seq<bv8>, paddedSize: nat)
    requires |front| + 16 <= |was| && |front| % 16 == 0
    requires buf == front + last + Behind(was, |front| / 16 + 1)[|front| + 16..]
    ensures Delivered(Ok, paddedSize, buf, was, front + last, false)
  {
    assert last[..16] == last;
    IsLeft(buf, was, front, last, 16);
  }

  lemma IsLeft(buf: seq<bv8>, was: seq<bv8>, front: seq<bv8>, last: Block, kept: nat)
    requires kept <= 16 && |front| % 16 == 0 && |front| + kept <= |was|
    requires buf == front + last[..kept] + Behind(was, |front| / 16 + 1)[|front| + kept..]
    ensures Left(buf, was, front + last, |front| + kept)
  {
    assert (front + last)[..|front| + kept] == front + last[..kept];
    assert (|front| + 16) / 16 == |front| / 16 + 1;
  }

  method DecryptBlocks(keys: RoundKeys, iv: Option<Block>, data: seq<bv8>, decrypted: array<bv8>, pads: bool)
    returns (e: Error, paddedSize: nat)
    requires |data| % 16 == 0 && |data| > 0
    requires 16 <= decrypted.Length && |data| - 16 <= decrypted.Length
    requires !pads ==> |data| <= decrypted.Length
    modifies decrypted
    ensures Delivered(e, paddedSize, decrypted[..], old(decrypted[..]), Plaintext(keys, iv, data), pads)
  {
    hide Unchain, Decrypted, Unpadded, ValueOf, Delivered, Plaintext, Behind, Left;
    ghost var was := decrypted[..];
    var bc := |data| / 16 - 1;
    ghost var front;
    var last;
    last, front := DecryptAllButCopy(keys, iv, data, decrypted, bc);
    ghost var plain := Plaintext(keys, iv, data);
    ghost var block: Block := last[..];
    assert plain == front + block;
    ghost var behind := Behind(was, bc + 1);
    paddedSize := ValueOf(last[15]);
    if pads {
      var ok := CheckPadding(paddedSize, last);
      if !ok {
        NotPadded(block, decrypted[..], was, front);
        return InvalidKey, paddedSize;
      }
      var cs := 16 - paddedSize;
      if decrypted.Length < 16 * bc + cs {
        TooSmall(block, decrypted[..], was, front);
        return InvalidBufferSize, paddedSize;
      }
      CopyLast(last, decrypted, 16 * bc, cs);
      assert decrypted[..] == front + block[..cs] + behind[|front| + cs..];
      Fits(block, decrypted[..], was, front);
    } else {
      CopyLast(last, decrypted, 16 * bc, 16);
      assert decrypted[..] == front + block + behind[|front| + 16..];
      Whole(block, decrypted[..], was, front, paddedSize);
    }
    return Ok, paddedSize;
  }

  // All blocks decrypted, the last one into a buffer of its own.
  method DecryptAllButCopy(keys: RoundKeys, iv: Option<Block>, data: seq<bv8>, decrypted: array<bv8>, bc: nat)
    returns (last: array<bv8>, ghost front: seq<bv8>)
    requires |data| == 16 * (bc + 1)
    requires 16 <= decrypted.Length && 16 * bc <= decrypted.Length
    modifies decrypted
    ensures fresh(last) && last.Length == 16
    ensures |front| == 16 * bc && Plaintext(keys, iv, data) == front + last[..]
    ensures decrypted[..] == front + Behind(old(decrypted[..]), bc + 1)[16 * bc..]
  {
    hide Unchain, Decrypted;
    ghost var was := decrypted[..];
    ghost var c := Split(data, bc + 1);
    ghost var p := Unchain(keys, iv, c);
    front := Joined(p[..bc]);
    last := new bv8[16](_ => 0);
    if bc > 0 {
      DecryptFront(keys, iv, data, decrypted, bc, c);
      DecryptBlock(keys, iv, data, bc, last, 0, c);
    } else {
      DecryptBlock(keys, iv, data, 0, decrypted, 0, c);
      assert decrypted[..16] == p[0];
      CopyLast(decrypted, last, 0, 16);
      forall i | 0 <= i < decrypted.Length {
        decrypted[i] := 0;
      }
      assert decrypted[..] == Behind(was, 1);
    }
    assert last[..] == p[bc];
    JoinedMore(p, bc);
    assert p[..bc + 1] == p;
  }

  /** Encrypting with padding and decrypting gives the data back for every key size, vector and length. */
  method RoundTrip(data: seq<bv8>, key: seq<bv8>, iv: Option<Block>) returns (r: seq<bv8>)
    requires KeySizeOk(|key|) && |data| + |data| + 64 < SIZE_LIMIT
    ensures r == data
  {
    hide Expanded, Ciphertext, Plaintext, Unpadded, Padded;
    var n := |data| + PadCount(|data|);
    var encrypted, decrypted := new bv8[n], new bv8[n];
    var e := EncryptCbc(data, key, iv, encrypted, true);
    assert e == Ok && encrypted[..] == Ciphertext(Expanded(key), iv, Message(data, true));
    CbcRoundTrip(Expanded(key), iv, data);
    var d, paddedSize := DecryptCbc(encrypted[..], key, iv, decrypted, true);
    assert d == Ok;
    r := decrypted[..n - paddedSize];
    PlaintextOfCiphertext(Expanded(key), iv, Padded(data));
    assert Padded(data)[..|data|] == data by {
      PaddedFront(data);
    }
  }

  lemma PaddedFront(data: seq<bv8>)
    ensures Padded(data)[..|data|] == data
  {
  }
}
