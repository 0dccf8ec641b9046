/** The rounds of AES as the source runs them: every step rewrites the four words of the state in place. */
module AesRounds {
  import opened AesWord
  import opened AesState

  method AddRoundKey(key: State, s: array<Word>)
    requires s.Length == 4
    modifies s
    ensures s[..] == AddKey(old(s[..]), key)
  {
    hide XorWord;
    for i := 0 to 4
      invariant forall k :: 0 <= k < i ==> s[k] == XorWord(old(s[k]), key[k])
      invariant forall k :: i <= k < 4 ==> s[k] == old(s[k])
    {
      s[i] := XorWord(s[i], key[i]);
    }
  }

  method SubBytesInPlace(s: array<Word>)
    requires s.Length == 4
    modifies s
    ensures s[..] == SubBytes(old(s[..]))
  {
    hide SubWord;
    for i := 0 to 4
      invariant forall k :: 0 <= k < i ==> s[k] == SubWord(old(s[k]))
      invariant forall k :: i <= k < 4 ==> s[k] == old(s[k])
    {
      s[i] := SubWord(s[i]);
    }
  }

  method InvSubBytesInPlace(s: array<Word>)
    requires s.Length == 4
    modifies s
    ensures s[..] == InvSubBytes(old(s[..]))
  {
    hide InvSubWord;
    for i := 0 to 4
      invariant forall k :: 0 <= k < i ==> s[k] == InvSubWord(old(s[k]))
      invariant forall k :: i <= k < 4 ==> s[k] == old(s[k])
    {
      s[i] := InvSubWord(s[i]);
    }
  }

  method MixColumnsInPlace(s: array<Word>)
    requires s.Length == 4
    modifies s
    ensures s[..] == MixColumns(old(s[..]))
  {
    hide MixWord;
    for i := 0 to 4
      invariant forall k :: 0 <= k < i ==> s[k] == MixWord(old(s[k]))
      invariant forall k :: i <= k < 4 ==> s[k] == old(s[k])
    {
      s[i] := MixWord(s[i]);
    }
  }

  // The source writes the product with the four constants out; here each byte is such a sum.
  method InvMixColumnsInPlace(s: array<Word>)
    requires s.Length == 4
    modifies s
    ensures s[..] == InvMixColumns(old(s[..]))
  {
    hide InvMixWord;
    for i := 0 to 4
      invariant forall k :: 0 <= k < i ==> s[k] == InvMixWord(old(s[k]))
      invariant forall k :: i <= k < 4 ==> s[k] == old(s[k])
    {
      var w := UnmixWord(s[i]);
      s[i] := w;
    }
  }

  method UnmixWord(w: Word) returns (r: Word)
    ensures r == InvMixWord(w)
  {
    hide Mul, Add, Join, Byte0, Byte1, Byte2, Byte3;
    var r0 := UnmixedByte(Byte0(w), Byte1(w), Byte2(w), Byte3(w));
    var r1 := UnmixedByte(Byte1(w), Byte2(w), Byte3(w), Byte0(w));
    var r2 := UnmixedByte(Byte2(w), Byte3(w), Byte0(w), Byte1(w));
    var r3 := UnmixedByte(Byte3(w), Byte0(w), Byte1(w), Byte2(w));
    r := Join(r0, r1, r2, r3);
  }

  method UnmixedByte(v0: bv8, v1: bv8, v2: bv8, v3: bv8) returns (r: bv8)
    ensures r == InvMix0(v0, v1, v2, v3)
  {
    hide Mul, Add;
    var p0 := MulBytes(v0, 0x0E);
    var p1 := MulBytes(v1, 0x0B);
    var p2 := MulBytes(v2, 0x0D);
    var p3 := MulBytes(v3, 0x09);
    r := Add4(p0, p1, p2, p3);
  }

  // ---- shifting the rows by masking ----

  // The word whose byte r comes from b and whose other bytes come from a: (a & ~m) | (b & m), m = 0xFF << 8r.
  function TakeRow(r: nat, a: Word, b: Word): Word
    requires 1 <= r < 4
  {
    if r == 1 then (a & 0xFFFF00FF) | (b & 0x0000FF00)
    else if r == 2 then (a & 0xFF00FFFF) | (b & 0x00FF0000)
    else (a & 0x00FFFFFF) | (b & 0xFF000000)
  }

  // Column c once rows 1 to r - 1 have been taken from columns c + 1, c + 2, ... of the original state.
  function Gathered(s: State, r: nat, c: nat, step: nat): Word
    requires 1 <= r <= 4 && c < 4 && 1 <= step <= 3
  {
    if r == 1 then s[c] else TakeRow(r - 1, Gathered(s, r - 1, c, step), s[Column(c, r - 1, step)])
  }

  // (c + r) % 4 when step is 1, and (c + 4 - r) % 4 when it is 3.
  function Column(c: nat, r: nat, step: nat): (k: nat)
    requires c < 4 && 1 <= r < 4
    ensures k < 4
  {
    if step == 1 then (c + r) % 4 else (c + 4 - r) % 4
  }

  lemma Takes(a: Word, b1: Word, b2: Word, b3: Word)
    ensures TakeRow(3, TakeRow(2, TakeRow(1, a, b1), b2), b3) == Diagonally(a, b1, b2, b3)
  {
  }

  lemma GatheredAll(s: State, c: nat, step: nat)
    requires c < 4 && 1 <= step <= 3
    ensures Gathered(s, 4, c, step)
         == Diagonally(s[c], s[Column(c, 1, step)], s[Column(c, 2, step)], s[Column(c, 3, step)])
  {
    hide TakeRow, Diagonally, Column;
    Takes(s[c], s[Column(c, 1, step)], s[Column(c, 2, step)], s[Column(c, 3, step)]);
    assert Gathered(s, 1, c, step) == s[c];
    assert Gathered(s, 2, c, step) == TakeRow(1, Gathered(s, 1, c, step), s[Column(c, 1, step)]);
    assert Gathered(s, 3, c, step) == TakeRow(2, Gathered(s, 2, c, step), s[Column(c, 2, step)]);
  }

  lemma GatheredNone(s: State, c: nat, step: nat)
    requires c < 4 && 1 <= step <= 3
    ensures Gathered(s, 1, c, step) == s[c]
  {
  }

  lemma GatheredNext(s: State, r: nat, c: nat, step: nat)
    requires c < 4 && 1 <= step <= 3 && 1 <= r < 4
    ensures Gathered(s, r + 1, c, step) == TakeRow(r, Gathered(s, r, c, step), s[Column(c, r, step)])
  {
    hide TakeRow, Column;
  }

  method ShiftInPlace(s: array<Word>, step: nat)
    requires s.Length == 4 && (step == 1 || step == 3)
    modifies s
    ensures forall c :: 0 <= c < 4 ==> s[c] == Gathered(old(s[..]), 4, c, step)
  {
    hide TakeRow, Column, Gathered;
    ghost var was := s[..];
    var ori := s[..];
    forall c | 0 <= c < 4
      ensures s[c] == Gathered(was, 1, c, step)
    {
      GatheredNone(was, c, step);
    }
    for r := 1 to 4
      invariant forall c :: 0 <= c < 4 ==> s[c] == Gathered(was, r, c, step)
    {
      for c := 0 to 4
        invariant forall k :: 0 <= k < c ==> s[k] == Gathered(was, r + 1, k, step)
        invariant forall k :: c <= k < 4 ==> s[k] == Gathered(was, r, k, step)
      {
        GatheredNext(was, r, c, step);
        s[c] := TakeRow(r, s[c], ori[Column(c, r, step)]);
      }
    }
  }

  method ShiftRowsInPlace(s: array<Word>)
    requires s.Length == 4
    modifies s
    ensures s[..] == ShiftRows(old(s[..]))
  {
    hide Diagonally;
    ghost var was := s[..];
    ShiftInPlace(s, 1);
    GatheredAll(was, 0, 1);
    GatheredAll(was, 1, 1);
    GatheredAll(was, 2, 1);
    GatheredAll(was, 3, 1);
  }

  method InvShiftRowsInPlace(s: array<Word>)
    requires s.Length == 4
    modifies s
    ensures s[..] == InvShiftRows(old(s[..]))
  {
    hide Diagonally;
    ghost var was := s[..];
    ShiftInPlace(s, 3);
    GatheredAll(was, 0, 3);
    GatheredAll(was, 1, 3);
    GatheredAll(was, 2, 3);
    GatheredAll(was, 3, 3);
  }

  // ---- one block ----

  // memcpy between bytes and words, little end first.
  method LoadState(data: Block) returns (s: array<Word>)
    ensures fresh(s) && s.Length == 4 && s[..] == ToState(data)
  {
    hide Join;
    s := new Word[4];
    for i := 0 to 4
      invariant forall k :: 0 <= k < i ==> s[k] == ToState(data)[k]
    {
      s[i] := Join(data[4 * i], data[4 * i + 1], data[4 * i + 2], data[4 * i + 3]);
    }
  }

  method StoreWord(w: Word, buf: array<bv8>, at: nat)
    requires at + 4 <= buf.Length
    modifies buf
    ensures buf[..] == old(buf[..at]) + WordBytes(w) + old(buf[at + 4..])
  {
    hide Byte0, Byte1, Byte2, Byte3;
    buf[at], buf[at + 1], buf[at + 2], buf[at + 3] := Byte0(w), Byte1(w), Byte2(w), Byte3(w);
  }

  function FirstWords(s: State, n: nat): (b: seq<bv8>)
    requires n <= 4
    ensures |b| == 4 * n
  {
    if n == 0 then [] else FirstWords(s, n - 1) + WordBytes(s[n - 1])
  }

  lemma AllWords(s: State)
    ensures FirstWords(s, 4) == ToBytes(s)
  {
    hide WordBytes;
    assert FirstWords(s, 1) == WordBytes(s[0]);
    assert FirstWords(s, 2) == WordBytes(s[0]) + WordBytes(s[1]);
    assert FirstWords(s, 3) == WordBytes(s[0]) + WordBytes(s[1]) + WordBytes(s[2]);
  }

  method StoreState(s: array<Word>, buf: array<bv8>, at: nat)
    requires s.Length == 4 && at + 16 <= buf.Length
    modifies buf
    ensures buf[..] == old(buf[..at]) + ToBytes(s[..]) + old(buf[at + 16..])
  {
    hide WordBytes, ToBytes;
    ghost var was, words := buf[..], s[..];
    AllWords(words);
    for i := 0 to 4
      invariant buf[..] == was[..at] + FirstWords(words, i) + was[at + 4 * i..]
    {
      StoreWord(s[i], buf, at + 4 * i);
    }
  }

  /** encrypt_state. */
  method EncryptState(keys: RoundKeys, data: Block, encrypted: array<bv8>, at: nat)
    requires at + 16 <= encrypted.Length
    modifies encrypted
    ensures encrypted[..] == old(encrypted[..at]) + Encrypted(keys, data) + old(encrypted[at + 16..])
  {
    hide AddKey, SubBytes, ShiftRows, MixColumns, ToState, ToBytes;
    var s := LoadState(data);
    AddRoundKey(keys[0], s);
    for i := 1 to |keys| - 1
      invariant encrypted[..] == old(encrypted[..])
      invariant s[..] == Rounds(keys, ToState(data), i - 1)
    {
      SubBytesInPlace(s);
      ShiftRowsInPlace(s);
      MixColumnsInPlace(s);
      AddRoundKey(keys[i], s);
    }
    SubBytesInPlace(s);
    ShiftRowsInPlace(s);
    AddRoundKey(keys[|keys| - 1], s);
    assert s[..] == Cipher(keys, ToState(data));
    assert encrypted[..at] == old(encrypted[..at]) && encrypted[at + 16..] == old(encrypted[at + 16..]);
    StoreState(s, encrypted, at);
  }

  /** decrypt_state. */
  method DecryptState(keys: RoundKeys, data: Block, decrypted: array<bv8>, at: nat)
    requires at + 16 <= decrypted.Length
    modifies decrypted
    ensures decrypted[..] == old(decrypted[..at]) + Decrypted(keys, data) + old(decrypted[at + 16..])
  {
    hide AddKey, InvSubBytes, InvShiftRows, InvMixColumns, ToState, ToBytes;
    var s := LoadState(data);
    AddRoundKey(keys[|keys| - 1], s);
    InvShiftRowsInPlace(s);
    InvSubBytesInPlace(s);
    ghost var start := UnshiftUnsub(AddKey(ToState(data), keys[|keys| - 1]));
    assert s[..] == start;
    var i := |keys| - 2;
    while i > 0
      invariant 0 <= i <= |keys| - 2
      invariant decrypted[..] == old(decrypted[..])
      invariant Unrounds(keys, s[..], i) == Unrounds(keys, start, |keys| - 2)
    {
      AddRoundKey(keys[i], s);
      InvMixColumnsInPlace(s);
      InvShiftRowsInPlace(s);
      InvSubBytesInPlace(s);
      i := i - 1;
    }
    AddRoundKey(keys[0], s);
    assert s[..] == InvCipher(keys, ToState(data));
    assert decrypted[..at] == old(decrypted[..at]) && decrypted[at + 16..] == old(decrypted[at + 16..]);
    StoreState(s, decrypted, at);
  }
}
