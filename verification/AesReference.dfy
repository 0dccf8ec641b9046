/** Section 5.1 of FIPS 197 on sixteen bytes, column by column and straight from a key, as an independent reference for
    the cipher on words. */
module AesReference {
  import opened AesTables
  import opened AesWord
  import opened AesState
  import opened AesKey

  // Byte r of column c is byte 4c + r.
  function SubstitutedBytes(b: Block): Block {
    seq(16, k requires 0 <= k < 16 => Sbox(b[k]))
  }

  // Row r turns left by r columns.
  function TurnedRows(b: Block): Block {
    seq(16, k requires 0 <= k < 16 => var c, r := k / 4, k % 4; b[4 * ((c + r) % 4) + r])
  }

  // Every column is multiplied by the polynomial with the coefficients 2, 1, 1, 3.
  function ColumnByte(b: Block, c: nat, r: nat): bv8
    requires c < 4 && r < 4
  {
    Add4(Mul(b[4 * c + r], 2), Mul(b[4 * c + (r + 1) % 4], 3), b[4 * c + (r + 2) % 4], b[4 * c + (r + 3) % 4])
  }

  function MixedBytes(b: Block): Block {
    seq(16, k requires 0 <= k < 16 => ColumnByte(b, k / 4, k % 4))
  }

  function KeyedBytes(key: seq<bv8>, round: nat, b: Block): Block
    requires KeySizeOk(|key|) && round <= RoundCount(|key|)
  {
    seq(16, k requires 0 <= k < 16 => Add(b[k], ScheduleByte(key, 4 * round + k / 4, k % 4)))
  }

  function RoundBytes(key: seq<bv8>, b: Block, i: nat): Block
    requires KeySizeOk(|key|) && i < |key| / 4 + 6
  {
    if i == 0 then KeyedBytes(key, 0, b)
    else KeyedBytes(key, i, MixedBytes(TurnedRows(SubstitutedBytes(RoundBytes(key, b, i - 1)))))
  }

  // Ten, twelve or fourteen rounds: six more than the key has words.
  function CipherBytes(key: seq<bv8>, b: Block): Block
    requires |key| in {16, 24, 32}
  {
    var nr := |key| / 4 + 6;
    KeyedBytes(key, nr, TurnedRows(SubstitutedBytes(RoundBytes(key, b, nr - 1))))
  }

  // ---- the steps on words are these ----

  lemma ByteAt(s: State, c: nat, r: nat)
    requires c < 4 && r < 4
    ensures ToBytes(s)[4 * c + r] == WordByte(s[c], r)
  {
    hide Byte0, Byte1, Byte2, Byte3;
    assert WordBytes(s[c])[r] == WordByte(s[c], r);
  }

  lemma SubstitutedIs(s: State)
    ensures ToBytes(SubBytes(s)) == SubstitutedBytes(ToBytes(s))
  {
    hide SubWord, WordByte, Sbox, ToBytes;
    forall k | 0 <= k < 16
      ensures ToBytes(SubBytes(s))[k] == SubstitutedBytes(ToBytes(s))[k]
    {
      ByteAt(SubBytes(s), k / 4, k % 4);
      ByteAt(s, k / 4, k % 4);
      SubByte(s[k / 4], k % 4);
    }
  }

  lemma DiagonalByte(a: Word, b: Word, c: Word, d: Word, r: nat)
    requires r < 4
    ensures WordByte(Diagonally(a, b, c, d), r) == WordByte([a, b, c, d][r], r)
  {
    hide Join, Byte0, Byte1, Byte2, Byte3;
    JoinByte(Byte0(a), Byte1(b), Byte2(c), Byte3(d), r);
  }

  lemma ShiftedWord(s: State, c: nat)
    requires c < 4
    ensures ShiftRows(s)[c] == Diagonally(s[c], s[(c + 1) % 4], s[(c + 2) % 4], s[(c + 3) % 4])
  {
    hide Diagonally;
    if c == 0 || c == 1 {
    } else if c == 2 {
    } else {
      assert c == 3;
    }
  }

  lemma TurnedAt(s: State, c: nat, r: nat)
    requires c < 4 && r < 4
    ensures ToBytes(ShiftRows(s))[4 * c + r] == ToBytes(s)[4 * ((c + r) % 4) + r]
  {
    hide Diagonally, WordByte, ToBytes, ShiftRows;
    ByteAt(ShiftRows(s), c, r);
    ByteAt(s, (c + r) % 4, r);
    ShiftedWord(s, c);
    DiagonalByte(s[c], s[(c + 1) % 4], s[(c + 2) % 4], s[(c + 3) % 4], r);
  }

  lemma TurnedIs(s: State)
    ensures ToBytes(ShiftRows(s)) == TurnedRows(ToBytes(s))
  {
    hide ShiftRows, ToBytes;
    forall k | 0 <= k < 16
      ensures ToBytes(ShiftRows(s))[k] == TurnedRows(ToBytes(s))[k]
    {
      TurnedAt(s, k / 4, k % 4);
    }
  }

  lemma TwoAndThree(b: bv8)
    ensures Mul(b, 2) == Mul2(b) && Mul(b, 3) == Add(Mul2(b), b)
  {
    hide Mul2, Add, Mul;
    assert Mul(b, 1) == b by {
      MulOdd(b, 1, 0);
      MulZero(Mul2(b));
      AddZero(b);
    }
    MulEven(b, 2, 1);
    MulOdd(Mul2(b), 1, 0);
    MulZero(Mul2(Mul2(b)));
    AddZero(Mul2(b));
    MulOdd(b, 3, 1);
    AddCommutes(b, Mul2(b));
  }

  lemma MixSum(v0: bv8, v1: bv8, v2: bv8, v3: bv8)
    ensures Mix0(v0, v1, v2, v3) == Add4(Mul(v0, 2), Mul(v1, 3), v2, v3)
  {
    hide Mul, Mul2, Add, Add4;
    TwoAndThree(v0);
    TwoAndThree(v1);
  }

  lemma MixedByte(w: Word, r: nat)
    requires r < 4
    ensures WordByte(MixWord(w), r) ==
            Mix0(WordByte(w, r), WordByte(w, (r + 1) % 4), WordByte(w, (r + 2) % 4), WordByte(w, (r + 3) % 4))
  {
    hide Join, Byte0, Byte1, Byte2, Byte3, Mix0;
    var v0, v1, v2, v3 := Byte0(w), Byte1(w), Byte2(w), Byte3(w);
    BytesOfJoin(Mix0(v0, v1, v2, v3), Mix0(v1, v2, v3, v0), Mix0(v2, v3, v0, v1), Mix0(v3, v0, v1, v2));
  }

  lemma MixedAt(s: State, c: nat, r: nat)
    requires c < 4 && r < 4
    ensures ToBytes(MixColumns(s))[4 * c + r] == ColumnByte(ToBytes(s), c, r)
  {
    hide MixWord, WordByte, ToBytes, Mul, Add4, Mix0;
    ByteAt(MixColumns(s), c, r);
    ByteAt(s, c, r);
    ByteAt(s, c, (r + 1) % 4);
    ByteAt(s, c, (r + 2) % 4);
    ByteAt(s, c, (r + 3) % 4);
    MixedByte(s[c], r);
    MixSum(WordByte(s[c], r), WordByte(s[c], (r + 1) % 4), WordByte(s[c], (r + 2) % 4), WordByte(s[c], (r + 3) % 4));
  }

  lemma MixedIs(s: State)
    ensures ToBytes(MixColumns(s)) == MixedBytes(ToBytes(s))
  {
    hide MixColumns, ToBytes, ColumnByte;
    forall k | 0 <= k < 16
      ensures ToBytes(MixColumns(s))[k] == MixedBytes(ToBytes(s))[k]
    {
      MixedAt(s, k / 4, k % 4);
    }
  }

  lemma KeyedIs(key: seq<bv8>, round: nat, s: State)
    requires KeySizeOk(|key|) && round <= RoundCount(|key|)
    ensures ToBytes(AddKey(s, Expanded(key)[round])) == KeyedBytes(key, round, ToBytes(s))
  {
    hide XorWord, WordByte, ToBytes, Add, ScheduleByte, Expanded;
    var t := AddKey(s, Expanded(key)[round]);
    forall k | 0 <= k < 16
      ensures ToBytes(t)[k] == KeyedBytes(key, round, ToBytes(s))[k]
    {
      var c, r := k / 4, k % 4;
      ByteAt(t, c, r);
      ByteAt(s, c, r);
      ByteOfXor(s[c], Expanded(key)[round][c], r);
      ExpandedBytes(key, round, c, r);
    }
  }

  lemma {:induction false} RoundsAre(key: seq<bv8>, s: State, i: nat)
    requires KeySizeOk(|key|) && i < RoundCount(|key|)
    ensures ToBytes(Rounds(Expanded(key), s, i)) == RoundBytes(key, ToBytes(s), i)
  {
    hide ToBytes, AddKey, MixColumns, ShiftRows, SubBytes, Expanded;
    var keys := Expanded(key);
    if i == 0 {
      KeyedIs(key, 0, s);
    } else {
      RoundsAre(key, s, i - 1);
      var t := Rounds(keys, s, i - 1);
      SubstitutedIs(t);
      TurnedIs(SubBytes(t));
      MixedIs(SubShift(t));
      KeyedIs(key, i, MixColumns(SubShift(t)));
    }
  }

  /** For every key of a good size, encrypting a block under the expanded key is the cipher of FIPS 197 under the key. */
  lemma EncryptedIsCipher(key: seq<bv8>, b: Block)
    requires |key| in {16, 24, 32}
    ensures Encrypted(Expanded(key), b) == CipherBytes(key, b)
  {
    hide ToBytes, ToState, AddKey, ShiftRows, SubBytes, Expanded, Rounds, RoundBytes;
    var nr, s := RoundCount(|key|), ToState(b);
    BytesOfState(b);
    RoundsAre(key, s, nr - 1);
    var t := Rounds(Expanded(key), s, nr - 1);
    SubstitutedIs(t);
    TurnedIs(SubBytes(t));
    KeyedIs(key, nr, SubShift(t));
  }
}
