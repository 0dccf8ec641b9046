/** encrypt_state and decrypt_state: the rounds over a state of four words, updated in place, and that
    decryption undoes encryption under any list of at least two round keys. */
module AesState {
  import opened AesWord

  type Word = AesWord.Word
  const ZERO_STATE: seq<Word> := [0, 0, 0, 0]
  type State = s: seq<Word> | |s| == 4 witness ZERO_STATE
  type Block = s: seq<bv8> | |s| == 16 witness seq(16, _ => 0)
  // expand_key returns between eleven and fifteen keys; the rounds need two.
  type RoundKeys = k: seq<State> | |k| >= 2 witness [ZERO_STATE, ZERO_STATE]

  // ---- the steps on a whole state ----

  function XorWord(a: Word, b: Word): Word {
    a ^ b
  }

  function AddKey(s: State, key: State): State {
    [XorWord(s[0], key[0]), XorWord(s[1], key[1]), XorWord(s[2], key[2]), XorWord(s[3], key[3])]
  }

  function SubBytes(s: State): State {
    [SubWord(s[0]), SubWord(s[1]), SubWord(s[2]), SubWord(s[3])]
  }

  function InvSubBytes(s: State): State {
    [InvSubWord(s[0]), InvSubWord(s[1]), InvSubWord(s[2]), InvSubWord(s[3])]
  }

  function MixColumns(s: State): State {
    [MixWord(s[0]), MixWord(s[1]), MixWord(s[2]), MixWord(s[3])]
  }

  function InvMixColumns(s: State): State {
    [InvMixWord(s[0]), InvMixWord(s[1]), InvMixWord(s[2]), InvMixWord(s[3])]
  }

  // Row r of the state is byte r of every word; section 5.1.2 of FIPS 197 turns it left by r places.
  function Diagonally(a: Word, b: Word, c: Word, d: Word): Word {
    Join(Byte0(a), Byte1(b), Byte2(c), Byte3(d))
  }

  function ShiftRows(s: State): State {
    [Diagonally(s[0], s[1], s[2], s[3]), Diagonally(s[1], s[2], s[3], s[0]),
     Diagonally(s[2], s[3], s[0], s[1]), Diagonally(s[3], s[0], s[1], s[2])]
  }

  function InvShiftRows(s: State): State {
    [Diagonally(s[0], s[3], s[2], s[1]), Diagonally(s[1], s[0], s[3], s[2]),
     Diagonally(s[2], s[1], s[0], s[3]), Diagonally(s[3], s[2], s[1], s[0])]
  }

  lemma XorTwice(a: Word, b: Word)
    ensures XorWord(XorWord(a, b), b) == a
  {
  }

  lemma AddKeyInverse(s: State, key: State)
    ensures AddKey(AddKey(s, key), key) == s
  {
    hide XorWord;
    XorTwice(s[0], key[0]);
    XorTwice(s[1], key[1]);
    XorTwice(s[2], key[2]);
    XorTwice(s[3], key[3]);
  }

  lemma SubBytesInverse(s: State)
    ensures InvSubBytes(SubBytes(s)) == s
  {
    hide SubWord, InvSubWord;
    SubWordInverse(s[0]);
    SubWordInverse(s[1]);
    SubWordInverse(s[2]);
    SubWordInverse(s[3]);
  }

  lemma MixColumnsInverse(s: State)
    ensures InvMixColumns(MixColumns(s)) == s
  {
    hide MixWord, InvMixWord;
    MixWordInverse(s[0]);
    MixWordInverse(s[1]);
    MixWordInverse(s[2]);
    MixWordInverse(s[3]);
  }

  lemma Undiagonal(a: Word, b: Word, c: Word, d: Word)
    ensures Diagonally(Diagonally(a, b, c, d), Diagonally(d, a, b, c),
                       Diagonally(c, d, a, b), Diagonally(b, c, d, a)) == a
  {
    hide Join, Byte0, Byte1, Byte2, Byte3;
    BytesOfJoin(Byte0(a), Byte1(b), Byte2(c), Byte3(d));
    BytesOfJoin(Byte0(d), Byte1(a), Byte2(b), Byte3(c));
    BytesOfJoin(Byte0(c), Byte1(d), Byte2(a), Byte3(b));
    BytesOfJoin(Byte0(b), Byte1(c), Byte2(d), Byte3(a));
    JoinBytes(a);
  }

  lemma ShiftRowsInverse(s: State)
    ensures InvShiftRows(ShiftRows(s)) == s
  {
    hide Diagonally;
    Undiagonal(s[0], s[1], s[2], s[3]);
    Undiagonal(s[1], s[2], s[3], s[0]);
    Undiagonal(s[2], s[3], s[0], s[1]);
    Undiagonal(s[3], s[0], s[1], s[2]);
  }

  // ---- the rounds ----

  function SubShift(s: State): State {
    ShiftRows(SubBytes(s))
  }

  function UnshiftUnsub(s: State): State {
    InvSubBytes(InvShiftRows(s))
  }

  // The state after the initial key and i full rounds.
  function Rounds(keys: RoundKeys, s: State, i: nat): State
    requires i < |keys|
  {
    if i == 0 then AddKey(s, keys[0])
    else AddKey(MixColumns(SubShift(Rounds(keys, s, i - 1))), keys[i])
  }

  function Cipher(keys: RoundKeys, s: State): State {
    AddKey(SubShift(Rounds(keys, s, |keys| - 2)), keys[|keys| - 1])
  }

  // Undoing rounds i, i - 1, ... 1.
  function Unrounds(keys: RoundKeys, s: State, i: nat): State
    requires i < |keys|
    decreases i
  {
    if i == 0 then s
    else Unrounds(keys, UnshiftUnsub(InvMixColumns(AddKey(s, keys[i]))), i - 1)
  }

  function InvCipher(keys: RoundKeys, s: State): State {
    AddKey(Unrounds(keys, UnshiftUnsub(AddKey(s, keys[|keys| - 1])), |keys| - 2), keys[0])
  }

  lemma SubShiftInverse(s: State)
    ensures UnshiftUnsub(SubShift(s)) == s
  {
    hide SubBytes, InvSubBytes, ShiftRows, InvShiftRows;
    ShiftRowsInverse(SubBytes(s));
    SubBytesInverse(s);
  }

  lemma {:induction false} UnroundsRounds(keys: RoundKeys, s: State, i: nat)
    requires i < |keys|
    ensures Unrounds(keys, Rounds(keys, s, i), i) == AddKey(s, keys[0])
    decreases i
  {
    hide AddKey, MixColumns, InvMixColumns, SubShift, UnshiftUnsub;
    if i == 0 {
    } else {
      var t := Rounds(keys, s, i - 1);
      AddKeyInverse(MixColumns(SubShift(t)), keys[i]);
      MixColumnsInverse(SubShift(t));
      SubShiftInverse(t);
      UnroundsRounds(keys, s, i - 1);
    }
  }

  /** decrypt_state undoes encrypt_state. */
  lemma CipherInverse(keys: RoundKeys, s: State)
    ensures InvCipher(keys, Cipher(keys, s)) == s
  {
    hide AddKey, SubShift, UnshiftUnsub, Rounds, Unrounds;
    var last := |keys| - 1;
    var t := Rounds(keys, s, last - 1);
    AddKeyInverse(SubShift(t), keys[last]);
    SubShiftInverse(t);
    UnroundsRounds(keys, s, last - 1);
    AddKeyInverse(s, keys[0]);
  }

  // ---- states and bytes: memcpy into little-endian words ----

  function ToState(b: Block): State {
    [Join(b[0], b[1], b[2], b[3]), Join(b[4], b[5], b[6], b[7]),
     Join(b[8], b[9], b[10], b[11]), Join(b[12], b[13], b[14], b[15])]
  }

  function WordBytes(w: Word): seq<bv8> {
    [Byte0(w), Byte1(w), Byte2(w), Byte3(w)]
  }

  function ToBytes(s: State): Block {
    WordBytes(s[0]) + WordBytes(s[1]) + WordBytes(s[2]) + WordBytes(s[3])
  }

  lemma StateOfBytes(s: State)
    ensures ToState(ToBytes(s)) == s
  {
    hide Join, Byte0, Byte1, Byte2, Byte3;
    JoinBytes(s[0]);
    JoinBytes(s[1]);
    JoinBytes(s[2]);
    JoinBytes(s[3]);
  }

  lemma BytesOfState(b: Block)
    ensures ToBytes(ToState(b)) == b
  {
    hide Join, Byte0, Byte1, Byte2, Byte3;
    BytesOfJoin(b[0], b[1], b[2], b[3]);
    BytesOfJoin(b[4], b[5], b[6], b[7]);
    BytesOfJoin(b[8], b[9], b[10], b[11]);
    BytesOfJoin(b[12], b[13], b[14], b[15]);
  }

  function Encrypted(keys: RoundKeys, b: Block): Block {
    ToBytes(Cipher(keys, ToState(b)))
  }

  function Decrypted(keys: RoundKeys, b: Block): Block {
    ToBytes(InvCipher(keys, ToState(b)))
  }

  lemma BlockInverse(keys: RoundKeys, b: Block)
    ensures Decrypted(keys, Encrypted(keys, b)) == b
  {
    hide ToState, ToBytes, Cipher, InvCipher;
    StateOfBytes(Cipher(keys, ToState(b)));
    CipherInverse(keys, ToState(b));
    BytesOfState(b);
  }
}
