/** expand_key: the key schedule of section 5.2 of FIPS 197 for keys of 16, 24 and 32 bytes. */
module AesKey {
  import opened AesTables
  import opened AesWord
  import opened AesState
  import opened CanonicalCode

  predicate KeySizeOk(size: nat) {
    size == 16 || size == 24 || size == 32
  }

  function RoundCount(size: nat): (nr: nat)
    requires KeySizeOk(size)
    ensures 10 <= nr <= 14
  {
    if size == 16 then 10 else if size == 24 then 12 else 14
  }

  const RCON: seq<Word> := [0x00, 0x01, 0x02, 0x04, 0x08, 0x10, 0x20, 0x40, 0x80, 0x1B, 0x36]

  function RotWord(v: Word): Word {
    ((v >> 8) & 0x00FFFFFF) | ((v & 0xFF) << 24)
  }

  function KeyWord(key: seq<bv8>, i: nat): Word
    requires 4 * i + 4 <= |key|
  {
    Join(key[4 * i], key[4 * i + 1], key[4 * i + 2], key[4 * i + 3])
  }

  // What is added to word i - nk of the schedule, given word i - 1.
  function Turned(nk: nat, i: nat, t: Word): Word
    requires (nk == 4 || nk == 6 || nk == 8) && i < 11 * nk
  {
    if i % nk == 0 then XorWord(SubWord(RotWord(t)), RCON[i / nk])
    else if nk > 6 && i % nk == 4 then SubWord(t)
    else t
  }

  function ScheduleWord(key: seq<bv8>, i: nat): Word
    requires KeySizeOk(|key|) && i < 4 * (RoundCount(|key|) + 1)
  {
    var nk := |key| / 4;
    if i < nk then KeyWord(key, i)
    else XorWord(Turned(nk, i, ScheduleWord(key, i - 1)), ScheduleWord(key, i - nk))
  }

  function RoundKey(key: seq<bv8>, r: nat): State
    requires KeySizeOk(|key|) && r <= RoundCount(|key|)
  {
    [ScheduleWord(key, 4 * r), ScheduleWord(key, 4 * r + 1), ScheduleWord(key, 4 * r + 2), ScheduleWord(key, 4 * r + 3)]
  }

  function RoundKeysFrom(key: seq<bv8>, r: nat): (keys: seq<State>)
    requires KeySizeOk(|key|) && r <= RoundCount(|key|) + 1
    ensures |keys| == r
  {
    if r == 0 then [] else RoundKeysFrom(key, r - 1) + [RoundKey(key, r - 1)]
  }

  function Expanded(key: seq<bv8>): (keys: RoundKeys)
    requires KeySizeOk(|key|)
    ensures |keys| == RoundCount(|key|) + 1
  {
    RoundKeysFrom(key, RoundCount(|key|) + 1)
  }

  lemma ScheduleFirst(key: seq<bv8>, i: nat)
    requires KeySizeOk(|key|) && 4 * i < |key|
    ensures i < 4 * (RoundCount(|key|) + 1) && 4 * i + 4 <= |key| && ScheduleWord(key, i) == KeyWord(key, i)
  {
    hide KeyWord, Turned, XorWord;
  }

  // Recurrence of the schedule with nk = |key| / 4.
  lemma ScheduleNext(key: seq<bv8>, i: nat, nk: nat)
    requires KeySizeOk(|key|) && nk == |key| / 4 && nk <= i < 4 * (RoundCount(|key|) + 1)
    ensures (nk == 4 || nk == 6 || nk == 8) && i < 11 * nk
    ensures ScheduleWord(key, i) == XorWord(Turned(nk, i, ScheduleWord(key, i - 1)), ScheduleWord(key, i - nk))
  {
    hide KeyWord, Turned, XorWord;
  }

  // ---- the schedule on bytes (section 5.2 of FIPS 197) ----

  function WordByte(w: Word, c: nat): bv8
    requires c < 4
  {
    if c == 0 then Byte0(w) else if c == 1 then Byte1(w) else if c == 2 then Byte2(w) else Byte3(w)
  }

  // x to the power of i - 1 in GF(2^8), by doubling.
  function PowerOfX(i: nat): bv8
    requires i >= 1
  {
    if i == 1 then 1 else Mul2(PowerOfX(i - 1))
  }

  /** The round constants are the powers of x, in the lowest byte of the word. */
  lemma {:induction false} RconIs(i: nat)
    requires 1 <= i <= 10
    ensures RCON[i] == Join(PowerOfX(i), 0, 0, 0)
  {
    if i > 1 {
      RconIs(i - 1);
      RconDoubles(i - 1);
    }
  }

  lemma RconDoubles(i: nat)
    requires 1 <= i <= 9
    ensures RCON[i + 1] == Join(Mul2(Byte0(RCON[i])), 0, 0, 0) && RCON[i] == Join(Byte0(RCON[i]), 0, 0, 0)
  {
  }

  lemma XorByte0(v: Word, w: Word)
    ensures Byte0(XorWord(v, w)) == Add(Byte0(v), Byte0(w))
  {
  }

  lemma XorByte1(v: Word, w: Word)
    ensures Byte1(XorWord(v, w)) == Add(Byte1(v), Byte1(w))
  {
  }

  lemma XorByte2(v: Word, w: Word)
    ensures Byte2(XorWord(v, w)) == Add(Byte2(v), Byte2(w))
  {
  }

  lemma XorByte3(v: Word, w: Word)
    ensures Byte3(XorWord(v, w)) == Add(Byte3(v), Byte3(w))
  {
  }

  lemma ByteOfXor(v: Word, w: Word, c: nat)
    requires c < 4
    ensures WordByte(XorWord(v, w), c) == Add(WordByte(v, c), WordByte(w, c))
  {
    hide Byte0, Byte1, Byte2, Byte3, XorWord, Add;
    XorByte0(v, w);
    XorByte1(v, w);
    XorByte2(v, w);
    XorByte3(v, w);
  }

  lemma RotByte(w: Word, c: nat)
    requires c < 4
    ensures WordByte(RotWord(w), c) == WordByte(w, (c + 1) % 4)
  {
  }

  lemma JoinByte(b0: bv8, b1: bv8, b2: bv8, b3: bv8, c: nat)
    requires c < 4
    ensures WordByte(Join(b0, b1, b2, b3), c) == [b0, b1, b2, b3][c]
  {
    hide Join, Byte0, Byte1, Byte2, Byte3;
    BytesOfJoin(b0, b1, b2, b3);
  }

  lemma SubByte(w: Word, c: nat)
    requires c < 4
    ensures WordByte(SubWord(w), c) == Sbox(WordByte(w, c))
  {
    hide Join, Byte0, Byte1, Byte2, Byte3, Sbox;
    BytesOfJoin(Sbox(Byte0(w)), Sbox(Byte1(w)), Sbox(Byte2(w)), Sbox(Byte3(w)));
  }

  // The schedule of section 5.2 of FIPS 197 on bytes, for byte c of word i. The first words are the key. Every further
  // byte is the one a key length before it plus a byte of the previous word: at each key length the next byte around,
  // substituted, and in the first byte the power of x; half way through a key length of eight words substituted;
  // otherwise as it is.
  function ScheduleByte(key: seq<bv8>, i: nat, c: nat): bv8
    requires KeySizeOk(|key|) && c < 4
    decreases i
  {
    var nk := |key| / 4;
    if i < nk then key[4 * i + c]
    else if i % nk == 0 then
      var turned := Sbox(ScheduleByte(key, i - 1, (c + 1) % 4));
      Add(ScheduleByte(key, i - nk, c), if c == 0 then Add(turned, PowerOfX(i / nk)) else turned)
    else if nk == 8 && i % nk == 4 then Add(ScheduleByte(key, i - nk, c), Sbox(ScheduleByte(key, i - 1, c)))
    else Add(ScheduleByte(key, i - nk, c), ScheduleByte(key, i - 1, c))
  }

  lemma TurnedByte(nk: nat, i: nat, t: Word, c: nat)
    requires (nk == 4 || nk == 6 || nk == 8) && nk <= i < 11 * nk && c < 4
    ensures WordByte(Turned(nk, i, t), c) ==
            if i % nk == 0 then
              Add(Sbox(WordByte(t, (c + 1) % 4)), if c == 0 then PowerOfX(i / nk) else 0)
            else if nk == 8 && i % nk == 4 then Sbox(WordByte(t, c))
            else WordByte(t, c)
  {
    hide XorWord, SubWord, RotWord, Join, WordByte, Sbox, PowerOfX, Add;
    if i % nk == 0 {
      ByteOfXor(SubWord(RotWord(t)), RCON[i / nk], c);
      SubByte(RotWord(t), c);
      RotByte(t, c);
      RconIs(i / nk);
      JoinByte(PowerOfX(i / nk), 0, 0, 0, c);
    } else {
      SubByte(t, c);
    }
  }

  // A new word, byte by byte, from the previous word and the one a key length before.
  lemma NextWordByte(nk: nat, i: nat, t: Word, u: Word, c: nat)
    requires (nk == 4 || nk == 6 || nk == 8) && nk <= i < 11 * nk && c < 4
    ensures WordByte(XorWord(Turned(nk, i, t), u), c) ==
            if i % nk == 0 then
              var turned := Sbox(WordByte(t, (c + 1) % 4));
              Add(WordByte(u, c), if c == 0 then Add(turned, PowerOfX(i / nk)) else turned)
            else if nk == 8 && i % nk == 4 then Add(WordByte(u, c), Sbox(WordByte(t, c)))
            else Add(WordByte(u, c), WordByte(t, c))
  {
    hide XorWord, Turned, WordByte, Sbox, PowerOfX, Add;
    TurnedByte(nk, i, t, c);
    ByteOfXor(Turned(nk, i, t), u, c);
    AddCommutes(WordByte(Turned(nk, i, t), c), WordByte(u, c));
    AddZero(Sbox(WordByte(t, (c + 1) % 4)));
  }

  lemma FirstBytes(key: seq<bv8>, i: nat, c: nat)
    requires KeySizeOk(|key|) && 4 * i < |key| && c < 4
    ensures i < 4 * (RoundCount(|key|) + 1) && 4 * i + 4 <= |key| && WordByte(ScheduleWord(key, i), c) == key[4 * i + c]
  {
    hide Join, WordByte, ScheduleWord;
    ScheduleFirst(key, i);
    JoinByte(key[4 * i], key[4 * i + 1], key[4 * i + 2], key[4 * i + 3], c);
  }

  lemma {:induction false} ScheduleBytes(key: seq<bv8>, i: nat, c: nat)
    requires KeySizeOk(|key|) && i < 4 * (RoundCount(|key|) + 1) && c < 4
    ensures WordByte(ScheduleWord(key, i), c) == ScheduleByte(key, i, c)
    decreases i
  {
    hide XorWord, Turned, Join, WordByte, Sbox, ScheduleWord, PowerOfX, Add;
    var nk := |key| / 4;
    if i < nk {
      FirstBytes(key, i, c);
    } else {
      ScheduleNext(key, i, nk);
      hide RoundCount;
      ScheduleBytes(key, i - 1, c);
      ScheduleBytes(key, i - 1, (c + 1) % 4);
      ScheduleBytes(key, i - nk, c);
      NextWordByte(nk, i, ScheduleWord(key, i - 1), ScheduleWord(key, i - nk), c);
    }
  }

  lemma {:induction false} RoundKeyAt(key: seq<bv8>, n: nat, r: nat)
    requires KeySizeOk(|key|) && r < n <= RoundCount(|key|) + 1
    ensures RoundKeysFrom(key, n)[r] == RoundKey(key, r)
  {
    hide RoundKey;
    if r < n - 1 {
      RoundKeyAt(key, n - 1, r);
    }
  }

  /** Round key r is the four schedule words from 4r on, byte for byte. */
  lemma ExpandedBytes(key: seq<bv8>, r: nat, w: nat, c: nat)
    requires KeySizeOk(|key|) && r <= RoundCount(|key|) && w < 4 && c < 4
    ensures WordByte(Expanded(key)[r][w], c) == ScheduleByte(key, 4 * r + w, c)
  {
    hide ScheduleWord, WordByte, ScheduleByte;
    RoundKeyAt(key, RoundCount(|key|) + 1, r);
    ScheduleBytes(key, 4 * r + w, c);
  }

  predicate FilledTo(w: array<Word>, key: seq<bv8>, i: nat)
    requires KeySizeOk(|key|) && w.Length == 4 * (RoundCount(|key|) + 1) && i <= w.Length
    reads w
  {
    forall k :: 0 <= k < i ==> w[k] == ScheduleWord(key, k)
  }

  method FillSchedule(key: seq<bv8>, w: array<Word>)
    requires KeySizeOk(|key|) && w.Length == 4 * (RoundCount(|key|) + 1)
    modifies w
    ensures FilledTo(w, key, w.Length)
  {
    hide XorWord, Turned, KeyWord, ScheduleWord, RoundCount;
    var nk := |key| / 4;
    ScheduleFirst(key, 0);
    ScheduleFirst(key, nk - 1);
    for i := 0 to nk
      invariant FilledTo(w, key, i)
    {
      ScheduleFirst(key, i);
      w[i] := KeyWord(key, i);
    }
    for i := nk to w.Length
      invariant FilledTo(w, key, i)
    {
      ScheduleNext(key, i, nk);
      w[i] := XorWord(Turned(nk, i, w[i - 1]), w[i - nk]);
    }
  }

  method ReadRoundKey(key: seq<bv8>, w: array<Word>, r: nat) returns (k: State)
    requires KeySizeOk(|key|) && w.Length == 4 * (RoundCount(|key|) + 1) && r <= RoundCount(|key|)
    requires FilledTo(w, key, w.Length)
    ensures k == RoundKey(key, r)
  {
    hide ScheduleWord, RoundCount;
    k := [w[4 * r], w[4 * r + 1], w[4 * r + 2], w[4 * r + 3]];
  }

  /** expand_key: None stands for the exception on any other key size. */
  method ExpandKey(key: seq<bv8>) returns (keys: Option<RoundKeys>)
    ensures keys == if KeySizeOk(|key|) then Some(Expanded(key)) else None
    ensures keys.Some? <==> |key| in {16, 24, 32}
    ensures keys.Some? ==> |keys.value| == |key| / 4 + 7
  {
    if !KeySizeOk(|key|) {
      return None;
    }
    hide ScheduleWord, FilledTo, RoundKey;
    var nr := RoundCount(|key|);
    var w := new Word[4 * (nr + 1)];
    FillSchedule(key, w);
    var rows: seq<State> := [];
    for r := 0 to nr + 1
      invariant rows == RoundKeysFrom(key, r)
      invariant FilledTo(w, key, w.Length)
    {
      var k := ReadRoundKey(key, w, r);
      rows := rows + [k];
    }
    keys := Some(rows);
  }
}
