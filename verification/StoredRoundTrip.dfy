/** Reading the stored-block fallback of the writer gives the data back, unless there is no data:
    then the writer emits no block at all, and its output is refused. */
module StoredRoundTrip {
  import opened Bits
  import opened CanonicalCode
  import opened Inflate
  import opened Deflate
  import opened ZBufReader
  import opened ZlibStream

  lemma ChunkWords(n: nat)
    requires n <= 32767
    ensures Word16(n % 256, n / 256) == n
    ensures Word16(255 - n % 256, 255 - n / 256) == 0xFFFF - n
  {
  }

  lemma FirstByte(final: bool, x: seq<bool>)
    ensures var bits := ByteBits(if final then 1 else 0) + x;
            bits[0] == final && BitsNat(bits[1..3]) == 0 && bits[3..][5..] == x
  {
    var f := if final then 1 else 0;
    assert NatBits(f, 8) == [final, false, false, false, false, false, false, false];
    var bits := ByteBits(f) + x;
    assert bits[1..3] == [false, false];
    assert bits[3..][5..] == bits[8..] == x;
  }

  // One chunk is read as a stored block; the reader discards five bits after the block header.
  lemma ChunkRead(data: seq<byte>, final: bool, tail: seq<byte>, out: seq<byte>)
    requires |data| <= 32767
    ensures InflateBlocks(BytesBits(StoredChunk(data, final) + tail), out)
            == if final then Some(Progress(out + data, BytesBits(tail)))
               else InflateBlocks(BytesBits(tail), out + data)
  {
    hide ByteBits, BytesBits, StoredBlock, BitsNat;
    var n := |data|;
    var header: seq<byte> := [n % 256, n / 256, 255 - n % 256, 255 - n / 256];
    var f: byte := if final then 1 else 0;
    var rest := header + (data + tail);
    assert StoredChunk(data, final) + tail == [f] + rest;
    BytesBitsCons(f, rest);
    var bits := ByteBits(f) + BytesBits(rest);
    FirstByte(final, BytesBits(rest));
    assert |bits[3..]| % 8 == 5;
    StoredAligned(bits[3..], out);
    BytesBitsConcat(header, data + tail);
    ChunkWords(n);
    StoredMeaning(BytesBits(rest), header, data + tail, out);
    assert (data + tail)[..n] == data && (data + tail)[n..] == tail;
  }

  lemma {:induction false} ChunksRead(data: seq<byte>, tail: seq<byte>, out: seq<byte>)
    requires data != []
    ensures InflateBlocks(BytesBits(StoredChunks(data) + tail), out) == Some(Progress(out + data, BytesBits(tail)))
    decreases |data|
  {
    hide InflateBlocks, StoredChunk, BytesBits;
    if |data| <= 32767 {
      ChunkRead(data, true, tail, out);
    } else {
      var first, others := data[..32767], data[32767..];
      ChunksRead(others, tail, out + first);
      ChunkRead(first, false, StoredChunks(others) + tail, out);
      assert StoredChunks(data) + tail == StoredChunk(first, false) + (StoredChunks(others) + tail);
      assert out + first + others == out + data;
    }
  }
}
