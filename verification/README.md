# Verified models of shadPS4's codecs, containers and protocols

This project models parts of the shadPS4 source in Dafny 4.11 and proves what they are relied on for. Nothing of the
original program is run; every statement is about the model, and the table below says which lines each member models.

| part | files |
|---|---|
| PNG and DEFLATE, writer and reader | `Bits`, `BitReverse`, `CanonicalCode`, `HuffmanTable`, `Inflate`, `InflateProgress`, `FixedCode`, `ZBuf`, `ZlibDecoder`, `DynamicCodes`, `ZlibStream`, `Deflate`, `StoredRoundTrip`, `ZlibWriter`, `ZlibCompress`, `DynamicHeader`, `DeflateStream`, `PngFilter`, `PngImage`, `PngFile`, `PngScan`, `Png` |
| AES: block cipher, CBC, CTR, GHASH | `AesTables`, `AesWord`, `AesState`, `AesRounds`, `AesField`, `AesKey`, `AesReference`, `AesCbc`, `AesCbcCalls`, `AesCtr`, `Ghash` |
| flight recorder and its reader | `LittleEndian`, `FlightRecord`, `FlightRecorder`, `FlightRuns`, `FlightCounters`, `FlightReader` |
| concurrency protocols | `RangeLock`, `SpscQueue`, `SpscCalls` |
| containers | `LruCache`, `Word64`, `BitArray`, `SlotVector` |
| plugin host | `PluginHost` |
| wide arithmetic, clock, serialization | `Uint128`, `Serdes` |
| shared facts | `Arithmetic`, `Sequences` |

The main results:

- Compressing any non-empty buffer at any quality and decoding it gives the buffer back, and the decoder refuses the
  output for the empty buffer. Writing any 8-bit image and loading it gives the pixels back if and only if the image and
  the file are within the reader's limits.
- The decoder's meaning of a bit string is exactly a stream of stored, fixed and dynamic blocks written after section 3.2
  of RFC 1951, and the image scanner's exactly a file of header, pieces and end: both accept what an independent writer
  writes, and nothing else.
- Huffman decoding through the fast table and the slow path finds a symbol exactly when its canonical code starts the
  unread bits.
- Block encryption under a key is the cipher of FIPS 197 on bytes, key schedule and substitution table included.
- CBC decryption with padding removal returns what was encrypted, for every key size, vector and length; the GCM
  multiplication is the remainder of the polynomial product, commutes, associates and distributes, and the hash is a
  polynomial in its key.
- At every point of every interleaving of flight recorder calls, a record the reader accepts is the complete image of an
  event recorded under that sequence; calls in order leave exactly the last records in the window.
- No interleaving of range locks leads to a circular wait, and a return means the whole range is held. The queue is first
  in, first out across index wrap-around, overwrites nothing, loses no wake-up, and no call comes back without having
  moved its value unless it had to fail.
- The bit array, the slot vector and the cache agree with a set, a map and a sorted list. The plugin host calls plugins
  only while they are initialized, numbers events consecutively and closes every module once.
- The clock conversion is exact to within one at every counter value if and only if the unit is coarser than the counter.

How things are modelled:

- Code that updates objects, buffers or loops over state is a class or a method with loop invariants, specified by
  functions on values; the lemmas are about those functions. Pointers inside one container are indices.
- The flight recorder, the range locks and the queue are step machines under sequential consistency. A crash snapshot is
  any state between two steps. The queue's producer stands for whichever thread holds `write_mutex`, and its consumer
  for the holder of `read_mutex`, in the wrappers for several producers or consumers.
- 32-bit bit buffers are natural numbers with their shifts written out; words of the AES state, of bit sets and of
  counters are bit-vectors; 64-bit arithmetic wraps where the source's does.
- Checksums are parameters: this reader never compares them. What plugins, visitors and the dynamic loader do is an
  arbitrary script. The time stamp counter is an input.
- Where the source's own comments and its code differ, the model follows the code: `externals/stb/stb_image_write.h:1166` says the
  last filter is not redone when it was the best, but the loop variable is then 5 and the best filter is always redone;
  `src/common/lru_cache.h:58` intends a visitor returning `bool` to stop the visit, but compares the wrong type, so no visit stops;
  `src/common/native_clock.cpp` is exact only for units coarser than the counter.

Conditions that the source leaves to its callers and the model states as preconditions: an id handed to `Touch`, `Free`
or `erase` is live; `Set`, `Unset` and `Get` are inside the array, which has at least one word; `decrypt_cbc` of one block
has an output buffer of sixteen bytes, which the source writes before it looks at the size, and is not called on an empty
message without padding; `encrypt_cbc` of an empty message without padding has sixteen bytes too.

## Model

| member | source | states |
|---|---|---|
| BitReversal.Swap16 | externals/stb/stb_image.h:4107-4114 | the four mask-and-shift steps put bit k of a 16-bit word at position 15 - k, for all sixteen bits |
| BitReversal.BitReverseReverses | externals/stb/stb_image.h:4107-4121 | for every length up to 16 the result's bits are the reverse of the value's bits, and it fits that length |
| CanonicalCode.PrefixFree | externals/stb/stb_image.h:4124-4169 | for an accepted length list no bit string starts with the codes of two different symbols |
| CanonicalCode.SymbolIff | externals/stb/stb_image.h:4124-4169 | the symbol of a bit string is i exactly when i has a code and that code is a prefix of the string |
| CanonicalCode.AcceptsIffKraft | externals/stb/stb_image.h:4137-4151 | the per-level test of the builder accepts a length list exactly when the Kraft sum of its codes is at most one |
| CanonicalCode.FirstCodeZero | externals/stb/stb_image.h:4140-4147 | the used symbol that comes first, by length and then by number, has the code zero |
| CanonicalCode.NextCode | externals/stb/stb_image.h:4140-4147 | every further used symbol, by length and then by number, has the code before it plus one, shifted left to its own length |
| HuffmanTable.ZHuffman.Build | externals/stb/stb_image.h:4124-4169 | the builder succeeds exactly on the lists whose levels fit, and then the fast table, the level limits and the symbol lists stand for the canonical code of section 3.2.2 of RFC 1951 |
| HuffmanTable.FastLookup | externals/stb/stb_image.h:4152-4169 | a non-zero fast entry names the symbol and length of the code that starts the next nine bits; a zero entry means that no code of at most nine bits does |
| HuffmanTable.LevelSymbol | externals/stb/stb_image.h:4224-4241 | when the reversed window lies in the range of level l, the symbol at the computed position is the one whose code starts the bits, and its code has l bits |
| HuffmanTable.BeyondShortLevels | externals/stb/stb_image.h:4224-4234 | without a code of at most nine bits the window lies beyond every short level, so the slow path may start at ten |
| HuffmanTable.BeyondAllLevels | externals/stb/stb_image.h:4224-4241 | a window beyond level fifteen is the start of no code, so the slow path is right to give up |
| HuffmanTable.WindowTop | externals/stb/stb_image.h:4224-4231 | reversing the low sixteen buffered bits gives the number whose range is compared with the level limits |
| ZBufReader.ZBuf.Get8 | externals/stb/stb_image.h:4192-4200 | the next input byte, or zero without moving at the end of the input |
| ZBufReader.ZBuf.FillBits | externals/stb/stb_image.h:4202-4212 | at least 25 bits are buffered afterwards; the unread bit stream is unchanged up to zero bytes lent at its end, and none are lent while 32 bits remain |
| ZBufReader.ZBuf.Receive | externals/stb/stb_image.h:4214-4222 | takes exactly the next n bits of the unread stream, as a number with its low bit first |
| ZBufReader.ZBuf.HuffmanDecodeSlow | externals/stb/stb_image.h:4224-4241 | beyond the fast table: the symbol whose code starts the unread bits, consuming exactly its length, or -1 consuming nothing when no code matches |
| ZBufReader.ZBuf.HuffmanLookup | externals/stb/stb_image.h:4258-4271 | fast table and slow path together decode a symbol exactly when its code starts the unread bits, consume its length, and answer -1 otherwise |
| ZBufReader.ZBuf.HuffmanDecode | externals/stb/stb_image.h:4243-4271 | decodes a symbol exactly when its code starts the unread bits, refilling first; past the end of the input zero bits are lent once and a second time is an error |
| ZBufReader.ZBuf.Expand | externals/stb/stb_image.h:4273-4296 | room for n more bytes whenever the buffer may grow and the total stays within a signed 32-bit size |
| ZBufReader.ZBuf.EmitCopy | externals/stb/stb_image.h:4341-4350 | appends the overlapping copy of len bytes from dist back, byte after byte |
| ZBufReader.ZBuf.DecodeMatch | externals/stb/stb_image.h:4325-4336 | length and distance of a back reference are those of sections 3.2.5 of RFC 1951, with their extra bits |
| ZlibDecoder.DecodeStep | externals/stb/stb_image.h:4309-4356 | one turn of the block loop does what one symbol of the compressed block means: a byte, a copy, or the end; whatever the format defines is not refused |
| ZlibDecoder.ParseHuffmanBlock | externals/stb/stb_image.h:4309-4357 | accepts and decodes a Huffman block exactly as its meaning as a bit string says, in both directions |
| DynamicCodes.ComputeHuffmanCodes | externals/stb/stb_image.h:4359-4407 | both tables stand for the code lengths that the header of a dynamic block describes, and a header with a meaning is accepted |
| DynamicHeader.DezigzagOrder | externals/stb/stb_image.h:4361 | the order of the code-length code in closed form: 16, 17, 18, 0, then the lengths around eight, one up and one down in turn, all nineteen distinct |
| DynamicHeader.HeaderRoundTrip | externals/stb/stb_image.h:4359-4407 | a header written after section 3.2.7 of RFC 1951 (counts less 257, 1 and 4, sizes at the places of the closed form, literal lengths and runs 16, 17 and 18) is read as exactly the two codes it describes, and what follows is left |
| DynamicHeader.HeaderReadIff | externals/stb/stb_image.h:4359-4407 | two codes are read from a bit string if and only if it starts with such a header for them |
| DynamicHeader.EveryPairIsDescribed | externals/stb/stb_image.h:4359-4407 | every two acceptable codes of the sizes the counts can express have such a header |
| DeflateStream.LengthTable | externals/stb/stb_image.h:4295-4301 | base and extra bits of every length code in closed form: each base is the one before plus two to the power of its extra bits, and 258 stands apart |
| DeflateStream.DistTable | externals/stb/stb_image.h:4303-4307 | base and extra bits of every distance code in closed form |
| DeflateStream.CommandsRead | externals/stb/stb_image.h:4309-4357 | bytes and copies sent in any two codes are read as what they stand for, up to the end-of-block symbol |
| DeflateStream.StreamRead | externals/stb/stb_image.h:4481-4508 | a stream of stored, fixed and dynamic blocks is read as the bytes it stands for, copies reaching back across blocks, and what follows is left |
| DeflateStream.StreamReadIff | externals/stb/stb_image.h:4481-4508 | the bytes come out of a bit string if and only if it is such a stream for them: the reader accepts nothing else |
| ZlibStream.ParseUncompressedBlock | externals/stb/stb_image.h:4409-4436 | a stored block is accepted exactly when its length matches its complement and its bytes are there, and they are appended |
| ZlibStream.ParseZlibHeader | externals/stb/stb_image.h:4438-4450 | the header check of RFC 1950 section 2.2 without a preset dictionary, compression method 8 only |
| ZlibStream.ParseBlock | externals/stb/stb_image.h:4492-4504 | each of the three block kinds is decoded as its bit string means; the fourth is refused |
| ZlibStream.ParseBlocks | externals/stb/stb_image.h:4481-4508 | the whole sequence of blocks is decoded as the bit string means, and ends: every block that lives on lent zero bits uses up a one bit |
| ZlibStream.ZlibDecode | externals/stb/stb_image.h:4510-4555 | the result of the decoder is the meaning of its input, and an input with a meaning, room for the output and a checksum behind it is accepted |
| InflateProgress.BlockUsesOnes | externals/stb/stb_image.h:4481-4508 | a block read from a stream followed by zero bits only leaves strictly fewer one bits, so the block loop cannot run forever past the end |
| FixedCode.FixedCodes | externals/stb/stb_image.h:4452-4479 | the canonical code of the fixed length list gives every literal and length symbol the code the writer's four formulas produce |
| FixedCode.DistCodes | externals/stb/stb_image.h:4464-4479 | every fixed distance code is its own number on five bits |
| Inflate.BlockStable | externals/stb/stb_image.h:4309-4357 | appending bits to a stream does not change what a block at its front means |
| Inflate.DynamicStable | externals/stb/stb_image.h:4359-4407 | appending bits does not change what the header of a dynamic block means |
| ZlibWriter.BitWriter.Flush | externals/stb/stb_image_write.h:839-847 | moving whole bytes from the bit buffer to the output does not change the bit string written so far, and leaves fewer than eight bits |
| ZlibWriter.BitWriter.Add | externals/stb/stb_image_write.h:880-881 | appends exactly the low bits of the code to the bit string written so far |
| ZlibWriter.BitRev | externals/stb/stb_image_write.h:849-857 | the reversed code of the given length |
| ZlibWriter.BitWriter.Huff | externals/stb/stb_image_write.h:883-888 | appends the fixed Huffman code of a symbol |
| ZlibWriter.BitWriter.AddMatch | externals/stb/stb_image_write.h:957-966 | appends length symbol, extra bits, distance symbol and extra bits of a back reference |
| ZlibWriter.BitWriter.PadToByte | externals/stb/stb_image_write.h:977-979 | fills the last byte with fewer than eight zero bits |
| Deflate.TokenRead | externals/stb/stb_image_write.h:957-971 | the reader turns the bits of one token into the bytes it stands for and consumes exactly those bits |
| Deflate.TokensRead | externals/stb/stb_image_write.h:915-973 | reading the bits of a token list gives the expansion of the list, whatever follows |
| Deflate.FixedBlockRead | externals/stb/stb_image_write.h:905-979 | a fixed block of valid tokens decodes to their expansion, and the rest of the stream is left |
| StoredRoundTrip.ChunkRead | externals/stb/stb_image_write.h:986-999 | one stored chunk of at most 32767 bytes decodes to its bytes and continues exactly when it is not the last |
| StoredRoundTrip.ChunksRead | externals/stb/stb_image_write.h:986-999 | the chunks of a non-empty buffer decode to the buffer |
| ZlibCompress.CountM | externals/stb/stb_image_write.h:859-865 | the number of equal bytes at the two positions, up to the limit and 258: the bytes agree and the count is maximal |
| ZlibCompress.FindBest | externals/stb/stb_image_write.h:917-926 | the longest in-window match of a hash chain of length three or more, with no longer one in the chain |
| ZlibCompress.BetterNext | externals/stb/stb_image_write.h:935-948 | lazy matching asks whether any in-window entry of the next byte's chain is longer |
| ZlibCompress.PushChain | externals/stb/stb_image_write.h:927-932 | the position is entered in its chain, after the older half is dropped when the chain is full; every entry stays earlier than the next position |
| ZlibCompress.ChooseMatch | externals/stb/stb_image_write.h:917-950 | a match is sent exactly when the chain has one of length three or more and the next byte's chain has no longer one, and it is a longest of the chain |
| ZlibCompress.CopyMatch | externals/stb/stb_image_write.h:957-967 | an overlapping copy from an equal earlier stretch extends the output by exactly the next bytes of the data |
| ZlibCompress.SendNext | externals/stb/stb_image_write.h:915-970 | each turn sends the first of the tokens of greedy matching with one byte of look-ahead, and its expansion is the next stretch of the data |
| ZlibCompress.SendData | externals/stb/stb_image_write.h:905-973 | the tokens sent are those of greedy matching with one byte of look-ahead over the chains, and the last three bytes are literals |
| ZlibCompress.CompressBody | externals/stb/stb_image_write.h:895-979 | the body is the fixed block of a token list that expands to the data |
| ZlibCompress.StoreInstead | externals/stb/stb_image_write.h:985-1000 | the fallback replaces the body by stored chunks and is shorter |
| ZlibCompress.Compress | externals/stb/stb_image_write.h:895-1021 | for every non-empty buffer and every quality the output decodes to the buffer, within the size bound of stored chunks, and it is the fixed block of the greedy tokens unless stored chunks are shorter; the empty buffer gives a header and a checksum |
| ZlibCompress.EmptyRefused | externals/stb/stb_image_write.h:986-999 | what is written for the empty buffer contains no block: no decoder accepts it, however many zero bits are lent |
| ZlibCompress.RoundTrip | externals/stb/stb_image_write.h:895-1021 | compressing and decoding gives the data back if and only if it is not empty; on empty data the decoder refuses |
| PngFilter.PaethFormsAgree | externals/stb/stb_image_write.h:1083-1090 | the writer's specification form of the Paeth predictor and the reader's branch-free form agree on all integers |
| PngFilter.DecodeEncode | externals/stb/stb_image_write.h:1092-1126 | decoding inverts encoding for each filter, first row included, for any row length and pixel size |
| PngFilter.EncodeDecode | externals/stb/stb_image_write.h:1092-1126 | encoding inverts decoding as well |
| PngFilter.KindsAgree | externals/stb/stb_image_write.h:1092-1125 | the first-row filter kinds of the writer's table compute the same bytes as the ordinary filters with a zero row above |
| PngFilter.EncodeLine | externals/stb/stb_image_write.h:1092-1126 | a line is filtered as section 9 of the PNG specification says, with either row order |
| PngImage.Estimate | externals/stb/stb_image_write.h:1156-1160 | the sum of the magnitudes of the filtered bytes taken as signed |
| PngImage.FilterRow | externals/stb/stb_image_write.h:1145-1170 | the forced filter, or the first one of least estimate, and the row encoded with it |
| PngImage.FilterImage | externals/stb/stb_image_write.h:1144-1174 | filter byte and encoded row for every row, each with the forced or the best filter |
| PngImage.CostIsWeight | externals/stb/stb_image_write.h:1145-1170 | for rows below 2^24 bytes the search compares the sums themselves: its starting value cuts nothing off |
| Png.WritePngToMem | externals/stb/stb_image_write.h:1128-1212 | the file consists of signature, header, one data chunk and end chunk, and the data chunk decodes to the filtered rows of the image |
| PngFilter.ReconAgrees | externals/stb/stb_image.h:4705-4713 | the first-row filter kinds of the reader's table compute the same bytes as the ordinary filters with a zero row above |
| PngFilter.DecodeLine | externals/stb/stb_image.h:4737-4787 | the current half of the row buffer becomes the decoded row and the prior half is left alone |
| PngImage.RowsReadBack | externals/stb/stb_image.h:4726-4787 | the reader's rows of filtered data are the rows that were filtered, for any filter choice per row |
| PngImage.AlphaExpand8 | externals/stb/stb_image.h:4675-4693 | an opaque alpha is inserted after each pixel, from the last to the first |
| PngImage.DecodeImage | externals/stb/stb_image.h:4726-4830 | rows are decoded with the two halves of the buffer swapped, and an unknown filter fails the image |
| PngImage.CreateImageRaw | externals/stb/stb_image.h:4696-4833 | the image of the decompressed data, or failure exactly when the sizes do not fit, data is missing or a filter is unknown |
| Png.SizesFitIff | externals/stb/stb_image.h:1014-1037 | for an image within the header limits the overflow tests pass exactly when the output fits a signed 32-bit size |
| PngFile.Parse | externals/stb/stb_image.h:5078-5261 | the loop over chunks computes the chunk scan: what is refused, what is outside this model, and what is read |
| PngFile.BeRoundTrip | externals/stb/stb_image.h:4613-4619 | writing and reading a big-endian 32-bit number |
| PngFile.FileRead | externals/stb/stb_image.h:5078-5261 | the scan of a written file recovers width, height, channels and data, or refuses it, exactly by the reader's limits on dimensions, image size and data size |
| PngFile.PiecesRead | externals/stb/stb_image.h:5186-5255 | a file with its data cut into any number of data chunks, ancillary chunks among them, is scanned to the data joined in the order of the file, exactly within the limits |
| PngScan.ScanIff | externals/stb/stb_image.h:5078-5261 | the scan finishes with a size, channels and data if and only if the file is the signature, the header that says so, pieces whose data joined is that data, and an end |
| PngFile.ScanOk | externals/stb/stb_image.h:5078-5261 | a scan that finishes has found data and an image within the limits |
| Png.LoadPng | externals/stb/stb_image.h:5078-5261 | the loader's answer is the meaning of the scanned chunks |
| Png.RoundTrip | externals/stb/stb_image_write.h:1128-1212 | writing any 8-bit image of one to four channels and loading it back gives the same pixels if and only if the image and the file are within the reader's limits; otherwise loading fails |
| Png.LoadRows | externals/stb/stb_image_write.h:1128-1212 | loading any file that holds an image's filtered rows, in however many data chunks, gives the image if and only if the limits hold |
| Png.ExpectedByte | externals/stb/stb_image_write.h:1128-1212 | channel c of pixel i of row j as delivered is the byte at that row, pixel and channel of the caller's pixels, the last row first when flipped, and 255 for an alpha that was only asked for |
| Png.PackedIsSame | externals/stb/stb_image_write.h:1128-1212 | for tightly packed rows in order the delivered pixels are literally the pixels handed in |
| AesTables.SboxInverse | src/common/aes.h:42-76 | the second table inverts the first on all 256 bytes |
| AesField.SboxIsAffineInverse | src/common/aes.h:42-58 | every entry is the affine image of the inverse of its place in GF(2^8), as section 5.1.1 of FIPS 197 defines the table |
| AesWord.SubWordInverse | src/common/aes.h:78-86 | substituting and substituting back restores a word |
| AesWord.MulBytes | src/common/aes.h:131-143 | the eight-round loop computes the product in GF(2^8) |
| AesWord.MulLinear | src/common/aes.h:122-143 | the product is linear in its first factor |
| AesWord.MulAdd | src/common/aes.h:122-143 | the product is linear in its second factor |
| AesWord.UnmixByte | src/common/aes.h:145-179 | the two coefficient matrices multiply to the identity |
| AesWord.MixWordInverse | src/common/aes.h:145-179 | mixing a column and unmixing it restores the word |
| AesState.ShiftRowsInverse | src/common/aes.h:100-120 | turning the rows left and right again restores the state |
| AesState.CipherInverse | src/common/aes.h:270-310 | decryption undoes encryption on every state, for any list of at least two round keys |
| AesState.BytesOfState | src/common/aes.h:239-251 | copying bytes to words and back restores the bytes |
| AesState.BlockInverse | src/common/aes.h:270-310 | decryption undoes encryption on every block of bytes |
| AesRounds.AddRoundKey | src/common/aes.h:36-40 | each word is combined with its key word in place |
| AesRounds.SubBytesInPlace | src/common/aes.h:88-92 | each word is substituted in place |
| AesRounds.InvSubBytesInPlace | src/common/aes.h:94-98 | each word is substituted back in place |
| AesRounds.ShiftRowsInPlace | src/common/aes.h:100-109 | the masked copies from the saved state turn row r left by r |
| AesRounds.InvShiftRowsInPlace | src/common/aes.h:111-120 | the masked copies from the saved state turn row r right by r |
| AesRounds.MixColumnsInPlace | src/common/aes.h:145-165 | each column is mixed in place |
| AesRounds.InvMixColumnsInPlace | src/common/aes.h:167-179 | each column is unmixed in place with the loop products |
| AesRounds.EncryptState | src/common/aes.h:270-289 | exactly one block of the output becomes the cipher of the input of section 5.1 of FIPS 197 |
| AesRounds.DecryptState | src/common/aes.h:291-310 | exactly one block of the output becomes the inverse cipher of section 5.3 of FIPS 197 |
| AesKey.FillSchedule | src/common/aes.h:213-232 | the schedule follows the recurrence of section 5.2 of FIPS 197 for the three key sizes |
| AesKey.ExpandKey | src/common/aes.h:206-237 | round keys from the schedule for 16, 24 and 32 bytes, and failure for every other size |
| AesKey.RconIs | src/common/aes.h:211 | the round constants are the powers of x in GF(2^8), each the double of the one before |
| AesKey.ScheduleBytes | src/common/aes.h:213-232 | the schedule word by word and byte by byte is the recurrence of section 5.2 of FIPS 197, started with the key |
| AesKey.ExpandedBytes | src/common/aes.h:206-237 | the round keys are the words of that recurrence, four to a key |
| AesReference.EncryptedIsCipher | src/common/aes.h:270-289 | for every key of a good size, encrypting a block is the cipher of section 5.1 of FIPS 197 on bytes under that key, with six rounds more than the key has words |
| AesCbc.UnchainChain | src/common/aes.h:908-1027 | unchaining inverts chaining for any keys and any vector, given or null |
| AesCbc.UnpaddedPadded | src/common/aes.h:750-762 | removing the padding of section 6.3 of RFC 5652 from padded data gives the data, at every length |
| AesCbc.CbcRoundTrip | src/common/aes.h:908-1027 | decrypting and unpadding what was padded and encrypted gives the data |
| AesCbcCalls.CheckEncryptCond | src/common/aes.h:697-721 | the first error of data size, key size and buffer size, or none |
| AesCbcCalls.CheckDecryptCond | src/common/aes.h:723-748 | the first error of data size, key size and buffer size, whose difference is taken on 64 bits |
| AesCbcCalls.CheckPadding | src/common/aes.h:750-762 | accepts exactly a last block that ends with the count repeated count times, the count zero included |
| AesCbcCalls.UnpaddedLast | src/common/aes.h:750-762 | the last block alone decides what unpadding does |
| AesCbcCalls.XorData | src/common/aes.h:253-257 | sixteen bytes are combined in place and no others |
| AesCbcCalls.EncryptCbc | src/common/aes.h:908-957 | error code by the checks; otherwise the buffer starts with the chained ciphertext and keeps the rest |
| AesCbcCalls.DecryptCbc | src/common/aes.h:976-1027 | error code by the checks and the padding; the buffer holds the plaintext as far as it is delivered, and zeros or its old contents behind |
| AesCbcCalls.RoundTrip | src/common/aes.h:908-1027 | encrypting with padding and decrypting gives the data back for every key size, vector and length |
| AesCtr.IncrementedValue | src/common/aes.h:260-268 | the counter is incremented by one modulo 2^128 |
| AesCtr.IncrCounter | src/common/aes.h:260-268 | the carry loop increments the counter in place |
| AesCtr.CryptCtr | src/common/aes.h:1169-1191 | each byte is combined with the key stream of its counter block; a bad key size changes nothing |
| AesCtr.CryptedTwice | src/common/aes.h:1169-1191 | counter mode applied twice restores the data |
| Ghash.MulBlocks | src/common/aes.h:479-502 | the shift-and-add loop computes the product |
| Ghash.ProductIsRemainder | src/common/aes.h:479-502 | the polynomial product of the factors is a multiple of x^128 + x^7 + x^2 + x + 1 plus the result, which has 128 coefficients |
| Ghash.DivisionIdentity | src/common/aes.h:479-502 | every polynomial is its quotient times the modulus plus its reduction, coefficient by coefficient |
| Ghash.ProductCommutes | src/common/aes.h:479-502 | the product commutes |
| Ghash.ProductAssociates | src/common/aes.h:479-502 | the product is associative |
| Ghash.ProductDistributes | src/common/aes.h:479-502 | the product distributes over XOR on both sides |
| Ghash.GHash | src/common/aes.h:509-518 | the loop is the Horner evaluation of section 6.4 of NIST SP 800-38D |
| Ghash.HashedIsPolynomial | src/common/aes.h:509-518 | the hash is X1 * H^m + X2 * H^(m-1) + ... + Xm * H |
| FlightRecord.StoresLeaveImage | graphics_lab/diagnostics/flight_recorder.cpp:271-302 | whatever a slot held, the byte stores of one call leave exactly the image of its event, truncation flags included |
| FlightRecord.NumbersOfImage | graphics_lab/diagnostics/flight_recorder.cpp:277-289 | every number of an event is read back from its own offset in the record |
| FlightRecord.TextsOfImage | graphics_lab/diagnostics/flight_recorder.cpp:289-302 | name and payload are read back from their places up to the sizes stored, with zeros after them, and the flags say exactly which of the two was cut |
| FlightRecorder.SlotsInTurn | graphics_lab/diagnostics/flight_recorder.cpp:270-271 | the first event goes to the first slot and every next one to the next slot around the ring |
| FlightRecorder.OpenedInv | graphics_lab/diagnostics/flight_recorder.cpp:211-227 | the zeroed mapping satisfies the invariant |
| FlightRecorder.StepKeeps | graphics_lab/diagnostics/flight_recorder.cpp:264-342 | every atomic step of any interleaving keeps the invariant: a slot is uncommitted or holds a complete image, and the committed counter never passes the write counter |
| FlightRuns.Snapshot | graphics_lab/diagnostics/flight_recorder.cpp:264-306 | in every state of every run a committed sequence stands before the complete image of an event recorded under it |
| FlightRuns.RunGrows | graphics_lab/diagnostics/flight_recorder.cpp:48-66 | the counters never decrease and a crashed producer state is never left, whatever follows |
| FlightRuns.CrashedAfterWords | graphics_lab/diagnostics/flight_recorder.cpp:319-332 | the state becomes crashed only after all words of the crash report are stored |
| FlightRuns.ProducerChanges | graphics_lab/diagnostics/flight_recorder.cpp:319-342 | a step marks the producer crashed only as the end of a crash report, and clean only from active by a clean shutdown; no other step changes it |
| FlightCounters.CountersAreMaxima | graphics_lab/diagnostics/flight_recorder.cpp:48-66 | in every run each counter is zero or a recorded sequence and covers every call that returned; when all calls have returned both are the largest recorded sequence |
| FlightRuns.EarlierDone | graphics_lab/diagnostics/flight_recorder.cpp:264-306 | when an event starts only after the one before it in its slot has returned, earlier events of a slot have all returned |
| FlightRuns.StepOrdered | graphics_lab/diagnostics/flight_recorder.cpp:264-306 | runs in that order keep the last committed event of every slot in place |
| FlightReader.HeaderAccepted | graphics_lab/diagnostics/flight_recorder_reader.cpp:108-130 | the header check accepts exactly the headers that Open can write: the magic, version 1, sizes 256 and 512, and 256 to 262144 records |
| FlightReader.RecordsIncreasing | graphics_lab/diagnostics/flight_recorder_reader.cpp:321-350 | accepted records are strictly increasing and inside the window |
| FlightReader.Decode | graphics_lab/diagnostics/flight_recorder_reader.cpp:321-350 | the loop returns the accepted records of the window in order, and decoded plus lost is dropped plus the window length, truncated files included |
| FlightReader.AcceptedIsWhole | graphics_lab/diagnostics/flight_recorder_reader.cpp:321-350 | a record accepted from a snapshot of any run is the complete image of an event recorded in that run under that sequence |
| FlightReader.CompleteWindow | graphics_lab/diagnostics/flight_recorder_reader.cpp:321-350 | when the calls for 1 to n ran in order and returned, the window is exactly the last min(n, capacity) events, and nothing is lost |
| RangeLock.Mutexes.TryLockRange | src/common/range_lock.h:33-52 | all locks of the range are taken, or none is and the result names the first that was held |
| RangeLock.NextHeld | src/common/range_lock.h:54-98 | each step of a thread changes the positions it holds by exactly the lock it takes or releases |
| RangeLock.StepKeeps | src/common/range_lock.h:13-98 | in every interleaving a mutex is owned by a thread exactly when the thread's program point says so |
| RangeLock.ReturnHoldsRange | src/common/range_lock.h:54-98 | a thread that returned owns its whole range and nothing else; an idle one owns nothing |
| RangeLock.CallEndsHolding | src/common/range_lock.h:54-98 | a thread that entered LockRange stays inside until it holds its whole range, whatever the others do: the call has no other end |
| RangeLock.NoCircularWait | src/common/range_lock.h:54-98 | a thread waits only while it owns no lock, so the owner it waits for is not waiting |
| RangeLock.SomeoneMoves | src/common/range_lock.h:54-98 | while a call is running, some thread can step or is using locks it was granted |
| RangeLock.FailedTryNamesOwner | src/common/range_lock.h:33-52 | a failed try names a lock that another thread owns at that moment |
| SpscQueue.PowerOfTwoOk | src/common/bounded_threadsafe_queue.h:21 | every power of two below 2^64 divides 2^64, which the slot computation needs when an index wraps |
| SpscQueue.SlotOfWrapped | src/common/bounded_threadsafe_queue.h:91-92 | the wrapped index selects the same slot as the unbounded count |
| SpscQueue.StepKeeps | src/common/bounded_threadsafe_queue.h:72-149 | every step of producer, consumer, stop request and spurious wake-up keeps the queue's invariant |
| SpscQueue.FirstInFirstOut | src/common/bounded_threadsafe_queue.h:72-149 | popped values followed by buffered values are the pushed values in order, and at most the capacity is buffered, across index wrap-around |
| SpscCalls.PushReturns | src/common/bounded_threadsafe_queue.h:72-106 | a push that has come back appended exactly its own value; only a try comes back without, exactly when it found the queue full at its check |
| SpscCalls.PopReturns | src/common/bounded_threadsafe_queue.h:108-149 | a pop that has come back took exactly the oldest value left; only a try that found the queue empty or a stopped wait comes back without |
| SpscCalls.NothingLost | src/common/bounded_threadsafe_queue.h:72-106 | at every moment of every run the pushed values and the one in flight are the values handed to calls, in order, but for the tries that found the queue full |
| SpscQueue.NoOverwrite | src/common/bounded_threadsafe_queue.h:91-98 | the producer never writes a slot whose value is still to be popped |
| SpscQueue.TriesFailWhenTheyMust | src/common/bounded_threadsafe_queue.h:76-115 | the two try operations fail exactly when the queue is full or empty at their check |
| SpscQueue.SleepingConsumerIsWoken | src/common/bounded_threadsafe_queue.h:97-121 | a consumer asleep although the queue is not empty is woken within two enabled steps of the producer |
| SpscQueue.SleepingProducerIsWoken | src/common/bounded_threadsafe_queue.h:81-147 | a producer asleep although the queue is not full is woken within two enabled steps of the consumer |
| SpscQueue.StoppedPopsNothing | src/common/bounded_threadsafe_queue.h:122-130 | once a stop is requested a wait with the stop token does not sleep and pops nothing |
| Word64.LogicBits | src/common/bit_array.h:114-124 | and, or and not act on each bit |
| Word64.LowMaskBits | src/common/bit_array.h:84-85 | the bits of (1 << k) - 1 are those below k |
| Word64.RightBits | src/common/bit_array.h:236 | shifting right moves every bit down and fills with zeros |
| Word64.LeftBits | src/common/bit_array.h:301 | shifting left moves every bit up |
| Word64.WordIs | src/common/bit_array.h:217-221 | a word is zero exactly without set bits and all ones exactly without clear bits |
| BitArrays.BitArray.Sub | src/common/bit_array.h:75-102 | the copy has exactly the set indices inside the range, and none for an empty or excessive range |
| BitArrays.BitArray.Set | src/common/bit_array.h:114-116 | one index is added |
| BitArrays.BitArray.Unset | src/common/bit_array.h:118-120 | one index is removed |
| BitArrays.BitArray.Get | src/common/bit_array.h:122-124 | membership of an index |
| BitArrays.BitArray.SetRange | src/common/bit_array.h:126-152 | union with the range; a range past the end changes nothing |
| BitArrays.BitArray.UnsetRange | src/common/bit_array.h:154-180 | difference with the range; a range past the end changes nothing |
| BitArrays.BitArray.FirstRangeFrom | src/common/bit_array.h:210-267 | the run from the least set index at or after the start up to the next clear index, or the empty range at the end |
| BitArrays.BitArray.LastRangeFrom | src/common/bit_array.h:273-333 | the run that ends with the greatest set index below the end, down to the clear index before it |
| BitArrays.BitArray.Ranges | src/common/bit_array.h:29-59 | iteration yields the maximal runs of the set, each once and in order |
| LruCache.DetachedLinks | src/common/lru_cache.h:108-126 | unlinking rewires both directions so that they describe the list without the item, at either end or inside |
| LruCache.AttachedLinks | src/common/lru_cache.h:94-106 | appending rewires both directions so that they describe the list with the item at its end |
| LruCache.LeastRecentlyUsedCache.Attach | src/common/lru_cache.h:94-106 | the item becomes the last of the list, and objects and ticks are untouched |
| LruCache.LeastRecentlyUsedCache.Detach | src/common/lru_cache.h:108-126 | the item leaves the list, the others keep their order, and objects and ticks are untouched |
| LruCache.LeastRecentlyUsedCache.Insert | src/common/lru_cache.h:26-33 | a fresh or reused id that was not live is appended with its object and tick; the order by tick is kept |
| LruCache.LeastRecentlyUsedCache.Touch | src/common/lru_cache.h:35-46 | a later tick moves the item to the end; an earlier or equal one changes nothing; the order by tick is kept |
| LruCache.LeastRecentlyUsedCache.Free | src/common/lru_cache.h:48-54 | the item leaves the list and its id is queued for reuse |
| LruCache.LeastRecentlyUsedCache.ForEachItemBelow | src/common/lru_cache.h:57-76 | visits the leading due items in order, each once, also when the visitor frees items it is called on, which then are gone |
| LruCache.VisitsExactlyBelow | src/common/lru_cache.h:57-76 | in a list sorted by tick the visited items are exactly those with tick at most the given one |
| SlotVectors.SlotVector.constructor | src/common/slot_vector.h:91-93 | an empty vector with all slots free |
| SlotVectors.SlotVector.Reserve | src/common/slot_vector.h:230-257 | growth keeps every live id and value, and the new slots become free with the lowest next |
| SlotVectors.SlotVector.FreeValueIndex | src/common/slot_vector.h:220-228 | an unused slot, after growing when none is free |
| SlotVectors.SlotVector.Insert | src/common/slot_vector.h:122-129 | the map gains one id that was not live |
| SlotVectors.SlotVector.Erase | src/common/slot_vector.h:131-135 | the map loses the id |
| SlotVectors.SlotVector.Size | src/common/slot_vector.h:137-139 | the number of live ids |
| SlotVectors.SlotVector.IsAllocated | src/common/slot_vector.h:118-120 | whether an id is live |
| SlotVectors.SlotVector.AdvanceToValid | src/common/slot_vector.h:76-80 | the next live id, or the end |
| SlotVectors.SlotVector.Ids | src/common/slot_vector.h:43-60 | iteration visits each live id once in increasing order |
| PluginHosting.PluginHost.CallObserve | graphics_lab/host/plugin_host.cpp:253-260 | events that an observer emits while it runs are all refused and change nothing |
| PluginHosting.PluginHost.PublishEvent | graphics_lab/host/plugin_host.cpp:227-265 | an accepted event gets the next number and reaches every initialized observer once in load order; it succeeds unless one throws |
| PluginHosting.AcceptedIff | graphics_lab/host/plugin_host.cpp:318-360 | a descriptor is accepted exactly when it is whole, belongs to the expected plugin and this interface version, and has its lifecycle and every callback its capabilities promise |
| PluginHosting.PluginHost.OpenAndQuery | graphics_lab/host/plugin_host.cpp:384-425 | a module that is opened and refused is closed again |
| PluginHosting.PluginHost.LoadOne | graphics_lab/host/plugin_host.cpp:362-457 | the plugin is appended to the load order exactly when every stage succeeds; otherwise its module is closed; events meanwhile are numbered consecutively |
| PluginHosting.PluginHost.RunShutdown | graphics_lab/host/plugin_host.cpp:521-528 | the module is stopped between the two ends of its callback, in which it may still emit and observe |
| PluginHosting.PluginHost.Shutdown | graphics_lab/host/plugin_host.cpp:517-545 | plugins are shut down and closed in the reverse of the load order, and none is left |
| PluginHosting.PluginHost.Initialize | graphics_lab/host/plugin_host.cpp:459-515 | the old plugins are shut down and numbering restarts; then exactly the present plugins whose attempt passes are loaded, in the fixed order, success means that all of them passed, and new events are numbered consecutively |
| PluginHosting.AllLoaded | graphics_lab/host/plugin_host.cpp:44-51 | with all plugins present and well the trace probe is loaded first, then the Vulkan lab, then the safe GPU |
| PluginHosting.ObservedWhileLive | graphics_lab/host/plugin_host.cpp:227-265 | every observe call of a module comes after its successful initialize and before the return of its shutdown |
| PluginHosting.ClosedExactlyOnce | graphics_lab/host/plugin_host.cpp:517-545 | after a shutdown every module ever opened has been closed exactly once |
| Uint128.MultiplyHighIs | src/common/uint128.h:68-92 | the four-product fallback is the upper half of the 128-bit product, for all words |
| Uint128.Divide128On32 | src/common/uint128.h:97-113 | the quotient modulo 2^64 and the exact remainder |
| Uint128.MultiplyAndDivideIff | src/common/uint128.h:26-39 | the result is the quotient modulo 2^64 if and only if the product of the two residues fits 64 bits |
| Uint128.MultiplyAndDivideExact | src/common/uint128.h:26-39 | when the quotient fits as well, the result is the quotient |
| Uint128.ClockMonotone | src/common/native_clock.cpp:16-26 | a later counter never gives an earlier time, whatever base the time is taken from |
| Uint128.ClockExactIff | src/common/native_clock.cpp:10-26 | the time since any earlier base is within one below the exact conversion at every counter value if and only if the unit is coarser than the counter |
| Uint128.GigahertzStandsStill | src/common/native_clock.cpp:10-26 | at a counter of exactly one gigahertz the nanosecond clock always reads zero |
| Serdes.Archive.WriteBytes | src/common/serdes.h:71-78 | bytes are stored at the offset, in place or after growing, and the 32-bit offset advances |
| Serdes.PrefixBytes | src/common/serdes.h:88-98 | strings and containers start with their length in eight bytes, lowest first, and then their contents |
| Serdes.Archive.Write | src/common/serdes.h:80-98 | a value at the end of the archive is appended in its format, and the offset stays equal to the size |
| Serdes.Archive.Read | src/common/serdes.h:106-136 | a value is read exactly as the format defines, or the read fails |
| Serdes.DecodedEncoded | src/common/serdes.h:71-136 | reading with the type of a written value gives it back and leaves what follows, at any nesting |
| Serdes.RoundTrip | src/common/serdes.h:71-136 | any sequence of values written into an empty archive is read back, ending at the end of the stream |

## Left out

- ZBufReader.ZBuf.Expand: states that there is room afterwards, not that the buffer grows by doubling.
- ZlibStream.ZlibDecode: the completeness half asks for 32 bits behind the last block, which a zlib checksum provides; whether a stream that ends earlier is accepted depends on the bits lent at its end and is only stated in the other direction.
- Png.LoadPng: files with palettes, transparency, interlacing, other depths or vendor chunks are outside this model, and nothing is stated about them.
- LruCache.LeastRecentlyUsedCache.ForEachItemBelow: the visitor may free the item it is called on and nothing else; inserting or touching from inside a visit is not modelled.
- SlotVectors.SlotVector.Reserve: ids are unbounded numbers, so a vector of more than 2^32 slots is not refused.
- AesCbcCalls.EncryptCbc: the input is a value, so encrypting a buffer in place is not modelled.
- Ghash.GHash: works on whole blocks of bits; the conversion of bytes to bits and a trailing partial block, which the source ignores, are not modelled.
- RangeLock.SomeoneMoves: says that the protocol never stops everyone, not that every call returns; the retry loop may run forever under an unlucky schedule.
- PluginHosting.PluginHost.PublishEvent: sequence numbers are unbounded; the wrap of the 64-bit counter is not modelled.
- Serdes.Archive.Write: the total stays below 2^32, the width of the offset, and a container has fewer than 2^31 elements, the range of the reader's counter.
- Wider integers than the source's in the compressor: buffers near 2^31 bytes overflow its `int` sizes and are outside this model. Negative strides are too.
- Allocation is assumed to succeed everywhere.
- Weak memory orderings, scheduling fairness and time-outs; the stop callback of the fallback for missing standard library support of stop tokens.
- The rest of AES: ECB, the counter generation and the tag of GCM, key strings.
- JPEG, GIF, BMP and the other formats of the image library, its float and 16-bit conversions, and all SIMD variants, among them the AVX loop of `LastRangeFrom`, which compares with all zeros where the scalar loop compares with all ones.
- FlightRuns.CrashedAfterWords: one MarkCrashed call runs at a time; two crash handlers storing their words at once are not modelled.
- The plugin host is modelled on one thread; events published from several threads at once, which share the counter but not the dispatch flag, are not.
- The flight recorder's files, mappings, flushing and JSON output; the plugin host's file system work, fingerprints and log messages.
- Bitwise operators on whole bit arrays, merging archives, iterator plumbing: they would add easy members only.
