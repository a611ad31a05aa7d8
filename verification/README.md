# Range coder and LSB steganography, modelled in Dafny

This project models two pieces of the repository.

The first is the order-0 range coder of `test/rangenc.py` and `test/rangenc.cpp`.
- **Bit sink.** Bits are packed most significant first into bytes, and the final byte is padded with zeros.
- **Encoder.** It keeps a 32-bit interval `[low, high]` that each symbol narrows to its share of the total frequency. A three-case renormalisation then runs:
  - a low interval emits a 0;
  - a high interval emits a 1;
  - an interval straddling the middle counts a pending bit.

  `finish` emits one more settling bit.
- **Bit source.** It reads the input most significant bit first and yields zeros once the input is exhausted.
- **Decoder.** It tracks the same interval together with the 32-bit `code`. It finds the symbol whose share holds the scaled code and renormalises in step with the encoder.

Around the coder sits the C++ container:
- the byte histogram, counted per chunk, merged and smoothed by +1;
- the cumulative tables;
- a 1028-symbol header (the file length and 256 frequencies, each four little-endian bytes) coded with the uniform table;
- then every byte of the file, coded with its frequency;
- then the finishing bits.

The second piece is the bit layer of the LSB steganography in `website/messengersecret/encoding.py`.
- A message becomes each character's `format(ord(c), '08b')` digits followed by eight zero bits.
- A message with more bits than the image has pixel values is refused.
- Bit `i` replaces the lowest bit of pixel value `i`.
- The decoder collects lowest bits until the last eight it has collected are zero. It then turns the groups of eight bits starting at 0, 8, … below `len - 8` back into characters. The last such group may overlap the eight-zero window.

All state is immutable, and every operation is a pure function. Source integers are Dafny `int`s, and the 32-bit range of the coder's state is carried as an invariant (`InRange`, `Valid`). The 32-bit width of the header values is the type `u32`.

The headline theorems are:
- `RoundTrip.RangeCoderRoundTrip`: decoding the finished encoding of any string of codable symbols gives the string back.
- `Container.CompressRoundTrip`: `Decompress(Compress(data)) == Success(data)` for every file the coder's precision admits.
- `Stego.MessageRoundTrip`: decoding an embedded message gives it back exactly when its characters' bits contain no run of eight zeros.

Files:
- `bits.dfy`: bits, bytes, big-endian values.
- `sink.dfy` and `source.dfy`: the bit sink and the bit source.
- `interval.dfy`: the 32-bit interval constants, the renormalisation cases and the arithmetic of narrowing.
- `tables.dfy`: cumulative tables.
- `encoder.dfy` and `decoder.dfy`: the two halves of the coder.
- `roundtrip.dfy`: why the decoder tracks the encoder.
- `histogram.dfy`, `header.dfy` and `container.dfy`: the C++ file format.
- `results.dfy`: the `Result` type used for error returns.
- `stego.dfy`: the steganography bit layer.

## Model

| member | source | states |
|---|---|---|
| BitSink.WriteBit | test/rangenc.py:12-18 | the bits written so far grow by exactly the new bit, the emitted bytes only grow, and fewer than eight bits stay buffered |
| BitSink.WriteBitShiftsBuffer | test/rangenc.py:12-18 | the integer buffer becomes `2 * buffer + bit`; on the eighth bit that value is appended as one byte and the buffer is emptied, otherwise nothing is emitted |
| BitSink.WriteBits | test/rangenc.py:12-18 | writing a bit string appends exactly that string to the bits written, in order |
| BitSink.EightBitsMakeOneByte | test/rangenc.py:12-18 | eight bits written to an empty buffer append exactly one byte holding them most significant first, and leave the buffer empty |
| BitSink.Flush | test/rangenc.py:20-25 | afterwards the buffer is empty and the output, read as bits, is everything written plus zero padding to a byte boundary; the output length is the bit count rounded up to bytes; with an empty buffer nothing changes |
| BitSink.FlushShiftsBuffer | test/rangenc.py:20-25 | a partial byte is emitted as the buffer shifted left by the number of missing bits |
| BitSource.Open | test/rangenc.py:72-79 | a fresh source has read nothing |
| BitSource.ReadBit | test/rangenc.py:84-95 | each read yields the next input bit, most significant bit of each byte first, and advances by one; once the input is exhausted it yields 0 and changes nothing |
| BitSource.Shift | test/rangenc.py:92-95 | taking the top bit of the buffer and shifting it left within a byte yields the next stream bit |
| Interval.ScaleStep | test/rangenc.py:32-47 | each renormalisation step keeps `0 <= low <= high <= 0xFFFFFFFF` and strictly widens `high - low`, so the loop terminates |
| Interval.ClassifyCases | test/rangenc.py:33-44 | `Classify`, the loop's case test, stops exactly when the interval holds the midpoint and reaches below 0x40000000 or to 0xC0000000 and above; the other cases put the interval below the midpoint, above it, or inside the middle half |
| Interval.SettledIsWide | test/rangenc.py:32-44 | when the loop exits, `low < 0x80000000 <= high` and `high - low >= 0x40000001` |
| Interval.NarrowWithin | test/rangenc.py:28-30 | the scaled share boundaries lie between 0 and the range, in order |
| Interval.NarrowNonEmpty | test/rangenc.py:28-30 | with `range >= total` a symbol of nonzero frequency gets at least one value of the interval |
| Interval.ScaledValueInRange | test/rangenc.py:98-100 | for `low <= code <= high` the scaled value lies in `[0, total)` |
| Interval.CodeInsideOwner | test/rangenc.py:98-116 | the code lies inside the narrowed interval of the symbol whose share holds the scaled value |
| Interval.OwnerOfCode | test/rangenc.py:98-116 | conversely, a code inside a symbol's narrowed interval scales to a value inside that symbol's share |
| Tables.Cumulative | test/rangenc.cpp:152-159 | the table has one more entry than the frequencies, starts at 0, grows by each frequency, never decreases, and ends at their sum |
| Tables.FrequenciesOfCumulative | test/rangenc.cpp:152-159 | the successive differences of the table give the frequencies back, so building it loses nothing |
| Tables.UniformTable | test/rangenc.py:138-144 | 257 entries with `cum[i] == i`, total 256, a table the encoder can use, every byte value codable |
| RangeEncoder.Init | test/rangenc.py:4-10 | the fresh encoder has written nothing and is settled |
| RangeEncoder.EmitSettled | test/rangenc.py:49-59 | the settled bit, then the pending count of its complement, is appended; nothing is pending afterwards and the interval is unchanged |
| RangeEncoder.Narrow | test/rangenc.py:27-30 | the new interval is non-empty and inside the old one: `old.low <= new.low <= new.high <= old.high` |
| RangeEncoder.Step | test/rangenc.py:32-47 | one pass keeps the interval in 32 bits and strictly widens it |
| RangeEncoder.Renormalize | test/rangenc.py:32-47 | the loop terminates settled with `low < 0x80000000 <= high` and `high - low >= 0x40000001`, and only appends to the bits written |
| RangeEncoder.EncodeSymbol | test/rangenc.py:27-47 | coding one symbol leaves the encoder settled and only appends output |
| RangeEncoder.EncodeWith | test/rangenc.cpp:246-249 | coding a symbol through a cumulative table leaves the encoder settled and only appends output |
| RangeEncoder.EncodeAll | test/rangenc.cpp:229-249 | coding a string of codable symbols leaves the encoder settled and only appends output |
| RangeEncoder.FinishedBits | test/rangenc.py:61-66 | finishing appends the pending bits plus two, so at least two bits |
| RangeEncoder.FinalBit | test/rangenc.py:63-66 | between symbols the bit `finish` picks selects a quarter of the 32-bit space the interval wholly contains: `[0x40000000, 0x80000000]` after a 0, `[0x80000000, 0xC0000000]` after a 1 |
| RangeEncoder.Finish | test/rangenc.py:61-68 | the result is the finished bits padded with zeros to whole bytes, `ceil(bits / 8)` long, and extends what was already emitted |
| RangeDecoder.Prime | test/rangenc.py:81-82 | priming keeps the source valid on the same input |
| RangeDecoder.PrimeReadsStream | test/rangenc.py:81-82 | shifting in `n` bits gives the big-endian value of the stream's next `n` bits, zeros past its end |
| RangeDecoder.Open | test/rangenc.py:72-82 | the decoder starts on the full interval with `code` the big-endian value of the first 32 input bits, zero-padded |
| RangeDecoder.Search | test/rangenc.py:103-110 | the binary search returns the first entry above the value: every entry before it is at most the value |
| RangeDecoder.Lookup | test/rangenc.py:103-112 | for a table starting at 0 that never decreases, the symbol returned owns the value: `cum[s] <= value < cum[s + 1]` |
| RangeDecoder.LookupUnique | test/rangenc.py:103-112 | the owning symbol is unique, so the lookup returns exactly it |
| RangeDecoder.LookupUniform | test/rangenc.py:138-144 | with the uniform table the symbol found is the value itself |
| RangeDecoder.LowerBound | test/rangenc.cpp:122 | the index returned is the first whose entry is not below the value |
| RangeDecoder.CppLookup | test/rangenc.cpp:122-123 | `lower_bound(...) - 1` is the last index whose entry is strictly below the value, or −1 when there is none |
| RangeDecoder.CppLookupMissesBoundaries | test/rangenc.cpp:122-123 | the C++ lookup agrees with the search exactly when the value is not the first point of its share, and is smaller on a share boundary |
| RangeDecoder.CppLookupUniform | test/rangenc.cpp:122-123 | with the uniform header table the C++ lookup returns `value - 1` (−1 for 0), never the right symbol |
| RangeDecoder.ScaledValue | test/rangenc.py:98-100 | the scaled code lies in `[0, total)` |
| RangeDecoder.Step | test/rangenc.py:118-133 | the decoder pass widens the interval like the encoder's, and `code - low` doubles with the next stream bit shifted in |
| RangeDecoder.Renormalize | test/rangenc.py:118-133 | the decoder loop terminates settled with the code still inside the interval |
| RangeDecoder.NarrowTo | test/rangenc.py:114-116 | narrowing to the symbol found keeps the code inside the new interval, which lies inside the old one |
| RangeDecoder.DecodeSymbol | test/rangenc.py:97-135 | on any input the symbol decoded has nonzero frequency and the decoder stays valid and settled |
| RangeDecoder.DecodeAll | test/rangenc.cpp:301-304 | exactly `n` symbols are decoded, each of nonzero frequency |
| RoundTrip.StepDoubles | test/rangenc.py:32-47 | each renormalisation step doubles the interval on the infinite-precision number line and adds one bit of precision |
| RoundTrip.ContainsBeforeRenormalize | test/rangenc.py:32-47 | a stream inside the renormalised interval was inside the interval before renormalising |
| RoundTrip.ContainsBeforeEncode | test/rangenc.py:27-47 | a stream inside the interval after coding a symbol was inside the symbol's share before renormalising, and inside the previous interval |
| RoundTrip.ContainsBeforeEncodeAll | test/rangenc.cpp:229-249 | a stream inside the interval after a string of symbols was inside every earlier interval |
| RoundTrip.FinishContains | test/rangenc.py:61-68 | the finished output, read as a number, lies inside the encoder's final interval |
| RoundTrip.SyncedCodeInside | test/rangenc.py:97-116 | for a decoder in step with the encoder, the code lies in the decoder's interval exactly when the stream lies in the encoder's |
| RoundTrip.OpenInSync | test/rangenc.py:72-82 | a freshly opened decoder is in step with a fresh encoder |
| RoundTrip.StepSync | test/rangenc.cpp:129-146 | the decoder's renormalisation pass takes the same case and the same update as the encoder's, and keeps them in step |
| RoundTrip.RenormalizeSync | test/rangenc.py:118-133 | the two renormalisation loops stop together and stay in step |
| RoundTrip.DecodeSymbolSync | test/rangenc.py:97-135 | a decoder in step with the encoder decodes the symbol the encoder coded and stays in step |
| RoundTrip.DecodeAllSync | test/rangenc.cpp:301-304 | a decoder in step decodes the whole symbol string the encoder coded |
| RoundTrip.DecodeAllStaysInSync | test/rangenc.cpp:301-304 | after the whole string the decoder is still in step with the encoder |
| RoundTrip.DecodeFromStart | test/rangenc.py:72-135 | any byte string inside the final interval of an encoding decodes to the encoded symbols |
| RoundTrip.RangeCoderRoundTrip | test/rangenc.py:27-135 | decoding the finished encoding of codable symbols with the same table gives the symbols back |
| ByteCounts.Tally | test/rangenc.cpp:189-191 | the per-worker count table has 256 entries |
| ByteCounts.Histogram | test/rangenc.cpp:161-206 | frequency `v` of the whole file is the number of occurrences of `v` plus one |
| ByteCounts.ChunkedHistogram | test/rangenc.cpp:161-206 | with the file split into any chunks, counted per chunk and merged, frequency `v` is still the number of occurrences of `v` in the whole file plus one |
| ByteCounts.TallyCounts | test/rangenc.cpp:189-191 | entry `v` of a count table is the number of occurrences of byte `v` |
| ByteCounts.Merge | test/rangenc.cpp:198-201 | merging adds the tables entry by entry |
| ByteCounts.TallyAppend | test/rangenc.cpp:198-201 | counting two parts and merging is counting the whole |
| ByteCounts.MergeAllIsTally | test/rangenc.cpp:175-201 | merging the workers' tables gives the counts of the concatenated chunks |
| ByteCounts.ChunkedHistogramIsHistogram | test/rangenc.cpp:178-204 | the result does not depend on how the file was split into chunks |
| ByteCounts.HistogramCounts | test/rangenc.cpp:198-204 | every frequency is the occurrence count plus one, so at least one |
| ByteCounts.TallyBound | test/rangenc.cpp:189-191 | no count exceeds the file length |
| ByteCounts.HistogramSum | test/rangenc.cpp:198-204 | the frequencies add up to the file length plus 256 |
| Header.Le32 | test/rangenc.cpp:229-233 | a 32-bit value splits into four bytes |
| Header.Le32RoundTrip | test/rangenc.cpp:278-282 | `Le32Value`, reassembling four bytes with `|= byte << 8i`, gives back the value `Le32` split |
| Header.Le32Split | test/rangenc.cpp:278-282 | every four bytes are the split of the value `Le32Value` reassembles from them, so `Le32Value` is a bijection onto 32-bit values |
| Header.SplitAll | test/rangenc.cpp:236-241 | the frequencies become four bytes each, in order |
| Header.JoinAll | test/rangenc.cpp:285-292 | every four bytes become one frequency |
| Header.JoinSplitAll | test/rangenc.cpp:285-292 | reassembling the split frequencies gives them back |
| Header.SplitJoinAll | test/rangenc.cpp:236-241 | splitting the reassembled frequencies gives the bytes back |
| Header.HeaderSymbols | test/rangenc.cpp:229-241 | the header is exactly 4 + 256 * 4 = 1028 symbols |
| Header.ParseHeader | test/rangenc.cpp:277-292 | parsing the header gives 256 frequencies |
| Header.ParseHeaderSymbols | test/rangenc.cpp:277-292 | the header reads back as the length and frequencies written |
| Header.HeaderSymbolsOfParse | test/rangenc.cpp:229-241 | every 1028-symbol header is the header of what it parses to |
| Container.PayloadFrequencies | test/rangenc.cpp:209 | the payload frequency of every byte value is its occurrence count plus one |
| Container.PayloadTableCodes | test/rangenc.cpp:246-249 | the payload table totals the file length plus 256, suits the encoder, and gives every byte of the file a nonzero frequency |
| Container.EncodeHeader | test/rangenc.cpp:222-241 | after the header the encoder is settled |
| Container.EncodePayload | test/rangenc.cpp:243-249 | after the payload the encoder is settled |
| Container.Compress | test/rangenc.cpp:208-252 | compression succeeds exactly for files whose frequency total fits the coder's precision |
| Container.DecodeHeader | test/rangenc.cpp:275-292 | exactly 1028 header symbols are decoded, and the decoder stays valid |
| Container.DecodePayload | test/rangenc.cpp:294-304 | decoding succeeds exactly for a zero length or a usable total, and then yields `length` bytes |
| Container.Decompress | test/rangenc.cpp:262-304 | a successful decompression has exactly the length stored in the header |
| Container.CompressedInside | test/rangenc.cpp:252 | the compressed bits lie inside the encoder's interval after the payload and after the header |
| Container.HeaderDecodes | test/rangenc.cpp:275-292 | a stream inside the interval after the header decodes to those header symbols, leaving the decoder in step |
| Container.PayloadDecodes | test/rangenc.cpp:294-304 | a decoder in step after the header decodes the payload to the file |
| Container.CompressRoundTrip | test/rangenc.cpp:208-304 | decompressing the output of compression gives the file back |
| Stego.CharBits | website/messengersecret/encoding.py:30 | a character's digits have its code point as value and at least eight bits, exactly eight when the code point is below 256 |
| Stego.CharBitsOfByte | website/messengersecret/encoding.py:30 | a character below 256 is written as its byte, most significant bit first |
| Stego.MessageBody | website/messengersecret/encoding.py:30 | the body has eight bits per character when every character is below 256 |
| Stego.MessageBits | website/messengersecret/encoding.py:30-31 | the embedded bits are the body followed by eight zero bits, so 8·(n+1) bits for n characters below 256 |
| Stego.SetLowBit | website/messengersecret/encoding.py:45 | the new value's lowest bit is the message bit and its upper seven bits are the old ones |
| Stego.Embed | website/messengersecret/encoding.py:44-45 | pixel `i < |bits|` takes bit `i` in its lowest bit and keeps its upper bits; every later pixel is unchanged |
| Stego.EncodeMessage | website/messengersecret/encoding.py:37-45 | the message is refused exactly when it has more bits than the image has pixel values |
| Stego.Lsbs | website/messengersecret/encoding.py:72-73 | the collected bit `i` is the lowest bit of pixel value `i` |
| Stego.LsbsOfEmbed | website/messengersecret/encoding.py:44-45 | the lowest bits of the embedded pixels start with the embedded bits |
| Stego.Scan | website/messengersecret/encoding.py:71-76 | the loop stops at the first position whose last eight collected bits are zero, or at the end |
| Stego.ExtractBits | website/messengersecret/encoding.py:71-76 | the collected bits are a prefix of the lowest bits that ends with the first eight-zero window at any alignment, or all of them when there is none |
| Stego.Reconstruct | website/messengersecret/encoding.py:79-81 | one character per group starting at 0, 8, … below `len - 8`, so `(len - 1) / 8` characters: character `i` is the value of bits `8i` to `8i + 8`, which for the last group may overlap the eight-zero window |
| Stego.DecodeMessage | website/messengersecret/encoding.py:60-83 | a decoded message has at most one character per eight pixel values |
| Stego.ScanPrefix | website/messengersecret/encoding.py:71-76 | when the embedded bits end with a delimiter, the scan stops inside them and reads no later pixel |
| Stego.ExtractEmbedded | website/messengersecret/encoding.py:71-76 | from an embedded image the decoder collects the embedded bits up to their first eight-zero window, whatever the other pixels hold |
| Stego.ReconstructBody | website/messengersecret/encoding.py:79-81 | the groups of a body of 8-bit characters, followed by one to eight more bits, are exactly the characters |
| Stego.DecodeEmbedded | website/messengersecret/encoding.py:71-81 | decoding an embedded message depends only on the message's bits, not on the carrier |
| Stego.MessageRoundTrip | website/messengersecret/encoding.py:27-83 | for characters below 256 the message comes back exactly when its characters' bits contain no run of eight zeros at any alignment |
| Stego.ZeroRunCutsShort | website/messengersecret/encoding.py:71-81 | a run of eight zeros inside the characters' bits makes the decoded message shorter than the original |
| Stego.NoZeroRunDecodes | website/messengersecret/encoding.py:71-81 | without such a run the scan stops inside the delimiter and every character is decoded |
| Stego.SpaceAfterAtIsLost | website/messengersecret/encoding.py:71-81 | "@ " is embedded without error but decodes to "@" |
| Stego.ReadAligned | website/messengersecret/encoding.py:71-81 | reading whole bytes until a zero byte yields at most one character per eight bits, none of them NUL, character `i` being the value of bits `8i` to `8i + 8` |
| Stego.DecodeAligned | website/messengersecret/encoding.py:60-83 | the corrected decoder returns at most one character per eight pixel values, none NUL, character `i` being the value of the lowest bits of pixel values `8i` to `8i + 8` |
| Stego.ReadAlignedBody | website/messengersecret/encoding.py:71-81 | byte-aligned reading of a message's bits gives the message up to its first NUL, whatever follows the delimiter |
| Stego.AlignedRoundTrip | website/messengersecret/encoding.py:27-83 | with byte-aligned extraction a message of characters below 256 comes back exactly when it contains no NUL |

## Left out

- File and console I/O is not modelled: reading and writing files, the command line, and the error paths for unopenable files (`test/rangenc.cpp:208-327`, `test/rangenc.py:147-176`). The file contents are parameters.
- The worker threads of `count_frequencies` are not modelled. Their effect is modelled: each chunk is counted, and the counts are merged. The chunk boundaries are arbitrary, and `ChunkedHistogramIsHistogram` shows the split does not matter.
- The Python `encode_file`/`decode_file` are not modelled. They have no header, and the decoder decodes a fixed 1 MiB. The container follows the C++ format.
- The C++ `out.write(&symbol, 1)` writes the first byte of an `int`, which depends on the host's byte order. The model writes the symbol's value.
- The `symbol` argument of `encode_symbol` is unused in both `rangenc.py` and `rangenc.cpp` and is left out of `EncodeSymbol`.
- Container.Compress: the source does not check the file size. The model refuses, with a `Failure`, every file whose frequency total exceeds 2^30 (`MaxTotal`), and the round trip is stated for the rest. That bound is sufficient for the proofs, not necessary for the container: every byte the container codes has a smoothed frequency of at least 2, and a settled interval holds more than 2^30 values, so the source still codes each byte into a non-empty interval while the total stays at most 2·(2^30 + 2). The model therefore refuses files of 2^30 − 255 to 2^31 − 252 bytes that the source codes correctly. Only frequency-1 entries, which are never coded, can get an empty interval in that range.
- RangeEncoder.Narrow: requires a total of at most 2^30 (`MaxTotal`), which the source does not check. `Container.Compress` makes that check explicit.
- Container.DecodePayload: on a malformed header the C++ code does the following, and the model returns a `Failure` instead:
  - it divides by a zero total;
  - it wraps a total above 32 bits modulo 2^32.
- Header.Le32Value: `file_length |= byte << 24` shifts a signed `int` in C++. The model treats it as unsigned, which is what every byte value below 256 gives on common compilers.
- The 64-bit unsigned arithmetic of the C++ coder is modelled with unbounded integers. Under the interval invariant no intermediate value exceeds 64 bits.
- The decoder uses the Python upper-bound search. The C++ `lower_bound` lookup is modelled separately (`CppLookup`) and compared with it (see Findings).
- The sink's partial byte is kept as a bit list. `Buffer()` and `Count()` give the source's integer buffer and bit counter, and `WriteBitShiftsBuffer` and `FlushShiftsBuffer` relate the two.
- For the steganography, these are not modelled:
  - the HTTP image fetch, PIL and numpy conversions, the PNG encoding and the LZMA compression (`website/messengersecret/encoding.py:17-25, 34-35, 48-67`);
  - the reshaping of the pixel array.

  PNG and LZMA are lossless, so the pixel values the decoder sees are the embedded ones. The model takes them as a flat sequence of bytes.
- Stego.SetLowBit: `(p & ~1) | bit` is written arithmetically, as `p - p % 2 + bit`, which is the same on values 0..255.
- Stego.MessageRoundTrip: stated for characters below 256, as the bit layer is designed for. Characters of 256 and above are encoded with more than eight digits (`CharBits`), and their decoding is not characterised.

## Findings

| source | as written | input that shows it | evidently intended | confidence | as-written member | corrected member |
|---|---|---|---|---|---|---|
| test/rangenc.cpp:122-123 | the symbol is `lower_bound(cum, value) - 1`, the last entry strictly below the value | any header byte: with the uniform table `cum[v] == v`, the value `v` gives `v - 1`, and 0 gives −1 (then `cum_freqs[-1]` is read) | the symbol `s` with `cum[s] <= value < cum[s + 1]`, as the Python upper-bound search finds | not executed | RangeDecoder.CppLookupUniform | RangeDecoder.Lookup |
| website/messengersecret/encoding.py:71-76 | extraction stops at the first eight zero bits at any bit position, not only at a character boundary | the message "@ " (bits 01000000 00100000, then 00000000) decodes to "@", because bits 2 to 9 are zero | the delimiter is a zero byte on an eight-bit boundary, so every message of characters 1..255 comes back | not executed | Stego.SpaceAfterAtIsLost | Stego.AlignedRoundTrip |
