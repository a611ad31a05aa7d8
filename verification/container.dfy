/** The C++ container (`encode_file` and `decode_file`): the file length
    and the 256 smoothed byte frequencies, coded through the uniform table,
    then every byte of the file coded with its frequency, then the
    encoder's finishing bits. No end-of-stream symbol is coded: the
    decoder stops after as many bytes as the header's length says. */
module Container {
  import opened Bits
  import opened Interval
  import opened Tables
  import opened ByteCounts
  import opened Header
  import opened RangeEncoder
  import opened RangeDecoder
  import opened RoundTrip
  import opened Results

  /** The source does not check the size of the file. The model rejects a
      file whose frequency total would exceed `MaxTotal`, the bound under
      which the coder's proofs give every symbol of nonzero frequency a
      non-empty interval. It is sufficient, not necessary: every byte the
      container codes has a smoothed frequency of at least two, so larger
      files up to about twice that total would still be coded correctly. */
  predicate Compressible(data: seq<byte>) {
    |data| + Symbols <= MaxTotal
  }

  /** The frequency table of the payload: the smoothed histogram, with
      every entry a 32-bit value. */
  function PayloadFrequencies(data: seq<byte>): (freqs: seq<u32>)
    requires Compressible(data)
    ensures |freqs| == Symbols
    ensures forall v :: 0 <= v < Symbols ==> freqs[v] == multiset(data)[v] + 1
  {
    var freqs := Histogram(data);
    forall v | 0 <= v < Symbols
      ensures freqs[v] == multiset(data)[v] + 1 && freqs[v] <= |data| + 1
    {
      HistogramCounts(data, v);
      TallyBound(data, v);
    }
    freqs
  }

  /** The payload's cumulative table is one the encoder can code every
      byte of the file with. */
  lemma PayloadTableCodes(data: seq<byte>)
    requires Compressible(data)
    ensures EncodableTable(Cumulative(PayloadFrequencies(data)))
    ensures Total(Cumulative(PayloadFrequencies(data))) == |data| + Symbols
    ensures forall i :: 0 <= i < |data| ==> Codable(Cumulative(PayloadFrequencies(data)), data[i])
  {
    var freqs := PayloadFrequencies(data);
    var cum := Cumulative(freqs);
    HistogramSum(data);
    assert freqs == Histogram(data);
    forall i | 0 <= i < |data|
      ensures Codable(cum, data[i])
    {
      assert cum[data[i] + 1] == cum[data[i]] + freqs[data[i]];
    }
  }

  /** The header symbols of a file. */
  function HeaderOf(data: seq<byte>): (syms: seq<byte>)
    requires Compressible(data)
    ensures |syms| == HeaderLength
  {
    HeaderSymbols(|data|, PayloadFrequencies(data))
  }

  /** The encoder after the header, coded with the uniform table. */
  function EncodeHeader(data: seq<byte>): (e: Encoder)
    requires Compressible(data)
    ensures e.Ready()
  {
    EncodeAll(RangeEncoder.Init(), UniformTable(), HeaderOf(data))
  }

  /** The encoder after the payload, each byte coded with its frequency. */
  function EncodePayload(data: seq<byte>): (e: Encoder)
    requires Compressible(data)
    ensures e.Ready()
  {
    PayloadTableCodes(data);
    EncodeAll(EncodeHeader(data), Cumulative(PayloadFrequencies(data)), data)
  }

  /** `encode_file` on the bytes of the file. */
  function Compress(data: seq<byte>): (r: Result<seq<byte>>)
    ensures r.Success? <==> Compressible(data)
  {
    if !Compressible(data) then Failure("file too large for the coder's precision")
    else Success(Finish(EncodePayload(data)))
  }

  /** The header symbols the decoder reads, and the decoder after them. */
  function DecodeHeader(z: seq<byte>): (r: (seq<byte>, Decoder))
    ensures |r.0| == HeaderLength && r.1.Valid()
  {
    var header := DecodeAll(RangeDecoder.Open(z), UniformTable(), HeaderLength);
    (AsBytes(UniformTable(), header.0), header.1)
  }

  /** Symbols of a table over the 256 byte values are bytes. */
  function AsBytes(cum: seq<int>, syms: seq<int>): (bs: seq<byte>)
    requires |cum| == Symbols + 1
    requires forall i :: 0 <= i < |syms| ==> Codable(cum, syms[i])
    ensures bs == syms
  {
    assert forall i :: 0 <= i < |syms| ==> 0 <= syms[i] < Symbols by {
      forall i | 0 <= i < |syms| ensures 0 <= syms[i] < Symbols {
        assert Codable(cum, syms[i]);
      }
    }
    syms
  }

  /** The payload part of `decode_file`, once the header has given the
      length and the frequencies. A zero length decodes nothing. With a
      nonzero length, a frequency total of zero is the source's division by
      zero, and a total beyond 32 bits is the source's overflow of the
      table. */
  function DecodePayload(d: Decoder, length: u32, freqs: seq<u32>): (r: Result<seq<byte>>)
    requires d.Valid() && |freqs| == Symbols
    ensures r.Success? <==> length == 0 || 0 < Total(Cumulative(freqs)) <= 0xFFFF_FFFF
    ensures r.Success? ==> |r.value| == length
  {
    var cum := Cumulative(freqs);
    if length == 0 then Success([])
    else if Total(cum) == 0 then Failure("frequency total is zero")
    else if Total(cum) > 0xFFFF_FFFF then Failure("frequency total overflows 32 bits")
    else Success(AsBytes(cum, DecodeAll(d, cum, length).0))
  }

  /** `decode_file` on the bytes of the compressed file: the length and the
      frequencies from the header, then that many payload bytes. */
  function Decompress(z: seq<byte>): (r: Result<seq<byte>>)
    ensures r.Success? ==> |r.value| == ParseHeader(DecodeHeader(z).0).0
  {
    var header := DecodeHeader(z);
    var parsed := ParseHeader(header.0);
    DecodePayload(header.1, parsed.0, parsed.1)
  }

  /** The compressed bits lie in the interval of the finished encoder and
      so in the interval it had after the header. */
  lemma {:induction false} CompressedInside(data: seq<byte>, s: seq<bit>)
    requires Compressible(data) && s == BytesToBits(Finish(EncodePayload(data)))
    ensures Contains(EncodePayload(data), s)
    ensures Contains(EncodeHeader(data), s)
  {
    PayloadTableCodes(data);
    FinishContains(EncodePayload(data));
    ContainsBeforeEncodeAll(EncodeHeader(data), Cumulative(PayloadFrequencies(data)), data, s);
  }

  /** A stream inside the interval left by coding `hs` with the uniform
      table from the start decodes to `hs`, and the decoder ends in step. */
  lemma {:induction false} HeaderDecodes(z: seq<byte>, hs: seq<byte>, s: seq<bit>)
    requires s == BytesToBits(z) && |hs| == HeaderLength
    requires Contains(EncodeAll(RangeEncoder.Init(), UniformTable(), hs), s)
    ensures DecodeHeader(z).0 == hs
    ensures InSync(DecodeHeader(z).1, EncodeAll(RangeEncoder.Init(), UniformTable(), hs), s)
  {
    OpenInSync(z);
    DecodeAllSync(RangeDecoder.Open(z), RangeEncoder.Init(), UniformTable(), hs, s);
    DecodeAllStaysInSync(RangeDecoder.Open(z), RangeEncoder.Init(), UniformTable(), hs, s);
  }

  /** A decoder in step with the encoder after the header decodes the
      payload to the file. */
  lemma {:induction false} PayloadDecodes(d: Decoder, data: seq<byte>, s: seq<bit>)
    requires Compressible(data) && d.Valid()
    requires InSync(d, EncodeHeader(data), s) && Contains(EncodePayload(data), s)
    ensures DecodePayload(d, |data|, PayloadFrequencies(data)) == Success(data)
  {
    var freqs := PayloadFrequencies(data);
    var cum := Cumulative(freqs);
    PayloadTableCodes(data);
    if |data| > 0 {
      DecodeAllSync(d, EncodeHeader(data), cum, data, s);
      DecodedPayload(d, |data|, freqs, data);
    }
  }

  lemma DecodedPayload(d: Decoder, length: u32, freqs: seq<u32>, syms: seq<byte>)
    requires d.Valid() && |freqs| == Symbols && length > 0
    requires 0 < Total(Cumulative(freqs)) <= 0xFFFF_FFFF
    requires DecodeAll(d, Cumulative(freqs), length).0 == syms
    ensures DecodePayload(d, length, freqs) == Success(syms)
  {
  }

  /** Decompressing what `Compress` produced gives the file back. */
  lemma {:induction false} CompressRoundTrip(data: seq<byte>)
    requires Compressible(data)
    ensures Decompress(Compress(data).value) == Success(data)
  {
    var z := Finish(EncodePayload(data));
    var s := BytesToBits(z);
    var freqs := PayloadFrequencies(data);
    assert Compress(data).value == z;
    CompressedInside(data, s);
    HeaderDecodes(z, HeaderOf(data), s);
    ParseHeaderSymbols(|data|, freqs);
    var header := DecodeHeader(z);
    PayloadDecodes(header.1, data, s);
  }
}
