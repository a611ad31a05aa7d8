/** The encoder's bit sink (`write_bit` and `flush_bits` in both `rangenc.py`
    and `rangenc.cpp`): bits are packed most significant first into bytes, and a
    partial final byte is padded with zero bits. */
module BitSink {
  import opened Bits

  /** The bytes emitted so far, and the bits of the partial byte not yet
      emitted. The source keeps the partial byte as an integer `buffer` with
      a bit counter; here they are `Buffer()` and `Count()`. */
  datatype Sink = Sink(output: seq<byte>, partial: seq<bit>) {

    predicate Valid() {
      |partial| < 8
    }

    /** The number of bits in the partial byte. */
    function Count(): nat {
      |partial|
    }

    /** The partial byte as the integer the source accumulates. */
    function Buffer(): nat {
      Value(partial)
    }

    /** Every bit written so far, in order. */
    function Written(): seq<bit> {
      BytesToBits(output) + partial
    }
  }

  const Empty: Sink := Sink([], [])

  /** Appends one bit: the buffer is shifted left with the bit or-ed in, and
      the eighth bit of a byte moves the whole byte to the output. */
  function WriteBit(s: Sink, b: bit): (r: Sink)
    requires s.Valid()
    ensures r.Valid()
    ensures r.Written() == s.Written() + [b]
    ensures s.output <= r.output
  {
    var bits := s.partial + [b];
    if |bits| == 8 then
      CompleteByte(s.output, bits);
      Sink(s.output + [Value(bits)], [])
    else
      Sink(s.output, bits)
  }

  /** `write_bit` on the source's integer buffer: the buffer is shifted left
      with the bit or-ed in, and when the eighth bit arrives that byte is
      appended to the output and the buffer is cleared. */
  lemma WriteBitShiftsBuffer(s: Sink, b: bit)
    requires s.Valid()
    ensures WriteBit(s, b).Buffer() == if s.Count() == 7 then 0 else 2 * s.Buffer() + b
    ensures s.Count() == 7 ==> WriteBit(s, b).output == s.output + [2 * s.Buffer() + b]
    ensures s.Count() < 7 ==> WriteBit(s, b).output == s.output
  {
    ShiftInBit(s.partial, b);
  }

  /** Appending a bit doubles the value and adds the bit: `(buffer << 1) | bit`. */
  lemma ShiftInBit(partial: seq<bit>, b: bit)
    ensures Value(partial + [b]) == 2 * Value(partial) + b
  {
    assert (partial + [b])[..|partial|] == partial;
  }

  /** Eight bits make one output byte, which reads back as those bits. */
  lemma CompleteByte(output: seq<byte>, bits: seq<bit>)
    requires |bits| == 8
    ensures Value(bits) < 256
    ensures BytesToBits(output + [Value(bits)]) == BytesToBits(output) + bits
  {
    Pow2Of8();
    ValueBound(bits);
    var x := Value(bits);
    ToBitsOfValue(bits);
    assert ByteBits(x) == bits;
    BytesToBitsAppend(output, x);
  }

  /** Writes a string of bits one at a time. */
  function WriteBits(s: Sink, bs: seq<bit>): (r: Sink)
    requires s.Valid()
    ensures r.Valid()
    ensures r.Written() == s.Written() + bs
    ensures s.output <= r.output
    decreases |bs|
  {
    if |bs| == 0 then s
    else
      var r := WriteBits(WriteBit(s, bs[0]), bs[1..]);
      assert s.Written() + [bs[0]] + bs[1..] == s.Written() + bs;
      r
  }

  /** Eight bits written from a byte boundary come out as exactly one byte
      holding those bits, most significant first. */
  lemma EightBitsMakeOneByte(s: Sink, bs: seq<bit>)
    requires s.Valid() && s.Count() == 0 && |bs| == 8
    ensures WriteBits(s, bs).output == s.output + [Value(bs)]
    ensures WriteBits(s, bs).Count() == 0
  {
    var r := WriteBits(s, bs);
    var x := r.output[|s.output|];
    assert r.output == s.output + [x];
    BytesToBitsAppend(s.output, x);
    var prefix := BytesToBits(s.output);
    assert s.Written() == prefix;
    assert r.Written() == BytesToBits(r.output);
    assert prefix + ByteBits(x) == prefix + bs;
    assert ByteBits(x) == (prefix + ByteBits(x))[|prefix|..];
    assert bs == (prefix + bs)[|prefix|..];
    ValueInjective(ByteBits(x), bs);
  }

  /** The number of zero bits `flush_bits` adds to complete the last byte. */
  function PadLength(count: nat): nat
    requires count < 8
  {
    if count > 0 then 8 - count else 0
  }

  /** Emits a partial byte, shifted up to the top of the byte so that zero
      bits pad it; a no-op on a byte boundary. */
  function Flush(s: Sink): (r: Sink)
    requires s.Valid()
    ensures r.Valid() && r.Count() == 0
    ensures r.Written() == BytesToBits(r.output)
    ensures BytesToBits(r.output) == s.Written() + Repeat(0, PadLength(s.Count()))
    ensures |r.output| == (|s.Written()| + 7) / 8
    ensures s.Count() == 0 ==> r == s
  {
    if s.Count() > 0 then
      var padded := s.partial + Repeat(0, 8 - s.Count());
      CompleteByte(s.output, padded);
      Sink(s.output + [Value(padded)], [])
    else
      assert s.Written() + Repeat(0, 0) == s.Written();
      s
  }

  /** `flush_bits` on the source's integer buffer: a partial byte is shifted
      left by the number of missing bits and appended to the output. */
  lemma FlushShiftsBuffer(s: Sink)
    requires s.Valid() && s.Count() > 0
    ensures Flush(s).output == s.output + [s.Buffer() * Pow2(8 - s.Count())]
  {
    var zeros := Repeat(0, 8 - s.Count());
    ValueAppend(s.partial, zeros);
    ValueZeros(8 - s.Count());
  }
}
