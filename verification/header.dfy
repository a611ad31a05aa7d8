/** The header of the C++ container: the file length and the 256 symbol
    frequencies, each a 32-bit unsigned value written as four bytes, least
    significant first (`encode_file`), and reassembled by or-ing each byte
    in at its shift (`decode_file`). */
module Header {
  import opened Bits
  import opened ByteCounts

  /** A 32-bit unsigned value. */
  type u32 = x: int | 0 <= x < 0x1_0000_0000

  /** `(x >> (8 * i)) & 0xFF` for `i = 0 .. 3`. */
  function Le32(x: u32): (bs: seq<byte>)
    ensures |bs| == 4
  {
    var v: int := x;
    [v % 0x100, (v / 0x100) % 0x100, (v / 0x1_0000) % 0x100, (v / 0x100_0000) % 0x100]
  }

  /** `v |= byte << (8 * i)` for `i = 0 .. 3`, starting from zero. The
      shifted bytes occupy disjoint bits, so or-ing them in is adding them. */
  function Le32Value(bs: seq<byte>): (x: u32)
    requires |bs| == 4
  {
    var b: seq<int> := bs;
    b[0] + b[1] * 0x100 + b[2] * 0x1_0000 + b[3] * 0x100_0000
  }

  /** Splitting a value into bytes and reassembling it gives it back. */
  lemma Le32RoundTrip(x: u32)
    ensures Le32Value(Le32(x)) == x
  {
    var v: int := x;
    var q1, q2, q3 := v / 0x100, v / 0x1_0000, v / 0x100_0000;
    assert q2 == q1 / 0x100;
    assert q3 == q2 / 0x100;
  }

  /** Every four bytes are the split of the value they reassemble to. */
  lemma Le32Split(bs: seq<byte>)
    requires |bs| == 4
    ensures Le32(Le32Value(bs)) == bs
  {
    var b: seq<int> := bs;
    var x: int := Le32Value(bs);
    var r1 := b[1] + b[2] * 0x100 + b[3] * 0x1_0000;
    var r2 := b[2] + b[3] * 0x100;
    assert x == b[0] + r1 * 0x100;
    assert x / 0x100 == r1;
    assert x / 0x1_0000 == r2 by {
      assert x == (b[0] + b[1] * 0x100) + r2 * 0x1_0000;
    }
    assert x / 0x100_0000 == b[3] by {
      assert x == (b[0] + b[1] * 0x100 + b[2] * 0x1_0000) + b[3] * 0x100_0000;
    }
  }

  /** The number of header symbols: the length, then four bytes for each of
      the 256 frequencies. */
  const HeaderLength: nat := 4 + 4 * Symbols

  /** The frequencies, each split into four bytes, in symbol order. */
  function SplitAll(freqs: seq<u32>): (bs: seq<byte>)
    ensures |bs| == 4 * |freqs|
  {
    seq(4 * |freqs|, k requires 0 <= k < 4 * |freqs| => Le32(freqs[k / 4])[k % 4])
  }

  /** Reassembles a frequency from every four bytes. */
  function JoinAll(bs: seq<byte>): (freqs: seq<u32>)
    requires |bs| % 4 == 0
    ensures |freqs| == |bs| / 4
  {
    seq(|bs| / 4, i requires 0 <= i < |bs| / 4 => Le32Value(bs[4 * i..4 * i + 4]))
  }

  /** The four bytes of frequency `i` sit at `4 * i`. */
  lemma SplitAllSlice(freqs: seq<u32>, i: nat)
    requires i < |freqs|
    ensures SplitAll(freqs)[4 * i..4 * i + 4] == Le32(freqs[i])
  {
    var bs := SplitAll(freqs);
    forall j | 0 <= j < 4
      ensures bs[4 * i + j] == Le32(freqs[i])[j]
    {
      assert (4 * i + j) / 4 == i && (4 * i + j) % 4 == j;
    }
  }

  lemma JoinSplitAll(freqs: seq<u32>)
    ensures JoinAll(SplitAll(freqs)) == freqs
  {
    forall i | 0 <= i < |freqs|
      ensures JoinAll(SplitAll(freqs))[i] == freqs[i]
    {
      SplitAllSlice(freqs, i);
      Le32RoundTrip(freqs[i]);
    }
  }

  lemma SplitJoinAll(bs: seq<byte>)
    requires |bs| % 4 == 0
    ensures SplitAll(JoinAll(bs)) == bs
  {
    var freqs := JoinAll(bs);
    forall k | 0 <= k < |bs|
      ensures SplitAll(freqs)[k] == bs[k]
    {
      var i := k / 4;
      Le32Split(bs[4 * i..4 * i + 4]);
      assert bs[4 * i..4 * i + 4][k % 4] == bs[k];
    }
  }

  /** The header symbols `encode_file` codes with the uniform table. */
  function HeaderSymbols(length: u32, freqs: seq<u32>): (syms: seq<byte>)
    requires |freqs| == Symbols
    ensures |syms| == HeaderLength
  {
    Le32(length) + SplitAll(freqs)
  }

  /** The length and frequencies `decode_file` reassembles from the header
      symbols. */
  function ParseHeader(syms: seq<byte>): (r: (u32, seq<u32>))
    requires |syms| == HeaderLength
    ensures |r.1| == Symbols
  {
    (Le32Value(syms[..4]), JoinAll(syms[4..]))
  }

  /** The header reads back as the length and frequencies written. */
  lemma ParseHeaderSymbols(length: u32, freqs: seq<u32>)
    requires |freqs| == Symbols
    ensures ParseHeader(HeaderSymbols(length, freqs)) == (length, freqs)
  {
    var syms := HeaderSymbols(length, freqs);
    assert syms[..4] == Le32(length);
    assert syms[4..] == SplitAll(freqs);
    Le32RoundTrip(length);
    JoinSplitAll(freqs);
  }

  /** Every string of header symbols is the header of what it parses to. */
  lemma HeaderSymbolsOfParse(syms: seq<byte>)
    requires |syms| == HeaderLength
    ensures HeaderSymbols(ParseHeader(syms).0, ParseHeader(syms).1) == syms
  {
    Le32Split(syms[..4]);
    SplitJoinAll(syms[4..]);
    assert syms[..4] + syms[4..] == syms;
  }
}
