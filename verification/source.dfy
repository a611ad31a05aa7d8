/** The decoder's bit source (`read_bit` in both `rangenc.py` and `rangenc.cpp`): the
    input bytes are read most significant bit first, and once they are
    exhausted every further read yields a zero bit. */
module BitSource {
  import opened Bits

  /** `pos` is the next byte to load; the `count` bits of byte `pos - 1` not
      yet read sit in the top bits of `buffer`. */
  datatype Source = Source(input: seq<byte>, pos: nat, buffer: nat, count: nat) {

    predicate Valid() {
      && pos <= |input|
      && count < 8
      && (count > 0 ==> pos > 0 && Holds(input[pos - 1], count, buffer))
    }

    /** The input as one bit string. */
    function Stream(): seq<bit> {
      BytesToBits(input)
    }

    /** How many bits of `Stream()` have been read. */
    function Index(): nat
      requires Valid()
    {
      8 * pos - count
    }
  }

  /** `buffer` holds the last `count` bits of `x`, shifted to the top of a byte. */
  predicate Holds(x: byte, count: nat, buffer: nat)
    requires 1 <= count <= 8
  {
    buffer == Shifted(x, 8 - count)
  }

  /** The buffer after `k` reads from a freshly loaded byte `x`: each read
      shifts it left by one within eight bits. */
  function Shifted(x: byte, k: nat): nat {
    if k == 0 then x else (Shifted(x, k - 1) * 2) % 256
  }

  function Open(input: seq<byte>): (s: Source)
    ensures s.Valid() && s.Index() == 0
  {
    Source(input, 0, 0, 0)
  }

  /** Takes the top bit of a loaded buffer and shifts the rest up. */
  function Shift(s: Source): (r: (bit, Source))
    requires 1 <= s.count <= 8 && 0 < s.pos <= |s.input|
    requires Holds(s.input[s.pos - 1], s.count, s.buffer)
    ensures r.1.Valid() && r.1.input == s.input
    ensures r.0 == s.Stream()[8 * s.pos - s.count]
    ensures r.1.Index() == 8 * s.pos - s.count + 1
  {
    var x := s.input[s.pos - 1];
    ShiftedTopBit(x, 8 - s.count);
    BytesToBitsIndex(s.input, s.pos - 1, 8 - s.count);
    var bit := (s.buffer / 128) % 2;
    var buffer := (s.buffer * 2) % 256;
    (bit, Source(s.input, s.pos, buffer, s.count - 1))
  }

  /** The bits of `x` the buffer holds after `j` reads: the unread ones at
      the top, zeros shifted in below them. */
  function Window(x: byte, j: nat): (w: seq<bit>)
    requires j <= 8
    ensures |w| == 8
  {
    ByteBits(x)[j..] + Repeat(0, j)
  }

  /** The top bit of the buffer after `j` reads is bit `j` of the byte. */
  lemma ShiftedTopBit(x: byte, j: nat)
    requires j < 8
    ensures (Shifted(x, j) / 128) % 2 == ByteBits(x)[j]
  {
    ShiftedIsWindow(x, j);
    ByteShift(Window(x, j));
  }

  /** The buffer after `j` reads is the value of its window. */
  lemma {:induction false} ShiftedIsWindow(x: byte, j: nat)
    requires j <= 8
    ensures Shifted(x, j) == Value(Window(x, j))
  {
    var bits := ByteBits(x);
    if j > 0 {
      ShiftedIsWindow(x, j - 1);
      var prev := Window(x, j - 1);
      ByteShift(prev);
      assert prev[1..] + [0] == Window(x, j);
    } else {
      assert Window(x, 0) == bits;
    }
  }

  /** Shifting an 8-bit value left by one within a byte: the top bit falls
      out and a zero comes in at the bottom. */
  lemma ByteShift(bs: seq<bit>)
    requires |bs| == 8
    ensures (Value(bs) / 128) % 2 == bs[0]
    ensures (Value(bs) * 2) % 256 == Value(bs[1..] + [0])
  {
    ValueSplitFirst(bs);
    assert Pow2(7) == 128;
    var rest := bs[1..];
    ValueBound(rest);
    assert (rest + [0])[..7] == rest;
    TopBit(bs[0], Value(rest));
  }

  lemma TopBit(b: bit, t: nat)
    requires t < 128
    ensures ((b * 128 + t) / 128) % 2 == b
    ensures ((b * 128 + t) * 2) % 256 == 2 * t
  {
  }

  lemma ValueSplitFirst(rem: seq<bit>)
    requires |rem| > 0
    ensures Value(rem) == rem[0] * Pow2(|rem| - 1) + Value(rem[1..])
  {
    var head, rest := [rem[0]], rem[1..];
    assert head + rest == rem;
    ValueAppend(head, rest);
    assert head[..0] == [];
    assert Value(head) == rem[0];
  }

  /** Reads one bit, loading the next byte when the current one is used up. */
  function ReadBit(s: Source): (r: (bit, Source))
    requires s.Valid()
    ensures r.1.Valid() && r.1.input == s.input
    ensures r.0 == BitAt(s.Stream(), s.Index())
    ensures r.1.Index() == if s.Index() < |s.Stream()| then s.Index() + 1 else s.Index()
    ensures s.Index() >= |s.Stream()| ==> r == (0, s)
  {
    if s.count == 0 then
      if s.pos < |s.input| then
        var x := s.input[s.pos];
        Shift(Source(s.input, s.pos + 1, x, 8))
      else
        (0, s)
    else
      Shift(s)
  }
}
