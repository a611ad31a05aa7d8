/** The range encoder (`RangeEncoder` in both `rangenc.py` and `rangenc.cpp`): a 32-bit interval
    `[low, high]` narrowed once per symbol, renormalised by emitting the bits
    it has settled, with straddling steps counted as pending bits whose value
    is decided by the next settled bit. */
module RangeEncoder {
  import opened Bits
  import opened BitSink
  import opened Interval
  import opened Tables

  datatype Encoder = Encoder(low: int, high: int, pending: nat, sink: Sink) {

    predicate Valid() {
      InRange(low, high) && sink.Valid()
    }

    /** Between symbols: renormalisation has run to completion. */
    predicate Ready() {
      Valid() && Classify(low, high) == Settled
    }
  }

  function Init(): (e: Encoder)
    ensures e.Ready() && e.sink.Written() == []
  {
    Encoder(0, Top, 0, Empty)
  }

  /** `_write_bit_0` and `_write_bit_1`: the settled bit, then every pending
      bit as its complement; nothing is pending afterwards. */
  function EmitSettled(e: Encoder, b: bit): (r: Encoder)
    requires e.Valid()
    ensures r.Valid() && r.pending == 0
    ensures r.low == e.low && r.high == e.high
    ensures r.sink.Written() == e.sink.Written() + [b] + Repeat(1 - b, e.pending)
  {
    var s := WriteBits(WriteBit(e.sink, b), Repeat(1 - b, e.pending));
    Encoder(e.low, e.high, 0, s)
  }

  /** The encoder's precondition on one symbol's share of the distribution. */
  predicate ValidShare(cumFreq: int, freq: int, total: int) {
    0 <= cumFreq && 0 < freq && cumFreq + freq <= total && total <= MaxTotal
  }

  /** The first half of `encode_symbol`: the interval shrinks to the
      symbol's share, which is never empty. */
  function Narrow(e: Encoder, cumFreq: int, freq: int, total: int): (r: Encoder)
    requires e.Ready() && ValidShare(cumFreq, freq, total)
    ensures r.Valid() && e.low <= r.low <= r.high <= e.high
    ensures r.pending == e.pending && r.sink == e.sink
  {
    var range := e.high - e.low + 1;
    SettledIsWide(e.low, e.high);
    NarrowWithin(range, cumFreq, cumFreq + freq, total);
    NarrowNonEmpty(range, cumFreq, freq, total);
    Encoder(e.low + range * cumFreq / total, e.low + range * (cumFreq + freq) / total - 1, e.pending, e.sink)
  }

  /** One pass of the renormalisation loop: emit a settled bit or count a
      pending one, then double the interval. */
  function Step(e: Encoder): (r: Encoder)
    requires e.Valid() && Classify(e.low, e.high) != Settled
    ensures r.Valid() && r.high - r.low > e.high - e.low
  {
    var c := Classify(e.low, e.high);
    ScaleStep(e.low, e.high);
    var emitted :=
      match c
      case LowerHalf => EmitSettled(e, 0)
      case UpperHalf => EmitSettled(e, 1)
      case Straddle => e.(pending := e.pending + 1);
    Encoder(ScaleLow(e.low, c), ScaleHigh(e.high, c), emitted.pending, emitted.sink)
  }

  /** The renormalisation loop. It terminates because every step widens the
      interval, and it leaves the interval straddling the midpoint with more
      than a quarter of the 32-bit space. Bits are only ever appended. */
  function Renormalize(e: Encoder): (r: Encoder)
    requires e.Valid()
    ensures r.Ready()
    ensures r.low < Half <= r.high && r.high - r.low >= Quarter + 1
    ensures e.sink.Written() <= r.sink.Written()
    decreases Top - (e.high - e.low)
  {
    if Classify(e.low, e.high) == Settled then
      SettledIsWide(e.low, e.high);
      e
    else
      var r := Renormalize(Step(e));
      assert e.sink.Written() <= Step(e).sink.Written();
      r
  }

  /** `encode_symbol`: narrow to the symbol's share, then renormalise. (The
      source's `symbol` argument is unused and is not modelled.) */
  function EncodeSymbol(e: Encoder, cumFreq: int, freq: int, total: int): (r: Encoder)
    requires e.Ready() && ValidShare(cumFreq, freq, total)
    ensures r.Ready() && e.sink.Written() <= r.sink.Written()
  {
    Renormalize(Narrow(e, cumFreq, freq, total))
  }

  /** Codes symbol `s` with its share of the cumulative table `cum`. */
  function EncodeWith(e: Encoder, cum: seq<int>, s: int): (r: Encoder)
    requires e.Ready() && EncodableTable(cum) && Codable(cum, s)
    ensures r.Ready() && e.sink.Written() <= r.sink.Written()
  {
    assert cum[s + 1] <= Total(cum);
    EncodeSymbol(e, cum[s], cum[s + 1] - cum[s], Total(cum))
  }

  /** Codes a string of symbols, all with the same table. */
  function EncodeAll(e: Encoder, cum: seq<int>, syms: seq<int>): (r: Encoder)
    requires e.Ready() && EncodableTable(cum)
    requires forall i :: 0 <= i < |syms| ==> Codable(cum, syms[i])
    ensures r.Ready() && e.sink.Written() <= r.sink.Written()
    decreases |syms|
  {
    if |syms| == 0 then e
    else
      var r := EncodeAll(EncodeWith(e, cum, syms[0]), cum, syms[1..]);
      assert e.sink.Written() <= EncodeWith(e, cum, syms[0]).sink.Written();
      r
  }

  /** The bit that settles the final interval in `finish`. Between symbols
      the interval then contains the whole quarter of the 32-bit space that
      the bit and its complements select: `[Quarter, Half]` after a zero,
      `[Half, ThreeQuarters]` after a one. */
  function FinalBit(e: Encoder): (b: bit)
    ensures e.Ready() && b == 0 ==> e.low < Quarter && Half <= e.high
    ensures e.Ready() && b == 1 ==> e.low < Half && ThreeQuarters <= e.high
  {
    if e.low < Quarter then 0 else 1
  }

  /** The bits `finish` leaves in the sink before padding: one more pending
      bit than before, so at least two bits are added. */
  function FinishedBits(e: Encoder): (bs: seq<bit>)
    requires e.Valid()
    ensures |bs| == |e.sink.Written()| + e.pending + 2
  {
    e.sink.Written() + [FinalBit(e)] + Repeat(1 - FinalBit(e), e.pending + 1)
  }

  /** `finish`: the settling bit with its pending complements, then the
      zero-padded last byte. The output is the whole bit stream rounded up
      to bytes. */
  function Finish(e: Encoder): (out: seq<byte>)
    requires e.Valid()
    ensures |out| == (|FinishedBits(e)| + 7) / 8
    ensures BytesToBits(out) == FinishedBits(e) + Repeat(0, 8 * |out| - |FinishedBits(e)|)
    ensures e.sink.output <= out
  {
    var settled := EmitSettled(e.(pending := e.pending + 1), FinalBit(e));
    Flush(settled.sink).output
  }
}
