/** The range decoder (`RangeDecoder` in both `rangenc.py` and `rangenc.cpp`): it tracks the same
    interval as the encoder together with `code`, the 32 stream bits at the
    encoder's current position, finds the symbol whose share holds the
    scaled code, and renormalises in step with the encoder. */
module RangeDecoder {
  import opened Bits
  import opened BitSource
  import opened Interval
  import opened Tables

  datatype Decoder = Decoder(low: int, high: int, code: int, source: Source) {

    /** The code lies inside the 32-bit interval. */
    predicate Valid() {
      0 <= low <= code <= high <= Top && source.Valid()
    }
  }

  function Min(a: int, b: int): int {
    if a <= b then a else b
  }

  /** Shifts `n` more bits of the source into `code`. */
  function Prime(src: Source, code: nat, n: nat): (r: (nat, Source))
    requires src.Valid()
    ensures r.1.Valid() && r.1.input == src.input
    decreases n
  {
    if n == 0 then (code, src)
    else
      var read := ReadBit(src);
      Prime(read.1, 2 * code + read.0, n - 1)
  }

  /** Priming reads the stream, with zeros past its end, from a source that
      has consumed `k` bits (or all of them, if fewer). */
  lemma {:induction false} PrimeReadsStream(src: Source, code: nat, n: nat, k: nat)
    requires src.Valid() && src.Index() == Min(k, |src.Stream()|)
    requires code == PrefixValue(src.Stream(), k)
    ensures Prime(src, code, n).0 == PrefixValue(src.Stream(), k + n)
    ensures Prime(src, code, n).1.Index() == Min(k + n, |src.Stream()|)
    decreases n
  {
    if n > 0 {
      var read := ReadBit(src);
      ReadNextBit(src, code, k);
      PrimeReadsStream(read.1, 2 * code + read.0, n - 1, k + 1);
    }
  }

  /** One read extends the prefix value by the next stream bit. */
  lemma ReadNextBit(src: Source, code: nat, k: nat)
    requires src.Valid() && src.Index() == Min(k, |src.Stream()|)
    requires code == PrefixValue(src.Stream(), k)
    ensures ReadBit(src).1.Stream() == src.Stream()
    ensures 2 * code + ReadBit(src).0 == PrefixValue(src.Stream(), k + 1)
    ensures ReadBit(src).1.Index() == Min(k + 1, |src.Stream()|)
  {
    var stream := src.Stream();
    assert BitAt(stream, src.Index()) == BitAt(stream, k);
  }

  /** The constructor: the full interval and the first 32 stream bits. */
  function Open(input: seq<byte>): (d: Decoder)
    ensures d.Valid() && d.low == 0 && d.high == Top
    ensures d.source.input == input
    ensures d.code == PrefixValue(BytesToBits(input), 32)
    ensures d.source.Index() == Min(32, 8 * |input|)
  {
    var src := BitSource.Open(input);
    var stream := src.Stream();
    PrimeReadsStream(src, 0, 32, 0);
    PrefixValueBound(stream, 32);
    Pow2Of32();
    var primed := Prime(src, 0, 32);
    Decoder(0, Top, primed.0, primed.1)
  }

  /** The decoder's binary search over `[lo, hi]`: the first entry above
      `value`, or the last index if there is none below it. */
  function Search(cum: seq<int>, value: int, lo: nat, hi: nat): (r: nat)
    requires lo <= hi < |cum| && NonDecreasing(cum)
    requires lo == 0 || cum[lo - 1] <= value
    requires hi == |cum| - 1 || cum[hi] > value
    ensures lo <= r <= hi
    ensures r == 0 || cum[r - 1] <= value
    ensures r == |cum| - 1 || cum[r] > value
    decreases hi - lo
  {
    if lo < hi then
      var mid := (lo + hi) / 2;
      if cum[mid] > value then Search(cum, value, lo, mid)
      else Search(cum, value, mid + 1, hi)
    else
      lo
  }

  /** The symbol lookup of `decode_symbol`: the symbol whose share
      `[cum[s], cum[s + 1])` holds `value`. */
  function Lookup(cum: seq<int>, value: int): (s: nat)
    requires ValidTable(cum) && 0 <= value < Total(cum)
    ensures s < |cum| - 1 && cum[s] <= value < cum[s + 1]
  {
    Search(cum, value, 0, |cum| - 1) - 1
  }

  /** The share holding a value is unique, so `Lookup` finds exactly it. */
  lemma LookupUnique(cum: seq<int>, value: int, t: int)
    requires ValidTable(cum) && 0 <= t < |cum| - 1 && cum[t] <= value < cum[t + 1]
    ensures Lookup(cum, value) == t
  {
  }

  /** With the uniform header table the symbol is the value itself. */
  lemma LookupUniform(value: int)
    requires 0 <= value < 256
    ensures Lookup(UniformTable(), value) == value
  {
    LookupUnique(UniformTable(), value, value);
  }

  /** The result of `std::lower_bound` in `rangenc.cpp`: the first index
      whose entry is not below `value`, or `|cum|`. */
  function LowerBound(cum: seq<int>, value: int, from: nat): (r: nat)
    requires from <= |cum| && NonDecreasing(cum)
    requires from == 0 || cum[from - 1] < value
    ensures from <= r <= |cum|
    ensures r == 0 || cum[r - 1] < value
    ensures r == |cum| || cum[r] >= value
    decreases |cum| - from
  {
    if from == |cum| || cum[from] >= value then from
    else LowerBound(cum, value, from + 1)
  }

  /** The C++ lookup as written: `lower_bound(...) - 1`, the last index
      whose entry is strictly below `value` (-1 when there is none). */
  function CppLookup(cum: seq<int>, value: int): (s: int)
    requires NonDecreasing(cum)
    ensures -1 <= s < |cum|
    ensures s >= 0 ==> cum[s] < value
    ensures s + 1 < |cum| ==> value <= cum[s + 1]
  {
    LowerBound(cum, value, 0) - 1
  }

  /** The C++ lookup agrees with the search exactly when the value is not
      the first point of its symbol's share; on a share boundary it returns
      a smaller symbol. */
  lemma CppLookupMissesBoundaries(cum: seq<int>, value: int)
    requires ValidTable(cum) && 0 <= value < Total(cum)
    ensures CppLookup(cum, value) == Lookup(cum, value) <==> value != cum[Lookup(cum, value)]
    ensures value == cum[Lookup(cum, value)] ==> CppLookup(cum, value) < Lookup(cum, value)
  {
    var s := Lookup(cum, value);
    var lb := LowerBound(cum, value, 0);
    if value == cum[s] {
      assert lb <= s;
    } else {
      assert cum[s] < value < cum[s + 1];
      assert lb == s + 1;
    }
  }

  /** With the uniform header table the C++ lookup returns `value - 1`,
      and -1 for a value of 0: every header byte is decoded one too low. */
  lemma CppLookupUniform(value: int)
    requires 0 <= value < 256
    ensures CppLookup(UniformTable(), value) == value - 1
    ensures CppLookup(UniformTable(), value) != Lookup(UniformTable(), value)
  {
    LookupUniform(value);
    CppLookupMissesBoundaries(UniformTable(), value);
    var lb := LowerBound(UniformTable(), value, 0);
    assert lb == value;
  }

  /** The scaled position of the code: `((code - low + 1) * total - 1) / range`. */
  function ScaledValue(d: Decoder, total: int): (v: int)
    requires d.Valid() && total > 0
    ensures 0 <= v < total
  {
    var range := d.high - d.low + 1;
    ScaledValueInRange(d.code - d.low, range, total);
    ((d.code - d.low + 1) * total - 1) / range
  }

  /** One pass of the renormalisation loop: the same case and the same
      update of `low` and `high` as the encoder, and `code` follows with one
      new stream bit shifted in. */
  function Step(d: Decoder): (r: Decoder)
    requires d.Valid() && Classify(d.low, d.high) != Settled
    ensures r.Valid() && r.source.input == d.source.input
    ensures r.high - r.low > d.high - d.low
    ensures r.code - r.low == 2 * (d.code - d.low) + BitAt(d.source.Stream(), d.source.Index())
    ensures r.source.Index() == if d.source.Index() < |d.source.Stream()| then d.source.Index() + 1 else d.source.Index()
  {
    var c := Classify(d.low, d.high);
    ScaleStep(d.low, d.high);
    var read := ReadBit(d.source);
    Decoder(ScaleLow(d.low, c), ScaleHigh(d.high, c), 2 * (d.code - Offset(c)) + read.0, read.1)
  }

  function Renormalize(d: Decoder): (r: Decoder)
    requires d.Valid()
    ensures r.Valid() && Classify(r.low, r.high) == Settled
    ensures r.source.input == d.source.input
    decreases Top - (d.high - d.low)
  {
    if Classify(d.low, d.high) == Settled then d else Renormalize(Step(d))
  }

  /** The narrowing of `decode_symbol`: the interval shrinks to the share of
      symbol `s`, with the encoder's arithmetic, and still holds the code. */
  function NarrowTo(d: Decoder, cum: seq<int>, s: int): (r: Decoder)
    requires d.Valid() && ValidTable(cum) && 0 <= s < |cum| - 1
    requires cum[s] <= ScaledValue(d, Total(cum)) < cum[s + 1]
    ensures r.Valid() && d.low <= r.low && r.high <= d.high
    ensures r.code == d.code && r.source == d.source
  {
    var total := Total(cum);
    var range := d.high - d.low + 1;
    CodeInsideOwner(d.code - d.low, range, total, cum[s], cum[s + 1]);
    NarrowWithin(range, cum[s], cum[s + 1], total);
    Decoder(d.low + range * cum[s] / total, d.low + range * cum[s + 1] / total - 1, d.code, d.source)
  }

  /** `decode_symbol`: whatever the input, the decoded symbol has nonzero
      frequency, the code stays inside the narrowed interval, and the
      decoder is left renormalised. */
  function DecodeSymbol(d: Decoder, cum: seq<int>): (r: (int, Decoder))
    requires d.Valid() && ValidTable(cum)
    ensures Codable(cum, r.0)
    ensures r.1.Valid() && Classify(r.1.low, r.1.high) == Settled
    ensures r.1.source.input == d.source.input
  {
    var s := Lookup(cum, ScaledValue(d, Total(cum)));
    (s, Renormalize(NarrowTo(d, cum, s)))
  }

  /** Decodes `n` symbols with one table. */
  function DecodeAll(d: Decoder, cum: seq<int>, n: nat): (r: (seq<int>, Decoder))
    requires d.Valid() && (n > 0 ==> ValidTable(cum))
    ensures |r.0| == n && forall i :: 0 <= i < n ==> Codable(cum, r.0[i])
    ensures r.1.Valid() && r.1.source.input == d.source.input
    decreases n
  {
    if n == 0 then ([], d)
    else
      var first := DecodeSymbol(d, cum);
      var rest := DecodeAll(first.1, cum, n - 1);
      ([first.0] + rest.0, rest.1)
  }
}
