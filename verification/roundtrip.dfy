/** Why the decoder recovers what the encoder coded.

    The encoder's 32-bit interval is a window onto an interval of the
    infinite-precision number line: with the bits written so far `W` and
    `p` pending bits, `[low, high]` stands for
    `[Base + low, Base + high]` at a precision of `Width = |W| + p + 32`
    bits, where `Base = Value(W) * 2^p * 2^32 + 2^p * Half - Half`. Every
    renormalisation step doubles that interval and adds one bit of
    precision, whichever case it is, and narrowing only shrinks it. So the
    final output, read as a number at each of these precisions, lies inside
    every interval the encoder passed through (`Contains`). The decoder's
    `code` is that number minus `Base`, so it tracks the encoder step by step
    (`InSync`) and always finds the symbol whose share holds it. */
module RoundTrip {
  import opened Bits
  import opened BitSink
  import opened BitSource
  import opened Interval
  import opened Tables
  import opened RangeEncoder
  import opened RangeDecoder

  const Scale: int := 0x1_0000_0000

  /** The precision, in bits, at which the encoder's interval is placed. */
  function Width(e: Encoder): nat {
    |e.sink.Written()| + e.pending + 32
  }

  /** The offset of the encoder's 32-bit window on the number line. */
  function Base(e: Encoder): int {
    Offset(Value(e.sink.Written()), e.pending)
  }

  /** The window offset for written bits of value `v` and `p` pending bits:
      each straddling step doubles it and moves it up by a half. */
  function Offset(v: int, p: nat): int {
    if p == 0 then v * Scale else 2 * Offset(v, p - 1) + Half
  }

  /** The offset in closed form: `v * 2^p * 2^32 + 2^p * Half - Half`. */
  lemma {:induction false} OffsetClosed(v: int, p: nat)
    ensures Offset(v, p) == v * Pow2(p) * Scale + Pow2(p) * Half - Half
  {
    if p > 0 {
      OffsetClosed(v, p - 1);
      var q := Pow2(p - 1);
      DoubleProduct2(v, q);
      assert v * Pow2(p) * Scale == 2 * (v * q * Scale);
    }
  }

  /** The stream `s`, read at the encoder's precision, lies in its interval. */
  predicate Contains(e: Encoder, s: seq<bit>) {
    Base(e) + e.low <= PrefixValue(s, Width(e)) <= Base(e) + e.high
  }

  /** The value of the written bits after `_write_bit_0` or `_write_bit_1`
      with `p` pending bits. */
  lemma ValueAfterSettle(w: seq<bit>, b: bit, p: nat)
    ensures Value(w + [b] + Repeat(1 - b, p)) == 2 * (Value(w) * Pow2(p)) + Pow2(p) - 1 + b
  {
    var head := [b] + Repeat(1 - b, p);
    assert w + [b] + Repeat(1 - b, p) == w + head;
    ValueAppend(w, head);
    SettleTail(b, p);
    DoubleProduct2(Value(w), Pow2(p));
  }

  /** The settled bit followed by `p` complements: `0111...` or `1000...`. */
  lemma SettleTail(b: bit, p: nat)
    ensures |[b] + Repeat(1 - b, p)| == p + 1
    ensures Value([b] + Repeat(1 - b, p)) == Pow2(p) - 1 + b
  {
    var tail := Repeat(1 - b, p);
    ValueAppend([b], tail);
    assert [b][..0] == [];
    if b == 0 {
      ValueOnes(p);
    } else {
      ValueZeros(p);
    }
  }

  lemma DoubleProduct2(v: int, p: int)
    ensures v * (2 * p) == 2 * (v * p)
  {
  }

  /** One renormalisation step doubles the encoder's interval on the number
      line and adds one bit of precision, in each of the three cases. */
  lemma StepDoubles(e: Encoder)
    requires e.Valid() && Classify(e.low, e.high) != Settled
    ensures Width(RangeEncoder.Step(e)) == Width(e) + 1
    ensures Base(RangeEncoder.Step(e)) + RangeEncoder.Step(e).low == 2 * (Base(e) + e.low)
    ensures Base(RangeEncoder.Step(e)) + RangeEncoder.Step(e).high == 2 * (Base(e) + e.high) + 1
  {
    var c := Classify(e.low, e.high);
    var r := RangeEncoder.Step(e);
    var w := e.sink.Written();
    var p := e.pending;
    var vp := Value(w) * Pow2(p);
    OffsetClosed(Value(w), p);
    assert Base(e) == vp * Scale + Pow2(p) * Half - Half;
    match c
    case LowerHalf =>
      ValueAfterSettle(w, 0, p);
      assert r.sink.Written() == w + [0] + Repeat(1, p);
      SettledBase(r, 2 * vp + Pow2(p) - 1);
    case UpperHalf =>
      ValueAfterSettle(w, 1, p);
      assert r.sink.Written() == w + [1] + Repeat(0, p);
      SettledBase(r, 2 * vp + Pow2(p));
    case Straddle =>
      assert r.sink == e.sink && r.pending == p + 1;
      assert Base(r) == 2 * Base(e) + Half;
  }

  /** With nothing pending the window starts at the written bits' value. */
  lemma SettledBase(r: Encoder, v: int)
    requires r.pending == 0 && Value(r.sink.Written()) == v
    ensures Base(r) == v * Scale
  {
  }

  /** The stream read one bit more precisely is twice the stream read at the
      old precision, plus the new bit. */
  lemma ContainsBeforeStep(e: Encoder, s: seq<bit>)
    requires e.Valid() && Classify(e.low, e.high) != Settled
    requires Contains(RangeEncoder.Step(e), s)
    ensures Contains(e, s)
  {
    StepDoubles(e);
  }

  /** A stream inside the renormalised interval was inside the interval
      before renormalisation. */
  lemma {:induction false} ContainsBeforeRenormalize(e: Encoder, s: seq<bit>)
    requires e.Valid()
    requires Contains(RangeEncoder.Renormalize(e), s)
    ensures Contains(e, s)
    decreases Top - (e.high - e.low)
  {
    if Classify(e.low, e.high) != Settled {
      ContainsBeforeRenormalize(RangeEncoder.Step(e), s);
      ContainsBeforeStep(e, s);
    }
  }

  /** A stream inside the interval after coding a symbol was inside the
      narrowed interval, and so inside the interval before. */
  lemma ContainsBeforeEncode(e: Encoder, cum: seq<int>, sym: int, s: seq<bit>)
    requires e.Ready() && EncodableTable(cum) && Codable(cum, sym)
    requires Contains(EncodeWith(e, cum, sym), s)
    ensures Contains(Narrow(e, cum[sym], cum[sym + 1] - cum[sym], Total(cum)), s)
    ensures Contains(e, s)
  {
    var n := Narrow(e, cum[sym], cum[sym + 1] - cum[sym], Total(cum));
    assert EncodeWith(e, cum, sym) == RangeEncoder.Renormalize(n);
    ContainsBeforeRenormalize(n, s);
    assert n.sink == e.sink && n.pending == e.pending;
    assert Base(n) == Base(e) && Width(n) == Width(e);
  }

  /** A stream inside the interval after coding a string of symbols was
      inside the interval before it. */
  lemma {:induction false} ContainsBeforeEncodeAll(e: Encoder, cum: seq<int>, syms: seq<int>, s: seq<bit>)
    requires e.Ready() && EncodableTable(cum)
    requires forall i :: 0 <= i < |syms| ==> Codable(cum, syms[i])
    requires Contains(EncodeAll(e, cum, syms), s)
    ensures Contains(e, s)
    decreases |syms|
  {
    if |syms| > 0 {
      var next := EncodeWith(e, cum, syms[0]);
      ContainsBeforeEncodeAll(next, cum, syms[1..], s);
      ContainsBeforeEncode(e, cum, syms[0], s);
    }
  }

  /** The encoder's final output lies in its final interval. */
  lemma FinishContains(e: Encoder)
    requires e.Ready()
    ensures Contains(e, BytesToBits(Finish(e)))
  {
    FinishedContains(e, Finish(e));
  }

  /** Any byte string holding the bits `finish` leaves, padded with zeros,
      lies in the final interval: `finish` picks the bit, with its pending
      complements, that puts the stream a quarter or a half above `Base`,
      and both points lie in a settled interval. */
  lemma {:induction false} FinishedContains(e: Encoder, out: seq<byte>)
    requires e.Ready()
    requires 8 * |out| >= |FinishedBits(e)|
    requires BytesToBits(out) == FinishedBits(e) + Repeat(0, 8 * |out| - |FinishedBits(e)|)
    ensures Contains(e, BytesToBits(out))
  {
    SettledIsWide(e.low, e.high);
    var vp, pp := Value(e.sink.Written()) * Pow2(e.pending), Pow2(e.pending);
    var fb := FinalBit(e);
    var pv := PrefixValue(BytesToBits(out), Width(e));
    FinishedValue(e, out, vp, pp, fb, pv);
    var base := Base(e);
    OffsetClosed(Value(e.sink.Written()), e.pending);
    assert base == vp * Scale + pp * Half - Half;
    FinishArith(vp, pp, fb, pv, base, e.low, e.high);
  }

  /** The finished stream, read at the encoder's precision: the written bits
      shifted past the window, then the final bit and its complements. */
  lemma {:induction false} FinishedValue(e: Encoder, out: seq<byte>, vp: int, pp: int, fb: bit, pv: int)
    requires e.Ready()
    requires 8 * |out| >= |FinishedBits(e)|
    requires BytesToBits(out) == FinishedBits(e) + Repeat(0, 8 * |out| - |FinishedBits(e)|)
    requires vp == Value(e.sink.Written()) * Pow2(e.pending) && pp == Pow2(e.pending)
    requires fb == FinalBit(e) && pv == PrefixValue(BytesToBits(out), Width(e))
    ensures pv == vp * Scale + (2 * pp - 1 + fb) * Quarter
  {
    var w := e.sink.Written();
    var p := e.pending;
    var z := 8 * |out| - |FinishedBits(e)|;
    var n := Width(e);
    assert n == |w| + p + 32;
    assert BytesToBits(out) == w + ([fb] + Repeat(1 - fb, p + 1)) + Repeat(0, z);
    PaddedTailValue(w, p, fb, z, BytesToBits(out), n, vp, pp, pv);
  }

  /** The written bits, the final bit with its `p + 1` complements and zero
      padding, read `p + 32` bits past the written ones. */
  lemma PaddedTailValue(w: seq<bit>, p: nat, fb: bit, z: nat, s: seq<bit>, n: nat, vp: int, pp: int, pv: int)
    requires s == w + ([fb] + Repeat(1 - fb, p + 1)) + Repeat(0, z)
    requires n == |w| + p + 32 && vp == Value(w) * Pow2(p) && pp == Pow2(p)
    requires pv == PrefixValue(s, n)
    ensures pv == vp * Scale + (2 * pp - 1 + fb) * Quarter
  {
    var tail := [fb] + Repeat(1 - fb, p + 1);
    FinishedPrefix(w, tail, z, p);
    ShiftWindow(Value(w), p);
    TailPrefix(fb, p);
  }

  /** The final bit and its `p + 1` complements, read to the end of the
      32-bit window: `2^(p + 1) - 1 + bit` quarters. */
  lemma TailPrefix(fb: bit, p: nat)
    ensures PrefixValue([fb] + Repeat(1 - fb, p + 1), p + 32) == (2 * Pow2(p) - 1 + fb) * Quarter
  {
    var tail := [fb] + Repeat(1 - fb, p + 1);
    SettleTail(fb, p + 1);
    PrefixValueBeyond(tail, 30);
    Pow2Of30();
  }

  /** The written bits, then a tail, then zero padding, read `p + 32` bits
      past the written ones. */
  lemma FinishedPrefix(w: seq<bit>, tail: seq<bit>, z: nat, p: nat)
    ensures PrefixValue(w + tail + Repeat(0, z), |w| + p + 32)
         == Value(w) * Pow2(p + 32) + PrefixValue(tail, p + 32)
  {
    PrefixValuePadded(w + tail, z, |w| + p + 32);
    PrefixValueAppend(w, tail, p + 32);
  }

  /** Moving `v` past `p + 32` bit positions is moving `v * 2^p` past the
      32-bit window. */
  lemma ShiftWindow(v: int, p: nat)
    ensures v * Pow2(p + 32) == (v * Pow2(p)) * Scale
  {
    Pow2Of32();
    Pow2Add(p, 32);
    MulAssoc(v, Pow2(p), Pow2(32));
  }

  lemma MulAssoc(a: int, b: int, c: int)
    ensures a * (b * c) == (a * b) * c
  {
  }

  /** The finishing point sits a quarter (bit 0) or a half (bit 1) above `Base`. */
  lemma FinishArith(vp: int, pp: int, fb: bit, pv: int, base: int, low: int, high: int)
    requires pv == vp * Scale + (2 * pp - 1 + fb) * Quarter
    requires base == vp * Scale + pp * Half - Half
    requires low < Half <= high && fb == (if low < Quarter then 0 else 1)
    ensures base + low <= pv <= base + high
  {
    assert pv - base == Quarter + fb * Quarter;
  }

  /** The decoder tracks the encoder on the stream `s`: the same interval,
      the source has read as far as the encoder's precision (or to the end
      of the input), and `code` is the stream read at that precision,
      relative to the window's offset. */
  predicate InSync(d: Decoder, e: Encoder, s: seq<bit>) {
    && d.low == e.low && d.high == e.high
    && d.source.Valid() && d.source.Stream() == s
    && d.source.Index() == Min(Width(e), |s|)
    && d.code == PrefixValue(s, Width(e)) - Base(e)
  }

  /** In sync, the stream lies in the encoder's interval exactly when the
      decoder's code lies in its own. */
  lemma SyncedCodeInside(d: Decoder, e: Encoder, s: seq<bit>)
    requires InSync(d, e, s) && e.Valid()
    ensures d.Valid() <==> Contains(e, s)
  {
  }

  /** The freshly opened decoder is in sync with the fresh encoder: nothing
      is written or pending, so the window is the first 32 bits. */
  lemma OpenInSync(out: seq<byte>)
    ensures InSync(RangeDecoder.Open(out), RangeEncoder.Init(), BytesToBits(out))
  {
    var e := RangeEncoder.Init();
    assert e.sink.Written() == [] && e.pending == 0;
    assert Base(e) == 0;
    assert Width(e) == 32;
  }

  /** One renormalisation step on both sides keeps them in sync: the
      decoder shifts in exactly the bit that the encoder's extra bit of
      precision reads. */
  lemma {:induction false} StepSync(d: Decoder, e: Encoder, s: seq<bit>)
    requires InSync(d, e, s) && d.Valid() && e.Valid()
    requires Classify(e.low, e.high) != Settled
    ensures InSync(RangeDecoder.Step(d), RangeEncoder.Step(e), s)
  {
    var d2, e2 := RangeDecoder.Step(d), RangeEncoder.Step(e);
    var w := Width(e);
    StepDoubles(e);
    assert BitAt(s, d.source.Index()) == BitAt(s, w);
    assert PrefixValue(s, w + 1) == 2 * PrefixValue(s, w) + BitAt(s, w);
    assert d2.low == e2.low && d2.high == e2.high;
  }

  /** Renormalising both sides keeps them in sync. */
  lemma {:induction false} RenormalizeSync(d: Decoder, e: Encoder, s: seq<bit>)
    requires InSync(d, e, s) && d.Valid() && e.Valid()
    ensures InSync(RangeDecoder.Renormalize(d), RangeEncoder.Renormalize(e), s)
    decreases Top - (e.high - e.low)
  {
    if Classify(e.low, e.high) != Settled {
      StepSync(d, e, s);
      RenormalizeSync(RangeDecoder.Step(d), RangeEncoder.Step(e), s);
    }
  }

  /** Decoding a symbol in sync with its encoding finds that symbol, and
      both sides stay in sync. */
  lemma {:induction false} DecodeSymbolSync(d: Decoder, e: Encoder, cum: seq<int>, sym: int, s: seq<bit>)
    requires InSync(d, e, s) && e.Ready() && d.Valid()
    requires EncodableTable(cum) && Codable(cum, sym)
    requires Contains(EncodeWith(e, cum, sym), s)
    ensures DecodeSymbol(d, cum).0 == sym
    ensures InSync(DecodeSymbol(d, cum).1, EncodeWith(e, cum, sym), s)
  {
    var narrowed, n := NarrowSync(d, e, cum, sym, s);
    RenormalizeSync(narrowed, n, s);
  }

  /** Both sides narrow to the share of the encoded symbol and stay in
      sync; what remains of each step is renormalisation. */
  lemma {:induction false} NarrowSync(d: Decoder, e: Encoder, cum: seq<int>, sym: int, s: seq<bit>)
      returns (narrowed: Decoder, n: Encoder)
    requires InSync(d, e, s) && e.Ready() && d.Valid()
    requires EncodableTable(cum) && Codable(cum, sym)
    requires Contains(EncodeWith(e, cum, sym), s)
    ensures InSync(narrowed, n, s) && narrowed.Valid() && n.Valid()
    ensures DecodeSymbol(d, cum).0 == sym
    ensures DecodeSymbol(d, cum).1 == RangeDecoder.Renormalize(narrowed)
    ensures EncodeWith(e, cum, sym) == RangeEncoder.Renormalize(n)
  {
    n := EncoderSide(e, cum, sym, s, d.low, d.high);
    NarrowedInSync(d, e, n, s);
    narrowed := Decoder(n.low, n.high, d.code, d.source);
    DecodeInShare(d, cum, sym, narrowed);
  }

  /** The encoder's half of a step: it narrows to the symbol's share,
      whose interval the stream lies in, and renormalises. */
  lemma {:induction false} EncoderSide(e: Encoder, cum: seq<int>, sym: int, s: seq<bit>, low: int, high: int)
      returns (n: Encoder)
    requires e.Ready() && EncodableTable(cum) && Codable(cum, sym) && e.low == low && e.high == high
    requires Contains(EncodeWith(e, cum, sym), s)
    ensures n.Valid() && n.sink == e.sink && n.pending == e.pending && Contains(n, s)
    ensures n.low == low + (high - low + 1) * cum[sym] / Total(cum)
    ensures n.high == low + (high - low + 1) * cum[sym + 1] / Total(cum) - 1
    ensures EncodeWith(e, cum, sym) == RangeEncoder.Renormalize(n)
  {
    n := Narrow(e, cum[sym], cum[sym + 1] - cum[sym], Total(cum));
    ContainsBeforeEncode(e, cum, sym, s);
    NarrowedBounds(e, low, high, cum[sym], cum[sym + 1], Total(cum));
  }

  /** Narrowing leaves the window where it was, so a code in sync with the
      encoder stays in sync with the narrowed interval, and lies inside it
      when the stream does. */
  lemma {:induction false} NarrowedInSync(d: Decoder, e: Encoder, n: Encoder, s: seq<bit>)
    requires InSync(d, e, s) && n.sink == e.sink && n.pending == e.pending
    requires Contains(n, s)
    ensures n.low <= d.code <= n.high
    ensures InSync(Decoder(n.low, n.high, d.code, d.source), n, s)
  {
    assert Base(n) == Base(e) && Width(n) == Width(e);
  }

  /** The bounds `Narrow` computes for the share `[c, c2)`. */
  lemma NarrowedBounds(e: Encoder, low: int, high: int, c: int, c2: int, total: int)
    requires e.Ready() && ValidShare(c, c2 - c, total) && e.low == low && e.high == high
    ensures Narrow(e, c, c2 - c, total).low == low + (high - low + 1) * c / total
    ensures Narrow(e, c, c2 - c, total).high == low + (high - low + 1) * c2 / total - 1
  {
    assert c + (c2 - c) == c2;
  }

  /** A code inside the narrowed interval of a share scales into that
      share, so `decode_symbol` finds that symbol and narrows to the same
      interval as the encoder. */
  lemma {:induction false} DecodeInShare(d: Decoder, cum: seq<int>, sym: int, narrowed: Decoder)
    requires d.Valid() && ValidTable(cum) && Codable(cum, sym) && narrowed.Valid()
    requires narrowed.code == d.code && narrowed.source == d.source
    requires narrowed.low == d.low + (d.high - d.low + 1) * cum[sym] / Total(cum)
    requires narrowed.high == d.low + (d.high - d.low + 1) * cum[sym + 1] / Total(cum) - 1
    ensures DecodeSymbol(d, cum).0 == sym
    ensures NarrowTo(d, cum, sym) == narrowed
  {
    var total, range := Total(cum), d.high - d.low + 1;
    OwnerOfCode(d.code - d.low, range, total, cum[sym], cum[sym + 1]);
    LookupUnique(cum, ScaledValue(d, total), sym);
  }

  /** Decoding as many symbols as were encoded, in sync, gives them back. */
  lemma {:induction false} DecodeAllSync(d: Decoder, e: Encoder, cum: seq<int>, syms: seq<int>, s: seq<bit>)
    requires InSync(d, e, s) && e.Ready() && d.Valid() && EncodableTable(cum)
    requires forall i :: 0 <= i < |syms| ==> Codable(cum, syms[i])
    requires Contains(EncodeAll(e, cum, syms), s)
    ensures DecodeAll(d, cum, |syms|).0 == syms
    decreases |syms|
  {
    if |syms| > 0 {
      var d1, e1 := SyncFirst(d, e, cum, syms, s);
      DecodeAllSync(d1, e1, cum, syms[1..], s);
      FirstAndRest(syms);
    }
  }

  /** ... and leaves both sides in sync for whatever is coded next. */
  lemma {:induction false} DecodeAllStaysInSync(d: Decoder, e: Encoder, cum: seq<int>, syms: seq<int>, s: seq<bit>)
    requires InSync(d, e, s) && e.Ready() && d.Valid() && EncodableTable(cum)
    requires forall i :: 0 <= i < |syms| ==> Codable(cum, syms[i])
    requires Contains(EncodeAll(e, cum, syms), s)
    ensures InSync(DecodeAll(d, cum, |syms|).1, EncodeAll(e, cum, syms), s)
    decreases |syms|
  {
    if |syms| > 0 {
      var d1, e1 := SyncFirst(d, e, cum, syms, s);
      DecodeAllStaysInSync(d1, e1, cum, syms[1..], s);
    }
  }

  /** The first symbol of a synchronised decoding: it is decoded correctly
      and the states after it are in sync for the rest. */
  lemma {:induction false} SyncFirst(d: Decoder, e: Encoder, cum: seq<int>, syms: seq<int>, s: seq<bit>)
      returns (d1: Decoder, e1: Encoder)
    requires InSync(d, e, s) && e.Ready() && d.Valid() && EncodableTable(cum) && |syms| > 0
    requires forall i :: 0 <= i < |syms| ==> Codable(cum, syms[i])
    requires Contains(EncodeAll(e, cum, syms), s)
    ensures InSync(d1, e1, s) && e1.Ready() && d1.Valid()
    ensures forall i :: 0 <= i < |syms[1..]| ==> Codable(cum, syms[1..][i])
    ensures Contains(EncodeAll(e1, cum, syms[1..]), s)
    ensures EncodeAll(e, cum, syms) == EncodeAll(e1, cum, syms[1..])
    ensures DecodeAll(d, cum, |syms|).0 == [syms[0]] + DecodeAll(d1, cum, |syms[1..]|).0
    ensures DecodeAll(d, cum, |syms|).1 == DecodeAll(d1, cum, |syms[1..]|).1
  {
    e1 := EncodeWith(e, cum, syms[0]);
    EncodeAllFirst(e, cum, syms);
    ContainsBeforeEncodeAll(e1, cum, syms[1..], s);
    DecodeSymbolSync(d, e, cum, syms[0], s);
    d1 := DecodeSymbol(d, cum).1;
    DecodeAllFirst(d, cum, |syms|);
  }

  lemma FirstAndRest(syms: seq<int>)
    requires |syms| > 0
    ensures [syms[0]] + syms[1..] == syms
  {
  }

  /** `EncodeAll` codes the first symbol, then the rest. */
  lemma {:induction false} EncodeAllFirst(e: Encoder, cum: seq<int>, syms: seq<int>)
    requires e.Ready() && EncodableTable(cum) && |syms| > 0
    requires forall i :: 0 <= i < |syms| ==> Codable(cum, syms[i])
    ensures forall i :: 0 <= i < |syms| - 1 ==> Codable(cum, syms[1..][i])
    ensures EncodeAll(e, cum, syms) == EncodeAll(EncodeWith(e, cum, syms[0]), cum, syms[1..])
  {
  }

  /** `DecodeAll` decodes the first symbol, then the rest. */
  lemma {:induction false} DecodeAllFirst(d: Decoder, cum: seq<int>, n: nat)
    requires d.Valid() && ValidTable(cum) && n > 0
    ensures DecodeAll(d, cum, n).0 == [DecodeSymbol(d, cum).0] + DecodeAll(DecodeSymbol(d, cum).1, cum, n - 1).0
    ensures DecodeAll(d, cum, n).1 == DecodeAll(DecodeSymbol(d, cum).1, cum, n - 1).1
  {
  }

  /** Any byte string that, read as bits, lies in the final interval of an
      encoding decodes back to the encoded symbols. */
  lemma {:induction false} DecodeFromStart(cum: seq<int>, syms: seq<int>, out: seq<byte>)
    requires EncodableTable(cum)
    requires forall i :: 0 <= i < |syms| ==> Codable(cum, syms[i])
    requires Contains(EncodeAll(RangeEncoder.Init(), cum, syms), BytesToBits(out))
    ensures DecodeAll(RangeDecoder.Open(out), cum, |syms|).0 == syms
  {
    var e := RangeEncoder.Init();
    OpenInSync(out);
    DecodeAllSync(RangeDecoder.Open(out), e, cum, syms, BytesToBits(out));
  }

  /** The range coder's round trip: decoding the finished encoding of a
      string of codable symbols with the same table gives the string back. */
  lemma RangeCoderRoundTrip(cum: seq<int>, syms: seq<int>)
    requires EncodableTable(cum)
    requires forall i :: 0 <= i < |syms| ==> Codable(cum, syms[i])
    ensures DecodeAll(RangeDecoder.Open(Finish(EncodeAll(RangeEncoder.Init(), cum, syms))), cum, |syms|).0 == syms
  {
    var e := EncodeAll(RangeEncoder.Init(), cum, syms);
    FinishContains(e);
    DecodeFromStart(cum, syms, Finish(e));
  }
}
