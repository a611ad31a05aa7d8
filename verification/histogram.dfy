/** The byte histogram of the C++ container (`count_frequencies`): every
    worker thread counts the bytes of its own chunk of the file, the
    per-chunk counts are summed, and one is added to every count so that
    no byte value has zero frequency. Reading the file is not modelled:
    the input is the byte string, already split into chunks. */
module ByteCounts {
  import opened Bits
  import opened Tables

  /** The number of byte values, and so the length of every count table. */
  const Symbols: nat := 256

  /** A count table with every entry zero. */
  function Zeros(n: nat): (t: seq<nat>)
    ensures |t| == n && forall i :: 0 <= i < n ==> t[i] == 0
  {
    seq(n, _ => 0)
  }

  /** One worker's loop: each byte read bumps its own entry. */
  function Tally(data: seq<byte>): (t: seq<nat>)
    ensures |t| == Symbols
  {
    if |data| == 0 then Zeros(Symbols)
    else
      var t := Tally(data[..|data| - 1]);
      var b := data[|data| - 1];
      t[b := t[b] + 1]
  }

  /** Entry `v` of the tally is the number of occurrences of `v`. */
  lemma {:induction false} TallyCounts(data: seq<byte>, v: byte)
    ensures Tally(data)[v] == multiset(data)[v]
  {
    if |data| > 0 {
      var init := data[..|data| - 1];
      TallyCounts(init, v);
      assert data == init + [data[|data| - 1]];
      assert multiset(data) == multiset(init) + multiset{data[|data| - 1]};
    }
  }

  /** The entrywise sum of two count tables. */
  function Merge(a: seq<nat>, b: seq<nat>): (t: seq<nat>)
    requires |a| == |b|
    ensures |t| == |a| && forall i :: 0 <= i < |a| ==> t[i] == a[i] + b[i]
  {
    seq(|a|, i requires 0 <= i < |a| => a[i] + b[i])
  }

  /** The merge loop: start from zeros and add every worker's table in turn. */
  function MergeAll(tables: seq<seq<nat>>): (t: seq<nat>)
    requires forall k :: 0 <= k < |tables| ==> |tables[k]| == Symbols
    ensures |t| == Symbols
  {
    if |tables| == 0 then Zeros(Symbols)
    else Merge(MergeAll(tables[..|tables| - 1]), tables[|tables| - 1])
  }

  /** The bytes of all chunks, in order: the whole file. */
  function Concat(chunks: seq<seq<byte>>): (data: seq<byte>)
  {
    if |chunks| == 0 then [] else Concat(chunks[..|chunks| - 1]) + chunks[|chunks| - 1]
  }

  /** The table each worker produces for its chunk. */
  function ChunkTallies(chunks: seq<seq<byte>>): (ts: seq<seq<nat>>)
    ensures |ts| == |chunks|
    ensures forall k :: 0 <= k < |ts| ==> |ts[k]| == Symbols
  {
    seq(|chunks|, k requires 0 <= k < |chunks| => Tally(chunks[k]))
  }

  /** The smoothing loop: one is added to every count. */
  function Smooth(t: seq<nat>): (r: seq<nat>)
    ensures |r| == |t|
  {
    seq(|t|, i requires 0 <= i < |t| => t[i] + 1)
  }

  /** The frequencies of the whole file, however it was split. */
  function Histogram(data: seq<byte>): (freqs: seq<nat>)
    ensures |freqs| == Symbols
    ensures forall v :: 0 <= v < Symbols ==> freqs[v] == multiset(data)[v] + 1
  {
    forall v | 0 <= v < Symbols
      ensures Tally(data)[v] == multiset(data)[v]
    {
      TallyCounts(data, v);
    }
    Smooth(Tally(data))
  }

  /** The frequencies `count_frequencies` returns for a file split into chunks. */
  function ChunkedHistogram(chunks: seq<seq<byte>>): (freqs: seq<nat>)
    ensures |freqs| == Symbols
    ensures forall v :: 0 <= v < Symbols ==> freqs[v] == multiset(Concat(chunks))[v] + 1
  {
    MergeAllIsTally(chunks);
    assert Smooth(MergeAll(ChunkTallies(chunks))) == Histogram(Concat(chunks));
    Smooth(MergeAll(ChunkTallies(chunks)))
  }

  /** Counting a file in two parts and adding the counts is counting it whole. */
  lemma TallyAppend(a: seq<byte>, b: seq<byte>)
    ensures Tally(a + b) == Merge(Tally(a), Tally(b))
  {
    forall v: byte | true
      ensures Tally(a + b)[v] == Tally(a)[v] + Tally(b)[v]
    {
      TallyCounts(a + b, v);
      TallyCounts(a, v);
      TallyCounts(b, v);
      assert multiset(a + b) == multiset(a) + multiset(b);
    }
  }

  /** Merging the workers' tables gives the counts of the whole file, so the
      split into chunks does not change the result. */
  lemma {:induction false} MergeAllIsTally(chunks: seq<seq<byte>>)
    ensures MergeAll(ChunkTallies(chunks)) == Tally(Concat(chunks))
  {
    var ts := ChunkTallies(chunks);
    if |chunks| == 0 {
      assert Tally(Concat(chunks)) == Zeros(Symbols);
    } else {
      var init := chunks[..|chunks| - 1];
      MergeAllIsTally(init);
      assert ts[..|ts| - 1] == ChunkTallies(init);
      TallyAppend(Concat(init), chunks[|chunks| - 1]);
    }
  }

  /** The chunked histogram is the histogram of the concatenated chunks. */
  lemma ChunkedHistogramIsHistogram(chunks: seq<seq<byte>>)
    ensures ChunkedHistogram(chunks) == Histogram(Concat(chunks))
  {
    MergeAllIsTally(chunks);
  }

  /** Every frequency is one more than the number of occurrences, so none
      is zero. */
  lemma HistogramCounts(data: seq<byte>, v: byte)
    ensures Histogram(data)[v] == multiset(data)[v] + 1
    ensures Histogram(data)[v] >= 1
  {
    TallyCounts(data, v);
  }

  /** No count exceeds the file length. */
  lemma {:induction false} TallyBound(data: seq<byte>, v: byte)
    ensures Tally(data)[v] <= |data|
  {
    if |data| > 0 {
      TallyBound(data[..|data| - 1], v);
    }
  }

  /** The frequencies add up to the file length plus 256. */
  lemma HistogramSum(data: seq<byte>)
    ensures Sum(Histogram(data)) == |data| + Symbols
  {
    TallySum(data);
    SumSmooth(Tally(data));
  }

  /** The counts add up to the file length. */
  lemma {:induction false} TallySum(data: seq<byte>)
    ensures Sum(Tally(data)) == |data|
  {
    if |data| == 0 {
      SumZeros(Symbols);
    } else {
      var init := data[..|data| - 1];
      TallySum(init);
      SumBump(Tally(init), data[|data| - 1]);
    }
  }

  lemma {:induction false} SumZeros(n: nat)
    ensures Sum(Zeros(n)) == 0
  {
    if n > 0 {
      SumZeros(n - 1);
      assert Zeros(n)[..n - 1] == Zeros(n - 1);
    }
  }

  /** Bumping one entry adds one to the sum. */
  lemma {:induction false} SumBump(t: seq<nat>, v: nat)
    requires v < |t|
    ensures Sum(t[v := t[v] + 1]) == Sum(t) + 1
  {
    var u := t[v := t[v] + 1];
    var n := |t|;
    if v < n - 1 {
      SumBump(t[..n - 1], v);
      assert u[..n - 1] == t[..n - 1][v := t[v] + 1];
    } else {
      assert u[..n - 1] == t[..n - 1];
    }
  }

  /** Adding one to each of `|t|` entries adds `|t|` to the sum. */
  lemma {:induction false} SumSmooth(t: seq<nat>)
    ensures Sum(Smooth(t)) == Sum(t) + |t|
  {
    if |t| > 0 {
      SumSmooth(t[..|t| - 1]);
      assert Smooth(t)[..|t| - 1] == Smooth(t[..|t| - 1]);
    }
  }
}
