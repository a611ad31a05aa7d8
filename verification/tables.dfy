/** Cumulative frequency tables (`build_cumulative_freqs`): entry `i` is the
    total frequency of the symbols below `i`, so symbol `s` owns the share
    `[cum[s], cum[s + 1])` of `cum[|cum| - 1]`. */
module Tables {
  import opened Interval

  function Sum(s: seq<nat>): nat {
    if |s| == 0 then 0 else Sum(s[..|s| - 1]) + s[|s| - 1]
  }

  predicate NonDecreasing(cum: seq<int>) {
    forall i, j :: 0 <= i <= j < |cum| ==> cum[i] <= cum[j]
  }

  /** The distribution total: the last entry of a cumulative table. */
  function Total(cum: seq<int>): int
    requires |cum| > 0
  {
    cum[|cum| - 1]
  }

  /** A table the decoder can search: it starts at zero, never decreases and
      has a positive total. */
  predicate ValidTable(cum: seq<int>) {
    && |cum| >= 2
    && cum[0] == 0
    && NonDecreasing(cum)
    && Total(cum) > 0
  }

  /** A table the encoder can code with: its total is small enough for the
      32-bit interval to give every symbol of nonzero frequency some room. */
  predicate EncodableTable(cum: seq<int>) {
    ValidTable(cum) && Total(cum) <= MaxTotal
  }

  /** Symbol `s` belongs to the table's alphabet and has nonzero frequency. */
  predicate Codable(cum: seq<int>, s: int) {
    0 <= s < |cum| - 1 && cum[s] < cum[s + 1]
  }

  /** The prefix sums of `freqs`, starting at zero. */
  function Cumulative(freqs: seq<nat>): (cum: seq<nat>)
    ensures |cum| == |freqs| + 1 && cum[0] == 0
    ensures forall i :: 0 <= i < |freqs| ==> cum[i + 1] == cum[i] + freqs[i]
    ensures NonDecreasing(cum)
    ensures Total(cum) == Sum(freqs)
  {
    if |freqs| == 0 then [0]
    else
      var init := Cumulative(freqs[..|freqs| - 1]);
      init + [init[|init| - 1] + freqs[|freqs| - 1]]
  }

  /** The frequencies a cumulative table was built from: successive differences. */
  function Frequencies(cum: seq<int>): (freqs: seq<int>)
    requires |cum| > 0
    ensures |freqs| == |cum| - 1
  {
    seq(|cum| - 1, i requires 0 <= i < |cum| - 1 => cum[i + 1] - cum[i])
  }

  /** Building the table loses nothing: the differences give the frequencies back. */
  lemma FrequenciesOfCumulative(freqs: seq<nat>)
    ensures Frequencies(Cumulative(freqs)) == freqs
  {
    var cum := Cumulative(freqs);
    var diffs := Frequencies(cum);
    forall i | 0 <= i < |freqs|
      ensures diffs[i] == freqs[i]
    {
      assert cum[i + 1] == cum[i] + freqs[i];
    }
  }

  /** The uniform table of the header: 256 symbols of frequency one. Every
      entry is its own index, so the total is 256 and every byte value is
      codable. */
  function UniformTable(): (cum: seq<nat>)
    ensures |cum| == 257
    ensures forall i :: 0 <= i < 257 ==> cum[i] == i
    ensures EncodableTable(cum)
    ensures forall s :: 0 <= s < 256 ==> Codable(cum, s)
  {
    var cum := Cumulative(seq(256, _ => 1));
    forall i | 0 <= i < 257
      ensures cum[i] == i
    {
      CumulativeOfOnes(256, i);
    }
    cum
  }

  lemma {:induction false} CumulativeOfOnes(n: nat, i: nat)
    requires i <= n
    ensures Cumulative(seq(n, _ => 1))[i] == i
  {
    if n > 0 {
      var ones := seq(n, _ => 1);
      var init := seq(n - 1, _ => 1);
      assert ones[..n - 1] == init;
      var c := Cumulative(init);
      assert Cumulative(ones) == c + [c[n - 1] + 1];
      if i < n {
        CumulativeOfOnes(n - 1, i);
      } else {
        CumulativeOfOnes(n - 1, n - 1);
      }
    }
  }
}
