/** Bits, bytes and the big-endian value of a bit string.

    Both halves of the range coder move data one bit at a time, most
    significant bit first; this module fixes the vocabulary they share. */
module Bits {

  /** A single bit. */
  type bit = b: int | 0 <= b <= 1

  /** An unsigned 8-bit value. */
  type byte = b: int | 0 <= b < 256

  function Pow2(n: nat): (r: nat)
    ensures r >= 1
  {
    if n == 0 then 1 else 2 * Pow2(n - 1)
  }

  lemma {:induction false} Pow2Add(a: nat, b: nat)
    ensures Pow2(a) * Pow2(b) == Pow2(a + b)
  {
    if a > 0 {
      Pow2Add(a - 1, b);
      DoubleProduct(Pow2(a - 1), Pow2(b));
    }
  }

  lemma Pow2Of8()
    ensures Pow2(8) == 256
  {
  }

  lemma Pow2Of16()
    ensures Pow2(16) == 0x1_0000
  {
    Pow2Add(8, 8);
    Pow2Of8();
  }

  lemma Pow2Of30()
    ensures Pow2(30) == 0x4000_0000
  {
    Pow2Of32();
    assert Pow2(32) == 4 * Pow2(30);
  }

  /** A 32-bit register holds exactly the values below `Pow2(32)`. */
  lemma Pow2Of32()
    ensures Pow2(32) == 0x1_0000_0000
  {
    Pow2Of16();
    Pow2Add(16, 16);
  }

  lemma {:induction false} Pow2Monotone(a: nat, b: nat)
    requires a <= b
    ensures Pow2(a) <= Pow2(b)
  {
    if a < b {
      Pow2Monotone(a, b - 1);
    }
  }

  /** Big-endian value of a bit string: the first bit is the most significant. */
  function Value(bs: seq<bit>): nat {
    if |bs| == 0 then 0 else 2 * Value(bs[..|bs| - 1]) + bs[|bs| - 1]
  }

  /** An `n`-bit string has a value below `Pow2(n)`. */
  lemma {:induction false} ValueBound(bs: seq<bit>)
    ensures Value(bs) < Pow2(|bs|)
  {
    if |bs| > 0 {
      ValueBound(bs[..|bs| - 1]);
    }
  }

  /** The `n`-bit big-endian representation of `v`. */
  function ToBits(v: nat, n: nat): (bs: seq<bit>)
    ensures |bs| == n
    ensures v < Pow2(n) ==> Value(bs) == v
  {
    if n == 0 then [] else ToBits(v / 2, n - 1) + [v % 2]
  }

  /** The eight bits of a byte, most significant first. */
  function ByteBits(x: byte): (bs: seq<bit>)
    ensures |bs| == 8 && Value(bs) == x
  {
    Pow2Of8();
    ToBits(x, 8)
  }

  /** A byte string read as bits, each byte most significant bit first. */
  function BytesToBits(s: seq<byte>): (bs: seq<bit>)
    ensures |bs| == 8 * |s|
  {
    if |s| == 0 then [] else BytesToBits(s[..|s| - 1]) + ByteBits(s[|s| - 1])
  }

  function Repeat(b: bit, n: nat): (r: seq<bit>)
    ensures |r| == n
    ensures forall i :: 0 <= i < n ==> r[i] == b
  {
    seq(n, _ => b)
  }

  /** Bit `i` of `s`, reading zeros once `s` is exhausted. */
  function BitAt(s: seq<bit>, i: nat): bit
  {
    if i < |s| then s[i] else 0
  }

  /** The value of the first `n` bits of `s`, padded with zero bits past its end. */
  function PrefixValue(s: seq<bit>, n: nat): nat {
    if n == 0 then 0 else 2 * PrefixValue(s, n - 1) + BitAt(s, n - 1)
  }

  /** The first `n` bits, padded or not, have a value below `Pow2(n)`. */
  lemma {:induction false} PrefixValueBound(s: seq<bit>, n: nat)
    ensures PrefixValue(s, n) < Pow2(n)
  {
    if n > 0 {
      PrefixValueBound(s, n - 1);
    }
  }

  /** The bit string is recovered from its value: `ToBits` inverts `Value`. */
  lemma {:induction false} ToBitsOfValue(bs: seq<bit>)
    ensures ToBits(Value(bs), |bs|) == bs
  {
    if |bs| > 0 {
      var init := bs[..|bs| - 1];
      ToBitsOfValue(init);
      assert Value(bs) / 2 == Value(init);
      assert Value(bs) % 2 == bs[|bs| - 1];
      assert bs == init + [bs[|bs| - 1]];
    }
  }

  /** Two bit strings of equal length with the same value are equal. */
  lemma ValueInjective(a: seq<bit>, b: seq<bit>)
    requires |a| == |b| && Value(a) == Value(b)
    ensures a == b
  {
    ToBitsOfValue(a);
    ToBitsOfValue(b);
  }

  lemma {:induction false} ValueAppend(a: seq<bit>, b: seq<bit>)
    ensures Value(a + b) == Value(a) * Pow2(|b|) + Value(b)
  {
    if |b| == 0 {
      assert a + b == a;
    } else {
      var b' := b[..|b| - 1];
      assert (a + b)[..|a + b| - 1] == a + b';
      ValueAppend(a, b');
      DoubleShift(Value(a), Pow2(|b'|), Value(b'), b[|b| - 1]);
    }
  }

  lemma DoubleProduct(x: int, y: int)
    ensures (2 * x) * y == 2 * (x * y)
  {
  }

  /** The arithmetic step shared by the append lemmas: doubling `x * p + y`
      and adding a bit. */
  lemma DoubleShift(x: int, p: int, y: int, b: int)
    ensures 2 * (x * p + y) + b == x * (2 * p) + (2 * y + b)
  {
  }

  lemma {:induction false} ValueZeros(n: nat)
    ensures Value(Repeat(0, n)) == 0
  {
    if n > 0 {
      assert Repeat(0, n)[..n - 1] == Repeat(0, n - 1);
      ValueZeros(n - 1);
    }
  }

  lemma {:induction false} ValueOnes(n: nat)
    ensures Value(Repeat(1, n)) == Pow2(n) - 1
  {
    if n > 0 {
      assert Repeat(1, n)[..n - 1] == Repeat(1, n - 1);
      ValueOnes(n - 1);
    }
  }

  /** The first `|a| + k` bits of `a + c` are all of `a` followed by the
      first `k` bits of `c`. */
  lemma {:induction false} PrefixValueAppend(a: seq<bit>, c: seq<bit>, k: nat)
    ensures PrefixValue(a + c, |a| + k) == Value(a) * Pow2(k) + PrefixValue(c, k)
  {
    if k == 0 {
      PrefixValueOfWhole(a + c, |a|);
      assert (a + c)[..|a|] == a;
    } else {
      PrefixValueAppend(a, c, k - 1);
      var b := BitAt(c, k - 1);
      assert BitAt(a + c, |a| + k - 1) == b;
      assert PrefixValue(a + c, |a| + k) == 2 * PrefixValue(a + c, |a| + k - 1) + b;
      assert PrefixValue(c, k) == 2 * PrefixValue(c, k - 1) + b;
      DoubleShift(Value(a), Pow2(k - 1), PrefixValue(c, k - 1), b);
    }
  }

  /** Within the string, the prefix value is the value of the prefix. */
  lemma {:induction false} PrefixValueOfWhole(s: seq<bit>, n: nat)
    requires n <= |s|
    ensures PrefixValue(s, n) == Value(s[..n])
  {
    if n > 0 {
      PrefixValueOfWhole(s, n - 1);
      assert s[..n][..n - 1] == s[..n - 1];
    }
  }

  lemma {:induction false} PrefixValueZeros(z: nat, k: nat)
    ensures PrefixValue(Repeat(0, z), k) == 0
  {
    if k > 0 {
      PrefixValueZeros(z, k - 1);
    }
  }

  /** Read past its end, a string is padded with zeros: its value shifted. */
  lemma PrefixValueBeyond(t: seq<bit>, k: nat)
    ensures PrefixValue(t, |t| + k) == Value(t) * Pow2(k)
  {
    assert t + [] == t;
    PrefixValueAppend(t, [], k);
    assert Repeat(0, 0) == [];
    PrefixValueZeros(0, k);
  }

  /** Zero bits appended to a string do not change its prefix values. */
  lemma {:induction false} PrefixValuePadded(s: seq<bit>, z: nat, n: nat)
    ensures PrefixValue(s + Repeat(0, z), n) == PrefixValue(s, n)
  {
    if n > 0 {
      PrefixValuePadded(s, z, n - 1);
      assert BitAt(s + Repeat(0, z), n - 1) == BitAt(s, n - 1);
    }
  }

  /** Bit `8 * i + j` of a byte string is bit `j` of its byte `i`. */
  lemma {:induction false} BytesToBitsIndex(s: seq<byte>, i: nat, j: nat)
    requires i < |s| && j < 8
    ensures BytesToBits(s)[8 * i + j] == ByteBits(s[i])[j]
  {
    var init := s[..|s| - 1];
    if i < |s| - 1 {
      BytesToBitsIndex(init, i, j);
    }
  }

  lemma BytesToBitsAppend(s: seq<byte>, x: byte)
    ensures BytesToBits(s + [x]) == BytesToBits(s) + ByteBits(x)
  {
    assert (s + [x])[..|s|] == s;
  }
}
