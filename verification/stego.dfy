/** The bit layer of the image steganography (`ImageSteganography` in
    `encoding.py`): a message becomes the eight-bit binary digits of each
    character followed by eight zero bits, the bits replace the lowest bit
    of the first pixel values, and the decoder collects lowest bits until
    the last eight it has collected are zero, then turns every group of
    eight bits starting at 0, 8, 16, ... below `len - 8` back into a
    character; the last such group may overlap the eight-zero window.

    The pixels are the flattened 8-bit channel values of the carrier image.
    Fetching the image, PNG encoding and LZMA compression are not modelled:
    the first two are lossless on the pixel values and the third is undone
    by the decoder, so the pixels the decoder sees are the ones embedded. */
module Stego {
  import opened Bits
  import opened Results

  /** The binary digits of `n`, most significant first, without leading
      zeros (`"0"` for zero). */
  function Binary(n: nat): (bs: seq<bit>)
    ensures |bs| >= 1 && Value(bs) == n
    decreases n
  {
    if n < 2 then [n]
    else
      ValuePush(Binary(n / 2), n % 2);
      Binary(n / 2) + [n % 2]
  }

  /** Appending a bit doubles the value and adds the bit. */
  lemma ValuePush(bs: seq<bit>, b: bit)
    ensures Value(bs + [b]) == 2 * Value(bs) + b
  {
    assert (bs + [b])[..|bs|] == bs;
  }

  /** A number below `Pow2(k)` needs at most `k` binary digits. */
  lemma {:induction false} BinaryLength(n: nat, k: nat)
    requires k >= 1 && n < Pow2(k)
    ensures |Binary(n)| <= k
    decreases n
  {
    if n >= 2 {
      BinaryLength(n / 2, k - 1);
    }
  }

  /** Leading zeros do not change the value of a bit string. */
  lemma LeadingZeros(z: nat, bs: seq<bit>)
    ensures Value(Repeat(0, z) + bs) == Value(bs)
  {
    ValueAppend(Repeat(0, z), bs);
    ValueZeros(z);
  }

  /** `format(ord(c), '08b')`: the binary digits of the code point, padded
      with zeros to eight. A character above 255 gives more than eight. */
  function CharBits(c: char): (bs: seq<bit>)
    ensures Value(bs) == c as int && |bs| >= 8
    ensures |bs| == 8 <==> c as int < 256
  {
    var b := Binary(c as int);
    BinaryOfByte(c as int);
    if |b| < 8 then
      LeadingZeros(8 - |b|, b);
      Repeat(0, 8 - |b|) + b
    else
      b
  }

  /** A number has at most eight binary digits exactly when it is below 256. */
  lemma BinaryOfByte(n: nat)
    ensures |Binary(n)| <= 8 <==> n < 256
  {
    var b := Binary(n);
    Pow2Of8();
    if n < 256 {
      BinaryLength(n, 8);
    } else if |b| <= 8 {
      ValueBound(b);
      Pow2Monotone(|b|, 8);
    }
  }

  /** A character below 256 is written as its byte, most significant bit first. */
  lemma CharBitsOfByte(c: char)
    requires c as int < 256
    ensures CharBits(c) == ByteBits(c as int)
  {
    ValueInjective(CharBits(c), ByteBits(c as int));
  }

  /** The digits of all characters, in order. */
  function MessageBody(message: string): (bs: seq<bit>)
    ensures |bs| >= 8 * |message|
    ensures (forall i :: 0 <= i < |message| ==> message[i] as int < 256) ==> |bs| == 8 * |message|
  {
    if |message| == 0 then [] else CharBits(message[0]) + MessageBody(message[1..])
  }

  /** The eight zero bits that end a message. */
  function Delimiter(): (bs: seq<bit>)
    ensures |bs| == 8 && forall i :: 0 <= i < 8 ==> bs[i] == 0
  {
    Repeat(0, 8)
  }

  /** The bits `encode_message` embeds: the body, then the delimiter. */
  function MessageBits(message: string): (bs: seq<bit>)
    ensures |bs| == |MessageBody(message)| + 8
    ensures bs[..|bs| - 8] == MessageBody(message) && bs[|bs| - 8..] == Delimiter()
  {
    MessageBody(message) + Delimiter()
  }

  /** `(p & ~1) | bit`: the lowest bit cleared, then set to `b`. On a value
      in 0 .. 255 clearing the lowest bit subtracts `p % 2`. */
  function SetLowBit(p: byte, b: bit): (q: byte)
    ensures q % 2 == b && q / 2 == p / 2
  {
    p - p % 2 + b
  }

  /** The embedding loop: pixel `i` takes bit `i` in its lowest bit. */
  function Embed(pixels: seq<byte>, bits: seq<bit>): (r: seq<byte>)
    requires |bits| <= |pixels|
    ensures |r| == |pixels|
    ensures forall i :: 0 <= i < |bits| ==> r[i] % 2 == bits[i] && r[i] / 2 == pixels[i] / 2
    ensures forall i :: |bits| <= i < |pixels| ==> r[i] == pixels[i]
  {
    seq(|pixels|, i requires 0 <= i < |pixels| => if i < |bits| then SetLowBit(pixels[i], bits[i]) else pixels[i])
  }

  /** `encode_message` on the carrier's pixel values: a message whose bits
      outnumber the pixels is refused, any other is embedded. */
  function EncodeMessage(message: string, pixels: seq<byte>): (r: Result<seq<byte>>)
    ensures r.Failure? <==> |MessageBits(message)| > |pixels|
    ensures r.Success? ==> |r.value| == |pixels|
  {
    var bits := MessageBits(message);
    if |bits| > |pixels| then Failure("Message too large for the image")
    else Success(Embed(pixels, bits))
  }

  /** The lowest bit of every pixel value, `pixel & 1`. */
  function Lsbs(pixels: seq<byte>): (bs: seq<bit>)
    ensures |bs| == |pixels| && forall i :: 0 <= i < |pixels| ==> bs[i] == pixels[i] % 2
  {
    seq(|pixels|, i requires 0 <= i < |pixels| => pixels[i] % 2)
  }

  /** The lowest bits of the embedded pixels start with the embedded bits. */
  lemma LsbsOfEmbed(pixels: seq<byte>, bits: seq<bit>)
    requires |bits| <= |pixels|
    ensures Lsbs(Embed(pixels, bits))[..|bits|] == bits
  {
  }

  /** The last eight of the first `k` bits are zero: the delimiter test of
      the extraction loop after `k` bits have been collected. */
  predicate DelimiterAt(bits: seq<bit>, k: int) {
    8 <= k <= |bits| && bits[k - 8..k] == Delimiter()
  }

  /** The extraction loop from position `k` on: the number of bits collected
      when it stops, at the first delimiter after `k` or at the end. */
  function Scan(bits: seq<bit>, k: nat): (r: nat)
    requires k <= |bits|
    ensures k <= r <= |bits|
    ensures r == |bits| || DelimiterAt(bits, r)
    ensures k < |bits| ==> k < r
    ensures forall j :: k < j < r ==> !DelimiterAt(bits, j)
    decreases |bits| - k
  {
    if k == |bits| then k
    else if DelimiterAt(bits, k + 1) then k + 1
    else Scan(bits, k + 1)
  }

  /** The bits the decoder collects: the lowest bits up to and including
      the first delimiter, or all of them if there is none. */
  function ExtractBits(pixels: seq<byte>): (bs: seq<bit>)
    ensures |bs| <= |pixels| && bs == Lsbs(pixels)[..|bs|]
    ensures |bs| == |pixels| || DelimiterAt(bs, |bs|)
    ensures forall j :: 0 < j < |bs| ==> !DelimiterAt(bs, j)
  {
    var lsbs := Lsbs(pixels);
    var n := Scan(lsbs, 0);
    forall j | 0 < j <= n
      ensures DelimiterAt(lsbs[..n], j) == DelimiterAt(lsbs, j)
    {
      if j >= 8 {
        assert lsbs[..n][j - 8..j] == lsbs[j - 8..j];
      }
    }
    lsbs[..n]
  }

  /** `chr(int(bits, 2))` for every group of eight bits starting at
      0, 8, 16, ... below `|bits| - 8`. When the scan stopped on a byte
      boundary the last eight bits are the delimiter and are not decoded;
      otherwise the last group overlaps the eight-zero window. */
  function Reconstruct(bits: seq<bit>): (message: string)
    ensures |message| == if |bits| <= 8 then 0 else (|bits| - 1) / 8
    ensures forall i :: 0 <= i < |message| ==> message[i] as int < 256
    ensures GroupsOf(message, bits)
  {
    if |bits| <= 8 then []
    else
      ValueBound(bits[..8]);
      Pow2Of8();
      var rest := Reconstruct(bits[8..]);
      GroupsShift(bits, Value(bits[..8]) as char, rest);
      [Value(bits[..8]) as char] + rest
  }

  /** Character `i` of `message` is the value of bits `8 * i` to `8 * i + 8`. */
  predicate GroupsOf(message: string, bits: seq<bit>) {
    forall i :: 0 <= i < |message| ==> 8 * i + 8 <= |bits| && message[i] as int == Value(bits[8 * i..8 * i + 8])
  }

  /** Prefixing the first group's character to the characters of the later
      groups gives the characters of all groups. */
  lemma GroupsShift(bits: seq<bit>, c: char, rest: string)
    requires |bits| >= 8 && c as int == Value(bits[..8]) && GroupsOf(rest, bits[8..])
    ensures GroupsOf([c] + rest, bits)
  {
    var message := [c] + rest;
    forall i | 0 <= i < |message|
      ensures 8 * i + 8 <= |bits| && message[i] as int == Value(bits[8 * i..8 * i + 8])
    {
      if i == 0 {
        assert bits[0..8] == bits[..8];
      } else {
        assert message[i] == rest[i - 1];
        assert bits[8..][8 * (i - 1)..8 * (i - 1) + 8] == bits[8 * i..8 * i + 8];
      }
    }
  }

  /** `decode_message` on the pixel values of the decompressed image. */
  function DecodeMessage(pixels: seq<byte>): (message: string)
    ensures |message| <= |pixels| / 8
  {
    Reconstruct(ExtractBits(pixels))
  }

  /** Every character of the message fits in eight bits. */
  predicate Latin1(message: string) {
    forall i :: 0 <= i < |message| ==> message[i] as int < 256
  }

  /** Somewhere in `bits`, at any alignment, eight zero bits follow one another. */
  predicate HasZeroRun(bits: seq<bit>) {
    exists j :: 8 <= j <= |bits| && DelimiterAt(bits, j)
  }

  /** The delimiter test on the first `k` bits of a longer string sees only
      those bits. */
  lemma DelimiterInPrefix(long: seq<bit>, short: seq<bit>, j: int)
    requires |short| <= |long| && long[..|short|] == short && j <= |short|
    ensures DelimiterAt(long, j) == DelimiterAt(short, j)
  {
    if 8 <= j {
      forall i | j - 8 <= i < j
        ensures long[i] == short[i]
      {
        assert long[i] == long[..|short|][i];
      }
      assert long[j - 8..j] == short[j - 8..j];
    }
  }

  /** The scan stops inside `bits` when `bits` ends with a delimiter, so it
      reads nothing past `bits`. */
  lemma {:induction false} ScanPrefix(long: seq<bit>, bits: seq<bit>, k: nat)
    requires |bits| <= |long| && long[..|bits|] == bits
    requires DelimiterAt(bits, |bits|) && k < |bits|
    ensures Scan(long, k) == Scan(bits, k)
    decreases |bits| - k
  {
    DelimiterInPrefix(long, bits, k + 1);
    if !DelimiterAt(bits, k + 1) {
      ScanPrefix(long, bits, k + 1);
    }
  }

  /** Whatever the carrier's other pixels hold, the decoder collects the
      embedded bits up to their first delimiter. */
  lemma ExtractEmbedded(pixels: seq<byte>, bits: seq<bit>)
    requires |bits| <= |pixels| && DelimiterAt(bits, |bits|)
    ensures ExtractBits(Embed(pixels, bits)) == bits[..Scan(bits, 0)]
  {
    var lsbs := Lsbs(Embed(pixels, bits));
    LsbsOfEmbed(pixels, bits);
    ScanPrefix(lsbs, bits, 0);
    ExtractBitsIsPrefix(Embed(pixels, bits));
    var n := Scan(bits, 0);
    assert lsbs[..n] == lsbs[..|bits|][..n];
  }

  lemma ExtractBitsIsPrefix(pixels: seq<byte>)
    ensures ExtractBits(pixels) == Lsbs(pixels)[..Scan(Lsbs(pixels), 0)]
  {
  }

  /** The groups of eight bits of a body of 8-bit characters, followed by
      at most eight further bits, are the characters. */
  lemma {:induction false} ReconstructBody(message: string, tail: seq<bit>)
    requires Latin1(message) && 0 < |tail| <= 8
    ensures Reconstruct(MessageBody(message) + tail) == message
  {
    if |message| > 0 {
      var c, rest := message[0], message[1..];
      assert Latin1(rest) by {
        forall i | 0 <= i < |rest| ensures rest[i] as int < 256 {
          assert rest[i] == message[i + 1];
        }
      }
      var more := MessageBody(rest) + tail;
      BodySplit(message, tail);
      GroupSplit(c, more);
      ReconstructBody(rest, tail);
    }
  }

  /** The body of a message is the digits of its first character followed
      by the body of the others. */
  lemma BodySplit(message: string, tail: seq<bit>)
    requires |message| > 0
    ensures MessageBody(message) + tail == CharBits(message[0]) + (MessageBody(message[1..]) + tail)
  {
    var head, body := CharBits(message[0]), MessageBody(message[1..]);
    assert MessageBody(message) == head + body by {
      assert message != [];
    }
    AppendAssoc(head, body, tail);
  }

  lemma AppendAssoc(a: seq<bit>, b: seq<bit>, c: seq<bit>)
    ensures (a + b) + c == a + (b + c)
  {
  }

  /** The first group of eight bits is the digits of an 8-bit character. */
  lemma GroupSplit(c: char, more: seq<bit>)
    requires c as int < 256 && 0 < |more|
    ensures |CharBits(c) + more| > 8
    ensures Value((CharBits(c) + more)[..8]) == c as int
    ensures (CharBits(c) + more)[8..] == more
  {
    assert (CharBits(c) + more)[..8] == CharBits(c);
  }

  /** The bits embedded for `message` decode, in any carrier large enough,
      to the groups before the first delimiter among them. */
  lemma DecodeEmbedded(message: string, pixels: seq<byte>)
    requires |MessageBits(message)| <= |pixels|
    ensures DecodeMessage(Embed(pixels, MessageBits(message)))
         == Reconstruct(MessageBits(message)[..Scan(MessageBits(message), 0)])
  {
    var bits := MessageBits(message);
    assert bits[|bits| - 8..] == Delimiter();
    ExtractEmbedded(pixels, bits);
  }

  /** `decode_message(encode_message(m))` gives `m` back exactly when the
      bits of `m`'s characters hold no run of eight zeros, at any alignment:
      such a run is taken for the delimiter and cuts the message short. */
  lemma MessageRoundTrip(message: string, pixels: seq<byte>)
    requires Latin1(message) && EncodeMessage(message, pixels).Success?
    ensures DecodeMessage(EncodeMessage(message, pixels).value) == message
        <==> !HasZeroRun(MessageBody(message))
  {
    assert EncodeMessage(message, pixels).value == Embed(pixels, MessageBits(message));
    DecodeEmbedded(message, pixels);
    if HasZeroRun(MessageBody(message)) {
      ZeroRunCutsShort(message);
    } else {
      NoZeroRunDecodes(message);
    }
  }

  /** A run of eight zeros inside the characters' bits stops the scan
      before the last character is complete. */
  lemma ZeroRunCutsShort(message: string)
    requires Latin1(message) && HasZeroRun(MessageBody(message))
    ensures |Reconstruct(MessageBits(message)[..Scan(MessageBits(message), 0)])| < |message|
  {
    var bits := MessageBits(message);
    var body := MessageBody(message);
    var j :| 8 <= j <= |body| && DelimiterAt(body, j);
    assert bits[..|body|] == body;
    DelimiterInPrefix(bits, body, j);
    assert Scan(bits, 0) <= j;
  }

  /** Without such a run the scan stops inside the delimiter, after the
      last character, and every character is decoded. */
  lemma NoZeroRunDecodes(message: string)
    requires Latin1(message) && !HasZeroRun(MessageBody(message))
    ensures Reconstruct(MessageBits(message)[..Scan(MessageBits(message), 0)]) == message
  {
    var bits := MessageBits(message);
    var body := MessageBody(message);
    var n := |body|;
    var t := Scan(bits, 0);
    assert bits[..n] == body;
    forall j | 0 < j <= n
      ensures !DelimiterAt(bits, j)
    {
      DelimiterInPrefix(bits, body, j);
    }
    assert n < t <= n + 8;
    assert bits[..t] == body + bits[n..t];
    ReconstructBody(message, bits[n..t]);
  }

  /** "@ " is embedded as 01000000 00100000 00000000. Bits 2 to 9 are zero,
      so the scan stops after ten bits and only "@" is decoded. */
  lemma SpaceAfterAtIsLost(pixels: seq<byte>)
    requires |pixels| >= 24
    ensures EncodeMessage("@ ", pixels).Success?
    ensures DecodeMessage(EncodeMessage("@ ", pixels).value) == "@"
  {
    var bits := MessageBits("@ ");
    AtSpaceMessageBits();
    assert EncodeMessage("@ ", pixels).value == Embed(pixels, bits);
    DecodeEmbedded("@ ", pixels);
    AtSpaceScan(bits);
    AtSpaceGroups(bits[..10]);
  }

  lemma AtSpaceMessageBits()
    ensures MessageBits("@ ") == [0, 1, 0, 0, 0, 0, 0, 0, 0, 0, 1, 0, 0, 0, 0, 0, 0, 0, 0, 0, 0, 0, 0, 0]
  {
    AtAndSpaceBits();
    assert "@ "[1..] == " " && " "[1..] == "";
    assert MessageBody(" ") == CharBits(' ');
    assert MessageBody("@ ") == CharBits('@') + CharBits(' ');
  }

  lemma AtSpaceScan(bits: seq<bit>)
    requires bits == [0, 1, 0, 0, 0, 0, 0, 0, 0, 0, 1, 0, 0, 0, 0, 0, 0, 0, 0, 0, 0, 0, 0, 0]
    ensures Scan(bits, 0) == 10
  {
    assert bits[0..8] != Delimiter() by {
      assert bits[0..8][1] == 1;
    }
    assert bits[1..9] != Delimiter() by {
      assert bits[1..9][0] == 1;
    }
    DelimiterLiteral();
    assert bits[2..10] == [bits[2], bits[3], bits[4], bits[5], bits[6], bits[7], bits[8], bits[9]];
    assert DelimiterAt(bits, 10) && !DelimiterAt(bits, 8) && !DelimiterAt(bits, 9);
  }

  lemma DelimiterLiteral()
    ensures Delimiter() == [0, 0, 0, 0, 0, 0, 0, 0]
  {
  }

  lemma AtSpaceGroups(bits: seq<bit>)
    requires bits == [0, 1, 0, 0, 0, 0, 0, 0, 0, 0]
    ensures Reconstruct(bits) == "@"
  {
    AtAndSpaceBits();
    assert bits[..8] == CharBits('@');
    assert |bits[8..]| == 2;
  }

  /** The digits of '@' (64) and ' ' (32). */
  lemma AtAndSpaceBits()
    ensures CharBits('@') == [0, 1, 0, 0, 0, 0, 0, 0]
    ensures CharBits(' ') == [0, 0, 1, 0, 0, 0, 0, 0]
  {
    OneThenZeros(1, 6);
    OneThenZeros(2, 5);
    assert Repeat(0, 1) + [1] + Repeat(0, 6) == [0, 1, 0, 0, 0, 0, 0, 0];
    assert Repeat(0, 2) + [1] + Repeat(0, 5) == [0, 0, 1, 0, 0, 0, 0, 0];
    assert Pow2(5) == 32 && Pow2(6) == 64 by {
      Pow2Of8();
    }
    ValueInjective(CharBits('@'), [0, 1, 0, 0, 0, 0, 0, 0]);
    ValueInjective(CharBits(' '), [0, 0, 1, 0, 0, 0, 0, 0]);
  }

  /** `z` zeros, a one and `k` zeros have the value `Pow2(k)`. */
  lemma OneThenZeros(z: nat, k: nat)
    requires z + k == 7
    ensures Value(Repeat(0, z) + [1] + Repeat(0, k)) == Pow2(k)
  {
    LeadingZeros(z, [1] + Repeat(0, k));
    assert Repeat(0, z) + [1] + Repeat(0, k) == Repeat(0, z) + ([1] + Repeat(0, k));
    ValueAppend([1], Repeat(0, k));
    ValueZeros(k);
    assert Value([1]) == 1 by {
      assert [1][..0] == [];
    }
  }

  /** The NUL character, whose eight bits are the delimiter. */
  const Nul: char := 0 as char

  /** The message up to its first NUL character. */
  function UpToNul(message: string): (r: string)
    ensures |r| <= |message| && r == message[..|r|]
    ensures |r| == |message| || message[|r|] == Nul
    ensures forall i :: 0 <= i < |r| ==> r[i] != Nul
  {
    if |message| == 0 || message[0] == Nul then []
    else [message[0]] + UpToNul(message[1..])
  }

  /** Byte-aligned extraction: groups of eight lowest bits are read as
      characters until a group is zero. A run of zeros straddling two
      characters is not mistaken for the delimiter. */
  function ReadAligned(bits: seq<bit>): (message: string)
    ensures |message| <= |bits| / 8
    ensures forall i :: 0 <= i < |message| ==> message[i] != Nul && message[i] as int < 256
    ensures GroupsOf(message, bits)
  {
    if |bits| < 8 then []
    else
      var v := Value(bits[..8]);
      ValueBound(bits[..8]);
      Pow2Of8();
      if v == 0 then []
      else
        var rest := ReadAligned(bits[8..]);
        GroupsShift(bits, v as char, rest);
        [v as char] + rest
  }

  /** The decoder with byte-aligned extraction. */
  function DecodeAligned(pixels: seq<byte>): (message: string)
    ensures |message| <= |pixels| / 8
    ensures forall i :: 0 <= i < |message| ==> message[i] != Nul
    ensures forall i :: 0 <= i < |message| ==> message[i] as int == Value(Lsbs(pixels)[8 * i..8 * i + 8])
  {
    ReadAligned(Lsbs(pixels))
  }

  /** Aligned reading of a message's bits, whatever follows them, stops at
      the first NUL character or at the delimiter. */
  lemma {:induction false} ReadAlignedBody(message: string, rest: seq<bit>)
    requires Latin1(message)
    ensures ReadAligned(MessageBody(message) + Delimiter() + rest) == UpToNul(message)
  {
    var bits := MessageBody(message) + Delimiter() + rest;
    if |message| == 0 {
      assert bits[..8] == Delimiter();
      ValueZeros(8);
    } else {
      var c := message[0];
      var tail := message[1..];
      assert bits == CharBits(c) + (MessageBody(tail) + Delimiter() + rest);
      assert bits[..8] == CharBits(c);
      if c != Nul {
        assert Latin1(tail) by {
          forall i | 0 <= i < |tail| ensures tail[i] as int < 256 {
            assert tail[i] == message[i + 1];
          }
        }
        assert bits[8..] == MessageBody(tail) + Delimiter() + rest;
        ReadAlignedBody(tail, rest);
      }
    }
  }

  /** With aligned extraction every message of 8-bit characters without a
      NUL comes back, and one with a NUL does not. */
  lemma AlignedRoundTrip(message: string, pixels: seq<byte>)
    requires Latin1(message) && EncodeMessage(message, pixels).Success?
    ensures DecodeAligned(EncodeMessage(message, pixels).value) == message
        <==> forall i :: 0 <= i < |message| ==> message[i] != Nul
  {
    var bits := MessageBits(message);
    var embedded := Embed(pixels, bits);
    assert EncodeMessage(message, pixels).value == embedded;
    var lsbs := Lsbs(embedded);
    EmbeddedLsbs(pixels, bits);
    assert bits == MessageBody(message) + Delimiter();
    ReadAlignedBody(message, lsbs[|bits|..]);
    UpToNulWhole(message);
  }

  /** The lowest bits of the embedded pixels are the embedded bits followed
      by the lowest bits of the untouched pixels. */
  lemma EmbeddedLsbs(pixels: seq<byte>, bits: seq<bit>)
    requires |bits| <= |pixels|
    ensures Lsbs(Embed(pixels, bits)) == bits + Lsbs(Embed(pixels, bits))[|bits|..]
  {
    LsbsOfEmbed(pixels, bits);
  }

  /** The message is whole up to its first NUL exactly when it has none. */
  lemma UpToNulWhole(message: string)
    ensures UpToNul(message) == message <==> forall i :: 0 <= i < |message| ==> message[i] != Nul
  {
  }
}
