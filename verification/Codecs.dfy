/** Run-length coding: loops over bytes, proved against the meaning of a coded sequence. */
module RunLength {
  import opened Bytes

  /** What a sequence of (byte, run length) pairs stands for. */
  function Expand(c: seq<byte>): (r: seq<byte>)
    requires |c| % 2 == 0
    decreases |c|
  {
    if c == [] then [] else seq(c[1], _ => c[0]) + Expand(c[2..])
  }

  /** Runs are never empty and as long as they can be: a run shorter than 255 is followed by
      another byte. */
  predicate Maximal(c: seq<byte>)
    requires |c| % 2 == 0
    decreases |c|
  {
    c == [] || (c[1] >= 1 && (|c| == 2 || c[1] == 255 || c[0] != c[2]) && Maximal(c[2..]))
  }

  /** Where run k begins. */
  function RunStart(c: seq<byte>, k: nat): (n: nat)
    requires |c| % 2 == 0 && 2 * k <= |c|
  {
    if k == 0 then 0 else RunStart(c, k - 1) + c[2 * k - 1]
  }

  lemma {:induction false} RunStartTail(c: seq<byte>, k: nat)
    requires |c| % 2 == 0 && 0 < k && 2 * k <= |c|
    ensures RunStart(c, k) == c[1] + RunStart(c[2..], k - 1)
  {
    if k > 1 { RunStartTail(c, k - 1); }
  }

  /** Run k repeats byte 2k of the code, as often as byte 2k + 1 says, behind the runs before it. */
  lemma {:induction false} ExpandRun(c: seq<byte>, k: nat, i: nat)
    requires |c| % 2 == 0 && 2 * k < |c| && RunStart(c, k) <= i < RunStart(c, k + 1)
    ensures i < |Expand(c)| == RunStart(c, |c| / 2) && Expand(c)[i] == c[2 * k]
    decreases |c|
  {
    ExpandLength(c);
    if k == 0 {
      ExpandLength(c[2..]);
    } else {
      RunStartTail(c, k);
      RunStartTail(c, k + 1);
      ExpandRun(c[2..], k - 1, i - c[1]);
    }
  }

  lemma {:induction false} ExpandLength(c: seq<byte>)
    requires |c| % 2 == 0
    ensures |Expand(c)| == RunStart(c, |c| / 2)
    decreases |c|
  {
    if c != [] {
      ExpandLength(c[2..]);
      RunStartTail(c, |c| / 2);
    }
  }

  lemma {:induction false} ExpandSnoc(c: seq<byte>, b: byte, n: byte)
    requires |c| % 2 == 0
    ensures Expand(c + [b, n]) == Expand(c) + seq(n, _ => b)
    decreases |c|
  {
    if c == [] {
      assert c + [b, n] == [b, n];
      assert [b, n][2..] == [];
    } else {
      assert (c + [b, n])[2..] == c[2..] + [b, n];
      ExpandSnoc(c[2..], b, n);
    }
  }

  /** rle_compressor::compress. The code's last branch, for an odd output, is never reached. */
  method Compress(input: seq<byte>) returns (out: seq<byte>)
    ensures |out| % 2 == 0 && Expand(out) == input && Maximal(out)
  {
    out := [];
    var i := 0;
    while i < |input|
      invariant 0 <= i <= |input| && |out| % 2 == 0 && Expand(out) == input[..i] && Maximal(out)
      invariant |out| > 0 && i < |input| ==> out[|out| - 1] == 255 || out[|out| - 2] != input[i]
    {
      var current := input[i];
      var run: byte := 1;
      ghost var start := i;
      while i + 1 < |input| && input[i + 1] == current && run < 255
        invariant start <= i < |input| && 1 <= run <= 255 && run == i + 1 - start
        invariant forall k :: start <= k <= i ==> input[k] == current
        decreases |input| - i
      {
        run := run + 1;
        i := i + 1;
      }
      ExpandSnoc(out, current, run);
      assert input[..i + 1] == input[..start] + seq(run, _ => current);
      MaximalSnoc(out, current, run);
      out := out + [current, run];
      i := i + 1;
    }
    assert input[..i] == input;
  }

  lemma {:induction false} MaximalSnoc(c: seq<byte>, b: byte, n: byte)
    requires |c| % 2 == 0 && Maximal(c) && n >= 1
    requires |c| > 0 ==> c[|c| - 1] == 255 || c[|c| - 2] != b
    ensures Maximal(c + [b, n])
    decreases |c|
  {
    if c == [] {
      assert c + [b, n] == [b, n];
    } else {
      assert (c + [b, n])[2..] == c[2..] + [b, n];
      MaximalSnoc(c[2..], b, n);
    }
  }

  /** rle_compressor::decompress on an even number of bytes; on an odd number the code reads
      past the end of its input. */
  method Decompress(input: seq<byte>) returns (out: seq<byte>)
    requires |input| % 2 == 0
    ensures out == Expand(input)
  {
    out := [];
    var i := 0;
    while i < |input|
      invariant 0 <= i <= |input| && i % 2 == 0 && out == Expand(input[..i])
    {
      var b, n := input[i], input[i + 1];
      assert input[..i + 2] == input[..i] + [b, n];
      ExpandSnoc(input[..i], b, n);
      out := out + seq(n, _ => b);
      i := i + 2;
    }
    assert input[..i] == input;
  }

  /** The coding is unique: maximal runs with the same expansion are the same code. */
  lemma {:induction false} MaximalUnique(c: seq<byte>, d: seq<byte>)
    requires |c| % 2 == 0 && |d| % 2 == 0 && Maximal(c) && Maximal(d) && Expand(c) == Expand(d)
    ensures c == d
    decreases |c|
  {
    if c != [] { FirstRun(c); }
    if d != [] { FirstRun(d); }
    if c != [] && d != [] {
      assert c[0] == Expand(c)[0] == d[0];
      assert c[1] == d[1];
      assert Expand(c)[c[1]..] == Expand(c[2..]) && Expand(d)[d[1]..] == Expand(d[2..]);
      MaximalUnique(c[2..], d[2..]);
      assert c == [c[0], c[1]] + c[2..] && d == [d[0], d[1]] + d[2..];
    }
  }

  /** The first run ends where the expansion first differs, or after 255 bytes. */
  lemma FirstRun(c: seq<byte>)
    requires |c| % 2 == 0 && c != [] && Maximal(c)
    ensures c[1] as int <= |Expand(c)| && forall k :: 0 <= k < c[1] ==> Expand(c)[k] == c[0]
    ensures c[1] < 255 && c[1] as int < |Expand(c)| ==> Expand(c)[c[1]] != c[0]
  {
    if c[1] < 255 && c[1] as int < |Expand(c)| {
      assert Expand(c)[c[1]] == Expand(c[2..])[0];
      assert c[2..] != [];
      assert Expand(c[2..])[0] == c[2..][0];
    }
  }

  /** The code of maximal runs is at most twice as long as what it stands for. */
  lemma {:induction false} CodeLength(c: seq<byte>)
    requires |c| % 2 == 0 && Maximal(c)
    ensures |c| <= 2 * |Expand(c)|
    decreases |c|
  {
    if c != [] {
      CodeLength(c[2..]);
    }
  }
}

/** IQ samples: two bfloat16 patterns each. */
module IqConversion {
  import opened Bytes

  datatype Sample = Sample(re: u16, im: u16)

  /** Each pair of bytes becomes the high bytes of one sample. */
  function Pairs(b: seq<byte>): (s: seq<Sample>)
    requires |b| % 2 == 0
    ensures |s| == |b| / 2
  {
    seq(|b| / 2, i requires 0 <= i < |b| / 2 => Sample(b[2 * i] as int * 0x100, b[2 * i + 1] as int * 0x100))
  }

  function HighBytes(s: seq<Sample>): (b: seq<byte>) {
    seq(2 * |s|, i requires 0 <= i < 2 * |s| => if i % 2 == 0 then s[i / 2].re / 0x100 else s[i / 2].im / 0x100)
  }

  function Padded(b: seq<byte>): (p: seq<byte>) {
    if |b| % 2 == 1 then b + [0] else b
  }

  /** iq_conv::to_iq, which returns the number of blank bytes it added. */
  method ToIq(input: seq<byte>) returns (out: seq<Sample>, blank: nat)
    ensures out == Pairs(Padded(input)) && blank == |input| % 2
    ensures 2 * |out| == |input| + blank && (blank == 1 ==> out[|out| - 1].im == 0)
    ensures forall i :: 0 <= i < |input| ==>
      input[i] as int * 0x100 == if i % 2 == 0 then out[i / 2].re else out[i / 2].im
  {
    hide Pairs;
    out := [];
    blank := 0;
    ghost var p := Padded(input);
    var i := 0;
    while i + 1 < |input|
      invariant 0 <= i <= |input| && i % 2 == 0 && |out| == i / 2
      invariant out == Pairs(p)[..i / 2]
    {
      PairAt(p, i / 2);
      out := out + [Sample(input[i] as int * 0x100, input[i + 1] as int * 0x100)];
      i := i + 2;
    }
    if |input| % 2 == 1 {
      PairAt(p, i / 2);
      out := out + [Sample(input[|input| - 1] as int * 0x100, 0)];
      blank := 1;
    }
    assert out == Pairs(p);
    forall i | 0 <= i < |input|
      ensures input[i] as int * 0x100 == if i % 2 == 0 then out[i / 2].re else out[i / 2].im
    {
      PairAt(p, i / 2);
    }
  }

  lemma PairAt(b: seq<byte>, k: nat)
    requires |b| % 2 == 0 && 2 * k < |b|
    ensures Pairs(b)[k] == Sample(b[2 * k] as int * 0x100, b[2 * k + 1] as int * 0x100)
  {
  }

  /** iq_conv::from_iq */
  method FromIq(input: seq<Sample>, blank: nat) returns (out: seq<byte>)
    requires blank <= 2 * |input|
    ensures out == HighBytes(input)[..2 * |input| - blank]
    ensures |out| == 2 * |input| - blank
    ensures forall i :: 0 <= i < |out| ==>
      var h: int := if i % 2 == 0 then input[i / 2].re else input[i / 2].im;
      out[i] as int * 0x100 <= h < (out[i] as int + 1) * 0x100
  {
    out := [];
    for i := 0 to |input|
      invariant out == HighBytes(input)[..2 * i]
    {
      out := out + [input[i].re / 0x100, input[i].im / 0x100];
    }
    out := out[..|out| - blank];
  }

  /** What goes in as bytes comes back as bytes. */
  lemma IqRoundTrip(b: seq<byte>)
    ensures |HighBytes(Pairs(Padded(b)))| == |b| + |b| % 2
    ensures HighBytes(Pairs(Padded(b)))[..|b|] == b
  {
    var h := HighBytes(Pairs(Padded(b)));
    forall i | 0 <= i < |b| ensures h[i] == b[i] {
      assert i == 2 * (i / 2) + i % 2;
    }
  }

  /** Samples whose low bytes are zero, such as every sample to_iq makes. */
  predicate Coarse(s: seq<Sample>) {
    forall i :: 0 <= i < |s| ==> s[i].re % 0x100 == 0 && s[i].im % 0x100 == 0
  }

  lemma HighBytesAt(s: seq<Sample>, i: nat)
    requires i < |s|
    ensures |HighBytes(s)| % 2 == 0 && |Pairs(HighBytes(s))| == |s|
    ensures Pairs(HighBytes(s))[i] == Sample(s[i].re / 0x100 * 0x100, s[i].im / 0x100 * 0x100)
  {
    var h := HighBytes(s);
    assert h[2 * i] == s[i].re / 0x100;
    assert h[2 * i + 1] == s[i].im / 0x100;
  }

  /** Keeping the high bytes loses nothing exactly for coarse samples. */
  lemma HighBytesLossless(s: seq<Sample>)
    ensures |HighBytes(s)| % 2 == 0
    ensures Pairs(HighBytes(s)) == s <==> Coarse(s)
  {
    hide Pairs, HighBytes;
    assert |HighBytes(s)| % 2 == 0 && |Pairs(HighBytes(s))| == |s| by { HighBytesSize(s); }
    forall i | 0 <= i < |s|
      ensures Pairs(HighBytes(s))[i] == s[i] <==> (s[i].re % 0x100 == 0 && s[i].im % 0x100 == 0)
    {
      HighBytesAt(s, i);
    }
    if !Coarse(s) {
      var i :| 0 <= i < |s| && !(s[i].re % 0x100 == 0 && s[i].im % 0x100 == 0);
      assert Pairs(HighBytes(s))[i] != s[i];
    }
  }

  lemma HighBytesSize(s: seq<Sample>)
    ensures |HighBytes(s)| == 2 * |s| && |Pairs(HighBytes(s))| == |s|
  {
  }

  const PRB: nat := 100

  /** bfp_compressor::compress, block by block. */
  method BfpCompress(input: seq<Sample>) returns (out: seq<byte>)
    ensures out == HighBytes(input)
  {
    out := [];
    var blocks := |input| / PRB + 1;
    for i := 0 to blocks
      invariant out == HighBytes(input[..if PRB * i <= |input| then PRB * i else |input|])
    {
      var to := if |input| <= PRB * (i + 1) then |input| else PRB * (i + 1);
      var chunk := BfpCompressBlock(input[PRB * i..to]);
      HighBytesConcat(input[..PRB * i], input[PRB * i..to]);
      assert input[..PRB * i] + input[PRB * i..to] == input[..to];
      out := out + chunk;
    }
    assert input[..|input|] == input;
  }

  method BfpCompressBlock(input: seq<Sample>) returns (out: seq<byte>)
    ensures out == HighBytes(input)
  {
    out := [];
    for i := 0 to |input|
      invariant out == HighBytes(input)[..2 * i]
    {
      out := out + [input[i].re / 0x100, input[i].im / 0x100];
    }
  }

  lemma HighBytesConcat(a: seq<Sample>, b: seq<Sample>)
    ensures HighBytes(a + b) == HighBytes(a) + HighBytes(b)
  {
  }

  /** bfp_compressor::decompress; a last odd byte is dropped. */
  method BfpDecompress(input: seq<byte>) returns (out: seq<Sample>)
    ensures out == Pairs(input[..|input| - |input| % 2])
  {
    out := [];
    var i := 0;
    while i + 1 < |input|
      invariant 0 <= i <= |input| && i % 2 == 0
      invariant out == Pairs(input[..|input| - |input| % 2])[..i / 2]
    {
      out := out + [Sample(input[i] as int * 0x100, input[i + 1] as int * 0x100)];
      i := i + 2;
    }
  }

  /** The bit pattern of to_float(bf16): the upper half of a binary32. */
  function FloatBits(h: u16): (f: u32) {
    h * 0x1_0000
  }

  /** to_bf16: round the pattern to its upper half, ties to even, in wrapping 32-bit arithmetic. */
  function RoundToBf16(f: u32): (h: u16) {
    (f + 0x7fff + f / 0x1_0000 % 2) % 0x1_0000_0000 / 0x1_0000
  }

  /** The rounding is to the nearest bfloat16 pattern, ties to even, exactly for patterns below
      0xffff8000; from there on, all of them NaN, the sum wraps. */
  lemma Bf16Nearest(f: u32)
    ensures f < 0xffff_8000 <==>
      var d := f as int - RoundToBf16(f) as int * 0x1_0000;
      -0x8000 <= d <= 0x8000 && ((d == 0x8000 || d == -0x8000) ==> RoundToBf16(f) % 2 == 0)
  {
    var hi, lo := f / 0x1_0000, f % 0x1_0000;
    assert f == hi * 0x1_0000 + lo;
    if f < 0xffff_8000 {
      var up := if lo + 0x7fff + hi % 2 >= 0x1_0000 then 1 else 0;
      assert (f + 0x7fff + hi % 2) / 0x1_0000 == hi + up;
    }
  }

  /** Where the sum wraps the result is zero: those NaN patterns become a number. */
  lemma Bf16Wrapped(f: u32)
    requires f >= 0xffff_8000
    ensures RoundToBf16(f) == 0
  {
    assert f / 0x1_0000 == 0xffff;
  }

  lemma Bf16RoundTrip(h: u16)
    ensures RoundToBf16(FloatBits(h)) == h
  {
  }

  function Floats(s: Sample): (b: seq<byte>)
    ensures |b| == 8
  {
    LittleEndian(FloatBits(s.re), 4) + LittleEndian(FloatBits(s.im), 4)
  }

  function Serialized(s: seq<Sample>): (b: seq<byte>)
    ensures |b| == 8 * |s|
  {
    if s == [] then [] else Serialized(s[..|s| - 1]) + Floats(s[|s| - 1])
  }

  lemma {:induction false} SerializedSample(s: seq<Sample>, i: nat)
    requires i < |s|
    ensures Serialized(s)[8 * i..8 * i + 8] == Floats(s[i])
  {
    hide Floats;
    var n := |s| - 1;
    var b, b' := Serialized(s), Serialized(s[..n]);
    assert b == b' + Floats(s[n]);
    if i < n {
      SerializedSample(s[..n], i);
      assert b[..8 * n] == b';
      SliceOfPrefix(b, 8 * n, 8 * i, 8 * i + 8);
    }
  }

  lemma FloatsAt(s: Sample)
    ensures FromLittleEndian(Floats(s)[0..4]) == s.re * 0x1_0000
    ensures FromLittleEndian(Floats(s)[4..8]) == s.im * 0x1_0000
  {
    assert Pow256(4) == 0x1_0000_0000;
    LittleEndianRoundTrip(FloatBits(s.re), 4);
    LittleEndianRoundTrip(FloatBits(s.im), 4);
    assert Floats(s)[0..4] == LittleEndian(FloatBits(s.re), 4);
    assert Floats(s)[4..8] == LittleEndian(FloatBits(s.im), 4);
  }

  /** Sample i occupies eight bytes from 8i on: the binary32 patterns of its parts, whose upper
      halves are the bfloat16 patterns, real part first, each with its lowest byte first. */
  lemma SerializedAt(s: seq<Sample>, i: nat)
    requires i < |s|
    ensures var b := Serialized(s);
      && FromLittleEndian(b[8 * i..8 * i + 4]) == s[i].re * 0x1_0000
      && FromLittleEndian(b[8 * i + 4..8 * i + 8]) == s[i].im * 0x1_0000
  {
    hide Serialized, Floats, FromLittleEndian;
    SerializedSample(s, i);
    FloatsAt(s[i]);
    SliceOfSlice(Serialized(s), 8 * i, 8 * i + 8, 0, 4);
    SliceOfSlice(Serialized(s), 8 * i, 8 * i + 8, 4, 8);
  }

  /** iq_conv::serialize */
  method Serialize(input: seq<Sample>) returns (out: seq<byte>)
    ensures out == Serialized(input) && |out| == 8 * |input|
    ensures forall i :: 0 <= i < |input| ==>
      && FromLittleEndian(out[8 * i..8 * i + 4]) == input[i].re * 0x1_0000
      && FromLittleEndian(out[8 * i + 4..8 * i + 8]) == input[i].im * 0x1_0000
  {
    out := [];
    for i := 0 to |input|
      invariant out == Serialized(input[..i])
    {
      assert input[..i + 1][..i] == input[..i];
      out := out + Floats(input[i]);
    }
    assert input[..|input|] == input;
    forall i | 0 <= i < |input|
      ensures FromLittleEndian(out[8 * i..8 * i + 4]) == input[i].re * 0x1_0000
      ensures FromLittleEndian(out[8 * i + 4..8 * i + 8]) == input[i].im * 0x1_0000
    {
      SerializedAt(input, i);
    }
  }

  function SampleAt(b: seq<byte>): (s: Sample)
    requires |b| == 8
  {
    U32Bound(b[..4]);
    U32Bound(b[4..]);
    Sample(RoundToBf16(FromLittleEndian(b[..4])), RoundToBf16(FromLittleEndian(b[4..])))
  }

  lemma U32Bound(b: seq<byte>)
    requires |b| == 4
    ensures FromLittleEndian(b) < 0x1_0000_0000
  {
    LittleEndianBound(b);
    assert Pow256(4) == 0x1_0000_0000;
  }

  function Deserialized(b: seq<byte>): (s: seq<Sample>)
    requires |b| % 8 == 0
    ensures |s| == |b| / 8
  {
    if b == [] then [] else Deserialized(b[..|b| - 8]) + [SampleAt(b[|b| - 8..])]
  }

  lemma {:induction false} DeserializedSample(b: seq<byte>, i: nat)
    requires |b| % 8 == 0 && 8 * i < |b|
    ensures 8 * i + 8 <= |b| && Deserialized(b)[i] == SampleAt(b[8 * i..8 * i + 8])
    decreases |b|
  {
    hide SampleAt;
    var n := |b| - 8;
    var s := Deserialized(b[..n]);
    assert Deserialized(b) == s + [SampleAt(b[n..])];
    hide Deserialized;
    if 8 * i < n {
      DeserializedSample(b[..n], i);
      SliceOfPrefix(b, n, 8 * i, 8 * i + 8);
    } else {
      assert b[n..] == b[8 * i..8 * i + 8];
    }
  }

  /** The parts of x are the roundings of the two binary32 patterns at j, each with its lowest byte
      first, real part first. */
  predicate ReadAt(b: seq<byte>, j: nat, x: Sample)
    requires j + 8 <= |b|
  {
    var re, im := FromLittleEndian(b[j..j + 4]), FromLittleEndian(b[j + 4..j + 8]);
    re < 0x1_0000_0000 && im < 0x1_0000_0000 && x == Sample(RoundToBf16(re), RoundToBf16(im))
  }

  lemma SampleIs(b: seq<byte>, j: nat)
    requires j + 8 <= |b|
    ensures ReadAt(b, j, SampleAt(b[j..j + 8]))
  {
    hide RoundToBf16, FromLittleEndian;
    U32Bound(b[j..j + 4]);
    U32Bound(b[j + 4..j + 8]);
    SliceOfSlice(b, j, j + 8, 0, 4);
    SliceOfSlice(b, j, j + 8, 4, 8);
    assert b[j..j + 8][..4] == b[j..j + 8][0..4] && b[j..j + 8][4..] == b[j..j + 8][4..8];
  }

  /** Sample i is read from the eight bytes at 8i. */
  lemma DeserializedAt(b: seq<byte>, i: nat)
    requires |b| % 8 == 0 && 8 * i < |b|
    ensures 8 * i + 8 <= |b| && ReadAt(b, 8 * i, Deserialized(b)[i])
  {
    hide SampleAt, Deserialized, ReadAt;
    DeserializedSample(b, i);
    SampleIs(b, 8 * i);
  }

  /** iq_conv::deserialize on whole samples; otherwise the code reads past the end. */
  method Deserialize(input: seq<byte>) returns (out: seq<Sample>)
    requires |input| % 8 == 0
    ensures out == Deserialized(input) && |out| == |input| / 8
    ensures forall i :: 0 <= i < |out| ==> ReadAt(input, 8 * i, out[i])
  {
    hide SampleAt, Deserialized, ReadAt;
    out := [];
    var i := 0;
    while i < |input|
      invariant 0 <= i <= |input| && i == 8 * |out| && out == Deserialized(input)[..|out|]
    {
      DeserializedSample(input, |out|);
      out := out + [SampleAt(input[i..i + 8])];
      i := i + 8;
    }
    forall i | 0 <= i < |out| ensures ReadAt(input, 8 * i, out[i]) { DeserializedAt(input, i); }
  }

  lemma SampleRoundTrip(s: Sample)
    ensures SampleAt(Floats(s)) == s
  {
    hide Floats, FromLittleEndian;
    FloatsAt(s);
    assert Floats(s)[..4] == Floats(s)[0..4] && Floats(s)[4..] == Floats(s)[4..8];
    Bf16RoundTrip(s.re);
    Bf16RoundTrip(s.im);
  }

  /** Every sample survives serialization, NaN patterns included. */
  lemma SerializeRoundTrip(s: seq<Sample>)
    ensures Deserialized(Serialized(s)) == s
  {
    hide Serialized, Deserialized, Floats, SampleAt;
    forall i | 0 <= i < |s| ensures Deserialized(Serialized(s))[i] == s[i] {
      DeserializedSample(Serialized(s), i);
      SerializedSample(s, i);
      SampleRoundTrip(s[i]);
    }
  }
}

/** lz77_compressor: zlib behind a length header. zlib itself is a parameter. */
module Lz77 {
  import opened Bytes

  /** `inflate` gets the room it may fill and fails as ::uncompress does. */
  datatype Inflated = Ok(data: seq<byte>) | ZlibError
  datatype Zlib = Zlib(deflate: seq<byte> -> seq<byte>, inflate: (seq<byte>, nat) -> Inflated)

  /** What zlib promises: a round trip, and an output no longer than compressBound. */
  ghost predicate Correct(z: Zlib) {
    forall x: seq<byte> ::
      && z.inflate(z.deflate(x), |x|) == Ok(x)
      && |z.deflate(x)| <= |x| + |x| / 0x1000 + |x| / 0x4000 + |x| / 0x200_0000 + 13
  }

  /** The header is a 64-bit uLong in host order. */
  function Compress(z: Zlib, input: seq<byte>): (out: seq<byte>) {
    if input == [] then [] else LittleEndian(|input|, 8) + z.deflate(input)
  }

  function Decompress(z: Zlib, input: seq<byte>): (out: seq<byte>) {
    if |input| < 8 then [] else
    match z.inflate(input[8..], FromLittleEndian(input[..8]))
    case Ok(data) => data
    case ZlibError => []
  }

  /** Eight bytes of length, lowest first, then what zlib makes of the input; nothing for nothing. */
  lemma CompressLaw(z: Zlib, input: seq<byte>, i: nat)
    requires i < 8
    ensures input == [] ==> Compress(z, input) == []
    ensures input != [] ==> var c := Compress(z, input);
      |c| >= 8 && c[i] == |input| / Pow256(i) % 0x100 && c[8..] == z.deflate(input)
  {
    if input != [] {
      assert Compress(z, input)[8..] == z.deflate(input);
      LittleEndianAt(|input|, 8, i);
    }
  }

  /** zlib gets what follows the length, with that much room; its failure gives nothing. */
  lemma DecompressLaw(z: Zlib, n: nat, body: seq<byte>, short: seq<byte>)
    requires n < Pow256(8) && |short| < 8
    ensures Decompress(z, short) == []
    ensures var r := z.inflate(body, n);
      Decompress(z, LittleEndian(n, 8) + body) == if r.Ok? then r.data else []
  {
    var w := LittleEndian(n, 8) + body;
    assert w[..8] == LittleEndian(n, 8) && w[8..] == body;
    LittleEndianRoundTrip(n, 8);
  }

  lemma CompressLength(z: Zlib, input: seq<byte>)
    requires Correct(z)
    ensures |Compress(z, input)| <= 2 * |input| + 21
  {
  }

  lemma RoundTrip(z: Zlib, input: seq<byte>)
    requires Correct(z) && |input| < Pow256(8)
    ensures Decompress(z, Compress(z, input)) == input
  {
    if input != [] {
      var c := Compress(z, input);
      assert c[..8] == LittleEndian(|input|, 8) && c[8..] == z.deflate(input);
      LittleEndianRoundTrip(|input|, 8);
    }
  }
}
