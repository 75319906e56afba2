/** The length-prefixed channel: four bytes of size in network order, then the buffer in
    chunks of at most 1024 bytes. */
module Channel {
  import opened Bytes
  import opened Wrappers

  const CHUNK: nat := 1024

  /** What send puts on the wire; the size is cut to 32 bits. */
  function Packet(b: seq<byte>): (p: seq<byte>)
    ensures |p| == 4 + |b|
  {
    BigEndian(|b| % 0x1_0000_0000) + b
  }

  /** What recv takes off the wire: the buffer and what is left. */
  function Unpack(w: seq<byte>): (r: Option<(seq<byte>, seq<byte>)>) {
    if |w| < 4 || |w| - 4 < FromBigEndian(w[..4]) then None
    else var n := FromBigEndian(w[..4]); Some((w[4..4 + n], w[4 + n..]))
  }

  /** A buffer is received as it was sent, whatever follows it, exactly if its length fits the
      32-bit prefix. */
  lemma PacketRoundTrip(b: seq<byte>, rest: seq<byte>)
    ensures Unpack(Packet(b) + rest) == Some((b, rest)) <==> |b| < 0x1_0000_0000
  {
    var w := Packet(b) + rest;
    var n := |b| % 0x1_0000_0000;
    BigEndianRoundTrip(n);
    assert w[..4] == BigEndian(n);
    assert w == BigEndian(n) + (b + rest);
    assert w[4..4 + n] == (b + rest)[..n] == b[..n];
    if |b| < 0x1_0000_0000 {
      assert b[..n] == b && w[4 + n..] == rest;
    } else {
      assert |b[..n]| != |b|;
    }
  }

  /** Whatever is received is a packet at the front of the stream. */
  lemma UnpackInverse(w: seq<byte>)
    requires Unpack(w).Some?
    ensures var (b, rest) := Unpack(w).value; |b| < 0x1_0000_0000 && w == Packet(b) + rest
  {
    hide BigEndian, FromBigEndian;
    FromBigEndianInverse(w[..4]);
    var n := FromBigEndian(w[..4]);
    assert w == w[..4] + w[4..4 + n] + w[4 + n..];
  }

  lemma Appended(w: seq<byte>, h: seq<byte>, b: seq<byte>, k: nat, n: nat)
    requires k + n <= |b|
    ensures (w + (h + b[..k])) + b[k..k + n] == w + (h + b[..k + n])
  {
    assert b[..k] + b[k..k + n] == b[..k + n];
  }

  /** The bytes from `from` up to `to`, followed by n more. */
  lemma NextChunk(w: seq<byte>, from: nat, to: nat, n: nat)
    requires from <= to && to + n <= |w|
    ensures w[from..to] + w[to..][..n] == w[from..to + n] && w[to..][n..] == w[to + n..]
  {
  }

  /** One direction of the connection: what was written and not yet read. */
  class Channel {
    var wire: seq<byte>

    constructor ()
      ensures wire == []
    {
      wire := [];
    }

    method Write(b: seq<byte>)
      modifies this
      ensures wire == old(wire) + b
    {
      wire := wire + b;
    }

    /** boost::asio::read of exactly n bytes, or end of file. */
    method Read(n: nat) returns (r: Option<seq<byte>>)
      modifies this
      ensures n <= |old(wire)| ==> r == Some(old(wire)[..n]) && wire == old(wire)[n..]
      ensures n > |old(wire)| ==> r == None
    {
      if n > |wire| { return None; }
      r := Some(wire[..n]);
      wire := wire[n..];
    }

    method Send(buffer: seq<byte>) returns (sent: nat)
      modifies this
      ensures wire == old(wire) + Packet(buffer) && sent == |buffer|
    {
      Write(BigEndian(|buffer| % 0x1_0000_0000));
      sent := 0;
      while sent < |buffer|
        invariant 0 <= sent <= |buffer|
        invariant wire == old(wire) + (BigEndian(|buffer| % 0x1_0000_0000) + buffer[..sent])
      {
        var n := if CHUNK < |buffer| - sent then CHUNK else |buffer| - sent;
        Appended(old(wire), BigEndian(|buffer| % 0x1_0000_0000), buffer, sent, n);
        Write(buffer[sent..sent + n]);
        sent := sent + n;
      }
      assert buffer[..sent] == buffer;
    }

    /** None: the connection ended before a whole buffer arrived. */
    method Recv() returns (r: Option<seq<byte>>)
      modifies this
      ensures r.None? <==> Unpack(old(wire)).None?
      ensures r.Some? ==> Unpack(old(wire)) == Some((r.value, wire))
    {
      ghost var w := wire;
      var h := Read(4);
      if h.None? { return None; }
      var size := FromBigEndian(h.value);
      var buffer := [];
      while |buffer| < size
        invariant |w| >= 4 && size == FromBigEndian(w[..4]) && |buffer| <= size
        invariant 4 + |buffer| <= |w| && buffer == w[4..4 + |buffer|] && wire == w[4 + |buffer|..]
      {
        var n := if CHUNK < size - |buffer| then CHUNK else size - |buffer|;
        var part := Read(n);
        if part.None? { return None; }
        NextChunk(w, 4, 4 + |buffer|, n);
        buffer := buffer + part.value;
      }
      return Some(buffer);
    }
  }
}

/** buffer_reader: the file over and over again, in buffers of at most `max` bytes. */
module FileReader {
  import opened Bytes

  /** The rest of this pass, and the passes after it, `count` in all. */
  ghost function Passes<T>(rest: seq<T>, whole: seq<T>, count: int): (r: seq<T>) {
    if count <= 0 then [] else rest + Repeat(whole, count - 1)
  }

  /** The file from `pos` on, cut into buffers. */
  ghost function Cuts(file: seq<byte>, pos: nat, max: nat): (r: seq<seq<byte>>)
    requires pos <= |file| && max > 0
    ensures r == [] <==> pos == |file|
    decreases |file| - pos
  {
    if pos == |file| then [] else
    var n := if max < |file| - pos then max else |file| - pos;
    [file[pos..pos + n]] + Cuts(file, pos + n, max)
  }

  function Start(pos: nat, max: nat, i: nat): (p: nat) {
    pos + i * max
  }

  lemma StartNext(pos: nat, max: nat, i: nat)
    ensures Start(pos, max, 0) == pos && Start(pos, max, i + 1) == Start(pos + max, max, i)
  {
  }

  ghost function Left(file: seq<byte>, pos: nat, count: int): (r: seq<byte>)
    requires pos <= |file|
  {
    Passes(file[pos..], file, count)
  }

  ghost function Coming(file: seq<byte>, pos: nat, max: nat, count: int): (r: seq<seq<byte>>)
    requires pos <= |file| && max > 0
  {
    Passes(Cuts(file, pos, max), Cuts(file, 0, max), count)
  }

  /** Buffer i of a pass holds the bytes from i * max on, `max` of them unless the file ends before,
      and the last buffer reaches the end of the file. */
  lemma {:induction false} CutsAt(file: seq<byte>, pos: nat, max: nat, i: nat)
    requires max > 0 && pos <= |file| && i < |Cuts(file, pos, max)|
    ensures var from := Start(pos, max, i); var to := from + max;
      && from < |file|
      && Cuts(file, pos, max)[i] == file[from..if to < |file| then to else |file|]
      && (i == |Cuts(file, pos, max)| - 1 <==> to >= |file|)
    decreases i
  {
    hide Start, Cuts;
    NextCut(file, pos, max);
    if i == 0 {
      StartNext(pos, max, 0);
    } else {
      StartNext(pos, max, i - 1);
      CutsAt(file, pos + max, max, i - 1);
    }
  }

  class BufferReader {
    const file: seq<byte>
    const max: nat
    var count: int
    var pos: nat
    var eof: bool

    ghost predicate Valid()
      reads this
    {
      max > 0 && pos <= |file| && (eof ==> pos == |file|)
    }

    /** What is still to be read. */
    ghost function Remaining(): (r: seq<byte>)
      reads this
      requires pos <= |file|
    {
      Left(file, pos, count)
    }

    /** The buffers still to come. */
    ghost function Buffers(): (r: seq<seq<byte>>)
      reads this
      requires Valid()
    {
      Coming(file, pos, max, count)
    }

    constructor (file: seq<byte>, count: int, max: nat)
      requires max > 0
      ensures Valid() && this.file == file && this.max == max && this.count == count
      ensures Remaining() == Repeat(file, if count < 0 then 0 else count)
      ensures Buffers() == Repeat(Cuts(file, 0, max), if count < 0 then 0 else count)
    {
      this.file, this.count, this.max, pos, eof := file, count, max, 0, false;
      new;
      assert file[0..] == file;
    }

    /** The next buffer: a non-empty piece of what remains, or empty for ever once nothing does. */
    method ReadBuffer() returns (buffer: seq<byte>)
      requires Valid()
      modifies this`count, this`pos, this`eof
      ensures Valid() && count <= old(count)
      ensures old(Remaining()) == buffer + Remaining() && |buffer| <= max
      ensures buffer == [] <==> old(Remaining()) == []
      ensures buffer == [] ==> count <= 0
      ensures old(Buffers()) == if buffer == [] then [] else [buffer] + Buffers()
      decreases count
    {
      if count <= 0 { return []; }
      hide Left, Coming;
      // file_stream.read on a stream at end of file transfers nothing
      var n := if eof then 0 else if max < |file| - pos then max else |file| - pos;
      if n == 0 { NextPass(file, max, count); } else { NextBuffer(file, pos, n, max, count); }
      buffer := file[pos..pos + n];
      pos := pos + n;
      if n < max { eof := true; }
      if n == 0 {
        count := count - 1;
        // eof() holds: clear and seek back to the beginning
        pos, eof := 0, false;
        assert old(Remaining()) == Remaining() && old(Buffers()) == Buffers();
        buffer := ReadBuffer();
      }
    }
  }

  lemma Cut(file: seq<byte>, pos: nat, n: nat)
    requires pos + n <= |file|
    ensures file[pos..] == file[pos..pos + n] + file[pos + n..]
    ensures file[0..] == file && (pos == |file| ==> file[pos..] == [])
  {
  }

  lemma NextCut(file: seq<byte>, pos: nat, max: nat)
    requires pos <= |file| && max > 0
    ensures var n := if max < |file| - pos then max else |file| - pos;
      Cuts(file, pos, max) == if n == 0 then [] else [file[pos..pos + n]] + Cuts(file, pos + n, max)
  {
  }

  lemma NextBuffer(file: seq<byte>, pos: nat, n: nat, max: nat, count: int)
    requires pos < |file| && max > 0 && count > 0 && n == if max < |file| - pos then max else |file| - pos
    ensures var buffer := file[pos..pos + n];
      && Left(file, pos, count) == buffer + Left(file, pos + n, count) && Left(file, pos, count) != []
      && Coming(file, pos, max, count) == [buffer] + Coming(file, pos + n, max, count)
  {
    NextCut(file, pos, max);
    hide Passes, Cuts;
    Cut(file, pos, n);
    NextPiece(file[pos..pos + n], file[pos + n..], file, count);
    NextPiece([file[pos..pos + n]], Cuts(file, pos + n, max), Cuts(file, 0, max), count);
  }

  lemma NextPass(file: seq<byte>, max: nat, count: int)
    requires max > 0 && count > 0
    ensures Left(file, |file|, count) == Left(file, 0, count - 1)
    ensures Coming(file, |file|, max, count) == Coming(file, 0, max, count - 1)
  {
    NextCut(file, |file|, max);
    hide Passes, Cuts;
    Cut(file, |file|, 0);
    PassEnd(file, count);
    PassEnd(Cuts(file, 0, max), count);
  }

  lemma NextPiece<T>(a: seq<T>, b: seq<T>, whole: seq<T>, count: int)
    requires count > 0
    ensures Passes(a + b, whole, count) == a + Passes(b, whole, count)
  {
    Regroup(a, b, Repeat(whole, count - 1));
  }

  lemma PassEnd<T>(whole: seq<T>, count: int)
    requires count > 0
    ensures Passes([], whole, count) == Passes(whole, whole, count - 1)
  {
  }
}

/** The session between the sender's main loop and the receiver's main loop. */
module Session {
  import opened Bytes
  import opened Wrappers
  import opened Channel
  import opened IqConversion
  import RunLength
  import Lz77
  import opened FileReader

  datatype Algorithm = NONE | BFP | RLE | LZ77

  function Code(a: Algorithm): (c: byte) {
    match a case NONE => 0 case BFP => 1 case RLE => 2 case LZ77 => 3
  }

  /** The two-byte header and the compressed samples. */
  datatype Frame = Frame(algorithm: byte, blank: byte, payload: seq<byte>)

  function FrameBytes(f: Frame): (b: seq<byte>)
    ensures |b| >= 2
  {
    [f.algorithm, f.blank] + f.payload
  }

  /** The samples a payload stands for; None where the receiver's decoder would read past the
      end of its input. */
  function Samples(z: Lz77.Zlib, f: Frame): (s: Option<seq<Sample>>) {
    if f.algorithm == 1 then Some(Pairs(f.payload[..|f.payload| - |f.payload| % 2]))
    else if f.algorithm == 0 then Floating(f.payload)
    else if f.algorithm == 2 then if |f.payload| % 2 == 0 then Floating(RunLength.Expand(f.payload)) else None
    else Floating(Lz77.Decompress(z, f.payload))
  }

  function Floating(b: seq<byte>): Option<seq<Sample>> {
    if |b| % 8 == 0 then Some(Deserialized(b)) else None
  }

  /** What the receiver appends to the file for a frame; an unknown type is written as it is. */
  function Written(z: Lz77.Zlib, f: Frame): (r: Option<seq<byte>>) {
    if f.algorithm > 3 then Some(f.payload) else
    match Samples(z, f)
    case None => None
    case Some(s) => if f.blank as int <= 2 * |s| then Some(HighBytes(s)[..2 * |s| - f.blank as int]) else None
  }

  /** The bytes of a session: every frame, then the one-byte terminator. */
  function Wire(frames: seq<Frame>): (w: seq<byte>) {
    Packets(frames) + Packet([0])
  }

  function Packets(frames: seq<Frame>): (w: seq<byte>) {
    if frames == [] then [] else Packet(FrameBytes(frames[0])) + Packets(frames[1..])
  }

  /** What the receiver's file gets for a list of frames. */
  function Output(z: Lz77.Zlib, frames: seq<Frame>): (r: Option<seq<byte>>) {
    if frames == [] then Some([]) else
    match (Written(z, frames[0]), Output(z, frames[1..]))
    case (Some(a), Some(b)) => Some(a + b)
    case _ => None
  }

  /** A frame on the wire: its size, cut to 32 bits, in network order, the type byte, the blank count
      and the payload. */
  lemma FrameLayout(f: Frame, rest: seq<byte>)
    ensures var w := Packet(FrameBytes(f)) + rest;
      && FromBigEndian(w[..4]) == (|f.payload| + 2) % 0x1_0000_0000
      && w[4] == f.algorithm && w[5] == f.blank && w[6..] == f.payload + rest
  {
    hide BigEndian, FromBigEndian;
    var h, b := BigEndian((|f.payload| + 2) % 0x1_0000_0000), FrameBytes(f);
    BigEndianRoundTrip((|f.payload| + 2) % 0x1_0000_0000);
    var w := Packet(b) + rest;
    assert |b| == |f.payload| + 2 && b[0] == f.algorithm && b[1] == f.blank && b[2..] == f.payload;
    assert w[..4] == h && w[4] == b[0] && w[5] == b[1] && w[6..] == b[2..] + rest;
  }

  /** Every frame fits the 32-bit length prefix. */
  predicate Short(frames: seq<Frame>) {
    forall i :: 0 <= i < |frames| ==> |frames[i].payload| + 2 < 0x1_0000_0000
  }

  /** What a stream holds for the receive loop: the frames, and what is left behind the
      terminator. None: the stream ends early, or a buffer is too short to hold a header. */
  datatype Parsed = Parsed(frames: seq<Frame>, rest: Option<seq<byte>>)

  function Parse(w: seq<byte>): (p: Parsed)
    decreases |w|
  {
    match Unpack(w)
    case None => Parsed([], None)
    case Some((b, rest)) =>
      if b == [0] then Parsed([], Some(rest))
      else if |b| < 2 then Parsed([], None)
      else var p := Parse(rest); Parsed([Frame(b[0], b[1], b[2..])] + p.frames, p.rest)
  }

  /** The receiver sees exactly the frames that were sent, takes none for the terminator, stops
      at the terminator and leaves what follows untouched. */
  lemma {:induction false} ParseWire(frames: seq<Frame>, rest: seq<byte>)
    requires Short(frames)
    ensures Parse(Wire(frames) + rest) == Parsed(frames, Some(rest))
    decreases |frames|
  {
    if frames == [] {
      PacketRoundTrip([0], rest);
      assert Wire(frames) + rest == Packet([0]) + rest;
    } else {
      var b := FrameBytes(frames[0]);
      var tail := Wire(frames[1..]) + rest;
      assert Wire(frames) + rest == Packet(b) + tail;
      PacketRoundTrip(b, tail);
      ParseWire(frames[1..], rest);
      assert b[2..] == frames[0].payload;
      assert [frames[0]] + frames[1..] == frames;
    }
  }

  /** The stream holds no whole buffer, or one that is neither the terminator nor has a header. */
  predicate Broken(w: seq<byte>) {
    match Unpack(w)
    case None => true
    case Some((b, _)) => |b| < 2 && b != [0]
  }

  /** Conversely a stream is the frames seen in it, then the terminator and what is left behind it,
      or else something broken. */
  lemma {:induction false} ParseInverse(w: seq<byte>) returns (tail: seq<byte>)
    ensures var p := Parse(w);
      && Short(p.frames) && w == Packets(p.frames) + tail
      && match p.rest case None => Broken(tail) case Some(rest) => tail == Packet([0]) + rest
    decreases |w|
  {
    hide Parse, Packets, Packet;
    ParseStep(w);
    assert Packets([]) == [] by { NoPackets(); }
    tail := w;
    if Unpack(w).Some? {
      var (b, rest) := Unpack(w).value;
      UnpackInverse(w);
      hide Unpack;
      if |b| >= 2 {
        tail := ParseInverse(rest);
        var f, fs := Frame(b[0], b[1], b[2..]), Parse(rest).frames;
        assert FrameBytes(f) == b;
        PacketsCons(f, fs);
        Regroup(Packet(b), Packets(fs), tail);
      }
    }
  }

  lemma NoPackets()
    ensures Packets([]) == []
  {
  }

  lemma PacketsCons(f: Frame, fs: seq<Frame>)
    ensures Packets([f] + fs) == Packet(FrameBytes(f)) + Packets(fs)
  {
    hide Packet, FrameBytes;
    assert ([f] + fs)[1..] == fs;
  }

  lemma {:induction false} OutputConcat(z: Lz77.Zlib, a: seq<Frame>, b: seq<Frame>)
    requires Output(z, a).Some?
    ensures Output(z, a + b) == match Output(z, b) case None => None case Some(y) => Some(Output(z, a).value + y)
    decreases |a|
  {
    if a == [] {
      assert a + b == b;
      if Output(z, b).Some? { assert [] + Output(z, b).value == Output(z, b).value; }
    } else {
      assert (a + b)[1..] == a[1..] + b;
      OutputConcat(z, a[1..], b);
      if Output(z, b).Some? {
        var x, y, t := Written(z, a[0]).value, Output(z, b).value, Output(z, a[1..]).value;
        assert x + (t + y) == (x + t) + y;
      }
    }
  }

  lemma {:induction false} PacketsSnoc(a: seq<Frame>, f: Frame)
    ensures Packets(a + [f]) == Packets(a) + Packet(FrameBytes(f))
    decreases |a|
  {
    if a == [] {
      assert [f][1..] == [] && a + [f] == [f];
    } else {
      assert (a + [f])[1..] == a[1..] + [f];
      PacketsSnoc(a[1..], f);
    }
  }

  lemma Nothing(z: Lz77.Zlib)
    ensures Output(z, []) == Some([]) && Packets([]) == []
  {
  }

  lemma OutputOne(z: Lz77.Zlib, f: Frame)
    ensures Output(z, [f]) == Written(z, f)
  {
    assert [f][1..] == [];
    if Written(z, f).Some? { assert Written(z, f).value + [] == Written(z, f).value; }
  }

  const MAX_BUFFER: nat := 20240

  /** The payload the sender makes of samples. */
  predicate Encodes(z: Lz77.Zlib, a: Algorithm, samples: seq<Sample>, payload: seq<byte>) {
    match a
    case NONE => payload == Serialized(samples)
    case BFP => payload == HighBytes(samples)
    case RLE => && |payload| % 2 == 0 && RunLength.Maximal(payload)
                && RunLength.Expand(payload) == Serialized(samples)
    case LZ77 => payload == Lz77.Compress(z, Serialized(samples))
  }

  /** The type byte of an algorithm is its place among the enumerators. */
  predicate Stands(b: byte, a: Algorithm) {
    && b < 4 && (b == 0 <==> a == NONE) && (b == 1 <==> a == BFP) && (b == 2 <==> a == RLE) && (b == 3 <==> a == LZ77)
  }

  /** The frame for a buffer. */
  predicate MadeOf(z: Lz77.Zlib, a: Algorithm, buffer: seq<byte>, f: Frame) {
    && Stands(f.algorithm, a) && f.blank as int == |buffer| % 2
    && Encodes(z, a, Pairs(Padded(buffer)), f.payload)
  }

  /** Every payload the sender makes decodes to its samples, and is not much longer than they are. */
  lemma EncodedBack(z: Lz77.Zlib, a: Algorithm, samples: seq<Sample>, f: Frame)
    requires Lz77.Correct(z) && Coarse(samples) && |samples| <= MAX_BUFFER
    requires Stands(f.algorithm, a) && Encodes(z, a, samples, f.payload)
    ensures Samples(z, f) == Some(samples) && |f.payload| <= 16 * |samples| + 21
  {
    hide Serialized, Deserialized, Pairs, HighBytes, Lz77.Correct, Lz77.Compress, Lz77.Decompress, RunLength.Expand;
    SerializeRoundTrip(samples);
    HighBytesSize(samples);
    match a {
      case NONE =>
      case BFP =>
        HighBytesLossless(samples);
        assert f.payload[..|f.payload|] == f.payload;
      case RLE => RunLength.CodeLength(f.payload);
      case LZ77 =>
        EightBytes();
        Lz77.CompressLength(z, Serialized(samples));
        Lz77.RoundTrip(z, Serialized(samples));
    }
  }

  lemma TypeByte(b: byte, a: Algorithm)
    requires Stands(b, a)
    ensures b <= 3
  {
  }

  /** Such a frame is written as the high bytes of its samples, less the blanks, if there are as
      many. */
  lemma WrittenFrame(z: Lz77.Zlib, a: Algorithm, samples: seq<Sample>, f: Frame)
    requires Lz77.Correct(z) && Coarse(samples) && |samples| <= MAX_BUFFER
    requires Stands(f.algorithm, a) && Encodes(z, a, samples, f.payload)
    ensures var n := 2 * |samples| - f.blank;
      Written(z, f) == if n < 0 then None else Some(HighBytes(samples)[..n])
  {
    hide Samples, Encodes, Stands, Coarse, HighBytes, Pairs, Lz77.Correct;
    EncodedBack(z, a, samples, f);
    HighBytesSize(samples);
    assert f.algorithm <= 3 by { TypeByte(f.algorithm, a); }
  }

  /** The frame made of a buffer is written as that buffer. */
  lemma WrittenBack(z: Lz77.Zlib, a: Algorithm, f: Frame, buffer: seq<byte>)
    requires Lz77.Correct(z) && |buffer| <= MAX_BUFFER && MadeOf(z, a, buffer, f)
    ensures Written(z, f) == Some(buffer) && |f.payload| + 2 < 0x1_0000_0000
  {
    hide Samples, HighBytes, Pairs, Encodes, Written, Stands, Coarse, Lz77.Correct;
    var samples := Pairs(Padded(buffer));
    CoarsePairs(Padded(buffer));
    IqRoundTrip(buffer);
    hide Padded;
    EncodedBack(z, a, samples, f);
    WrittenFrame(z, a, samples, f);
  }

  /** What the deserializer gets of a frame that carries floats; None: the run-length decoder reads
      past its end. */
  function Inflated(z: Lz77.Zlib, f: Frame): (b: Option<seq<byte>>) {
    if f.algorithm == 2 then if |f.payload| % 2 == 0 then Some(RunLength.Expand(f.payload)) else None
    else if f.algorithm == 3 then Some(Lz77.Decompress(z, f.payload))
    else Some(f.payload)
  }

  /** When the receiver has nothing to write, for any frame at all: the floats are not whole samples,
      or there are more blanks than bytes. An unknown type is written as it is. */
  lemma Undecodable(z: Lz77.Zlib, f: Frame)
    ensures f.algorithm > 3 ==> Written(z, f) == Some(f.payload)
    ensures f.algorithm == 1 ==> (Written(z, f).None? <==> f.blank as int > |f.payload| - |f.payload| % 2)
    ensures f.algorithm in {0, 2, 3} ==> (Written(z, f).None? <==>
      match Inflated(z, f) case None => true case Some(b) => |b| % 8 != 0 || f.blank as int > |b| / 4)
  {
    hide Pairs, HighBytes, Deserialized, RunLength.Expand, Lz77.Decompress;
  }

  lemma EightBytes()
    ensures Pow256(8) >= 0x1_0000_0000
  {
    assert Pow256(4) == 0x1_0000_0000;
  }

  /** The sender's treatment of one buffer: convert, serialize, compress, put the header in front. */
  method Compose(z: Lz77.Zlib, algorithm: Algorithm, buffer: seq<byte>) returns (f: Frame)
    requires Lz77.Correct(z) && |buffer| <= MAX_BUFFER
    ensures MadeOf(z, algorithm, buffer, f)
    ensures Written(z, f) == Some(buffer) && |f.payload| + 2 < 0x1_0000_0000
  {
    hide Written, Pairs, Serialized, HighBytes, RunLength.Expand, RunLength.Maximal, Lz77.Compress, Lz77.Correct;
    var samples, blank := ToIq(buffer);
    var payload := Serialize(samples);
    match algorithm {
      case NONE =>
      case BFP => payload := BfpCompress(samples);
      case RLE => payload := RunLength.Compress(payload);
      case LZ77 => payload := Lz77.Compress(z, payload);
    }
    f := Frame(Code(algorithm), blank, payload);
    WrittenBack(z, algorithm, f, buffer);
  }

  lemma CoarsePairs(b: seq<byte>)
    requires |b| % 2 == 0
    ensures Coarse(Pairs(b)) && |Pairs(b)| == |b| / 2
  {
  }

  /** Frame i is made of buffer i, with the algorithm the controller is at then. */
  ghost predicate Framed(z: Lz77.Zlib, choose: nat -> Algorithm, buffers: seq<seq<byte>>, frames: seq<Frame>) {
    |frames| == |buffers| && forall i :: 0 <= i < |frames| ==> MadeOf(z, choose(i), buffers[i], frames[i])
  }

  /** The sender's main loop. `choose` is the controller's state at each frame. */
  method Transmit(reader: BufferReader, ch: Channel, z: Lz77.Zlib, choose: nat -> Algorithm)
      returns (ghost frames: seq<Frame>)
    requires reader.Valid() && reader.max == MAX_BUFFER && Lz77.Correct(z)
    modifies reader, ch
    ensures ch.wire == old(ch.wire) + Wire(frames) && Short(frames)
    ensures Framed(z, choose, old(reader.Buffers()), frames)
    ensures Output(z, frames) == Some(old(reader.Remaining()))
    ensures reader.count <= 0
  {
    hide Output, Packets, Packet, FrameBytes, Written, MadeOf, Lz77.Correct, Left, Coming;
    frames := [];
    Nothing(z);
    ghost var w0, sent, buffers := ch.wire, [], [];
    var index := 0;
    while true
      invariant reader.Valid() && Sent(ch, z, w0, frames, sent)
      invariant old(reader.Remaining()) == sent + reader.Remaining()
      invariant index == |frames| && Framed(z, choose, buffers, frames)
      invariant old(reader.Buffers()) == buffers + reader.Buffers()
      decreases |reader.Remaining()|
    {
      var buffer := reader.ReadBuffer();
      Regroup(sent, buffer, reader.Remaining());
      if buffer == [] {
        Regroup(buffers, [], []);
        var _ := ch.Send([0]);
        Regroup(w0, Packets(frames), Packet([0]));
        return;
      }
      Regroup(buffers, [buffer], reader.Buffers());
      var f := Compose(z, choose(index), buffer);
      index := index + 1;
      SendFrame(ch, z, f, w0, frames, sent, buffer);
      frames, sent, buffers := frames + [f], sent + buffer, buffers + [buffer];
    }
  }

  /** The frames on the wire so far, and the bytes of the file they stand for. */
  ghost predicate Sent(ch: Channel, z: Lz77.Zlib, w0: seq<byte>, frames: seq<Frame>, sent: seq<byte>)
    reads ch
  {
    Short(frames) && ch.wire == w0 + Packets(frames) && Output(z, frames) == Some(sent)
  }

  method SendFrame(ch: Channel, ghost z: Lz77.Zlib, f: Frame,
                   ghost w0: seq<byte>, ghost frames: seq<Frame>, ghost sent: seq<byte>, ghost buffer: seq<byte>)
    requires Sent(ch, z, w0, frames, sent) && Written(z, f) == Some(buffer) && |f.payload| + 2 < 0x1_0000_0000
    modifies ch
    ensures Sent(ch, z, w0, frames + [f], sent + buffer)
  {
    hide Output, Packets, Packet, FrameBytes, Written;
    var _ := ch.Send(FrameBytes(f));
    Regroup(w0, Packets(frames), Packet(FrameBytes(f)));
    OutputOne(z, f);
    OutputConcat(z, frames, [f]);
    PacketsSnoc(frames, f);
  }

  /** The receiver's treatment of one buffer after the terminator test. None: a decoder reads past
      the end of its input, which C++ leaves undefined, or the blank count exceeds the output, so
      that resize is asked for a negative size and throws. */
  method Decode(z: Lz77.Zlib, received: seq<byte>) returns (r: Option<seq<byte>>)
    ensures |received| < 2 ==> r == None
    ensures |received| >= 2 ==> r == Written(z, Frame(received[0], received[1], received[2..]))
  {
    hide Pairs, HighBytes, Deserialized, RunLength.Expand, Lz77.Decompress;
    if |received| < 2 { return None; }
    var algorithm, blank := received[0], received[1];
    var buffer := received[2..];
    var samples: seq<Sample>;
    if algorithm == 0 {
      if |buffer| % 8 != 0 { return None; }
      samples := Deserialize(buffer);
    } else if algorithm == 1 {
      samples := BfpDecompress(buffer);
    } else if algorithm == 2 {
      if |buffer| % 2 != 0 { return None; }
      var intermediate := RunLength.Decompress(buffer);
      if |intermediate| % 8 != 0 { return None; }
      samples := Deserialize(intermediate);
    } else if algorithm == 3 {
      var intermediate := Lz77.Decompress(z, buffer);
      if |intermediate| % 8 != 0 { return None; }
      samples := Deserialize(intermediate);
    } else {
      return Some(buffer);
    }
    if blank as int > 2 * |samples| { return None; }
    var out := FromIq(samples, blank);
    return Some(out);
  }

  /** The receiver's main loop: the file it has written when it ends, by the terminator (`ended`)
      or at the first buffer it cannot treat, and the frames it has decoded by then. */
  method Receive(ch: Channel, z: Lz77.Zlib) returns (ended: bool, out: seq<byte>, ghost done: seq<Frame>)
    modifies ch
    ensures Output(z, done) == Some(out)
    ensures var p := Parse(old(ch.wire));
      && (ended <==> p.rest.Some? && Output(z, p.frames).Some?)
      && (ended ==> done == p.frames && p.rest == Some(ch.wire))
      && (!ended ==> StoppedAt(z, done, p))
  {
    hide Written, Output, Parse, FromBigEndian;
    out, done := [], [];
    Nothing(z);
    ghost var p := Parse(ch.wire);
    assert done + p.frames == p.frames;
    while true
      invariant Output(z, done) == Some(out)
      invariant p == Parsed(done + Parse(ch.wire).frames, Parse(ch.wire).rest)
      decreases |ch.wire|
    {
      ParseStep(ch.wire);
      var buffer := ch.Recv();
      if buffer.None? {
        assert done + [] == done;
        return false, out, done;
      }
      if |buffer.value| == 1 && buffer.value[0] == 0 {
        assert buffer.value == [0] && done + [] == done;
        return true, out, done;
      }
      var piece := Decode(z, buffer.value);
      if |buffer.value| < 2 {
        assert done + [] == done;
        return false, out, done;
      }
      ghost var f := Frame(buffer.value[0], buffer.value[1], buffer.value[2..]);
      LongerOutput(z, done, f, Parse(ch.wire).frames);
      if piece.None? { return false, out, done; }
      done, out := done + [f], out + piece.value;
    }
  }

  /** The receiver decoded the frames `done` and stopped at the next one, which has no decoding, or
      behind the last whole frame of a stream that breaks off there. */
  predicate StoppedAt(z: Lz77.Zlib, done: seq<Frame>, p: Parsed) {
    done <= p.frames &&
    if done == p.frames then p.rest.None? else Written(z, p.frames[|done|]).None?
  }

  lemma ParseStep(w: seq<byte>)
    ensures Unpack(w).None? ==> Parse(w) == Parsed([], None)
    ensures Unpack(w).Some? ==> var (b, rest) := Unpack(w).value;
      && |rest| < |w|
      && (b == [0] ==> Parse(w) == Parsed([], Some(rest)))
      && (b != [0] && |b| < 2 ==> Parse(w) == Parsed([], None))
      && (|b| >= 2 ==>
          Parse(w) == Parsed([Frame(b[0], b[1], b[2..])] + Parse(rest).frames, Parse(rest).rest))
  {
  }

  lemma LongerOutput(z: Lz77.Zlib, done: seq<Frame>, f: Frame, fs: seq<Frame>)
    requires Output(z, done).Some?
    ensures done + ([f] + fs) == (done + [f]) + fs
    ensures match Written(z, f)
      case None => Output(z, done + ([f] + fs)).None?
      case Some(b) => Output(z, done + [f]) == Some(Output(z, done).value + b)
  {
    hide Written;
    assert ([f] + fs)[1..] == fs;
    OutputConcat(z, done, [f] + fs);
    OutputConcat(z, done, [f]);
    OutputOne(z, f);
  }

  /** End to end: whatever algorithms the controller picks, the receiver's file is exactly
      `count` copies of the sender's file, and the stream ends empty. */
  method Transfer(file: seq<byte>, count: int, z: Lz77.Zlib, choose: nat -> Algorithm) returns (received: seq<byte>)
    requires Lz77.Correct(z)
    ensures received == Repeat(file, if count < 0 then 0 else count)
  {
    hide Output, Packets, Packet, Written, Lz77.Correct, Repeat, Parse;
    var reader := new BufferReader(file, count, MAX_BUFFER);
    var ch := new Channel();
    ghost var frames := Transmit(reader, ch, z, choose);
    assert ch.wire == Wire(frames) + [];
    ParseWire(frames, []);
    var ended, out, _ := Receive(ch, z);
    assert ended && ch.wire == [];
    received := out;
  }
}
