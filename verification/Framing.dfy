/** Bytes, big-endian lengths and the length-prefixed gRPC message frame:
    one flags byte, a 32-bit length and the payload. */
module Framing {

  type byte = b: int | 0 <= b < 256
  type Bytes = seq<byte>

  datatype Option<+T> = None | Some(value: T)

  const HEADER_LENGTH: nat := 5
  const METADATA_FLAGS: byte := 128
  const LENGTH_LIMIT: nat := 0x1_0000_0000

  function Min(a: nat, b: nat): nat { if a < b then a else b }

  /** The most significant bit of a byte. */
  predicate Msb(b: byte) {
    b >= 128
  }

  /** binary.BigEndian.Uint32 */
  function U32(b: Bytes): (n: nat)
    requires |b| == 4
    ensures n < LENGTH_LIMIT
  {
    0x100_0000 * (b[0] as int) + 0x1_0000 * (b[1] as int) + 256 * (b[2] as int) + (b[3] as int)
  }

  /** binary.BigEndian.PutUint32, after Go's truncating conversion to uint32. */
  function PutU32(n: nat): (b: Bytes)
    ensures |b| == 4
    ensures U32(b) == n % LENGTH_LIMIT
  {
    var m := n % LENGTH_LIMIT;
    var (q, d) := (m / 256, m % 256);
    var (r, c) := (q / 256, q % 256);
    var (a, b) := (r / 256, r % 256);
    [a, b, c, d]
  }

  /** PutU32 is the only four-byte form of a length. */
  lemma PutU32Unique(b: Bytes)
    requires |b| == 4
    ensures PutU32(U32(b)) == b
  {
    var r: int := 256 * (b[0] as int) + (b[1] as int);
    var q: int := 256 * r + (b[2] as int);
    assert U32(b) == 256 * q + (b[3] as int) && U32(b) % LENGTH_LIMIT == U32(b);
    assert U32(b) / 256 == q && U32(b) % 256 == b[3] by { Digit(q, b[3]); }
    assert q / 256 == r && q % 256 == b[2] by { Digit(r, b[2]); }
    assert r / 256 == b[0] && r % 256 == b[1] by { Digit(b[0], b[1]); }
  }

  lemma Digit(q: int, d: byte)
    ensures (256 * q + d as int) / 256 == q && (256 * q + d as int) % 256 == d
  {
  }

  /** The most significant byte comes first. */
  lemma BigEndian(a: byte, b: byte, c: byte, d: byte)
    ensures U32([a, b, c, d]) == ((a as int * 256 + b as int) * 256 + c as int) * 256 + d as int
    ensures PutU32(((a as int * 256 + b as int) * 256 + c as int) * 256 + d as int) == [a, b, c, d]
  {
    PutU32Unique([a, b, c, d]);
  }

  datatype Frame = Frame(flags: byte, payload: Bytes)

  predicate Fits(f: Frame) {
    |f.payload| < LENGTH_LIMIT
  }

  predicate IsData(f: Frame) {
    !Msb(f.flags)
  }

  ghost predicate AllFit(fs: seq<Frame>) {
    forall i :: 0 <= i < |fs| ==> Fits(fs[i])
  }

  ghost predicate AllData(fs: seq<Frame>) {
    forall i :: 0 <= i < |fs| ==> Fits(fs[i]) && IsData(fs[i])
  }

  function MessageHeader(flags: byte, length: nat): (h: Bytes)
    ensures |h| == HEADER_LENGTH
  {
    [flags] + PutU32(length)
  }

  function Encode(f: Frame): (b: Bytes)
    ensures |b| == HEADER_LENGTH + |f.payload|
  {
    MessageHeader(f.flags, |f.payload|) + f.payload
  }

  function EncodeAll(fs: seq<Frame>): Bytes {
    if fs == [] then [] else Encode(fs[0]) + EncodeAll(fs[1..])
  }

  /** The frame at the head of a byte string, if a whole one is there. */
  function Head(s: Bytes): Option<Frame> {
    if |s| < HEADER_LENGTH then None
    else
      var end := HEADER_LENGTH + U32(s[1..5]);
      if |s| < end then None else Some(Frame(s[0], s[5..end]))
  }

  lemma HeadSound(s: Bytes)
    requires Head(s).Some?
    ensures Fits(Head(s).value)
    ensures s == Encode(Head(s).value) + s[HEADER_LENGTH + |Head(s).value.payload|..]
  {
    PutU32Unique(s[1..5]);
  }

  lemma HeadOfEncode(f: Frame, rest: Bytes)
    requires Fits(f)
    ensures Head(Encode(f) + rest) == Some(f)
    ensures (Encode(f) + rest)[HEADER_LENGTH + |f.payload|..] == rest
    ensures Encode(f)[0] == f.flags
  {
    var s := Encode(f) + rest;
    assert s[1..5] == PutU32(|f.payload|);
    assert s[5..5 + |f.payload|] == f.payload;
  }

  /** One-shot reference parser: the leading whole frames and what is left over. */
  function Split(s: Bytes): (r: (seq<Frame>, Bytes))
    decreases |s|
  {
    match Head(s)
    case None => ([], s)
    case Some(f) =>
      var (fs, rest) := Split(s[HEADER_LENGTH + |f.payload|..]);
      ([f] + fs, rest)
  }

  lemma Assoc(a: Bytes, b: Bytes, c: Bytes)
    ensures (a + b) + c == a + (b + c)
  {
  }

  function Concat(ms: seq<Bytes>): Bytes {
    if ms == [] then [] else ms[0] + Concat(ms[1..])
  }

  lemma {:induction false} ConcatAppend(a: seq<Bytes>, b: seq<Bytes>)
    ensures Concat(a + b) == Concat(a) + Concat(b)
  {
    if a == [] {
      assert a + b == b;
    } else {
      ConcatAppend(a[1..], b);
      assert (a + b)[1..] == a[1..] + b;
      Assoc(a[0], Concat(a[1..]), Concat(b));
    }
  }

  lemma EncodeAllCons(f: Frame, fs: seq<Frame>)
    ensures EncodeAll([f] + fs) == Encode(f) + EncodeAll(fs)
  {
    assert ([f] + fs)[1..] == fs;
  }

  lemma EncodeAllEmpty(fs: seq<Frame>)
    ensures EncodeAll(fs) == [] <==> fs == []
  {
    if fs != [] {
      assert |EncodeAll(fs)| >= |Encode(fs[0])|;
    }
  }

  lemma {:induction false} SplitSound(s: Bytes)
    ensures AllFit(Split(s).0) && Head(Split(s).1).None?
    ensures EncodeAll(Split(s).0) + Split(s).1 == s
    decreases |s|
  {
    if Head(s).Some? {
      var f := Head(s).value;
      var tail := s[HEADER_LENGTH + |f.payload|..];
      HeadSound(s);
      SplitSound(tail);
      var (fs, rest) := Split(tail);
      assert Split(s) == ([f] + fs, rest);
      EncodeAllCons(f, fs);
      Assoc(Encode(f), EncodeAll(fs), rest);
    } else {
      assert EncodeAll([]) + s == s;
    }
  }

  lemma {:induction false} SplitOfEncodeAll(fs: seq<Frame>, rest: Bytes)
    requires AllFit(fs) && Head(rest).None?
    ensures Split(EncodeAll(fs) + rest) == (fs, rest)
  {
    if fs == [] {
      assert EncodeAll(fs) + rest == rest;
    } else {
      SplitOfEncodeAll(fs[1..], rest);
      Assoc(Encode(fs[0]), EncodeAll(fs[1..]), rest);
      HeadOfEncode(fs[0], EncodeAll(fs[1..]) + rest);
      assert [fs[0]] + fs[1..] == fs;
    }
  }

  lemma {:induction false} EncodeAllAppend(a: seq<Frame>, b: seq<Frame>)
    ensures EncodeAll(a + b) == EncodeAll(a) + EncodeAll(b)
  {
    if a == [] {
      assert a + b == b;
    } else {
      EncodeAllAppend(a[1..], b);
      assert a + b == [a[0]] + (a[1..] + b);
      EncodeAllCons(a[0], a[1..] + b);
      Assoc(Encode(a[0]), EncodeAll(a[1..]), EncodeAll(b));
    }
  }

  datatype FrameError = ShortHeader | LengthMismatch

  /** ParseMessageHeader: flags and length of an exactly five-byte header. */
  function ParseMessageHeader(header: Bytes): (r: Option<(byte, nat)>)
    ensures r.Some? <==> exists flags: byte, n: nat :: n < LENGTH_LIMIT && header == MessageHeader(flags, n)
    ensures forall flags: byte, n: nat ::
              n < LENGTH_LIMIT && header == MessageHeader(flags, n) ==> r == Some((flags, n))
  {
    if |header| != HEADER_LENGTH then None
    else
      var r := (header[0], U32(header[1..]));
      PutU32Unique(header[1..]);
      assert header == MessageHeader(r.0, r.1);
      assert forall flags: byte, n: nat :: header == MessageHeader(flags, n) ==> header[1..] == PutU32(n);
      Some(r)
  }

  /** MakeMessageHeader: fills a new five-byte buffer. */
  method MakeMessageHeader(flags: byte, length: nat) returns (hdr: array<byte>)
    requires length < LENGTH_LIMIT
    ensures fresh(hdr) && hdr[..] == MessageHeader(flags, length)
    ensures ParseMessageHeader(hdr[..]) == Some((flags, length))
  {
    hdr := new byte[HEADER_LENGTH];
    hdr[0] := flags;
    var enc := PutU32(length);
    for i := 0 to 4
      invariant hdr[0] == flags
      invariant forall j :: 0 <= j < i ==> hdr[1 + j] == enc[j]
    {
      hdr[1 + i] := enc[i];
    }
    assert hdr[..] == [flags] + enc;
  }

  const END_STREAM_HEADER: Bytes := [METADATA_FLAGS, 0, 0, 0, 0]

  function ValidateGRPCFrame(msg: Bytes): Option<FrameError> {
    if |msg| < HEADER_LENGTH then Some(ShortHeader)
    else if |msg| != HEADER_LENGTH + U32(msg[1..5]) then Some(LengthMismatch)
    else None
  }

  /** ValidateGRPCFrame accepts exactly the encodings of single frames. */
  lemma ValidFrames(msg: Bytes)
    ensures ValidateGRPCFrame(msg).None? <==> exists f: Frame :: Fits(f) && msg == Encode(f)
    ensures ValidateGRPCFrame(msg).None? ==> Head(msg).Some? && msg == Encode(Head(msg).value)
  {
    if ValidateGRPCFrame(msg).None? {
      HeadSound(msg);
    }
    forall f: Frame | Fits(f) && msg == Encode(f)
      ensures ValidateGRPCFrame(msg).None?
    {
      EncodedIsValid(f);
    }
  }

  lemma EncodedIsValid(f: Frame)
    requires Fits(f)
    ensures ValidateGRPCFrame(Encode(f)).None?
  {
    assert Encode(f)[1..5] == PutU32(|f.payload|);
  }

  predicate IsDataFrame(msg: Bytes)
    requires msg != []
  {
    !Msb(msg[0])
  }

  predicate IsMetadataFrame(msg: Bytes)
    requires msg != []
  {
    Msb(msg[0])
  }

  predicate IsCompressed(msg: Bytes)
    requires msg != []
  {
    msg[0] % 2 == 1
  }

  /** Metadata and compression are the highest and the lowest of the eight flag bits. */
  lemma FlagBits(hi: int, middle: int, lo: int, rest: Bytes)
    requires 0 <= hi < 2 && 0 <= middle < 64 && 0 <= lo < 2
    ensures var flags: byte := 128 * hi + 2 * middle + lo;
            var msg := [flags] + rest;
            && (IsMetadataFrame(msg) <==> hi == 1) && (IsDataFrame(msg) <==> hi == 0)
            && (IsCompressed(msg) <==> lo == 1)
  {
  }

  /** The end-of-stream marker is the metadata frame with an empty payload. */
  predicate IsEndOfStream(msg: Bytes)
    ensures IsEndOfStream(msg) <==> msg == Encode(Frame(METADATA_FLAGS, []))
  {
    assert Encode(Frame(METADATA_FLAGS, [])) == END_STREAM_HEADER;
    msg == END_STREAM_HEADER
  }
}
