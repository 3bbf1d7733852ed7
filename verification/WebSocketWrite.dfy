/** Cutting a byte stream into WebSocket messages, one gRPC frame each. */
module WebSocketWrite {
  import opened Framing

  datatype Error = EndOfFile | UnexpectedEof | SourceBroken | ConnectionFailed

  /** Raw frames of a frame sequence. */
  function Messages(fs: seq<Frame>): (r: seq<Bytes>)
    ensures |r| == |fs| && forall i :: 0 <= i < |fs| ==> r[i] == Encode(fs[i])
  {
    if fs == [] then [] else [Encode(fs[0])] + Messages(fs[1..])
  }

  lemma {:induction false} ConcatMessages(fs: seq<Frame>)
    ensures Concat(Messages(fs)) == EncodeAll(fs)
  {
    if fs != [] {
      ConcatMessages(fs[1..]);
      assert Messages(fs)[1..] == Messages(fs[1..]);
    }
  }

  /** What the sender passes on: the whole frames at the head of its input, as far as the
      connection takes them; nil only if nothing else follows. */
  function Cut(input: Bytes, broken: bool, capacity: Option<nat>): (seq<Bytes>, Option<Error>) {
    var (fs, left) := Split(input);
    if capacity.Some? && capacity.value < |fs| then
      (Messages(fs[..capacity.value]), Some(ConnectionFailed))
    else
      (Messages(fs), if broken then Some(SourceBroken) else if left == [] then None else Some(UnexpectedEof))
  }

  /** A reader over a fixed byte string that ends cleanly or with an error. */
  class ByteSource {
    var rest: Bytes
    const broken: bool

    constructor (bytes: Bytes, broken: bool)
      ensures rest == bytes && this.broken == broken
    {
      rest := bytes;
      this.broken := broken;
    }

    /** io.CopyN into a buffer */
    method CopyN(n: nat) returns (data: Bytes, err: Option<Error>)
      modifies this
      ensures data + rest == old(rest)
      ensures err.None? <==> n <= |old(rest)|
      ensures err.None? ==> |data| == n
      ensures err.Some? ==> rest == [] && err == Some(if broken then SourceBroken else EndOfFile)
    {
      if n <= |rest| {
        data, err := rest[..n], None;
        rest := rest[n..];
      } else {
        data, err := rest, Some(if broken then SourceBroken else EndOfFile);
        rest := [];
      }
    }

    /** CopyNFull tells a clean end from a truncated read. */
    method CopyNFull(n: nat) returns (data: Bytes, err: Option<Error>)
      modifies this
      ensures data + rest == old(rest)
      ensures err.None? <==> n <= |old(rest)|
      ensures err.None? ==> |data| == n
      ensures err == Some(EndOfFile) <==> !broken && n > 0 && old(rest) == []
      ensures err == Some(UnexpectedEof) <==> !broken && 0 < |old(rest)| < n
      ensures err == Some(SourceBroken) <==> broken && |old(rest)| < n
    {
      data, err := CopyN(n);
      if err == Some(EndOfFile) && |data| != 0 {
        err := Some(UnexpectedEof);
      }
    }
  }

  lemma SplitNext(rest: Bytes)
    ensures Head(rest).None? ==> Split(rest) == ([], rest)
    ensures Head(rest).Some? ==>
              var f := Head(rest).value;
              var size := HEADER_LENGTH + |f.payload|;
              && size <= |rest| && rest[..size] == Encode(f)
              && Split(rest) == ([f] + Split(rest[size..]).0, Split(rest[size..]).1)
  {
    if Head(rest).Some? {
      HeadSound(rest);
      var f := Head(rest).value;
      assert |Encode(f)| == HEADER_LENGTH + |f.payload|;
    }
  }

  /** grpcwebsocket.Write. The connection takes `capacity` messages before it fails, or
      any number. */
  method Write(src: ByteSource, capacity: Option<nat>) returns (sent: seq<Bytes>, err: Option<Error>)
    modifies src
    ensures (sent, err) == Cut(old(src.rest), src.broken, capacity)
  {
    hide Split, Head, Encode;
    sent := [];
    ghost var all := Split(src.rest);
    ghost var fs: seq<Frame> := [];
    assert all.0 == fs + Split(src.rest).0;
    while true
      invariant all.0 == fs + Split(src.rest).0 && all.1 == Split(src.rest).1
      invariant sent == Messages(fs)
      invariant capacity.Some? ==> |sent| <= capacity.value
      decreases |src.rest|
    {
      ghost var rest := src.rest;
      SplitNext(rest);
      HeadMeaning(rest);
      var header, e := src.CopyNFull(HEADER_LENGTH);
      if e.Some? {
        assert all.0 == fs && all.1 == rest by { assert fs + [] == fs; }
        return sent, if e == Some(EndOfFile) then None else e;
      }
      var length := U32(header[1..]);
      assert header[1..] == rest[1..5];
      var payload;
      payload, e := src.CopyN(length);
      if e.Some? {
        assert all.0 == fs && all.1 == rest by { assert fs + [] == fs; }
        return sent, if e == Some(EndOfFile) then Some(UnexpectedEof) else e;
      }
      var msg := header + payload;
      Assoc(header, payload, src.rest);
      assert rest[..HEADER_LENGTH + length] == msg && rest[HEADER_LENGTH + length..] == src.rest;
      ghost var f := Head(rest).value;
      Extend(fs, f, Split(src.rest).0);
      if capacity == Some(|sent|) {
        assert all.0[..|fs|] == fs;
        return sent, Some(ConnectionFailed);
      }
      sent := sent + [msg];
      fs := fs + [f];
    }
  }

  lemma HeadMeaning(s: Bytes)
    ensures Head(s).None? <==> |s| < HEADER_LENGTH || |s| < HEADER_LENGTH + U32(s[1..5])
    ensures Head(s).Some? ==> |Head(s).value.payload| == U32(s[1..5])
  {
  }

  lemma Extend(fs: seq<Frame>, f: Frame, more: seq<Frame>)
    ensures fs + ([f] + more) == (fs + [f]) + more
    ensures Messages(fs + [f]) == Messages(fs) + [Encode(f)]
  {
  }

  // ---------------------------------------------------------------- what the cutter guarantees

  /** Everything sent is a valid frame, and what was sent is a prefix of the input. */
  lemma SentFramesAreValid(input: Bytes, broken: bool, capacity: Option<nat>)
    ensures var (sent, _) := Cut(input, broken, capacity);
            && Concat(sent) <= input
            && forall i :: 0 <= i < |sent| ==> ValidateGRPCFrame(sent[i]).None?
  {
    hide Encode;
    var (fs, left) := Split(input);
    SplitSound(input);
    var n := if capacity.Some? && capacity.value < |fs| then capacity.value else |fs|;
    var now, later := fs[..n], fs[n..];
    assert fs == now + later;
    assert Cut(input, broken, capacity).0 == Messages(now);
    ConcatMessages(now);
    EncodeAllAppend(now, later);
    Assoc(EncodeAll(now), EncodeAll(later), left);
    forall i | 0 <= i < |now|
      ensures ValidateGRPCFrame(Messages(now)[i]).None?
    {
      EncodedIsValid(now[i]);
    }
  }

  /** With a working connection and an error-free source, nil exactly when the input is a
      whole number of frames, and then all of them were sent. */
  lemma NilMeansWholeFrames(input: Bytes)
    ensures Cut(input, false, None).1.None? <==> exists fs :: AllFit(fs) && input == EncodeAll(fs)
    ensures Cut(input, false, None).1.None? ==> Concat(Cut(input, false, None).0) == input
    ensures forall fs :: AllFit(fs) && input == EncodeAll(fs) ==> Cut(input, false, None) == (Messages(fs), None)
  {
    SplitSound(input);
    if Split(input).1 == [] {
      assert EncodeAll(Split(input).0) + [] == EncodeAll(Split(input).0);
      ConcatMessages(Split(input).0);
    }
    forall fs | AllFit(fs) && input == EncodeAll(fs)
      ensures Cut(input, false, None) == (Messages(fs), None)
    {
      assert EncodeAll(fs) + [] == EncodeAll(fs);
      SplitOfEncodeAll(fs, []);
    }
  }

  /** What is sent and returned, for an input of any whole frames and a rest that holds none:
      the frames, up to what the connection takes; the connection's error if there were more,
      else the source's if it broke, else nil exactly if nothing is left over. */
  lemma CutExactly(fs: seq<Frame>, left: Bytes, broken: bool, capacity: Option<nat>)
    requires AllFit(fs) && Head(left).None?
    ensures var (sent, err) := Cut(EncodeAll(fs) + left, broken, capacity);
            && sent == Messages(if capacity.Some? && capacity.value < |fs| then fs[..capacity.value] else fs)
            && (err == Some(ConnectionFailed) <==> capacity.Some? && capacity.value < |fs|)
            && (err == None <==> !broken && left == [] && (capacity.Some? ==> |fs| <= capacity.value))
            && (err == Some(SourceBroken) <==> broken && (capacity.Some? ==> |fs| <= capacity.value))
            && err != Some(EndOfFile)
  {
    SplitOfEncodeAll(fs, left);
  }

  /** Nil, exactly, for every input. */
  lemma NilExactly(input: Bytes, broken: bool, capacity: Option<nat>)
    ensures Cut(input, broken, capacity).1 == None <==>
            !broken && exists fs :: AllFit(fs) && input == EncodeAll(fs) && (capacity.Some? ==> |fs| <= capacity.value)
  {
    hide EncodeAll;
    var (fs, left) := Split(input);
    SplitSound(input);
    CutExactly(fs, left, broken, capacity);
    if left == [] {
      assert EncodeAll(fs) + [] == EncodeAll(fs);
    }
    forall gs | AllFit(gs) && input == EncodeAll(gs)
      ensures gs == fs && left == []
    {
      assert EncodeAll(gs) + [] == EncodeAll(gs);
      SplitOfEncodeAll(gs, []);
    }
  }
}
