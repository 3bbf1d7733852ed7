/** Whole runs of the gRPC-Web reader: any stream, any chunking by the underlying
    reader, any sequence of buffer sizes. */
module GrpcWebRuns {
  import opened Framing
  import opened HeaderBlock
  import opened GrpcWebReader
  import opened GrpcWebScan

  /** One Read call: the buffer size, and what the underlying reader does when it is
      asked once, and perhaps again. */
  datatype Call = Call(max: nat, first: Choice, again: Choice)

  datatype Outcome = Outcome(state: State, delivered: Bytes)

  function Run(s: State, calls: seq<Call>): (r: Outcome)
    requires Sound(s.progress)
    ensures Sound(r.state.progress)
    decreases calls
  {
    if calls == [] then Outcome(s, [])
    else
      var step := Read(s, calls[0].max, calls[0].first, calls[0].again);
      ReadSound(s, calls[0]);
      var r := Run(step.state, calls[1..]);
      Outcome(r.state, step.data + r.delivered)
  }

  lemma ReadSound(s: State, call: Call)
    requires Sound(s.progress)
    ensures Sound(Read(s, call.max, call.first, call.again).state.progress)
  {
    DoReadSound(s, call.max, call.first, call.again);
  }

  lemma {:induction false} DoReadSound(s: State, max: nat, c: Choice, again: Choice)
    requires Sound(s.progress)
    ensures Sound(DoRead(s, max, c, again).state.progress)
    decreases s.partial == []
  {
    var s1 := if s.partial != [] then AfterAttempt(s) else s;
    if !(s.partial != [] && TryTrailers(s.partial, s.src).err.Some?) {
      var step := Pass(s1, max, c);
      if step.data == [] && step.state.partial != [] {
        DoReadSound(step.state, PullCount(s1.src, max, c), again, again);
      }
    }
  }

  // ---------------------------------------------------------------- the stream, seen at once

  function Body(stream: Bytes): Bytes {
    stream[..DataPrefix(stream)]
  }

  function Tail(stream: Bytes): Bytes {
    stream[DataPrefix(stream)..]
  }

  predicate Uncompressed(f: Frame) {
    f.flags % 2 == 0
  }

  /** The stream is whole data frames and then exactly one uncompressed trailer frame
      whose payload parses, to its end, as the header h. */
  ghost predicate Accepts(stream: Bytes, h: Header) {
    var t := Tail(stream);
    && Head(t).Some?
    && |t| == HEADER_LENGTH + |Head(t).value.payload|
    && Uncompressed(Head(t).value)
    && ParseBlock(Head(t).value.payload) == Complete(h, [])
  }

  /** The first trailer frame, if it is there in full, is not one on which the header
      parser runs out of input. */
  ghost predicate RetryFree(stream: Bytes) {
    var t := Tail(stream);
    Head(t).Some? && Uncompressed(Head(t).value) ==> !ParseBlock(Head(t).value.payload).HitEof?
  }

  // ---------------------------------------------------------------- phases of a run

  ghost predicate Scanning(stream: Bytes, s: State, out: Bytes) {
    && s.err == None && !s.hasReadTrailers && s.partial == []
    && out + s.src.rest == stream
    && Sound(s.progress) && Consume(BOUNDARY, out) == (s.progress, |out|)
    && (s.hasReadData <==> out != [])
  }

  ghost predicate Stashed(stream: Bytes, s: State, out: Bytes) {
    && s.err == None && !s.hasReadTrailers && s.partial != [] && s.hasReadData
    && Sound(s.progress)
    && out == Body(stream)
    && (|| s.partial + s.src.rest == Tail(stream)
        || (s.src.rest == [] && s.partial <= Tail(stream) && Head(Tail(stream)).None?))
  }

  ghost predicate TrailersRead(stream: Bytes, base: Header, s: State, out: Bytes) {
    var t := Tail(stream);
    && s.err == None && s.hasReadTrailers && s.partial == []
    && Sound(s.progress)
    && out == Body(stream)
    && Head(t).Some? && Uncompressed(Head(t).value)
    && s.src.rest == t[HEADER_LENGTH + |Head(t).value.payload|..]
    && ParseBlock(Head(t).value.payload).Complete?
    && ParseBlock(Head(t).value.payload).rest == []
    && s.trailers == Populate(base, ParseBlock(Head(t).value.payload).header)
  }

  ghost predicate Ended(stream: Bytes, base: Header, s: State, out: Bytes) {
    && s.err.Some?
    && Sound(s.progress)
    && out == Body(stream)
    && (s.err == Some(Eof) ==>
          && !s.src.broken
          && (|| (stream == [] && out == [] && s.trailers == base)
              || (out == Body(stream) && exists h :: Accepts(stream, h) && s.trailers == Populate(base, h))))
  }

  ghost predicate Inv(stream: Bytes, base: Header, s: State, out: Bytes) {
    || (Scanning(stream, s, out) && s.trailers == base)
    || (Stashed(stream, s, out) && s.trailers == base)
    || TrailersRead(stream, base, s, out)
    || Ended(stream, base, s, out)
  }

  // ---------------------------------------------------------------- one attempt at the trailer frame

  lemma AfterIsSuffix(partial: Bytes, rest: Bytes, n: nat)
    requires |partial| <= n <= |partial| + |rest|
    ensures After(partial, rest, n) == (partial + rest)[n..]
  {
  }

  /** An attempt when the whole frame is there. */
  lemma AttemptFrame(partial: Bytes, src: Source, f: Frame)
    requires Head(partial + src.rest) == Some(f)
    ensures TryTrailers(partial, src)
         == if !Uncompressed(f) then Attempt(After(partial, src.rest, HEADER_LENGTH), None, Some(NoDecompressor))
            else Attempt(After(partial, src.rest, HEADER_LENGTH + |f.payload|),
                         BlockHeader(f.payload, |f.payload|),
                         BlockError(f.payload, |f.payload|, |partial| - HEADER_LENGTH - |f.payload|))
  {
    hide BlockHeader, BlockError, After;
  }

  lemma AttemptWhole(partial: Bytes, src: Source)
    requires Head(partial + src.rest).Some?
    ensures var f := Head(partial + src.rest).value;
            var a := TryTrailers(partial, src);
            && (a.err == Some(Eof) ==> Uncompressed(f) && ParseBlock(f.payload).HitEof?)
            && (a.err == None ==>
                  && Uncompressed(f) && ParseBlock(f.payload).Complete? && ParseBlock(f.payload).rest == []
                  && a.got == Some(ParseBlock(f.payload).header)
                  && a.rest == (partial + src.rest)[HEADER_LENGTH + |f.payload|..])
            && ((&& Uncompressed(f) && ParseBlock(f.payload).Complete? && ParseBlock(f.payload).rest == []
                 && |partial| <= HEADER_LENGTH + |f.payload|) ==> a.err == None)
  {
    hide TryTrailers, ParseBlock;
    var f := Head(partial + src.rest).value;
    AttemptFrame(partial, src, f);
    if |partial| <= HEADER_LENGTH + |f.payload| {
      AfterIsSuffix(partial, src.rest, HEADER_LENGTH + |f.payload|);
    }
  }

  lemma AttemptShort(partial: Bytes, src: Source)
    requires Head(partial + src.rest).None?
    ensures TryTrailers(partial, src).err.Some? && TryTrailers(partial, src).got.None?
    ensures TryTrailers(partial, src).err == Some(Eof) ==> !src.broken && TryTrailers(partial, src).rest == []
  {
    var t := partial + src.rest;
    if |t| >= HEADER_LENGTH && |partial| <= |t| {
      AfterIsSuffix(partial, src.rest, |t|);
    }
  }

  // ---------------------------------------------------------------- one step from each phase

  /** Bytes accepted so far stay inside the body of the whole stream. */
  lemma AcceptedWithin(stream: Bytes, out: Bytes, rest: Bytes)
    requires out + rest == stream && Consume(BOUNDARY, out).1 == |out|
    ensures |out| <= DataPrefix(stream) && out <= Body(stream)
    ensures rest == [] ==> out == Body(stream) == stream
  {
    ConsumeAppend(BOUNDARY, out, rest);
    ScanIsOneShot(stream);
    assert stream[..|out|] == out;
  }

  lemma SplitAt(out: Bytes, chunk: Bytes, rest: Bytes, a: nat)
    requires a <= |chunk|
    ensures (out + (chunk + rest))[..|out| + a] == out + chunk[..a]
    ensures (out + (chunk + rest))[|out| + a..] == chunk[a..] + rest
  {
    assert chunk == chunk[..a] + chunk[a..];
    var s := (out + chunk[..a]) + (chunk[a..] + rest);
    assert out + (chunk + rest) == s;
  }

  lemma PrefixAfter(p: Progress, out: Bytes, m: Bytes)
    requires Sound(p) && Consume(BOUNDARY, out) == (p, |out|)
    ensures DataPrefix(out + m) == |out| + Consume(p, m).1
  {
    ConsumeAppend(BOUNDARY, out, m);
    ScanIsOneShot(out + m);
  }

  lemma StashedPrefix(p: Progress, out: Bytes, chunk: Bytes, rest: Bytes)
    requires Sound(p) && Consume(BOUNDARY, out) == (p, |out|)
    requires Consume(p, chunk).1 < |chunk|
    ensures DataPrefix(out + (chunk + rest)) == |out| + Consume(p, chunk).1
  {
    ConsumeAppend(p, chunk, rest);
    PrefixAfter(p, out, chunk + rest);
  }

  lemma ScannedOn(stream: Bytes, p: Progress, out: Bytes, chunk: Bytes, rest: Bytes)
    requires Sound(p) && Consume(BOUNDARY, out) == (p, |out|)
    requires stream == out + (chunk + rest)
    requires Consume(p, chunk).1 == |chunk|
    ensures (out + chunk) + rest == stream
    ensures Consume(BOUNDARY, out + chunk) == (Consume(p, chunk).0, |out + chunk|)
  {
    ConsumeAppend(BOUNDARY, out, chunk);
    Assoc(out, chunk, rest);
  }

  /** Passing a chunk on: it either extends the body, or ends it and stashes the rest. */
  lemma PassScanning(stream: Bytes, s: State, out: Bytes, max: nat, c: Choice)
    requires Scanning(stream, s, out)
    ensures var step := Pass(s, max, c);
            && step.state.trailers == s.trailers && step.state.src.broken == s.src.broken
            && if step.state.partial == [] then Scanning(stream, step.state, out + step.data)
               else Stashed(stream, step.state, out + step.data)
                    && step.state.partial + step.state.src.rest == Tail(stream)
  {
    var k := PullCount(s.src, max, c);
    var chunk, rest := s.src.rest[..k], s.src.rest[k..];
    assert chunk + rest == s.src.rest;
    var a := Consume(s.progress, chunk).1;
    assert s.partial + chunk[a..] == chunk[a..];
    if a == |chunk| {
      assert chunk[..a] == chunk && chunk[a..] == [];
      ScannedOn(stream, s.progress, out, chunk, rest);
    } else {
      StashedPrefix(s.progress, out, chunk, rest);
      SplitAt(out, chunk, rest, a);
    }
  }

  /** Once the trailers are read, only the end of the stream may follow. */
  lemma PassTrailersRead(stream: Bytes, base: Header, s: State, out: Bytes, max: nat, c: Choice)
    requires TrailersRead(stream, base, s, out)
    ensures var step := AdjustResult(Pass(s, max, c));
            && step.data == [] && step.state.partial == [] && step.state.hasReadTrailers
            && step.state.src.broken == s.src.broken
            && (step.err == None ==> TrailersRead(stream, base, step.state, out))
            && (step.err.Some? ==> Ended(stream, base, step.state.(err := step.err), out))
  {
    var k := PullCount(s.src, max, c);
    if k == 0 {
      assert s.src.rest[0..] == s.src.rest;
      var t := Tail(stream);
      if PullEnd(s.src, max, c) == Some(Eof) {
        assert Accepts(stream, ParseBlock(Head(t).value.payload).header);
      }
    } else {
      assert s.src.rest[..k] != [];
    }
  }

  lemma PrefixStaysShort(t: Bytes, p: Bytes)
    requires Head(t).None? && p <= t
    ensures Head(p).None?
  {
    if |p| >= HEADER_LENGTH {
      assert p[1..5] == t[1..5];
    }
  }

  lemma AttemptStashed(stream: Bytes, s: State, out: Bytes)
    requires Stashed(stream, s, out) && RetryFree(stream)
    ensures var a := TryTrailers(s.partial, s.src);
            && (a.err == None ==> TrailersRead(stream, s.trailers, AfterAttempt(s), out))
            && (a.err == Some(Eof) ==> Stashed(stream, AfterAttempt(s), out) && AfterAttempt(s).trailers == s.trailers)
  {
    var t := s.partial + s.src.rest;
    if Head(Tail(stream)).None? {
      PrefixStaysShort(Tail(stream), t);
      AttemptShort(s.partial, s.src);
      assert s.partial <= Tail(stream);
    } else {
      AttemptWhole(s.partial, s.src);
    }
  }

  /** doRead and the rewriting of its result, from a state with stashed bytes. */
  lemma ReadStashed(stream: Bytes, s: State, out: Bytes, max: nat, c: Choice, again: Choice)
    requires Stashed(stream, s, out) && RetryFree(stream)
    ensures var step := AdjustResult(DoRead(s, max, c, again));
            && step.data == []
            && step.state.src.broken == s.src.broken
            && (step.err == None ==> Inv(stream, s.trailers, step.state, out))
            && (step.err.Some? ==> Ended(stream, s.trailers, step.state.(err := step.err), out))
  {
    AttemptStashed(stream, s, out);
    if TryTrailers(s.partial, s.src).err == None {
      PassTrailersRead(stream, s.trailers, AfterAttempt(s), out, max, c);
    }
  }

  lemma ReadScanning(stream: Bytes, s: State, out: Bytes, max: nat, c: Choice, again: Choice)
    requires Scanning(stream, s, out) && RetryFree(stream)
    ensures var step := AdjustResult(DoRead(s, max, c, again));
            && step.state.src.broken == s.src.broken
            && (step.err == None ==> Inv(stream, s.trailers, step.state, out + step.data))
            && (step.err.Some? ==> Ended(stream, s.trailers, step.state.(err := step.err), out + step.data))
  {
    var step := Pass(s, max, c);
    PassScanning(stream, s, out, max, c);
    if step.data == [] && step.state.partial != [] {
      assert out + step.data == out;
      ReadStashed(stream, step.state, out, PullCount(s.src, max, c), again, again);
      assert AdjustResult(DoRead(s, max, c, again)).data == [];
    } else if step.err.Some? {
      EndWhileScanning(stream, s, out, max, c);
    }
  }

  lemma EndWhileScanning(stream: Bytes, s: State, out: Bytes, max: nat, c: Choice)
    requires Scanning(stream, s, out)
    requires Pass(s, max, c).err.Some?
    ensures var step := AdjustResult(Pass(s, max, c));
            && (step.err == None ==> Inv(stream, s.trailers, step.state, out + step.data))
            && (step.err.Some? ==> Ended(stream, s.trailers, step.state.(err := step.err), out + step.data))
  {
    var step := Pass(s, max, c);
    PassScanning(stream, s, out, max, c);
    if step.state.partial == [] {
      AcceptedWithin(stream, out + step.data, step.state.src.rest);
    }
  }

  lemma ReadKeepsInv(stream: Bytes, base: Header, s: State, out: Bytes, call: Call)
    requires Inv(stream, base, s, out) && RetryFree(stream)
    ensures var step := Read(s, call.max, call.first, call.again);
            Inv(stream, base, step.state, out + step.data) && step.state.src.broken == s.src.broken
  {
    if s.err.Some? {
      assert out + [] == out;
    } else if s.hasReadTrailers {
      PassTrailersRead(stream, base, s, out, call.max, call.first);
      assert out + [] == out;
    } else if s.partial != [] {
      ReadStashed(stream, s, out, call.max, call.first, call.again);
      assert out + [] == out;
    } else {
      ReadScanning(stream, s, out, call.max, call.first, call.again);
    }
  }

  // ---------------------------------------------------------------- whole runs

  lemma {:induction false} RunKeepsInv(stream: Bytes, base: Header, s: State, out: Bytes, calls: seq<Call>)
    requires Inv(stream, base, s, out) && RetryFree(stream)
    ensures var r := Run(s, calls);
            Inv(stream, base, r.state, out + r.delivered) && r.state.src.broken == s.src.broken
    decreases calls
  {
    if calls == [] {
      assert out + [] == out;
    } else {
      var step := Read(s, calls[0].max, calls[0].first, calls[0].again);
      ReadKeepsInv(stream, base, s, out, calls[0]);
      ReadSound(s, calls[0]);
      RunKeepsInv(stream, base, step.state, out + step.data, calls[1..]);
      Assoc(out, step.data, Run(step.state, calls[1..]).delivered);
    }
  }

  lemma StartInv(stream: Bytes, broken: bool, base: Header)
    ensures Inv(stream, base, Start(stream, broken, base), [])
  {
    assert [] + stream == stream;
    assert Scanning(stream, Start(stream, broken, base), []);
  }

  /** Clean-EOF soundness. Whatever the underlying reader does, a run that ends in a
      clean EOF has read the empty stream, or data frames followed by exactly one
      trailer frame and nothing more, and set the trailers. A run that ends at all, in an
      EOF or in any error, has delivered every byte in front of the trailers. */
  lemma CleanEofSound(stream: Bytes, broken: bool, base: Header, calls: seq<Call>)
    requires RetryFree(stream)
    ensures var r := Run(Start(stream, broken, base), calls);
            && r.delivered <= Body(stream)
            && (r.state.err.Some? ==> r.delivered == Body(stream))
            && (r.state.err == Some(Eof) ==>
                  && !broken
                  && (|| (stream == [] && r.state.trailers == base)
                      || exists h :: Accepts(stream, h) && r.state.trailers == Populate(base, h)))
  {
    StartInv(stream, broken, base);
    RunKeepsInv(stream, base, Start(stream, broken, base), [], calls);
    var r := Run(Start(stream, broken, base), calls);
    assert [] + r.delivered == r.delivered;
    if Scanning(stream, r.state, r.delivered) {
      AcceptedWithin(stream, r.delivered, r.state.src.rest);
    }
  }

  lemma BodyFrames(stream: Bytes) returns (fs: seq<Frame>)
    requires Tail(stream) != []
    ensures AllData(fs) && Body(stream) == EncodeAll(fs) && Msb(Tail(stream)[0])
  {
    var n := DataPrefix(stream);
    ScanIsOneShot(stream);
    ConsumeStop(BOUNDARY, stream);
    fs := AcceptedFrames(stream[..n]);
  }

  lemma BodyTail(stream: Bytes)
    ensures stream == Body(stream) + Tail(stream)
  {
  }

  lemma WholeFrame(t: Bytes) returns (f: Frame)
    requires Head(t).Some? && |t| == HEADER_LENGTH + |Head(t).value.payload|
    ensures f == Head(t).value && Fits(f) && t == Encode(f) && f.flags == t[0]
  {
    f := Head(t).value;
    HeadSound(t);
  }

  /** The shape behind Accepts, as frames. */
  lemma AcceptedShape(stream: Bytes, h: Header) returns (fs: seq<Frame>, f: Frame)
    requires Accepts(stream, h)
    ensures AllData(fs) && Body(stream) == EncodeAll(fs)
    ensures Fits(f) && Msb(f.flags) && Uncompressed(f) && ParseBlock(f.payload) == Complete(h, [])
    ensures stream == EncodeAll(fs) + Encode(f)
  {
    fs := BodyFrames(stream);
    f := WholeFrame(Tail(stream));
    BodyTail(stream);
  }

  lemma ShapeAccepted(fs: seq<Frame>, f: Frame, x: Bytes)
    requires AllData(fs) && Fits(f) && Msb(f.flags)
    ensures var stream := EncodeAll(fs) + (Encode(f) + x);
            && Body(stream) == EncodeAll(fs) && Tail(stream) == Encode(f) + x
            && Head(Tail(stream)) == Some(f)
  {
    var t := Encode(f) + x;
    HeadOfEncode(f, x);
    assert t[0] == Encode(f)[0];
    SplitAtTrailer(fs, t);
  }

  /** Data frames end where a byte with its top bit set starts a frame. */
  lemma SplitAtTrailer(fs: seq<Frame>, t: Bytes)
    requires AllData(fs) && (t == [] || Msb(t[0]))
    ensures Body(EncodeAll(fs) + t) == EncodeAll(fs) && Tail(EncodeAll(fs) + t) == t
  {
    hide EncodeAll;
    ConsumeFrames(fs, t);
    ScanIsOneShot(EncodeAll(fs) + t);
    assert DataPrefix(EncodeAll(fs) + t) == |EncodeAll(fs)|;
  }

  // ---------------------------------------------------------------- errors are final

  /** Any reported error repeats forever, with no bytes and no further effect. */
  lemma {:induction false} StickyError(s: State, calls: seq<Call>)
    requires Sound(s.progress) && s.err.Some?
    ensures Run(s, calls) == Outcome(s, [])
    decreases calls
  {
    if calls != [] {
      StickyError(s, calls[1..]);
    }
  }
}
