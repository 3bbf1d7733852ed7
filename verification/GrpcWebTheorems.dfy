/** Consequences over whole runs of the gRPC-Web reader: completeness, the exact
    limits of clean-EOF soundness, and silence after the trailers. */
module GrpcWebTheorems {
  import opened Framing
  import opened HeaderBlock
  import opened GrpcWebReader
  import opened GrpcWebScan
  import opened GrpcWebRuns
  import opened GrpcWebLiveness

  // ---------------------------------------------------------------- well-formed streams are read to the end

  ghost predicate Fine(err: Option<Error>) {
    err == None || err == Some(Eof)
  }

  lemma FineAfterTrailers(s: State, max: nat, c: Choice)
    requires Sound(s.progress) && s.hasReadTrailers && s.src == Source([], false)
    ensures Fine(AdjustResult(Pass(s, max, c)).err)
  {
  }

  lemma StashedAccepted(stream: Bytes, h: Header, s: State, out: Bytes, max: nat, c: Choice, again: Choice)
    requires Accepts(stream, h) && Stashed(stream, s, out) && !s.src.broken
    ensures Fine(AdjustResult(DoRead(s, max, c, again)).err)
  {
    AttemptWhole(s.partial, s.src);
    AttemptStashed(stream, s, out);
    FineAfterTrailers(AfterAttempt(s), max, c);
  }

  lemma ScanningHasMore(stream: Bytes, h: Header, s: State, out: Bytes)
    requires Accepts(stream, h) && Scanning(stream, s, out)
    ensures s.src.rest != []
  {
    AcceptedWithin(stream, out, s.src.rest);
  }

  lemma ScanningAccepted(stream: Bytes, h: Header, s: State, out: Bytes, max: nat, c: Choice, again: Choice)
    requires Accepts(stream, h) && Scanning(stream, s, out) && !s.src.broken
    ensures Fine(AdjustResult(DoRead(s, max, c, again)).err)
  {
    var step := Pass(s, max, c);
    PassScanning(stream, s, out, max, c);
    if step.data == [] && step.state.partial != [] {
      assert out + step.data == out;
      StashedAccepted(stream, h, step.state, out, PullCount(s.src, max, c), again, again);
    } else if step.state.partial == [] {
      ScanningHasMore(stream, h, step.state, out + step.data);
    }
  }

  lemma DoReadAccepted(
    stream: Bytes, base: Header, h: Header, s: State, out: Bytes, max: nat, c: Choice, again: Choice)
    requires Accepts(stream, h) && Inv(stream, base, s, out) && s.err == None && !s.src.broken
    ensures Fine(AdjustResult(DoRead(s, max, c, again)).err)
  {
    if Scanning(stream, s, out) {
      ScanningAccepted(stream, h, s, out, max, c, again);
    } else if Stashed(stream, s, out) {
      StashedAccepted(stream, h, s, out, max, c, again);
    } else {
      assert s.src == Source([], false);
      FineAfterTrailers(s, max, c);
    }
  }

  lemma {:induction false} DoReadKeepsErr(s: State, max: nat, c: Choice, again: Choice)
    requires Sound(s.progress)
    ensures DoRead(s, max, c, again).state.err == s.err
    decreases s.partial == []
  {
    if s.partial == [] || TryTrailers(s.partial, s.src).err == None {
      var s1 := if s.partial != [] then AfterAttempt(s) else s;
      var step := Pass(s1, max, c);
      if step.data == [] && step.state.partial != [] {
        DoReadKeepsErr(step.state, PullCount(s1.src, max, c), again, again);
      }
    }
  }

  lemma AcceptedRetryFree(stream: Bytes, h: Header)
    requires Accepts(stream, h)
    ensures RetryFree(stream) && !RunsOut(Tail(stream), false)
  {
    RunsOutWhole(Tail(stream), false);
  }

  /** No run over a good stream meets an error. */
  lemma {:induction false} RunAccepted(stream: Bytes, base: Header, h: Header, s: State, out: Bytes, calls: seq<Call>)
    requires Sound(s.progress)
    requires Accepts(stream, h) && Inv(stream, base, s, out) && Fine(s.err) && !s.src.broken
    ensures Fine(Run(s, calls).state.err)
    decreases calls
  {
    hide RunsOut;
    if s.err == Some(Eof) {
      StickyError(s, calls);
    } else if calls != [] {
      var call := calls[0];
      var step := Read(s, call.max, call.first, call.again);
      DoReadAccepted(stream, base, h, s, out, call.max, call.first, call.again);
      DoReadKeepsErr(s, call.max, call.first, call.again);
      AcceptedRetryFree(stream, h);
      ReadKeepsInv(stream, base, s, out, call);
      ReadSound(s, call);
      RunAccepted(stream, base, h, step.state, out + step.data, calls[1..]);
    }
  }

  /** Completeness. A stream of data frames and one good trailer frame never yields an
      error other than the final EOF; every run delivers a prefix of the data frames;
      at EOF all of them were delivered and the trailers are set; and every fair run of
      more calls than there are bytes does reach EOF. */
  lemma AcceptedRun(stream: Bytes, h: Header, base: Header, calls: seq<Call>)
    requires Accepts(stream, h)
    ensures var r := Run(Start(stream, false, base), calls);
            && r.delivered <= Body(stream)
            && Fine(r.state.err)
            && (r.state.err == Some(Eof) ==> r.delivered == Body(stream) && r.state.trailers == Populate(base, h))
            && (|calls| > |stream| && Fair(Start(stream, false, base), calls) ==> r.state.err == Some(Eof))
  {
    hide RunsOut, Run;
    var start := Start(stream, false, base);
    AcceptedRetryFree(stream, h);
    StartInv(stream, false, base);
    RunAccepted(stream, base, h, start, [], calls);
    CleanEofSound(stream, false, base, calls);
    if |calls| > |stream| && Fair(start, calls) {
      StartLive(stream, false, base);
      FairRunEnds(stream, start, [], calls);
    }
  }

  /** The empty stream can only end. */
  lemma {:induction false} EmptyRun(base: Header, calls: seq<Call>)
    ensures Fine(Run(Start([], false, base), calls).state.err)
    decreases calls
  {
    var s := Start([], false, base);
    if calls != [] {
      var step := Read(s, calls[0].max, calls[0].first, calls[0].again);
      assert step.state == s || step.state == s.(err := Some(Eof));
      if step.state.err.Some? {
        StickyError(step.state, calls[1..]);
      } else {
        EmptyRun(base, calls[1..]);
      }
    }
  }

  /** Where they end, a fair run delivers everything in front of the trailers, complete or not,
      and tells good streams from bad ones: it ends in a clean EOF if
      and only if the stream is empty, or data frames and one good trailer frame. */
  lemma FairRunDecides(stream: Bytes, broken: bool, base: Header, calls: seq<Call>)
    requires !RunsOut(Tail(stream), broken)
    requires |calls| > |stream| && Fair(Start(stream, broken, base), calls)
    ensures var r := Run(Start(stream, broken, base), calls);
            && r.state.err.Some?
            && r.delivered == Body(stream)
            && (r.state.err == Some(Eof) <==> !broken && (stream == [] || exists h :: Accepts(stream, h)))
  {
    hide RunsOut, Run, Accepts, Body;
    StartLive(stream, broken, base);
    FairRunEnds(stream, Start(stream, broken, base), [], calls);
    EndingIsRetryFree(stream, broken);
    CleanEofSound(stream, broken, base, calls);
    if !broken && stream == [] {
      EmptyRun(base, calls);
    } else if !broken && exists h :: Accepts(stream, h) {
      var h :| Accepts(stream, h);
      AcceptedRun(stream, h, base, calls);
    }
  }

  // ---------------------------------------------------------------- errors and trailers are final

  lemma PassLeavesTrailers(s: State, max: nat, c: Choice)
    requires Sound(s.progress) && s.partial == []
    ensures var step := Pass(s, max, c);
            && step.state.trailers == s.trailers
            && step.state.hasReadTrailers == s.hasReadTrailers
            && step.state.err == s.err
            && (s.hasReadTrailers ==> step.state.partial == [])
  {
  }

  lemma {:induction false} DoReadPopulatesOnce(s: State, max: nat, c: Choice, again: Choice)
    requires Sound(s.progress) && (s.hasReadTrailers ==> s.partial == [])
    ensures var step := DoRead(s, max, c, again);
            && (step.state.trailers != s.trailers ==>
                  !s.hasReadTrailers && (step.state.hasReadTrailers || (step.err.Some? && step.err != Some(Eof))))
            && (step.state.hasReadTrailers ==> step.state.partial == [])
            && (s.hasReadTrailers ==> step.state.hasReadTrailers)
    decreases s.partial == []
  {
    if s.partial == [] || TryTrailers(s.partial, s.src).err == None {
      var s1 := if s.partial != [] then AfterAttempt(s) else s;
      PassLeavesTrailers(s1, max, c);
      var step := Pass(s1, max, c);
      if step.data == [] && step.state.partial != [] {
        DoReadPopulatesOnce(step.state, PullCount(s1.src, max, c), again, again);
      }
    }
  }

  /** One call either leaves the trailers alone, or is the one that populates them, after
      which the reader is past its trailers or in error. */
  lemma ReadPopulatesOnce(s: State, call: Call)
    requires Sound(s.progress) && (s.hasReadTrailers ==> s.partial == [])
    ensures var step := Read(s, call.max, call.first, call.again);
            && (step.state.trailers != s.trailers ==>
                  !s.hasReadTrailers && s.err == None && (step.state.hasReadTrailers || step.state.err.Some?))
            && (step.state.hasReadTrailers ==> step.state.partial == [])
            && (s.hasReadTrailers ==> step.state.hasReadTrailers && step.data == [])
  {
    if s.err == None {
      DoReadPopulatesOnce(s, call.max, call.first, call.again);
      SettledStep(DoRead(s, call.max, call.first, call.again));
    }
  }

  lemma SettledStep(step: Step)
    ensures var r := Settle(AdjustResult(step));
            && r.state.trailers == step.state.trailers
            && r.state.hasReadTrailers == step.state.hasReadTrailers
            && r.state.partial == step.state.partial
            && (step.state.hasReadTrailers ==> r.data == [])
            && (step.err.Some? && step.err != Some(Eof) ==> r.state.err.Some?)
  {
  }

  /** After the call that populated the trailers, no run delivers a byte or touches them. */
  lemma {:induction false} SilenceAfterTrailers(s: State, calls: seq<Call>)
    requires Sound(s.progress) && (s.hasReadTrailers ==> s.partial == [])
    requires s.hasReadTrailers || s.err.Some?
    ensures Run(s, calls).delivered == [] && Run(s, calls).state.trailers == s.trailers
    decreases calls
  {
    if s.err.Some? {
      StickyError(s, calls);
    } else if calls != [] {
      var step := Read(s, calls[0].max, calls[0].first, calls[0].again);
      ReadPopulatesOnce(s, calls[0]);
      ReadSound(s, calls[0]);
      SilenceAfterTrailers(step.state, calls[1..]);
    }
  }

  lemma {:induction false} RunSplit(s: State, a: seq<Call>, b: seq<Call>)
    requires Sound(s.progress)
    ensures var first := Run(s, a);
            var second := Run(first.state, b);
            Run(s, a + b) == Outcome(second.state, first.delivered + second.delivered)
    decreases a
  {
    hide Read;
    if a == [] {
      assert a + b == b;
      assert [] + Run(s, b).delivered == Run(s, b).delivered;
    } else {
      var step := Read(s, a[0].max, a[0].first, a[0].again);
      ReadSound(s, a[0]);
      RunSplit(step.state, a[1..], b);
      var first := Run(step.state, a[1..]);
      assert (a + b)[1..] == a[1..] + b;
      Assoc(step.data, first.delivered, Run(first.state, b).delivered);
    }
  }

  lemma {:induction false} RunStaysTidy(s: State, calls: seq<Call>)
    requires Sound(s.progress) && (s.hasReadTrailers ==> s.partial == [])
    ensures var t := Run(s, calls).state; t.hasReadTrailers ==> t.partial == []
    decreases calls
  {
    hide Read;
    if calls != [] {
      ReadPopulatesOnce(s, calls[0]);
      ReadSound(s, calls[0]);
      RunStaysTidy(Read(s, calls[0].max, calls[0].first, calls[0].again).state, calls[1..]);
    }
  }

  lemma RunOne(s: State, call: Call)
    requires Sound(s.progress)
    ensures Run(s, [call]).state == Read(s, call.max, call.first, call.again).state
  {
    hide Read;
    ReadSound(s, call);
    assert [call][1..] == [];
  }

  /** Trailers are populated at most once in any run: if a call changes them, then from that
      call on they stay as they are, and no byte is delivered. */
  lemma TrailersChangeOnce(stream: Bytes, broken: bool, base: Header, calls: seq<Call>, i: nat, j: nat)
    requires i < j <= |calls|
    requires var start := Start(stream, broken, base);
             Run(start, calls[..i + 1]).state.trailers != Run(start, calls[..i]).state.trailers
    ensures var start := Start(stream, broken, base);
            && Run(start, calls[..j]).state.trailers == Run(start, calls[..i + 1]).state.trailers
            && Run(start, calls[..j]).delivered == Run(start, calls[..i + 1]).delivered
  {
    hide Read, Run;
    var start := Start(stream, broken, base);
    var before := Run(start, calls[..i]).state;
    assert calls[..i + 1] == calls[..i] + [calls[i]];
    RunSplit(start, calls[..i], [calls[i]]);
    RunOne(before, calls[i]);
    RunStaysTidy(start, calls[..i]);
    ReadPopulatesOnce(before, calls[i]);
    var after := Run(start, calls[..i + 1]);
    assert calls[..j] == calls[..i + 1] + calls[i + 1..j];
    RunSplit(start, calls[..i + 1], calls[i + 1..j]);
    SilenceAfterTrailers(after.state, calls[i + 1..j]);
    assert after.delivered + [] == after.delivered;
  }

  // ---------------------------------------------------------------- how far clean-EOF soundness reaches

  /** A stream cut short never gives a clean EOF, with no condition on its trailer. */
  lemma TruncatedNeverClean(stream: Bytes, broken: bool, base: Header, calls: seq<Call>)
    requires stream != [] && Head(Tail(stream)).None?
    ensures Run(Start(stream, broken, base), calls).state.err != Some(Eof)
  {
    CleanEofSound(stream, broken, base, calls);
  }

  /** The reader holding one trailer byte, before its first attempt at the frame. */
  function Holding(flags: byte, rest: Bytes, base: Header): State {
    State(Source(rest, false), BOUNDARY, [flags], true, false, base, None)
  }

  lemma AttemptRunsOut(partial: Bytes, src: Source, f: Frame)
    requires Head(partial + src.rest) == Some(f)
    requires Uncompressed(f) && ParseBlock(f.payload).HitEof?
    ensures TryTrailers(partial, src) == Attempt(After(partial, src.rest, HEADER_LENGTH + |f.payload|), None, Some(Eof))
  {
    hide TryTrailers, ParseBlock;
    AttemptFrame(partial, src, f);
  }

  lemma HoldingRunsOut(flags: byte, rest: Bytes, x: Bytes, base: Header, max: nat)
    requires TryTrailers([flags], Source(rest, false)) == Attempt(x, None, Some(Eof))
    ensures AdjustResult(DoRead(Holding(flags, rest, base), max, IDLE, IDLE)) == Step(Holding(flags, x, base), [], None)
    ensures Read(Holding(flags, rest, base), max, IDLE, IDLE) == Step(Holding(flags, x, base), [], None)
  {
  }

  lemma FirstAttemptRunsOut(f: Frame, x: Bytes)
    requires Fits(f) && Uncompressed(f) && ParseBlock(f.payload).HitEof?
    ensures TryTrailers([f.flags], Source((Encode(f) + x)[1..], false)) == Attempt(x, None, Some(Eof))
  {
    var t := Encode(f) + x;
    HeadOfEncode(f, x);
    assert [f.flags] + t[1..] == t;
    AttemptRunsOut([f.flags], Source(t[1..], false), f);
    AfterIsSuffix([f.flags], t[1..], HEADER_LENGTH + |f.payload|);
  }

  lemma SecondAttemptSucceeds(flags: byte, base: Header, max: nat)
    requires flags % 2 == 0
    ensures Read(Holding(flags, [0, 0, 0, 0], base), max, IDLE, IDLE).state.err == Some(Eof)
  {
    var s := Holding(flags, [0, 0, 0, 0], base);
    var t := [flags] + s.src.rest;
    assert t[1..5] == [0, 0, 0, 0];
    assert t[5..5] == [];
    TakeLineTerminated([]);
    assert ParseBlock([]) == Complete(map[], []);
  }

  /** When the header parser runs out of input on the trailer frame, four zero bytes
      after the frame go unnoticed: the retry takes them for the length of a new frame. */
  lemma ExtraBytesAccepted(fs: seq<Frame>, f: Frame, base: Header) returns (calls: seq<Call>)
    requires AllData(fs) && Fits(f) && Msb(f.flags) && Uncompressed(f) && ParseBlock(f.payload).HitEof?
    ensures Run(Start(EncodeAll(fs) + (Encode(f) + [0, 0, 0, 0]), false, base), calls).state.err == Some(Eof)
  {
    hide EncodeAll, Encode, Next, Run, TryTrailers, ParseBlock;
    var n := |EncodeAll(fs)| + 1;
    var first := Call(n, Choice(n, false), IDLE);
    calls := [first, IDLE_CALL, IDLE_CALL];
    var start := Start(EncodeAll(fs) + (Encode(f) + [0, 0, 0, 0]), false, base);
    var rest := (Encode(f) + [0, 0, 0, 0])[1..];
    FirstAttemptRunsOut(f, [0, 0, 0, 0]);
    ReadFirstTrailerByte(fs, f, base);
    assert Next(start, first) == Holding(f.flags, if fs == [] then [0, 0, 0, 0] else rest, base) by {
      NextIsRead(start, first);
    }
    TwoIdleCalls(f.flags, rest, base);
    RunThree(start, first, IDLE_CALL, IDLE_CALL);
  }

  const IDLE_CALL: Call := Call(0, IDLE, IDLE)

  lemma NextIsRead(s: State, call: Call)
    requires Sound(s.progress)
    ensures Next(s, call) == Read(s, call.max, call.first, call.again).state
  {
  }

  lemma TwoIdleCalls(flags: byte, rest: Bytes, base: Header)
    requires flags % 2 == 0
    requires TryTrailers([flags], Source(rest, false)) == Attempt([0, 0, 0, 0], None, Some(Eof))
    ensures var (held, last) := (Holding(flags, rest, base), Holding(flags, [0, 0, 0, 0], base));
            && Next(held, IDLE_CALL) == last
            && Sound(Next(last, IDLE_CALL).progress)
            && Next(last, IDLE_CALL).err == Some(Eof)
            && Next(Next(last, IDLE_CALL), IDLE_CALL).err == Some(Eof)
  {
    hide Read, TryTrailers;
    var last := Holding(flags, [0, 0, 0, 0], base);
    HoldingRunsOut(flags, rest, [0, 0, 0, 0], base, 0);
    SecondAttemptSucceeds(flags, base, 0);
    ReadSound(last, IDLE_CALL);
    StickyNext(Next(last, IDLE_CALL), IDLE_CALL);
  }

  lemma StickyNext(s: State, call: Call)
    requires Sound(s.progress)
    ensures s.err.Some? ==> Next(s, call) == s
  {
  }

  /** The call that takes the data frames and the first trailer byte. Without data
      frames it already makes the first attempt at the trailer frame. */
  lemma ReadFirstTrailerByte(fs: seq<Frame>, f: Frame, base: Header)
    requires AllData(fs) && Fits(f) && Msb(f.flags) && Uncompressed(f) && ParseBlock(f.payload).HitEof?
    ensures var n := |EncodeAll(fs)| + 1;
            var start := Start(EncodeAll(fs) + (Encode(f) + [0, 0, 0, 0]), false, base);
            var rest := if fs == [] then [0, 0, 0, 0] else (Encode(f) + [0, 0, 0, 0])[1..];
            Read(start, n, Choice(n, false), IDLE).state == Holding(f.flags, rest, base)
  {
    hide Encode, EncodeAll, Read, Pass, TryTrailers;
    var d, t := EncodeAll(fs), Encode(f) + [0, 0, 0, 0];
    assert t != [] by { EncodeNonempty(f); }
    PassFirstTrailerByte(fs, f, t, base);
    FirstAttemptRunsOut(f, [0, 0, 0, 0]);
    EncodeAllEmpty(fs);
    ReadIntoHolding(d, t, f.flags, [0, 0, 0, 0], base);
  }

  lemma EncodeNonempty(f: Frame)
    ensures Encode(f) != []
  {
  }

  lemma ReadIntoHolding(d: Bytes, t: Bytes, flags: byte, x: Bytes, base: Header)
    requires t != []
    requires Pass(Start(d + t, false, base), |d| + 1, Choice(|d| + 1, false))
          == Step(Holding(flags, t[1..], base), d, None)
    requires TryTrailers([flags], Source(t[1..], false)) == Attempt(x, None, Some(Eof))
    ensures Read(Start(d + t, false, base), |d| + 1, Choice(|d| + 1, false), IDLE).state
         == Holding(flags, if d == [] then x else t[1..], base)
  {
    HoldingRunsOut(flags, t[1..], x, base, |d| + 1);
  }

  function Next(s: State, call: Call): State
    requires Sound(s.progress)
  {
    Read(s, call.max, call.first, call.again).state
  }

  lemma RunThree(s: State, a: Call, b: Call, c: Call)
    requires Sound(s.progress)
    ensures Sound(Next(s, a).progress) && Sound(Next(Next(s, a), b).progress)
    ensures Run(s, [a, b, c]).state == Next(Next(Next(s, a), b), c)
  {
    ReadSound(s, a);
    ReadSound(Next(s, a), b);
    ReadSound(Next(Next(s, a), b), c);
    assert [a, b, c][1..] == [b, c] && [b, c][1..] == [c] && [c][1..] == [];
    assert Run(Next(Next(s, a), b), [c]).state == Next(Next(Next(s, a), b), c);
    assert Run(Next(s, a), [b, c]).state == Run(Next(Next(s, a), b), [c]).state;
  }

  lemma PassFirstTrailerByte(fs: seq<Frame>, f: Frame, t: Bytes, base: Header)
    requires AllData(fs) && Fits(f) && Msb(f.flags) && Encode(f) <= t
    ensures var d := EncodeAll(fs);
            var n := |d| + 1;
            Pass(Start(d + t, false, base), n, Choice(n, false)) == Step(Holding(f.flags, t[1..], base), d, None)
  {
    hide EncodeAll;
    var d := EncodeAll(fs);
    var n := |d| + 1;
    HeadOfEncode(f, []);
    assert t[0] == f.flags;
    assert (d + t)[..n] == d + [t[0]];
    assert (d + t)[n..] == t[1..];
    ConsumeFrames(fs, [t[0]]);
    assert (d + [t[0]])[..|d|] == d && (d + [t[0]])[|d|..] == [t[0]];
  }

  /** Exactly when a trailer frame shields against bytes after it: no run over the data
      frames, this frame and any extra bytes ends in a clean EOF if and only if the
      header parser does not run out of input on the frame's payload. By
      TerminatedNeverHitsEof, an empty or newline-terminated payload is enough. */
  lemma ExtraBytesExactly(fs: seq<Frame>, f: Frame, base: Header)
    requires AllData(fs) && Fits(f) && Msb(f.flags)
    ensures (forall x: Bytes, calls: seq<Call> :: x != [] ==>
               Run(Start(EncodeAll(fs) + (Encode(f) + x), false, base), calls).state.err != Some(Eof))
       <==> !(Uncompressed(f) && ParseBlock(f.payload).HitEof?)
  {
    hide Run, EncodeAll, Encode, ParseBlock;
    if Uncompressed(f) && ParseBlock(f.payload).HitEof? {
      var calls := ExtraBytesAccepted(fs, f, base);
      var x: Bytes := [0, 0, 0, 0];
      assert x != [] && Run(Start(EncodeAll(fs) + (Encode(f) + x), false, base), calls).state.err == Some(Eof);
    } else {
      forall x: Bytes, calls: seq<Call> | x != []
        ensures Run(Start(EncodeAll(fs) + (Encode(f) + x), false, base), calls).state.err != Some(Eof)
      {
        ExtraBytesNoticed(fs, f, x, base, calls);
      }
    }
  }

  lemma ExtraBytesNoticed(fs: seq<Frame>, f: Frame, x: Bytes, base: Header, calls: seq<Call>)
    requires AllData(fs) && Fits(f) && Msb(f.flags) && x != []
    requires !(Uncompressed(f) && ParseBlock(f.payload).HitEof?)
    ensures Run(Start(EncodeAll(fs) + (Encode(f) + x), false, base), calls).state.err != Some(Eof)
  {
    hide Run, Body, Tail, Head, EncodeAll, ParseBlock;
    ShapeAccepted(fs, f, x);
    CleanEofSound(EncodeAll(fs) + (Encode(f) + x), false, base, calls);
  }
}
