/** When a caller who keeps reading gets to an end: for every stream, every way the
    underlying reader cuts it, and whether it reports its end with the last bytes or after
    them. */
module GrpcWebLiveness {
  import opened Framing
  import opened HeaderBlock
  import opened GrpcWebReader
  import opened GrpcWebScan
  import opened GrpcWebRuns

  // ---------------------------------------------------------------- fairness

  /** The caller offers a buffer, and the underlying reader returns something: a byte if one
      is left, otherwise its end. */
  predicate FairCall(s: State, call: Call) {
    call.max > 0 && call.first.count > 0 && (s.src.rest == [] ==> call.first.reportEnd)
  }

  /** Every call of a run is fair in the state it finds. */
  ghost predicate Fair(s: State, calls: seq<Call>)
    requires Sound(s.progress)
    decreases calls
  {
    calls == []
    || (&& FairCall(s, calls[0])
        && (ReadSound(s, calls[0]);
            Fair(Read(s, calls[0].max, calls[0].first, calls[0].again).state, calls[1..])))
  }

  /** Calls that ask for, and get, one byte at a time. */
  function Patient(n: nat): (calls: seq<Call>)
    ensures |calls| == n
  {
    seq(n, _ => Call(1, Choice(1, true), Choice(1, true)))
  }

  lemma {:induction false} PatientIsFair(s: State, n: nat)
    requires Sound(s.progress)
    ensures Fair(s, Patient(n))
    decreases n
  {
    if n > 0 {
      var call := Patient(n)[0];
      ReadSound(s, call);
      PatientIsFair(Read(s, call.max, call.first, call.again).state, n - 1);
      assert Patient(n)[1..] == Patient(n - 1);
    }
  }

  // ---------------------------------------------------------------- the attempt that settles nothing

  /** An attempt on these trailer bytes, with nothing after them, ends with the header parser
      out of input: the frame is uncompressed, and what there is of its payload, all of it or
      the part before a clean end, has no end of header. */
  predicate RunsOut(t: Bytes, broken: bool) {
    && |t| >= HEADER_LENGTH && t[0] % 2 == 0
    && var end := Min(|t|, HEADER_LENGTH + U32(t[1..5]));
       && (broken ==> end == HEADER_LENGTH + U32(t[1..5]))
       && ParseBlock(t[HEADER_LENGTH..end]).HitEof?
  }

  /** Only such an attempt reports an end of input, and then it has set no trailers. */
  lemma AttemptEofExactly(partial: Bytes, src: Source)
    ensures TryTrailers(partial, src).err == Some(Eof) <==> RunsOut(partial + src.rest, src.broken)
    ensures TryTrailers(partial, src).err == Some(Eof) ==> TryTrailers(partial, src).got == None
    ensures |TryTrailers(partial, src).rest| <= |src.rest|
  {
    hide ParseBlock;
  }

  /** For a frame that is there in full, truncation plays no part. */
  lemma RunsOutWhole(t: Bytes, broken: bool)
    requires Head(t).Some?
    ensures RunsOut(t, broken) <==> Uncompressed(Head(t).value) && ParseBlock(Head(t).value.payload).HitEof?
  {
    hide ParseBlock;
  }

  lemma EndingIsRetryFree(stream: Bytes, broken: bool)
    requires !RunsOut(Tail(stream), broken)
    ensures RetryFree(stream)
  {
    if Head(Tail(stream)).Some? {
      RunsOutWhole(Tail(stream), broken);
    }
  }

  // ---------------------------------------------------------------- every fair call makes progress

  predicate PastTrailers(s: State) {
    s.err == None && Sound(s.progress) && s.hasReadTrailers && s.partial == []
  }

  ghost predicate Live(stream: Bytes, s: State, out: Bytes) {
    || Scanning(stream, s, out)
    || (Stashed(stream, s, out) && s.partial + s.src.rest == Tail(stream))
    || PastTrailers(s)
  }

  lemma PastTrailersStep(s: State, max: nat, c: Choice)
    requires PastTrailers(s)
    ensures var step := AdjustResult(Pass(s, max, c));
            && PastTrailers(step.state) && step.state.src.broken == s.src.broken
            && |step.state.src.rest| <= |s.src.rest|
            && (max > 0 && c.count > 0 && step.err == None ==> s.src.rest == [] && !c.reportEnd)
  {
    var n := PullCount(s.src, max, c);
    if n > 0 {
      assert s.src.rest[..n] != [];
    }
  }

  lemma StashedStep(stream: Bytes, s: State, out: Bytes, max: nat, c: Choice, again: Choice)
    requires Stashed(stream, s, out) && s.partial + s.src.rest == Tail(stream)
    requires !RunsOut(Tail(stream), s.src.broken)
    ensures var step := AdjustResult(DoRead(s, max, c, again));
            && step.state.src.broken == s.src.broken
            && (step.err == None ==> PastTrailers(step.state) && |step.state.src.rest| <= |s.src.rest|)
            && (max > 0 && c.count > 0 && step.err == None ==> step.state.src.rest == [] && !c.reportEnd)
  {
    hide TryTrailers, RunsOut;
    AttemptEofExactly(s.partial, s.src);
    if TryTrailers(s.partial, s.src).err == None {
      PastTrailersStep(AfterAttempt(s), max, c);
    }
  }

  lemma ScanningEnds(stream: Bytes, s: State, out: Bytes, call: Call)
    requires Scanning(stream, s, out) && FairCall(s, call) && s.src.rest == []
    ensures var step := AdjustResult(DoRead(s, call.max, call.first, call.again));
            step.err.Some? && step.state.src.broken == s.src.broken
  {
    assert Consume(s.progress, []) == (s.progress, 0);
  }

  lemma ScanningStep(stream: Bytes, s: State, out: Bytes, call: Call)
    requires Scanning(stream, s, out) && FairCall(s, call) && s.src.rest != []
    requires !RunsOut(Tail(stream), s.src.broken)
    ensures var step := AdjustResult(DoRead(s, call.max, call.first, call.again));
            && step.state.src.broken == s.src.broken
            && (step.err == None ==>
                  Live(stream, step.state, out + step.data) && |step.state.src.rest| < |s.src.rest|)
  {
    hide RunsOut;
    var step := Pass(s, call.max, call.first);
    PassScanning(stream, s, out, call.max, call.first);
    assert |step.state.src.rest| < |s.src.rest|;
    if step.data == [] && step.state.partial != [] {
      assert out + step.data == out;
      StashedStep(stream, step.state, out, PullCount(s.src, call.max, call.first), call.again, call.again);
    }
  }

  /** A fair call ends the run, or takes at least one byte from the underlying reader. */
  lemma FairStep(stream: Bytes, s: State, out: Bytes, call: Call)
    requires Sound(s.progress) && s.err == None
    requires Live(stream, s, out) && FairCall(s, call) && !RunsOut(Tail(stream), s.src.broken)
    ensures var step := Read(s, call.max, call.first, call.again);
            && step.state.src.broken == s.src.broken
            && (step.state.err == None ==>
                  Live(stream, step.state, out + step.data) && |step.state.src.rest| < |s.src.rest|)
  {
    hide RunsOut, TryTrailers;
    if Scanning(stream, s, out) {
      if s.src.rest == [] {
        ScanningEnds(stream, s, out, call);
      } else {
        ScanningStep(stream, s, out, call);
      }
    } else if PastTrailers(s) {
      PastTrailersStep(s, call.max, call.first);
    } else {
      StashedStep(stream, s, out, call.max, call.first, call.again);
    }
  }

  lemma {:induction false} FairRunEnds(stream: Bytes, s: State, out: Bytes, calls: seq<Call>)
    requires Sound(s.progress) && (s.err.Some? || Live(stream, s, out))
    requires !RunsOut(Tail(stream), s.src.broken)
    requires Fair(s, calls) && |calls| > |s.src.rest|
    ensures Run(s, calls).state.err.Some?
    decreases calls
  {
    hide RunsOut;
    if s.err.Some? {
      StickyError(s, calls);
    } else {
      var step := Read(s, calls[0].max, calls[0].first, calls[0].again);
      ReadSound(s, calls[0]);
      FairStep(stream, s, out, calls[0]);
      if step.state.err.Some? {
        StickyError(step.state, calls[1..]);
      } else {
        FairRunEnds(stream, step.state, out + step.data, calls[1..]);
      }
    }
  }

  // ---------------------------------------------------------------- when nothing ever ends

  const IDLE: Choice := Choice(0, true)

  /** The reader with the whole stream behind it and the trailer bytes in its stash. */
  function Hung(stream: Bytes, broken: bool, base: Header): State {
    State(Source([], broken), BOUNDARY, Tail(stream), true, false, base, None)
  }

  /** An attempt that runs out and finds nothing new leaves the reader as it was: every later
      Read returns no bytes and no error, whatever the caller and the underlying reader do. */
  lemma {:induction false} RetriesForever(s: State, calls: seq<Call>)
    requires Sound(s.progress) && s.err == None && !s.hasReadTrailers && s.hasReadData && s.partial != []
    requires RunsOut(s.partial + s.src.rest, s.src.broken)
    requires s.src.rest == [] || Head(s.partial).Some?
    ensures Run(s, calls) == Outcome(s, [])
    decreases calls
  {
    hide TryTrailers, RunsOut;
    if calls != [] {
      AttemptEofExactly(s.partial, s.src);
      AttemptInStash(s.partial, s.src);
      assert Read(s, calls[0].max, calls[0].first, calls[0].again) == Step(s, [], None);
      RetriesForever(s, calls[1..]);
    }
  }

  lemma AttemptInStash(partial: Bytes, src: Source)
    requires src.rest == [] || Head(partial).Some?
    requires TryTrailers(partial, src).err == Some(Eof)
    ensures TryTrailers(partial, src).rest == src.rest
  {
    hide ParseBlock;
    if src.rest != [] {
      HeadExtends(partial, src.rest);
      AttemptFrame(partial, src, Head(partial).value);
    }
  }

  lemma HeadExtends(p: Bytes, rest: Bytes)
    requires Head(p).Some?
    ensures Head(p + rest) == Head(p)
  {
    HeadSound(p);
    var f := Head(p).value;
    var tail := p[HEADER_LENGTH + |f.payload|..];
    Assoc(Encode(f), tail, rest);
    HeadOfEncode(f, tail + rest);
  }

  /** The call that takes the whole stream at once. */
  function Gulp(stream: Bytes): Call {
    Call(|stream|, Choice(|stream|, false), IDLE)
  }

  lemma PassGulp(stream: Bytes, broken: bool, base: Header)
    requires Tail(stream) != []
    ensures Pass(Start(stream, broken, base), |stream|, Choice(|stream|, false))
         == Step(Hung(stream, broken, base), Body(stream), None)
  {
    ScanIsOneShot(stream);
    ConsumeStop(BOUNDARY, stream);
    assert stream[..|stream|] == stream && stream[|stream|..] == [];
    assert [] + Tail(stream) == Tail(stream);
  }

  lemma ReadGulp(stream: Bytes, broken: bool, base: Header)
    requires RunsOut(Tail(stream), broken)
    ensures Read(Start(stream, broken, base), Gulp(stream).max, Gulp(stream).first, Gulp(stream).again)
         == Step(Hung(stream, broken, base), Body(stream), None)
  {
    hide TryTrailers, RunsOut, Pass, Body;
    var hung := Hung(stream, broken, base);
    assert Tail(stream) != [] by { RunsOutNonempty(Tail(stream), broken); }
    PassGulp(stream, broken, base);
    assert hung.partial + hung.src.rest == Tail(stream);
    AttemptEofExactly(hung.partial, hung.src);
    assert AfterAttempt(hung) == hung;
    assert DoRead(hung, |stream|, IDLE, IDLE) == Step(hung, [], Some(Eof));
    assert PullCount(Source(stream, broken), |stream|, Choice(|stream|, false)) == |stream|;
  }

  lemma RunsOutNonempty(t: Bytes, broken: bool)
    requires RunsOut(t, broken)
    ensures t != []
  {
  }

  /** A reader that took such a stream in one go has delivered its data and then neither
      delivers, nor ends, nor fails, for every continuation. */
  lemma HangsForever(stream: Bytes, broken: bool, base: Header, calls: seq<Call>)
    requires RunsOut(Tail(stream), broken)
    ensures Run(Start(stream, broken, base), [Gulp(stream)] + calls)
         == Outcome(Hung(stream, broken, base), Body(stream))
  {
    hide RunsOut, Read, Body;
    var hung := Hung(stream, broken, base);
    RunsOutNonempty(Tail(stream), broken);
    ReadGulp(stream, broken, base);
    assert hung.partial + hung.src.rest == Tail(stream);
    RetriesForever(hung, calls);
    assert ([Gulp(stream)] + calls)[1..] == calls;
    assert Body(stream) + [] == Body(stream);
  }

  lemma FairHang(stream: Bytes, broken: bool, base: Header, n: nat)
    requires RunsOut(Tail(stream), broken)
    ensures Fair(Start(stream, broken, base), [Gulp(stream)] + Patient(n))
  {
    hide RunsOut, Read;
    var calls := [Gulp(stream)] + Patient(n);
    assert calls[1..] == Patient(n);
    RunsOutNonempty(Tail(stream), broken);
    ReadGulp(stream, broken, base);
    PatientIsFair(Hung(stream, broken, base), n);
  }

  // ---------------------------------------------------------------- the theorems

  lemma StartLive(stream: Bytes, broken: bool, base: Header)
    ensures Live(stream, Start(stream, broken, base), [])
  {
    assert [] + stream == stream;
    assert Scanning(stream, Start(stream, broken, base), []);
  }

  /** Liveness, for every stream. All fair runs of more calls than there are bytes end, in a
      clean EOF or an error, if and only if the first attempt on the trailer bytes does not
      run out of input. */
  lemma EndsExactly(stream: Bytes, broken: bool, base: Header)
    ensures (forall calls :: |calls| > |stream| && Fair(Start(stream, broken, base), calls) ==>
               Run(Start(stream, broken, base), calls).state.err.Some?)
       <==> !RunsOut(Tail(stream), broken)
  {
    hide RunsOut, Run;
    var start := Start(stream, broken, base);
    if RunsOut(Tail(stream), broken) {
      var calls := [Gulp(stream)] + Patient(|stream|);
      FairHang(stream, broken, base, |stream|);
      HangsForever(stream, broken, base, Patient(|stream|));
      assert Run(start, calls).state.err == None;
    } else {
      StartLive(stream, broken, base);
      forall calls | |calls| > |stream| && Fair(start, calls)
        ensures Run(start, calls).state.err.Some?
      {
        FairRunEnds(stream, start, [], calls);
      }
    }
  }

  // ---------------------------------------------------------------- inputs that hang the reader

  /** A trailer frame that announces n bytes and carries a readable header without its last
      line break. With n the length of that, the sender ended its last line without a
      newline; with n two more, the connection ended two bytes early. */
  function UnterminatedFrame(h: Header, order: seq<Bytes>, n: nat): Bytes
    requires WriteBlock(h, order) != []
  {
    MessageHeader(METADATA_FLAGS, n) + Unterminated(h, order)
  }

  lemma UnterminatedFrameRunsOut(h: Header, order: seq<Bytes>, n: nat)
    requires WriteBlock(h, order) != [] && ReadableIn(h, order)
    requires |Unterminated(h, order)| <= n < LENGTH_LIMIT
    ensures RunsOut(UnterminatedFrame(h, order, n), false)
    ensures n == |Unterminated(h, order)| ==> RunsOut(UnterminatedFrame(h, order, n), true)
  {
    hide ParseBlock, WriteBlock, ReadableIn;
    UnterminatedRunsOut(h, order);
    var t := UnterminatedFrame(h, order, n);
    assert t[1..5] == PutU32(n);
    assert t[5..|t|] == Unterminated(h, order);
  }

  /** After any data frames, such a frame hangs the reader for good. */
  lemma UnterminatedHangs(fs: seq<Frame>, h: Header, order: seq<Bytes>, n: nat, base: Header, calls: seq<Call>)
    requires AllData(fs) && WriteBlock(h, order) != [] && ReadableIn(h, order)
    requires |Unterminated(h, order)| <= n < LENGTH_LIMIT
    ensures var stream := EncodeAll(fs) + UnterminatedFrame(h, order, n);
            Run(Start(stream, false, base), [Gulp(stream)] + calls) == Outcome(Hung(stream, false, base), EncodeAll(fs))
  {
    hide RunsOut, EncodeAll, Run, WriteBlock, ReadableIn;
    var t := UnterminatedFrame(h, order, n);
    assert t[0] == METADATA_FLAGS;
    UnterminatedFrameRunsOut(h, order, n);
    SplitAtTrailer(fs, t);
    HangsForever(EncodeAll(fs) + t, false, base, calls);
  }

  /** The shortest kind: the payload `a:b` in a frame that announces three bytes, or more. */
  lemma ShortestHang(n: byte, base: Header, calls: seq<Call>)
    requires n >= 3
    ensures var stream := [128, 0, 0, 0, n, 97, 58, 98];
            Run(Start(stream, false, base), [Gulp(stream)] + calls) == Outcome(Hung(stream, false, base), [])
  {
    hide Run, ParseBlock;
    var stream := [128, 0, 0, 0, n, 97, 58, 98];
    ColonRunsOut();
    assert stream[1..5] == [0, 0, 0, n];
    assert stream[5..8] == [97, 58, 98];
    assert Min(|stream|, HEADER_LENGTH + U32(stream[1..5])) == 8;
    assert RunsOut(stream, false);
    BodyOfTrailer(stream);
    HangsForever(stream, false, base, calls);
  }

  lemma BodyOfTrailer(t: Bytes)
    requires t != [] && Msb(t[0])
    ensures Body(t) == [] && Tail(t) == t
  {
    SplitAtTrailer([], t);
    assert EncodeAll([]) + t == t;
  }

  /** No blank line, so the parser of `a:b` runs out of input. */
  lemma ColonRunsOut()
    ensures ParseBlock([97, 58, 98]).HitEof?
  {
    hide TakeLine, Trim, ParseField, IndexOf;
    var line: Bytes := [97, 58, 98];
    TakeWrittenLine(line, []);
    var s := line + CRLF;
    assert s + [] == s;
    assert COLON in line by { assert line[1] == COLON; }
    ColonTrimmed();
    ColonField();
    ParseLinesStep(s, map[], line, line, []);
    assert s[0] !in BLANKS;
  }

  lemma ColonTrimmed()
    ensures Trim([97, 58, 98]) == [97, 58, 98]
  {
  }

  lemma ColonField()
    ensures ParseField([97, 58, 98]).Some?
  {
    var kv: Bytes := [97, 58, 98];
    assert kv[1] == COLON && IndexOf(kv, COLON) == 1;
    assert kv[..1] == [97] && kv[2..] == [98];
  }
}
