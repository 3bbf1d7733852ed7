/** Which error a run of the gRPC-Web reader ends in, for every stream and every chunking. */
module GrpcWebVerdict {
  import opened Framing
  import opened HeaderBlock
  import opened GrpcWebReader
  import opened GrpcWebScan
  import opened GrpcWebRuns
  import opened GrpcWebLiveness

  // ---------------------------------------------------------------- one call fits its buffer

  lemma {:induction false} DoReadFits(s: State, max: nat, c: Choice, again: Choice)
    requires Sound(s.progress)
    ensures |DoRead(s, max, c, again).data| <= max
    decreases s.partial == []
  {
    if s.partial == [] || TryTrailers(s.partial, s.src).err == None {
      var s1 := if s.partial != [] then AfterAttempt(s) else s;
      var step := Pass(s1, max, c);
      assert |step.data| <= PullCount(s1.src, max, c) <= max;
      if step.data == [] && step.state.partial != [] {
        DoReadFits(step.state, PullCount(s1.src, max, c), again, again);
      }
    }
  }

  /** A call never returns more bytes than its buffer holds. */
  lemma ReadFits(s: State, call: Call)
    requires Sound(s.progress)
    ensures |Read(s, call.max, call.first, call.again).data| <= call.max
  {
    DoReadFits(s, call.max, call.first, call.again);
  }

  // ---------------------------------------------------------------- the verdict on a stream

  /** The whole tail, tried at once. */
  function Trial(t: Bytes, broken: bool): Option<Error> {
    TryTrailers(t, Source([], broken)).err
  }

  /** The errors a run over this stream may report. If the underlying reader breaks, it may
      report that as soon as it is met; and extra bytes may be counted in part only. */
  ghost predicate Reports(stream: Bytes, broken: bool, e: Error) {
    var t := Tail(stream);
    if t == [] then e == if broken then Broken else if stream == [] then Eof else UnexpectedEof
    else
      || (broken && e == Broken)
      || match Trial(t, broken)
         case None => e == Eof
         case Some(ExtraData(n)) => e.ExtraData? && 0 < e.count <= n
         case Some(x) => e == x
  }

  /** However the tail is divided into stashed and unread bytes, an attempt agrees with the
      trial of the whole; extra bytes still unread are left for the next call. */
  lemma AttemptAgrees(partial: Bytes, src: Source)
    ensures var a := TryTrailers(partial, src);
            match Trial(partial + src.rest, src.broken)
            case None => a.err == None && a.rest == []
            case Some(ExtraData(n)) =>
              && n > 0
              && if a.err.Some? then a.err.value.ExtraData? && 0 < a.err.value.count <= n else |a.rest| == n
            case Some(e) => a.err == Some(e)
  {
    hide BlockHeader, BlockError, After;
    var t := partial + src.rest;
    assert t + [] == t;
    if |t| >= HEADER_LENGTH {
      var length := U32(t[1..5]);
      var end := Min(|t|, HEADER_LENGTH + length);
      BlockErrorAgrees(t[HEADER_LENGTH..end], length, |partial|, |t|);
      AfterLength(partial, src.rest, end);
    }
  }

  lemma AfterLength(partial: Bytes, rest: Bytes, n: nat)
    requires n <= |partial| + |rest|
    ensures |After(partial, rest, n)| == if n <= |partial| then |rest| else |partial| + |rest| - n
  {
  }

  /** The number of stashed bytes only matters where bytes follow a good frame. */
  lemma BlockErrorAgrees(block: Bytes, length: nat, stashed: nat, total: nat)
    requires stashed <= total
    ensures var e := BlockError(block, length, stashed - HEADER_LENGTH - length);
            match BlockError(block, length, total - HEADER_LENGTH - length)
            case None => e == None
            case Some(ExtraData(n)) =>
              && n == total - HEADER_LENGTH - length && n > 0 && |block| == length
              && e == if stashed <= HEADER_LENGTH + length then None
                      else Some(ExtraData(stashed - HEADER_LENGTH - length))
            case Some(x) => e == Some(x)
    ensures BlockError(block, length, total - HEADER_LENGTH - length) == None ==>
              |block| == length && total <= HEADER_LENGTH + length
  {
    hide ParseBlock;
  }

  ghost predicate Due(stream: Bytes, s: State) {
    && PastTrailers(s) && Tail(stream) != []
    && Trial(Tail(stream), s.src.broken) == if s.src.rest == [] then None else Some(ExtraData(|s.src.rest|))
  }

  ghost predicate OnCourse(stream: Bytes, s: State, out: Bytes) {
    || Scanning(stream, s, out)
    || (Stashed(stream, s, out) && s.partial + s.src.rest == Tail(stream))
    || Due(stream, s)
  }

  lemma DueStep(stream: Bytes, s: State, max: nat, c: Choice)
    requires Due(stream, s)
    ensures var step := AdjustResult(Pass(s, max, c));
            && step.state.src.broken == s.src.broken
            && if step.err == None then Due(stream, step.state) else Reports(stream, s.src.broken, step.err.value)
  {
    hide TryTrailers, Tail;
    var n := PullCount(s.src, max, c);
    var step := Pass(s, max, c);
    assert |step.data| == n;
    if n == 0 {
      assert s.src.rest[0..] == s.src.rest;
      assert step.state == s;
    } else {
      assert s.src.rest != [];
      assert AdjustResult(step).err == Some(ExtraData(n)) || (s.src.broken && AdjustResult(step).err == Some(Broken));
    }
  }

  lemma AttemptDue(stream: Bytes, s: State, out: Bytes)
    requires Stashed(stream, s, out) && s.partial + s.src.rest == Tail(stream)
    requires !RunsOut(Tail(stream), s.src.broken)
    ensures var a := TryTrailers(s.partial, s.src);
            && a.err != Some(Eof)
            && if a.err == None then Due(stream, AfterAttempt(s)) else Reports(stream, s.src.broken, a.err.value)
  {
    hide TryTrailers, RunsOut;
    AttemptEofExactly(s.partial, s.src);
    AttemptAgrees(s.partial, s.src);
  }

  lemma StashedVerdict(stream: Bytes, s: State, out: Bytes, max: nat, c: Choice, again: Choice)
    requires Stashed(stream, s, out) && s.partial + s.src.rest == Tail(stream)
    requires !RunsOut(Tail(stream), s.src.broken)
    ensures var step := AdjustResult(DoRead(s, max, c, again));
            && step.state.src.broken == s.src.broken
            && if step.err == None then Due(stream, step.state) else Reports(stream, s.src.broken, step.err.value)
  {
    hide TryTrailers, RunsOut, Reports, Trial;
    AttemptDue(stream, s, out);
    if TryTrailers(s.partial, s.src).err == None {
      DueStep(stream, AfterAttempt(s), max, c);
    }
  }

  lemma ScanningVerdict(stream: Bytes, s: State, out: Bytes, call: Call)
    requires Scanning(stream, s, out) && !RunsOut(Tail(stream), s.src.broken)
    ensures var step := AdjustResult(DoRead(s, call.max, call.first, call.again));
            && step.state.src.broken == s.src.broken
            && if step.err == None then OnCourse(stream, step.state, out + step.data)
               else Reports(stream, s.src.broken, step.err.value)
  {
    hide RunsOut, Reports, Due, Tail;
    var step := Pass(s, call.max, call.first);
    PassScanning(stream, s, out, call.max, call.first);
    if step.data == [] && step.state.partial != [] {
      assert out + step.data == out;
      StashedVerdict(stream, step.state, out, PullCount(s.src, call.max, call.first), call.again, call.again);
    } else {
      PassVerdict(stream, s, out, call.max, call.first);
    }
  }

  /** The end of the stream, reported with a chunk or after the last one. */
  lemma PassVerdict(stream: Bytes, s: State, out: Bytes, max: nat, c: Choice)
    requires Scanning(stream, s, out)
    ensures var step := AdjustResult(Pass(s, max, c));
            && step.state.src.broken == s.src.broken
            && if step.err == None then OnCourse(stream, step.state, out + step.data)
               else Reports(stream, s.src.broken, step.err.value)
  {
    hide Trial, Consume, Body, Tail;
    var step := Pass(s, max, c);
    PassScanning(stream, s, out, max, c);
    if step.err.Some? {
      EndScanned(stream, step.state, out + step.data);
    }
  }

  /** At the end of the stream a reader that holds no trailer bytes has met none. */
  lemma EndScanned(stream: Bytes, s: State, out: Bytes)
    requires s.src.rest == []
    requires Scanning(stream, s, out) || (Stashed(stream, s, out) && s.partial + s.src.rest == Tail(stream))
    ensures s.partial == [] ==> Tail(stream) == [] && (s.hasReadData <==> stream != [])
    ensures s.partial != [] ==> Tail(stream) != []
  {
    if s.partial == [] {
      AcceptedWithin(stream, out, s.src.rest);
    }
  }

  lemma VerdictStep(stream: Bytes, s: State, out: Bytes, call: Call)
    requires Sound(s.progress) && s.err == None
    requires OnCourse(stream, s, out) && !RunsOut(Tail(stream), s.src.broken)
    ensures var step := Read(s, call.max, call.first, call.again);
            && step.state.src.broken == s.src.broken
            && if step.state.err == None then OnCourse(stream, step.state, out + step.data)
               else Reports(stream, s.src.broken, step.state.err.value)
  {
    hide RunsOut, TryTrailers, Reports, Trial;
    if Scanning(stream, s, out) {
      ScanningVerdict(stream, s, out, call);
    } else if PastTrailers(s) {
      DueStep(stream, s, call.max, call.first);
    } else {
      StashedVerdict(stream, s, out, call.max, call.first, call.again);
    }
  }

  lemma {:induction false} VerdictRun(stream: Bytes, s: State, out: Bytes, calls: seq<Call>)
    requires Sound(s.progress) && !RunsOut(Tail(stream), s.src.broken)
    requires if s.err == None then OnCourse(stream, s, out) else Reports(stream, s.src.broken, s.err.value)
    ensures var e := Run(s, calls).state.err;
            e.Some? ==> Reports(stream, s.src.broken, e.value)
    decreases calls
  {
    hide RunsOut, Reports, OnCourse;
    if s.err.Some? {
      StickyError(s, calls);
    } else if calls != [] {
      var step := Read(s, calls[0].max, calls[0].first, calls[0].again);
      ReadSound(s, calls[0]);
      VerdictStep(stream, s, out, calls[0]);
      VerdictRun(stream, step.state, out + step.data, calls[1..]);
    }
  }

  lemma RunReports(stream: Bytes, broken: bool, base: Header, calls: seq<Call>)
    requires !RunsOut(Tail(stream), broken)
    ensures var e := Run(Start(stream, broken, base), calls).state.err;
            e.Some? ==> Reports(stream, broken, e.value)
  {
    hide RunsOut, Reports, Run;
    assert [] + stream == stream && Scanning(stream, Start(stream, broken, base), []);
    VerdictRun(stream, Start(stream, broken, base), [], calls);
  }

  // ---------------------------------------------------------------- the verdict, error by error

  /** What there is of the payload of the frame that a tail starts with. */
  function Payload(t: Bytes): Bytes
    requires |t| >= HEADER_LENGTH
  {
    t[HEADER_LENGTH..Min(|t|, HEADER_LENGTH + U32(t[1..5]))]
  }

  /** Whether the payload parses to its end. */
  predicate ParsesWhole(p: Bytes) {
    ParseBlock(p).Complete? && ParseBlock(p).rest == []
  }

  /** Which error a run over an intact connection ends in, if it ends: exactly one for each
      shape of the stream, and each only for that shape. */
  lemma ErrorsExactly(stream: Bytes, base: Header, calls: seq<Call>, e: Error)
    requires !RunsOut(Tail(stream), false)
    requires Run(Start(stream, false, base), calls).state.err == Some(e)
    ensures var t := Tail(stream);
            var framed := |t| >= HEADER_LENGTH && t[0] % 2 == 0;
            && (e == UnexpectedEof <==> stream != [] && |t| < HEADER_LENGTH)
            && (e == NoDecompressor <==> |t| >= HEADER_LENGTH && t[0] % 2 == 1)
            && (e == BadTrailers <==> framed && ParseBlock(Payload(t)).Malformed?)
            && (e == IncompleteRead <==> framed && ParseBlock(Payload(t)).Complete? && !ParsesWhole(Payload(t)))
            && (e == ShortTrailers <==> framed && ParsesWhole(Payload(t)) && Head(t).None?)
            && (e.ExtraData? <==>
                  framed && ParsesWhole(Payload(t)) && Head(t).Some? && |t| > HEADER_LENGTH + |Payload(t)|)
            && (e.ExtraData? ==> 0 < e.count <= |t| - HEADER_LENGTH - |Payload(t)|)
            && e != Broken
  {
    hide Run, ParseBlock;
    RunReports(stream, false, base, calls);
    TrialCases(Tail(stream));
  }

  lemma TrialCases(t: Bytes)
    requires !RunsOut(t, false)
    ensures Trial(t, false)
         == if |t| < HEADER_LENGTH then Some(UnexpectedEof)
            else if t[0] % 2 == 1 then Some(NoDecompressor)
            else if ParseBlock(Payload(t)).Malformed? then Some(BadTrailers)
            else if !ParsesWhole(Payload(t)) then Some(IncompleteRead)
            else if Head(t).None? then Some(ShortTrailers)
            else if |t| > HEADER_LENGTH + |Payload(t)| then Some(ExtraData(|t| - HEADER_LENGTH - |Payload(t)|))
            else None
  {
    hide ParseBlock;
    assert t + [] == t;
  }
}
