/** The gRPC-Web writer and reader undo each other, end to end. */
module GrpcWebRoundTrip {
  import opened Framing
  import opened HeaderBlock
  import opened TrailerCollection
  import W = GrpcWebWriter
  import opened GrpcWebReader
  import opened GrpcWebScan
  import opened GrpcWebRuns
  import opened GrpcWebLiveness
  import opened GrpcWebTheorems

  /** A handler's run, finalised: what the theorems below quantify over. */
  datatype Response = Response(header: Header, ops: seq<W.Op>, visits: seq<Bytes>, order: seq<Bytes>) {

    function Handled(): W.State {
      W.ApplyAll(W.Start(header), ops)
    }

    /** The range loop is one the language allows. */
    ghost predicate Valid() {
      Legal(StartWalk(Handled().header, Handled().announced), visits)
    }

    function Trailers(): Header
      requires Valid()
    {
      CollectedTrailers(Handled().header, Handled().announced, visits)
    }

    /** The trailer names are written in some order, and the block fits a frame. */
    ghost predicate Framed()
      requires Valid()
    {
      Enumerates(order, Trailers().Keys) && |WriteBlock(Trailers(), order)| < LENGTH_LIMIT
    }

    function Output(): Bytes
      requires Valid()
    {
      W.Finalized(Handled(), visits, order).body
    }

    function TrailerFrame(): Frame
      requires Valid()
    {
      Frame(METADATA_FLAGS, WriteBlock(Trailers(), order))
    }
  }

  lemma OutputShape(r: Response)
    requires r.Valid()
    ensures r.Output()
         == if r.Handled().announced.Some? then W.Written(r.ops) + Encode(r.TrailerFrame()) else W.Written(r.ops)
  {
    W.BodyIsWritten(W.Start(r.header), r.ops);
    assert [] + W.Written(r.ops) == W.Written(r.ops);
  }

  /** The trailer frame, seen by the reader's one-shot view of the output. */
  lemma AnnouncedOutput(r: Response, fs: seq<Frame>)
    requires r.Valid() && r.Framed() && r.Handled().announced.Some?
    requires AllData(fs) && W.Written(r.ops) == EncodeAll(fs)
    ensures Body(r.Output()) == W.Written(r.ops)
    ensures Tail(r.Output()) == Encode(r.TrailerFrame()) && Head(Tail(r.Output())) == Some(r.TrailerFrame())
    ensures ParseBlock(r.TrailerFrame().payload)
         == if Readable(r.Trailers()) then Complete(CleanHeader(r.Trailers()), []) else Malformed
  {
    hide EncodeAll, Encode;
    OutputShape(r);
    var f := r.TrailerFrame();
    assert Encode(f) + [] == Encode(f);
    ShapeAccepted(fs, f, []);
    CollectedCanonical(r.Handled().header, r.Handled().announced.value, r.visits);
    BlockRoundTrip(r.Trailers(), r.order);
  }

  /** gRPC-Web round trip. Data frames written in any split of writes, finalised with
      announced trailers under any iteration order, and read under any chunking and any
      buffer sizes: the reader delivers a prefix of exactly the body, reports no error but
      the final EOF, has then delivered all of the body and set exactly the collected
      trailers, and every fair run of more calls than there are bytes gets there. */
  lemma RoundTrip(r: Response, fs: seq<Frame>, calls: seq<Call>)
    requires r.Valid() && r.Framed() && r.Handled().announced.Some? && Readable(r.Trailers())
    requires AllData(fs) && W.Written(r.ops) == EncodeAll(fs)
    ensures var run := Run(Start(r.Output(), false, map[]), calls);
            && run.delivered <= EncodeAll(fs)
            && Fine(run.state.err)
            && (run.state.err == Some(Eof) ==>
                  run.delivered == EncodeAll(fs) && run.state.trailers == CleanHeader(r.Trailers()))
            && (|calls| > |r.Output()| && Fair(Start(r.Output(), false, map[]), calls) ==> run.state.err == Some(Eof))
  {
    hide EncodeAll, Encode, Run, Accepts, Fair, Readable, CleanHeader, Enumerates, Legal, Populate;
    AnnouncedOutput(r, fs);
    AnnouncedAccepted(r, fs);
    AcceptedRun(r.Output(), CleanHeader(r.Trailers()), map[], calls);
    PopulateEmpty(CleanHeader(r.Trailers()));
  }

  lemma AnnouncedAccepted(r: Response, fs: seq<Frame>)
    requires r.Valid() && r.Framed() && r.Handled().announced.Some? && Readable(r.Trailers())
    requires AllData(fs) && W.Written(r.ops) == EncodeAll(fs)
    ensures Accepts(r.Output(), CleanHeader(r.Trailers()))
  {
    hide EncodeAll, Encode, Head, ParseBlock, Body, Readable, CleanHeader, Enumerates, Legal;
    AnnouncedOutput(r, fs);
    EncodeLength(r.TrailerFrame());
  }

  lemma EncodeLength(f: Frame)
    ensures |Encode(f)| == HEADER_LENGTH + |f.payload|
  {
  }

  lemma PopulateEmpty(h: Header)
    ensures Populate(map[], h) == h
  {
    assert forall x :: x in h ==> Values(map[], x) + Values(h, x) == h[x];
  }

  // ---------------------------------------------------------------- the ordinary response

  /** What a gRPC server does: announce trailers, write the messages, set a trailer k, under
      its name or behind the prefix. */
  function OneTrailer(fs: seq<Frame>, names: seq<Bytes>, key: Bytes, k: Bytes, v: Bytes): Response {
    Response(map[TRAILER := names], [W.Write(EncodeAll(fs)), W.Edit(map[key := [v]])], [key], [k])
  }

  lemma OneTrailerHandled(fs: seq<Frame>, names: seq<Bytes>, key: Bytes, k: Bytes, v: Bytes)
    ensures var r := OneTrailer(fs, names, key, k, v);
            && r.Handled().header == map[key := [v]]
            && r.Handled().announced == Some(names)
            && r.Handled().body == EncodeAll(fs) == W.Written(r.ops)
  {
    hide EncodeAll;
    var r := OneTrailer(fs, names, key, k, v);
    var s1 := W.Apply(W.Start(r.header), r.ops[0]);
    assert [] + EncodeAll(fs) == EncodeAll(fs) == EncodeAll(fs) + [];
    assert r.ops[1..] == [r.ops[1]] && r.ops[1..][1..] == [];
    assert W.ApplyAll(s1, r.ops[1..]) == W.Apply(s1, r.ops[1]);
    assert W.Written(r.ops[1..]) == [];
  }

  function OneTrailerOutput(fs: seq<Frame>, names: seq<Bytes>, key: Bytes, k: Bytes, v: Bytes): Bytes
    requires Collects(names, key, k, v)
  {
    OneTrailerHandled(fs, names, key, k, v);
    OneTrailer(fs, names, key, k, v).Output()
  }

  lemma OneTrailerReachesClient(
    fs: seq<Frame>, names: seq<Bytes>, key: Bytes, k: Bytes, v: Bytes, calls: seq<Call>)
    requires AllData(fs) && Collects(names, key, k, v) && ValidName(k)
    requires Printable(v) && |k| + |v| + 4 < LENGTH_LIMIT
    requires |calls| > |EncodeAll(fs)| + |k| + |v| + 9
    requires Fair(Start(OneTrailerOutput(fs, names, key, k, v), false, map[]), calls)
    ensures var run := Run(Start(OneTrailerOutput(fs, names, key, k, v), false, map[]), calls);
            && run.delivered == EncodeAll(fs)
            && run.state.err == Some(Eof)
            && run.state.trailers == map[k := [CleanValue(v)]]
            && (Tidy(v) ==> run.state.trailers == map[k := [v]])
  {
    hide EncodeAll, Run, Fair, CleanValue, WriteBlock, CleanHeader, Readable, Enumerates, Tidy;
    hide W.ApplyAll, W.Finalized, W.Written, CollectedTrailers, Legal;
    var r := OneTrailer(fs, names, key, k, v);
    OneTrailerHandled(fs, names, key, k, v);
    EntryBlock(k, v);
    EntryTravels(k, v);
    RoundTrip(r, fs, calls);
    OutputShape(r);
  }

  function StatusOutput(fs: seq<Frame>, status: Bytes): Bytes {
    StatusWalk(status);
    OneTrailerOutput(fs, [GRPC_STATUS], GRPC_STATUS, GRPC_STATUS, status)
  }

  /** A gRPC response as servers send it: messages, then a status. In every fair run of
      enough calls, under any chunking, the client has exactly the messages and exactly
      that status, and then a clean EOF. */
  lemma StatusReachesClient(fs: seq<Frame>, status: Bytes, calls: seq<Call>)
    requires AllData(fs) && Printable(status) && |status| + 15 < LENGTH_LIMIT
    requires |calls| > |EncodeAll(fs)| + |status| + 20
    requires Fair(Start(StatusOutput(fs, status), false, map[]), calls)
    ensures var run := Run(Start(StatusOutput(fs, status), false, map[]), calls);
            && run.delivered == EncodeAll(fs)
            && run.state.err == Some(Eof)
            && run.state.trailers == map[GRPC_STATUS := [CleanValue(status)]]
            && (Tidy(status) ==> run.state.trailers == map[GRPC_STATUS := [status]])
  {
    hide EncodeAll, Run, Fair, Collects, OneTrailerOutput;
    StatusWalk(status);
    StatusName();
    OneTrailerReachesClient(fs, [GRPC_STATUS], GRPC_STATUS, GRPC_STATUS, status, calls);
  }

  function EntryOutput(fs: seq<Frame>, k: Bytes, v: Bytes): Bytes
    requires CanonicalName(k)
  {
    MetadataWalk(k, v);
    OneTrailerOutput(fs, [], PREFIX + k, k, v)
  }

  /** The same for any trailer that the handler puts behind the prefix: it reaches the client
      under its own name. */
  lemma EntryReachesClient(fs: seq<Frame>, k: Bytes, v: Bytes, calls: seq<Call>)
    requires AllData(fs) && CanonicalName(k) && Printable(v) && |k| + |v| + 4 < LENGTH_LIMIT
    requires |calls| > |EncodeAll(fs)| + |k| + |v| + 9
    requires Fair(Start(EntryOutput(fs, k, v), false, map[]), calls)
    ensures var run := Run(Start(EntryOutput(fs, k, v), false, map[]), calls);
            && run.delivered == EncodeAll(fs)
            && run.state.err == Some(Eof)
            && run.state.trailers == map[k := [CleanValue(v)]]
            && (Tidy(v) ==> run.state.trailers == map[k := [v]])
  {
    hide EncodeAll, Run, Fair, Collects, OneTrailerOutput;
    MetadataWalk(k, v);
    OneTrailerReachesClient(fs, [], PREFIX + k, k, v, calls);
  }

  /** Metadata round trip. A handler announces names and leaves plain entries p and any
      metadata m behind prefixes. Under every valid name a client that reads to the end has
      the plain values if the name was announced, then the metadata, each as it was. */
  lemma MetadataReachesClient(r: Response, fs: seq<Frame>, calls: seq<Call>, p: Header, m: Header, x: Bytes)
    requires r.Valid() && r.Framed() && r.Handled().announced.Some? && Readable(r.Trailers())
    requires AllData(fs) && W.Written(r.ops) == EncodeAll(fs)
    requires PrefixedKeys(p) == {} && Metadata(m) && r.Handled().header == LeftBehind(p, m)
    requires ValidName(x)
    ensures var run := Run(Start(r.Output(), false, map[]), calls);
            var sent := (if Announces(r.Handled().announced.value, x) then Values(p, x) else []) + Values(m, x);
            run.state.err == Some(Eof) && AllTidy(sent) ==> Values(run.state.trailers, x) == sent
  {
    hide EncodeAll, Run, CleanHeader, LeftBehind, Metadata, Announces, Legal, AllTidy, Fair, Readable;
    RoundTrip(r, fs, calls);
    PrefixedIsNoName(x);
    AnnouncedExactly(p, m, r.Handled().announced.value, r.visits, x);
    CleanAt(r.Trailers(), x);
    CleanValuesExactly(Values(r.Trailers(), x));
  }

  /** The trailers a client sees do not depend on the order in which the handler's
      header map was iterated, up to the order of values under one name. */
  lemma TrailersIndependentOfOrder(r: Response, q: Response, name: Bytes)
    requires r.Valid() && q.Valid() && r.Handled() == q.Handled() && r.Handled().announced.Some?
    ensures r.Trailers().Keys == q.Trailers().Keys
    ensures multiset(Values(r.Trailers(), name)) == multiset(Values(q.Trailers(), name))
  {
    var w := StartWalk(r.Handled().header, r.Handled().announced);
    SeparateConfluence(w, r.visits, name);
    SeparateConfluence(w, q.visits, name);
  }

  lemma UnannouncedOutput(r: Response, fs: seq<Frame>)
    requires r.Valid() && r.Handled().announced.None?
    requires AllData(fs) && W.Written(r.ops) == EncodeAll(fs)
    ensures Body(r.Output()) == r.Output() == EncodeAll(fs) && Tail(r.Output()) == []
  {
    OutputShape(r);
    ConsumeFrames(fs, []);
    assert EncodeAll(fs) + [] == EncodeAll(fs);
    ScanIsOneShot(EncodeAll(fs));
  }

  /** Exactly when a finalised response can be read to a clean EOF at all: its trailers
      were announced by the time of some write and carry no control characters, or
      nothing was written. A response whose headers went out without a Trailer header
      is taken for trailers-only, and its trailers never reach the client. */
  lemma CleanEofExactly(r: Response, fs: seq<Frame>)
    requires r.Valid() && (r.Handled().announced.Some? ==> r.Framed())
    requires AllData(fs) && W.Written(r.ops) == EncodeAll(fs)
    ensures (exists calls :: Run(Start(r.Output(), false, map[]), calls).state.err == Some(Eof))
       <==> (if r.Handled().announced.Some? then Readable(r.Trailers()) else fs == [])
  {
    if r.Handled().announced.Some? {
      AnnouncedEof(r, fs);
    } else {
      UnannouncedEof(r, fs);
    }
  }

  lemma AnnouncedEof(r: Response, fs: seq<Frame>)
    requires r.Valid() && r.Handled().announced.Some? && r.Framed()
    requires AllData(fs) && W.Written(r.ops) == EncodeAll(fs)
    ensures (exists calls :: Run(Start(r.Output(), false, map[]), calls).state.err == Some(Eof))
       <==> Readable(r.Trailers())
  {
    hide EncodeAll, Encode, Run, Fair, Readable, CleanHeader, Enumerates, Legal;
    var start := Start(r.Output(), false, map[]);
    if Readable(r.Trailers()) {
      var calls := Patient(|r.Output()| + 1);
      PatientIsFair(start, |r.Output()| + 1);
      RoundTrip(r, fs, calls);
    } else {
      Unreadable(r, fs);
      hide RetryFree, Accepts, Body, Tail;
      forall calls
        ensures Run(start, calls).state.err != Some(Eof)
      {
        CleanEofSound(r.Output(), false, map[], calls);
      }
    }
  }

  lemma Unreadable(r: Response, fs: seq<Frame>)
    requires r.Valid() && r.Framed() && r.Handled().announced.Some? && !Readable(r.Trailers())
    requires AllData(fs) && W.Written(r.ops) == EncodeAll(fs)
    ensures RetryFree(r.Output()) && r.Output() != [] && forall h :: !Accepts(r.Output(), h)
  {
    hide EncodeAll, Encode, Head, ParseBlock, Body, Readable, CleanHeader, Enumerates, Legal;
    AnnouncedOutput(r, fs);
    EncodeLength(r.TrailerFrame());
  }

  lemma UnannouncedEof(r: Response, fs: seq<Frame>)
    requires r.Valid() && r.Handled().announced.None?
    requires AllData(fs) && W.Written(r.ops) == EncodeAll(fs)
    ensures (exists calls :: Run(Start(r.Output(), false, map[]), calls).state.err == Some(Eof)) <==> fs == []
  {
    hide EncodeAll, Run, Legal, Body, Tail;
    var start := Start(r.Output(), false, map[]);
    UnannouncedOutput(r, fs);
    EncodeAllEmpty(fs);
    if fs == [] {
      EmptyStream();
      assert Run(start, Patient(1)).state.err == Some(Eof);
    } else {
      forall calls
        ensures Run(start, calls).state.err != Some(Eof)
      {
        TruncatedNeverClean(r.Output(), false, map[], calls);
      }
    }
  }

  lemma EmptyStream()
    ensures Run(Start([], false, map[]), Patient(1)).state.err == Some(Eof)
  {
    var s := Start([], false, map[]);
    var call := Patient(1)[0];
    ReadSound(s, call);
    assert Read(s, call.max, call.first, call.again).state.err == Some(Eof);
    assert Patient(1)[1..] == [];
  }

  // ---------------------------------------------------------------- the same response, cut short

  /** The output of a good response, less its last two bytes, hangs the client that takes it
      in one go: the data arrives, and then neither an end nor an error, whatever follows. */
  lemma CutOutputHangs(r: Response, fs: seq<Frame>, calls: seq<Call>)
    requires r.Valid() && r.Framed() && r.Handled().announced.Some? && Readable(r.Trailers())
    requires AllData(fs) && W.Written(r.ops) == EncodeAll(fs)
    requires WriteBlock(r.Trailers(), r.order) != []
    ensures var stream := r.Output()[..|r.Output()| - 2];
            var run := Run(Start(stream, false, map[]), [Gulp(stream)] + calls);
            run == Outcome(Hung(stream, false, map[]), EncodeAll(fs))
  {
    hide EncodeAll, Run, WriteBlock;
    var block := WriteBlock(r.Trailers(), r.order);
    var p := Unterminated(r.Trailers(), r.order);
    OutputShape(r);
    ReadableOrder(r.Trailers(), r.order);
    UnterminatedHangs(fs, r.Trailers(), r.order, |block|, map[], calls);
    CutFrame(EncodeAll(fs), MessageHeader(METADATA_FLAGS, |block|), p);
  }

  lemma CutFrame(data: Bytes, header: Bytes, p: Bytes)
    ensures var all := data + (header + (p + CRLF));
            all[..|all| - 2] == data + (header + p)
  {
    Assoc(header, p, CRLF);
    Assoc(data, header + p, CRLF);
  }
}
