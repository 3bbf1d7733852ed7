/** Responses over WebSocket, end to end: response writer, frame cutter, client. */
module WebSocketRoundTrip {
  import opened Framing
  import opened HeaderBlock
  import opened TrailerCollection
  import opened WebSocketWrite
  import opened WebSocketProxy
  import opened WebSocketReceive
  import W = WebSocketWriter
  import GrpcWebWriter

  const CONTENT_TYPE: Bytes := GrpcWebWriter.CONTENT_TYPE

  /** A handler's run on the server, closed. */
  datatype Response = Response(ops: seq<W.Op>, visits: seq<Bytes>, order: seq<Bytes>) {

    function Handled(): W.State {
      W.ApplyAll(W.START, ops)
    }

    ghost predicate Valid() {
      Legal(StartWalk(Handled().header, Handled().announced), visits)
    }

    function Trailers(): Header
      requires Valid()
    {
      CollectedTrailers(Handled().header, Handled().announced, visits)
    }

    function Output(): Bytes
      requires Valid()
    {
      W.Closed(Handled(), visits, order).out
    }
  }

  /** A header that can travel: canonical names, no control characters, written in some
      order of its names, and short enough for one frame. */
  ghost predicate Sendable(h: Header, order: seq<Bytes>) {
    && CanonicalNames(h) && Readable(h)
    && Enumerates(order, h.Keys)
    && |WriteBlock(h, order)| < LENGTH_LIMIT
  }

  /** The connection as the client sees it: what the cutter sent, then the end. */
  function Wire(out: Bytes, end: ConnRead): seq<ConnRead> {
    Binary(Cut(out, false, None).0) + [end]
  }

  function Binary(ms: seq<Bytes>): (r: seq<ConnRead>)
    ensures |r| == |ms| && forall i :: 0 <= i < |ms| ==> r[i] == Msg(true, ms[i])
  {
    seq(|ms|, i requires 0 <= i < |ms| => Msg(true, ms[i]))
  }

  lemma WireOfFrames(fs: seq<Frame>, end: ConnRead)
    requires AllFit(fs)
    ensures var msgs := Wire(EncodeAll(fs), end);
            |msgs| == |fs| + 1 && CarryAll(msgs, fs) && msgs[|fs|] == end
  {
    NilMeansWholeFrames(EncodeAll(fs));
  }

  lemma SentBlock(h: Header, order: seq<Bytes>, base: Header, isTrailers: bool)
    requires Sendable(h, order)
    ensures SetHeader(base, W.BlockFrame(h, order).payload, isTrailers)
         == Some(AddFields(base, CleanHeader(h), if isTrailers then PREFIX else []))
  {
    BlockRoundTrip(h, order);
  }

  lemma AddToEmpty(g: Header)
    ensures AddFields(map[], g, []) == g
  {
    forall x
      ensures x in AddFields(map[], g, []) <==> x in g
      ensures Values(AddFields(map[], g, []), x) == Values(g, x)
    {
      AddFieldsAt(map[], g, [], x);
      assert x[0..] == x;
    }
    SameHeader(AddFields(map[], g, []), g);
  }

  lemma OutputFrames(r: Response, fs: seq<Frame>)
    requires r.Valid() && W.Written(r.ops) == EncodeAll(fs)
    ensures var last := W.BlockFrame(r.Trailers(), r.order);
            if W.Sends(r.ops) then
              r.Output() == EncodeAll([W.BlockFrame(W.SentHeader(W.START, r.ops), W.SentOrder(r.ops))] + fs + [last])
            else r.Output() == EncodeAll([last])
  {
    hide Encode;
    W.PipeContents(W.START, r.ops);
    var last := W.BlockFrame(r.Trailers(), r.order);
    SingleFrame(last);
    if W.Sends(r.ops) {
      var first := W.BlockFrame(W.SentHeader(W.START, r.ops), W.SentOrder(r.ops));
      assert [] + (Encode(first) + W.Written(r.ops)) == Encode(first) + W.Written(r.ops);
      EncodeAllCons(first, fs);
      EncodeAllAppend([first] + fs, [last]);
    } else {
      assert [] + Encode(last) == Encode(last);
    }
  }

  lemma SingleFrame(f: Frame)
    ensures EncodeAll([f]) == Encode(f)
  {
    assert Encode(f) + [] == Encode(f);
  }

  /** A run that sends its header arrives as that header, the data, and the trailer frame. */
  lemma ResponseFront(r: Response, fs: seq<Frame>, end: ConnRead)
    requires r.Valid() && W.Sends(r.ops)
    requires AllData(fs) && W.Written(r.ops) == EncodeAll(fs)
    requires Sendable(W.SentHeader(W.START, r.ops), W.SentOrder(r.ops))
    requires Fits(W.BlockFrame(r.Trailers(), r.order))
    requires Values(CleanHeader(W.SentHeader(W.START, r.ops)), GRPC_STATUS) == []
    ensures var sent := CleanHeader(W.SentHeader(W.START, r.ops));
            var trailers := Msg(true, Encode(W.BlockFrame(r.Trailers(), r.order)));
            Receive(map[], Wire(r.Output(), end)) == ReceiveBody(sent, EncodeAll(fs), [trailers, end])
  {
    hide Encode, EncodeAll, SetHeader, AddFields, CleanHeader, ReceiveBody, ReceiveHeader, Wire;
    var h := W.SentHeader(W.START, r.ops);
    var first, last := W.BlockFrame(h, W.SentOrder(r.ops)), W.BlockFrame(r.Trailers(), r.order);
    var all := [first] + fs + [last];
    OutputFrames(r, fs);
    WireOfFrames(all, end);
    var msgs := Wire(r.Output(), end);
    var h1 := CleanHeader(h);
    SentBlock(h, W.SentOrder(r.ops), map[], false);
    AddToEmpty(h1);
    assert Carries(msgs[0], all[0]);
    assert HeaderLanguage(map[], msgs, first, h1);
    HeaderExactly(map[], msgs);
    BodyOnWire(msgs, fs, first, last, end);
    BodyReaches(h1, [], msgs[1..], fs);
    assert [] + EncodeAll(fs) == EncodeAll(fs);
    assert msgs[1..][|fs|..] == [Msg(true, Encode(last)), end];
  }

  /** WebSocket response round trip. Data frames written in any split of writes after a
      header without a Grpc-Status reach the client whole: readFromServer returns nil, the
      body is exactly the data, and the header is exactly the one sent plus every
      collected trailer under the Trailer: prefix. It neither announces trailers nor has a
      content length. */
  lemma ResponseRoundTrip(r: Response, fs: seq<Frame>, end: ConnRead)
    requires r.Valid() && W.Sends(r.ops) && CleanEnd(end)
    requires AllData(fs) && W.Written(r.ops) == EncodeAll(fs)
    requires Sendable(W.SentHeader(W.START, r.ops), W.SentOrder(r.ops)) && Sendable(r.Trailers(), r.order)
    requires Values(CleanHeader(W.SentHeader(W.START, r.ops)), GRPC_STATUS) == []
    ensures var sent := CleanHeader(W.SentHeader(W.START, r.ops));
            var header := AddFields(sent, CleanHeader(r.Trailers()), PREFIX);
            && Receive(map[], Wire(r.Output(), end)) == View(header, EncodeAll(fs), None)
            && TRAILER !in header && W.CONTENT_LENGTH !in header
  {
    hide Encode, EncodeAll, SetHeader, AddFields, CleanHeader, ReceiveBody, Receive, Wire;
    var sent, last := CleanHeader(W.SentHeader(W.START, r.ops)), W.BlockFrame(r.Trailers(), r.order);
    ResponseFront(r, fs, end);
    SentBlock(r.Trailers(), r.order, sent, true);
    TrailersReceived(sent, EncodeAll(fs), [Msg(true, Encode(last)), end], last);
    NoLengthReceived(r, CleanHeader(r.Trailers()));
  }

  lemma NoLengthReceived(r: Response, trailers: Header)
    requires W.Sends(r.ops)
    ensures var header := AddFields(CleanHeader(W.SentHeader(W.START, r.ops)), trailers, PREFIX);
            TRAILER !in header && W.CONTENT_LENGTH !in header
  {
    hide AddFields, CleanHeader;
    var h := W.SentHeader(W.START, r.ops);
    W.SentHeaderClean(W.START, r.ops);
    CleanAt(h, TRAILER);
    CleanAt(h, W.CONTENT_LENGTH);
    AddFieldsAt(CleanHeader(h), trailers, PREFIX, TRAILER);
    AddFieldsAt(CleanHeader(h), trailers, PREFIX, W.CONTENT_LENGTH);
    assert |TRAILER| < |PREFIX|;
    assert W.CONTENT_LENGTH[0] != PREFIX[0];
  }

  /** Exactly when an announced response is received: no trailer value has a control
      character. Otherwise the client reports a malformed block. */
  lemma AnnouncedReceivedExactly(r: Response, fs: seq<Frame>, end: ConnRead)
    requires r.Valid() && W.Sends(r.ops) && r.Handled().announced.Some? && CleanEnd(end)
    requires AllData(fs) && W.Written(r.ops) == EncodeAll(fs)
    requires Sendable(W.SentHeader(W.START, r.ops), W.SentOrder(r.ops))
    requires Values(CleanHeader(W.SentHeader(W.START, r.ops)), GRPC_STATUS) == []
    requires Enumerates(r.order, r.Trailers().Keys) && Fits(W.BlockFrame(r.Trailers(), r.order))
    ensures Receive(map[], Wire(r.Output(), end)).err
         == if Readable(r.Trailers()) then None else Some(BadBlock)
  {
    hide Encode, EncodeAll, AddFields, CleanHeader, ReceiveBody, Receive, Wire, ParseBlock, Readable;
    var sent, last := CleanHeader(W.SentHeader(W.START, r.ops)), W.BlockFrame(r.Trailers(), r.order);
    ResponseFront(r, fs, end);
    CollectedCanonical(r.Handled().header, r.Handled().announced.value, r.visits);
    BlockRoundTrip(r.Trailers(), r.order);
    TrailersReceived(sent, EncodeAll(fs), [Msg(true, Encode(last)), end], last);
  }

  lemma BodyOnWire(msgs: seq<ConnRead>, fs: seq<Frame>, first: Frame, last: Frame, end: ConnRead)
    requires |msgs| == |fs| + 3 && msgs[|fs| + 2] == end
    requires CarryAll(msgs, [first] + fs + [last])
    ensures CarryAll(msgs[1..], fs) && Carries(msgs[1..][|fs|], last) && msgs[1..][|fs| + 1] == end
  {
    hide Encode;
    var all := [first] + fs + [last];
    forall i | 0 <= i < |fs|
      ensures Carries(msgs[1..][i], fs[i])
    {
      assert all[i + 1] == fs[i];
      assert Carries(msgs[i + 1], all[i + 1]);
    }
    assert all[|fs| + 1] == last;
    assert Carries(msgs[|fs| + 1], all[|fs| + 1]);
  }

  /** A handler that sends nothing before closing with a Grpc-Status: its trailers arrive
      as a single header block, without prefixes, and readFromServer returns nil. */
  lemma TrailersOnlyRoundTrip(r: Response, end: ConnRead)
    requires r.Valid() && !W.Sends(r.ops)
    requires Sendable(r.Trailers(), r.order) && Values(CleanHeader(r.Trailers()), GRPC_STATUS) != []
    ensures Receive(map[], Wire(r.Output(), end)) == View(CleanHeader(r.Trailers()), [], None)
    ensures NoneDoubled(r.Handled().header) ==> PrefixedKeys(r.Trailers()) == {}
  {
    hide Encode, EncodeAll, SetHeader, AddFields, CleanHeader, ReceiveBody, ReceiveHeader, Wire;
    var last := W.BlockFrame(r.Trailers(), r.order);
    W.PipeContents(W.START, r.ops);
    EncodeNothing();
    OutputFrames(r, []);
    WireOfFrames([last], end);
    var msgs := Wire(r.Output(), end);
    SentBlock(r.Trailers(), r.order, map[], false);
    AddToEmpty(CleanHeader(r.Trailers()));
    assert Carries(msgs[0], [last][0]);
    assert HeaderLanguage(map[], msgs, last, CleanHeader(r.Trailers()));
    HeaderExactly(map[], msgs);
    if NoneDoubled(r.Handled().header) {
      AliasedConfluence(StartWalk(r.Handled().header, None), r.visits, []);
    }
  }

  lemma EncodeNothing()
    ensures EncodeAll([]) == []
  {
  }

  // ---------------------------------------------------------------- headers sent twice

  /** A header that went out without announcing trailers is sent once more as trailers: every
      name of the handler's header, prefixed ones under their plain name, and all values. */
  lemma UnannouncedRepeatsHeader(r: Response, name: Bytes)
    requires r.Valid() && r.Handled().announced.None? && NoneDoubled(r.Handled().header)
    ensures var left := r.Handled().header - {TRAILER};
            && r.Trailers().Keys == Targets(left.Keys)
            && multiset(Values(r.Trailers(), name)) == Load(left, left.Keys, name)
  {
    AliasedConfluence(StartWalk(r.Handled().header, None), r.visits, name);
  }

  /** A name that belongs into trailers: announced, or one that a prefixed key is moved to. */
  ghost predicate TrailerName(s: W.State, x: Bytes) {
    (s.announced.Some? && x in CanonicalSet(s.announced.value)) || Sent(s.header, x)
  }

  /** Exactly when the trailer frame carries nothing but trailers: some were announced when the
      header went out, or every plain name left in it is also the target of a prefixed key. */
  lemma OnlyTrailersExactly(r: Response)
    requires r.Valid()
    ensures (forall x :: x in r.Trailers() ==> TrailerName(r.Handled(), x))
       <==> (|| r.Handled().announced.Some?
             || forall x :: x in r.Handled().header && x != TRAILER && !Prefixed(x) ==> Sent(r.Handled().header, x))
  {
    hide Sent;
    var s := r.Handled();
    if s.announced.Some? {
      forall x | x in r.Trailers()
        ensures TrailerName(s, x)
      {
        AnnouncedTrailerName(s.header, s.announced.value, r.visits, x);
      }
    } else {
      forall x
        ensures x in s.header && x != TRAILER && !Prefixed(x) ==> x in r.Trailers()
        ensures x in r.Trailers() ==> (x in s.header && x != TRAILER && !Prefixed(x)) || Sent(s.header, x)
      {
        AliasedNames(StartWalk(s.header, None), r.visits, x);
        SentFromRest(s.header, x);
      }
    }
  }

  lemma AnnouncedTrailerName(h: Header, names: seq<Bytes>, visits: seq<Bytes>, x: Bytes)
    requires Legal(StartWalk(h, Some(names)), visits) && x in CollectedTrailers(h, Some(names), visits)
    ensures x in CanonicalSet(names) || Sent(h, x)
  {
    SeparateConfluence(StartWalk(h, Some(names)), visits, x);
    if x !in CanonicalSet(names) {
      var k :| k in PrefixedKeys(h) && Target(k) == x;
      assert Reaches(k, x);
    }
  }

  lemma SentFromRest(h: Header, x: Bytes)
    ensures Sent(h - {TRAILER}, x) ==> Sent(h, x)
  {
    if Sent(h - {TRAILER}, x) {
      var k :| k in h - {TRAILER} && Reaches(k, x);
      assert k in h && Reaches(k, x);
    }
  }

  /** A handler that sets its content type, writes messages, and announces nothing. */
  function PlainResponse(fs: seq<Frame>, value: Bytes): Response {
    Response([W.Edit(map[CONTENT_TYPE := [value]]), W.Write(EncodeAll(fs), [CONTENT_TYPE])],
             [CONTENT_TYPE], [CONTENT_TYPE])
  }

  lemma ContentTypeName()
    ensures ValidName(CONTENT_TYPE) && CanonicalKey(CONTENT_TYPE) == CONTENT_TYPE && !Prefixed(CONTENT_TYPE)
  {
    hide CanonicalKey;
    ContentTypeCase();
    assert CONTENT_TYPE[0] != PREFIX[0];
  }

  lemma ContentTypeCase()
    ensures CanonicalKey(CONTENT_TYPE) == CONTENT_TYPE
  {
    hide Recase;
    assert CONTENT_TYPE[7] == DASH && CasedAt(CONTENT_TYPE, true, 8);
    CasedIsFixed(CONTENT_TYPE, true);
  }

  lemma PlainRun(fs: seq<Frame>, value: Bytes)
    ensures var r := PlainResponse(fs, value);
            var h := map[CONTENT_TYPE := [value]];
            && r.Handled().header == h && r.Handled().announced == None
            && W.Sends(r.ops) && W.Written(r.ops) == EncodeAll(fs)
            && W.SentHeader(W.START, r.ops) == h && W.SentOrder(r.ops) == [CONTENT_TYPE]
  {
    hide EncodeAll, Encode;
    var h := map[CONTENT_TYPE := [value]];
    var ops := PlainResponse(fs, value).ops;
    var s1 := W.Apply(W.START, ops[0]);
    assert ops[1..] == [ops[1]] && ops[1..][1..] == [] && !ops[1].Edit?;
    assert |CONTENT_TYPE| != |TRAILER| && |CONTENT_TYPE| != |W.CONTENT_LENGTH|;
    assert h - {TRAILER} == h && h - {W.CONTENT_LENGTH} == h;
    assert W.ApplyAll(s1, ops[1..]) == W.Apply(s1, ops[1]);
    assert W.Written(ops[1..]) == EncodeAll(fs) + [] == EncodeAll(fs);
    assert [] + EncodeAll(fs) == EncodeAll(fs);
  }

  lemma PlainTrailers(fs: seq<Frame>, value: Bytes)
    ensures PlainResponse(fs, value).Valid()
    ensures PlainResponse(fs, value).Trailers() == map[CONTENT_TYPE := [value]]
  {
    hide EncodeAll, Legal;
    PlainRun(fs, value);
    ContentTypeName();
    assert |CONTENT_TYPE| != |TRAILER|;
    EntryWalk(CONTENT_TYPE, value);
  }

  /** What its client gets: the messages, the content type, and the content type once more as
      a trailer. */
  lemma ContentTypeSentTwice(fs: seq<Frame>, value: Bytes, end: ConnRead)
    requires AllData(fs) && Printable(value) && |value| + 16 < LENGTH_LIMIT && CleanEnd(end)
    ensures PlainResponse(fs, value).Valid()
    ensures var clean := [CleanValue(value)];
            var header := map[CONTENT_TYPE := clean][PREFIX + CONTENT_TYPE := clean];
            && Receive(map[], Wire(PlainResponse(fs, value).Output(), end)) == View(header, EncodeAll(fs), None)
            && (Tidy(value) ==> header == map[CONTENT_TYPE := [value]][PREFIX + CONTENT_TYPE := [value]])
  {
    hide EncodeAll, CleanValue, CleanHeader, AddFields, Receive, Wire, Legal, Sendable, Tidy;
    CleanExactly(value);
    hide W.ApplyAll, W.SentHeader, W.SentOrder, W.Sends, W.Written, W.Closed, CollectedTrailers;
    var r, clean := PlainResponse(fs, value), [CleanValue(value)];
    PlainRun(fs, value);
    PlainTrailers(fs, value);
    ContentTypeTravels(value);
    ResponseRoundTrip(r, fs, end);
    EntryAdded(map[CONTENT_TYPE := clean], CONTENT_TYPE, clean);
  }

  lemma ContentTypeTravels(value: Bytes)
    requires Printable(value) && |value| + 16 < LENGTH_LIMIT
    ensures var h := map[CONTENT_TYPE := [value]];
            && Sendable(h, [CONTENT_TYPE])
            && CleanHeader(h) == map[CONTENT_TYPE := [CleanValue(value)]]
            && Values(CleanHeader(h), GRPC_STATUS) == []
    ensures PREFIX + CONTENT_TYPE != CONTENT_TYPE
  {
    hide CleanValue, WriteBlock, CleanHeader, Readable, Enumerates, ValidName, CanonicalKey;
    ContentTypeName();
    EntryBlock(CONTENT_TYPE, value);
    EntryTravels(CONTENT_TYPE, value);
    assert |CONTENT_TYPE| != |GRPC_STATUS| && |PREFIX + CONTENT_TYPE| != |CONTENT_TYPE|;
  }

  // ---------------------------------------------------------------- the ordinary response

  /** What a gRPC server does: announce trailers, write the messages, set a trailer k, under
      its name or behind the prefix. */
  function OneTrailer(fs: seq<Frame>, names: seq<Bytes>, key: Bytes, k: Bytes, v: Bytes): Response {
    Response([W.Edit(map[TRAILER := names]), W.Write(EncodeAll(fs), []), W.Edit(map[key := [v]])], [key], [k])
  }

  lemma OneTrailerRun(fs: seq<Frame>, names: seq<Bytes>, key: Bytes, k: Bytes, v: Bytes)
    ensures var r := OneTrailer(fs, names, key, k, v);
            && r.Handled().header == map[key := [v]] && r.Handled().announced == Some(names)
            && W.Sends(r.ops) && W.Written(r.ops) == EncodeAll(fs)
            && W.SentHeader(W.START, r.ops) == map[] && W.SentOrder(r.ops) == []
  {
    hide EncodeAll, Encode;
    var ops := OneTrailer(fs, names, key, k, v).ops;
    assert ops[1..] == [ops[1], ops[2]] && ops[1..][1..] == [ops[2]] && ops[1..][1..][1..] == [];
    assert !ops[1].Edit?;
    var s1 := W.Apply(W.START, ops[0]);
    var s2 := W.Apply(s1, ops[1]);
    assert W.ApplyAll(W.START, ops) == W.ApplyAll(s1, [ops[1], ops[2]]) == W.ApplyAll(s2, [ops[2]]);
    assert W.ApplyAll(s2, [ops[2]]) == W.Apply(s2, ops[2]);
    assert W.Written([ops[2]]) == [];
    assert W.Written([ops[1], ops[2]]) == EncodeAll(fs) + [] == EncodeAll(fs);
    assert [] + EncodeAll(fs) == EncodeAll(fs);
    assert !ops[1..][0].Edit?;
    assert s1.header - {TRAILER} - {W.CONTENT_LENGTH} == map[];
  }

  lemma EmptySendable()
    ensures Sendable(map[], []) && CleanHeader(map[]) == map[]
  {
  }

  lemma OneTrailerReachesClient(
    fs: seq<Frame>, names: seq<Bytes>, key: Bytes, k: Bytes, v: Bytes, end: ConnRead)
    requires AllData(fs) && Collects(names, key, k, v) && CanonicalName(k)
    requires Printable(v) && |k| + |v| + 4 < LENGTH_LIMIT && CleanEnd(end)
    ensures OneTrailer(fs, names, key, k, v).Valid()
    ensures var got := Receive(map[], Wire(OneTrailer(fs, names, key, k, v).Output(), end));
            && got == View(map[PREFIX + k := [CleanValue(v)]], EncodeAll(fs), None)
            && (Tidy(v) ==> got.header == map[PREFIX + k := [v]])
  {
    hide EncodeAll, CleanValue, WriteBlock, CleanHeader, Readable, Enumerates, AddFields, Receive, Wire, Legal, Tidy;
    var r := OneTrailer(fs, names, key, k, v);
    OneTrailerRun(fs, names, key, k, v);
    EntryBlock(k, v);
    EntryTravels(k, v);
    EmptySendable();
    CollectedCanonical(r.Handled().header, names, r.visits);
    ResponseRoundTrip(r, fs, end);
    EntryAdded(map[], k, [CleanValue(v)]);
    CleanExactly(v);
  }

  /** Messages and then a status, over WebSocket: the client has exactly the messages, and
      exactly one header entry, the status under the Trailer: prefix. */
  lemma StatusReachesClient(fs: seq<Frame>, status: Bytes, end: ConnRead)
    requires AllData(fs) && Printable(status) && |status| + 15 < LENGTH_LIMIT && CleanEnd(end)
    ensures OneTrailer(fs, [GRPC_STATUS], GRPC_STATUS, GRPC_STATUS, status).Valid()
    ensures var r := OneTrailer(fs, [GRPC_STATUS], GRPC_STATUS, GRPC_STATUS, status);
            var got := Receive(map[], Wire(r.Output(), end));
            && got == View(map[PREFIX + GRPC_STATUS := [CleanValue(status)]], EncodeAll(fs), None)
            && (Tidy(status) ==> got.header == map[PREFIX + GRPC_STATUS := [status]])
  {
    hide Receive, Wire, Legal, Collects, CanonicalKey;
    StatusWalk(status);
    StatusName();
    OneTrailerReachesClient(fs, [GRPC_STATUS], GRPC_STATUS, GRPC_STATUS, status, end);
  }

  /** The same for any trailer that the handler puts behind the prefix. */
  lemma EntryReachesClient(fs: seq<Frame>, k: Bytes, v: Bytes, end: ConnRead)
    requires AllData(fs) && CanonicalName(k) && Printable(v) && |k| + |v| + 4 < LENGTH_LIMIT && CleanEnd(end)
    ensures OneTrailer(fs, [], PREFIX + k, k, v).Valid()
    ensures var got := Receive(map[], Wire(OneTrailer(fs, [], PREFIX + k, k, v).Output(), end));
            && got == View(map[PREFIX + k := [CleanValue(v)]], EncodeAll(fs), None)
            && (Tidy(v) ==> got.header == map[PREFIX + k := [v]])
  {
    hide Receive, Wire, Legal, Collects, CanonicalName;
    MetadataWalk(k, v);
    OneTrailerReachesClient(fs, [], PREFIX + k, k, v, end);
  }

  /** A handler that sends nothing and sets a status. */
  function StatusOnly(status: Bytes, visits: seq<Bytes>): Response {
    Response([W.Edit(map[GRPC_STATUS := [status]])], visits, [GRPC_STATUS])
  }

  lemma StatusOnlyRun(status: Bytes, visits: seq<Bytes>)
    ensures var r := StatusOnly(status, visits);
            && r.Handled() == W.START.(header := map[GRPC_STATUS := [status]])
            && !W.Sends(r.ops)
  {
    var ops := StatusOnly(status, visits).ops;
    assert ops[1..] == [];
    assert W.ApplyAll(W.START, ops) == W.Apply(W.START, ops[0]);
  }

  /** Its client has exactly that status, as a header, and no body. */
  lemma StatusOnlyReachesClient(status: Bytes, visits: seq<Bytes>, end: ConnRead)
    requires Printable(status) && |status| + 15 < LENGTH_LIMIT
    requires StatusOnly(status, visits).Valid()
    ensures var got := Receive(map[], Wire(StatusOnly(status, visits).Output(), end));
            && got == View(map[GRPC_STATUS := [CleanValue(status)]], [], None)
            && (Tidy(status) ==> got.header == map[GRPC_STATUS := [status]])
  {
    hide CleanValue, WriteBlock, CleanHeader, Readable, Enumerates, Receive, Wire, Legal, Tidy, CanonicalKey;
    hide W.ApplyAll, W.Sends;
    var r := StatusOnly(status, visits);
    StatusOnlyRun(status, visits);
    StatusName();
    assert |GRPC_STATUS| != |TRAILER|;
    PlainEntryStays(GRPC_STATUS, status, visits);
    EntryBlock(GRPC_STATUS, status);
    EntryTravels(GRPC_STATUS, status);
    CleanExactly(status);
    TrailersOnlyRoundTrip(r, end);
  }

  /** Metadata round trip over WebSocket. A handler announces names and leaves plain entries p
      and any metadata m behind prefixes. For every valid name the client has, behind the
      prefix, the plain values if the name was announced, then the metadata, each as it was. */
  lemma MetadataReachesClient(r: Response, fs: seq<Frame>, end: ConnRead, p: Header, m: Header, x: Bytes)
    requires r.Valid() && W.Sends(r.ops) && r.Handled().announced.Some? && CleanEnd(end)
    requires AllData(fs) && W.Written(r.ops) == EncodeAll(fs)
    requires Sendable(W.SentHeader(W.START, r.ops), W.SentOrder(r.ops)) && Sendable(r.Trailers(), r.order)
    requires Values(CleanHeader(W.SentHeader(W.START, r.ops)), GRPC_STATUS) == []
    requires PrefixedKeys(p) == {} && Metadata(m) && r.Handled().header == LeftBehind(p, m)
    requires ValidName(x)
    ensures var got := Receive(map[], Wire(r.Output(), end));
            var sent := (if Announces(r.Handled().announced.value, x) then Values(p, x) else []) + Values(m, x);
            got.err == None && (AllTidy(sent) ==> Values(got.header, PREFIX + x) == sent)
  {
    hide EncodeAll, Receive, Wire, CleanHeader, AddFields, LeftBehind, Metadata, Announces, Legal, AllTidy, Sendable;
    ResponseRoundTrip(r, fs, end);
    PrefixedIsNoName(x);
    PrefixedIsNoName(PREFIX + x);
    AnnouncedExactly(p, m, r.Handled().announced.value, r.visits, x);
    var h := CleanHeader(W.SentHeader(W.START, r.ops));
    CleanAt(W.SentHeader(W.START, r.ops), PREFIX + x);
    CleanAt(r.Trailers(), x);
    CleanValuesExactly(Values(r.Trailers(), x));
    AddFieldsAt(h, CleanHeader(r.Trailers()), PREFIX, PREFIX + x);
    assert (PREFIX + x)[|PREFIX|..] == x;
  }

  lemma EntryAdded(h: Header, k: Bytes, vs: seq<Bytes>)
    requires PREFIX + k !in h
    ensures AddFields(h, map[k := vs], PREFIX) == h[PREFIX + k := vs]
  {
    AddNoFields(h, PREFIX);
    AddFieldsOneMore(h, map[], PREFIX, k, vs);
    assert [] + vs == vs;
  }
}
