/** The server's WebSocket response writer: one metadata frame with the header, the
    handler's data frames, and one metadata frame with the trailers. */
module WebSocketWriter {
  import opened Framing
  import opened HeaderBlock
  import opened TrailerCollection
  import GrpcWebWriter

  const CONTENT_LENGTH: Bytes := GrpcWebWriter.CONTENT_LENGTH

  datatype State = State(header: Header, headerWritten: bool, announced: Option<seq<Bytes>>, out: Bytes)

  const START: State := State(map[], false, None, [])

  function BlockFrame(h: Header, order: seq<Bytes>): Frame {
    Frame(METADATA_FLAGS, WriteBlock(h, order))
  }

  /** WriteHeader, names written in the given order. */
  function SendHeader(s: State, order: seq<Bytes>): State {
    if s.headerWritten then s
    else
      var h := s.header - {TRAILER} - {CONTENT_LENGTH};
      State(h, true, GrpcWebWriter.CloneTrailer(s.header), s.out + Encode(BlockFrame(h, order)))
  }

  datatype Op =
    | Edit(header: Header)
    | WriteHeader(order: seq<Bytes>)
    | Write(data: Bytes, order: seq<Bytes>)

  function Apply(s: State, op: Op): State {
    match op
    case Edit(h) => s.(header := h)
    case WriteHeader(order) => SendHeader(s, order)
    case Write(data, order) =>
      var t := SendHeader(s, order);
      t.(out := t.out + data)
  }

  function ApplyAll(s: State, ops: seq<Op>): State
    decreases ops
  {
    if ops == [] then s else ApplyAll(Apply(s, ops[0]), ops[1..])
  }

  /** Close */
  function Closed(s: State, visits: seq<Bytes>, order: seq<Bytes>): State
    requires Legal(StartWalk(s.header, s.announced), visits)
  {
    s.(header := CollectedHeader(s.header, s.announced, visits),
       out := s.out + Encode(BlockFrame(CollectedTrailers(s.header, s.announced, visits), order)))
  }

  /** What Close leaves in the header, for a handler that left plain entries and metadata
      behind prefixes: as in a gRPC-Web response. */
  lemma ClosedExactly(s: State, p: Header, m: Header, visits: seq<Bytes>, order: seq<Bytes>, x: Bytes)
    requires PrefixedKeys(p) == {} && Metadata(m) && s.header == LeftBehind(p, m)
    requires Legal(StartWalk(s.header, s.announced), visits)
    ensures var h := Closed(s, visits, order).header;
            && PrefixedKeys(h) == {}
            && (s.announced.Some? ==> h == p)
            && (s.announced.None? && !Prefixed(x) ==>
                  && (x in h <==> (x in p && x != TRAILER) || x in m)
                  && Values(h, x) == (if x == TRAILER then [] else Values(p, x)) + Values(m, x))
  {
    var g := GrpcWebWriter.State(s.header, s.announced, []);
    GrpcWebWriter.FinalizedExactly(g, p, m, visits, order, x);
  }

  class WsResponseWriter {
    var header: Header
    var headerWritten: bool
    var announcedTrailers: Option<seq<Bytes>>
    var out: Bytes // what has gone into the pipe

    ghost function Model(): State
      reads this
    {
      State(header, headerWritten, announcedTrailers, out)
    }

    constructor ()
      ensures Model() == START
    {
      header := map[];
      headerWritten, announcedTrailers, out := false, None, [];
    }

    method WriteStatus(order: seq<Bytes>)
      modifies this
      ensures Model() == Apply(old(Model()), WriteHeader(order))
    {
      if headerWritten {
        return;
      }
      announcedTrailers := if TRAILER in header then Some(header[TRAILER]) else None;
      header := header - {TRAILER};
      header := header - {CONTENT_LENGTH};
      var buf := WriteBlock(header, order);
      ghost var before := out;
      out := out + MessageHeader(METADATA_FLAGS, |buf|);
      out := out + buf;
      Assoc(before, MessageHeader(METADATA_FLAGS, |buf|), buf);
      headerWritten := true;
    }

    method WriteData(data: Bytes, order: seq<Bytes>)
      modifies this
      ensures Model() == Apply(old(Model()), Write(data, order))
    {
      if !headerWritten {
        WriteStatus(order);
      }
      out := out + data;
    }

    method Close(visits: seq<Bytes>, order: seq<Bytes>)
      requires Legal(StartWalk(header, announcedTrailers), visits)
      modifies this
      ensures Model() == Closed(old(Model()), visits, order)
    {
      var hdr, trailers := CollectTrailers(header, announcedTrailers, visits);
      header := hdr;
      var buf := WriteBlock(trailers, order);
      ghost var before := out;
      out := out + MessageHeader(METADATA_FLAGS, |buf|);
      out := out + buf;
      Assoc(before, MessageHeader(METADATA_FLAGS, |buf|), buf);
    }
  }

  // ---------------------------------------------------------------- what a run puts into the pipe

  /** The handler's data, in order. */
  function Written(ops: seq<Op>): Bytes {
    if ops == [] then []
    else (if ops[0].Write? then ops[0].data else []) + Written(ops[1..])
  }

  /** Whether any operation sends the header. */
  predicate Sends(ops: seq<Op>) {
    exists i :: 0 <= i < |ops| && !ops[i].Edit?
  }

  lemma {:induction false} DataAfterHeader(s: State, ops: seq<Op>)
    requires s.headerWritten
    ensures var t := ApplyAll(s, ops);
            t.out == s.out + Written(ops) && t.headerWritten && t.announced == s.announced
    decreases ops
  {
    if ops == [] {
      assert s.out + [] == s.out;
    } else {
      var data := if ops[0].Write? then ops[0].data else [];
      var t := Apply(s, ops[0]);
      assert t.out == s.out + data;
      DataAfterHeader(t, ops[1..]);
      Assoc(s.out, data, Written(ops[1..]));
    }
  }

  /** The header as it is when it goes out. */
  function SentHeader(s: State, ops: seq<Op>): Header
    requires Sends(ops)
    decreases ops
  {
    if ops[0].Edit? then
      SendsLater(ops);
      SentHeader(Apply(s, ops[0]), ops[1..])
    else s.header - {TRAILER} - {CONTENT_LENGTH}
  }

  /** The header on the wire neither announces trailers nor carries a content length. */
  lemma {:induction false} SentHeaderClean(s: State, ops: seq<Op>)
    requires Sends(ops)
    ensures TRAILER !in SentHeader(s, ops) && CONTENT_LENGTH !in SentHeader(s, ops)
    decreases ops
  {
    if ops[0].Edit? {
      SendsLater(ops);
      SentHeaderClean(Apply(s, ops[0]), ops[1..]);
    }
  }

  function SentOrder(ops: seq<Op>): seq<Bytes>
    requires Sends(ops)
  {
    if ops[0].Edit? then
      SendsLater(ops);
      SentOrder(ops[1..])
    else ops[0].order
  }

  lemma SendsLater(ops: seq<Op>)
    requires Sends(ops) && ops[0].Edit?
    ensures Sends(ops[1..])
  {
    var i :| 0 <= i < |ops| && !ops[i].Edit?;
    assert ops[1..][i - 1] == ops[i];
  }

  /** Before Close, the pipe holds the header frame and then exactly the data, provided
      anything was sent at all; otherwise nothing. */
  lemma {:induction false} PipeContents(s: State, ops: seq<Op>)
    requires !s.headerWritten
    ensures var t := ApplyAll(s, ops);
            if Sends(ops) then
              && t.headerWritten
              && t.out == s.out + (Encode(BlockFrame(SentHeader(s, ops), SentOrder(ops))) + Written(ops))
            else !t.headerWritten && t.out == s.out && t.announced == s.announced && Written(ops) == []
    decreases ops
  {
    hide Encode;
    if ops != [] {
      if ops[0].Edit? {
        PipeContents(Apply(s, ops[0]), ops[1..]);
        assert [] + Written(ops[1..]) == Written(ops[1..]);
        if Sends(ops) {
          SendsLater(ops);
        } else {
          assert forall i :: 0 <= i < |ops[1..]| ==> ops[1..][i] == ops[i + 1];
        }
      } else {
        assert Sends(ops);
        var data := if ops[0].Write? then ops[0].data else [];
        var t := Apply(s, ops[0]);
        var e := Encode(BlockFrame(SentHeader(s, ops), SentOrder(ops)));
        assert t.out == (s.out + e) + data by { assert (s.out + e) + [] == s.out + e; }
        DataAfterHeader(t, ops[1..]);
        Assoc(s.out + e, data, Written(ops[1..]));
        Assoc(s.out, e, Written(ops));
      }
    }
  }
}
