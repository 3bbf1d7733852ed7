/** The gRPC-Web response writer: passes the body through and, once finalised, sends
    the trailers in a data frame of their own. */
module GrpcWebWriter {
  import opened Framing
  import opened HeaderBlock
  import opened TrailerCollection

  const PLUS: byte := 43
  /** "Content-Type" */
  const CONTENT_TYPE: Bytes := [67, 111, 110, 116, 101, 110, 116, 45, 84, 121, 112, 101]
  /** "Content-Length" */
  const CONTENT_LENGTH: Bytes := [67, 111, 110, 116, 101, 110, 116, 45, 76, 101, 110, 103, 116, 104]
  /** "application/grpc" */
  const GRPC: Bytes := [97, 112, 112, 108, 105, 99, 97, 116, 105, 111, 110, 47, 103, 114, 112, 99]
  /** "-web" */
  const WEB: Bytes := [45, 119, 101, 98]

  // ---------------------------------------------------------------- content types

  /** stringutils.Split2 at the first plus sign. */
  function SplitPlus(s: Bytes): (Bytes, Bytes) {
    var i := IndexOf(s, PLUS);
    if i == |s| then (s, []) else (s[..i], s[i + 1..])
  }

  function WithSubtype(contentType: Bytes, subtype: Bytes): Bytes {
    if subtype == [] then contentType else contentType + [PLUS] + subtype
  }

  /** The writer's downgrade of the content type. */
  function Downgrade(ct: Bytes): Bytes {
    var (t, sub) := SplitPlus(ct);
    WithSubtype(GRPC + WEB, if t == GRPC then sub else [])
  }

  /** The client's modifyResponse, undoing it. */
  function Upgrade(ct: Bytes): Bytes {
    var (t, sub) := SplitPlus(ct);
    if t != GRPC + WEB then ct else WithSubtype(GRPC, sub)
  }

  lemma SplitOfSubtype(t: Bytes, sub: Bytes)
    requires PLUS !in t
    ensures SplitPlus(WithSubtype(t, sub)) == (t, sub)
  {
    var s := WithSubtype(t, sub);
    if sub == [] {
      assert IndexOf(s, PLUS) == |s|;
    } else {
      assert s[|t|] == PLUS;
      assert IndexOf(s, PLUS) == |t|;
      assert s[..|t|] == t && s[|t| + 1..] == sub;
    }
  }

  /** The client restores the content type exactly when it was a gRPC one, with a
      non-empty subtype or none. */
  lemma ContentTypeRoundTrip(ct: Bytes)
    ensures Upgrade(Downgrade(ct)) == ct <==> ct == WithSubtype(GRPC, SplitPlus(ct).1)
  {
    var (t, sub) := SplitPlus(ct);
    var kept := if t == GRPC then sub else [];
    assert PLUS !in GRPC && PLUS !in GRPC + WEB;
    SplitOfSubtype(GRPC + WEB, kept);
    SplitOfSubtype(GRPC, sub);
    assert Upgrade(Downgrade(ct)) == WithSubtype(GRPC, kept);
    SplitOfSubtype(GRPC, kept);
  }

  /** "application/grpc-web" */
  const GRPC_WEB: Bytes :=
    [97, 112, 112, 108, 105, 99, 97, 116, 105, 111, 110, 47, 103, 114, 112, 99, 45, 119, 101, 98]

  /** What goes on the wire: the gRPC-Web type, with the subtype of a gRPC type if it has one. */
  lemma DowngradeExactly(ct: Bytes, sub: Bytes)
    ensures sub != [] && ct == GRPC + [PLUS] + sub ==> Downgrade(ct) == GRPC_WEB + [PLUS] + sub
    ensures !(GRPC + [PLUS] < ct) ==> Downgrade(ct) == GRPC_WEB
  {
    WebType();
    var (t, rest) := SplitPlus(ct);
    if sub != [] && ct == GRPC + [PLUS] + sub {
      assert PLUS !in GRPC;
      SplitOfSubtype(GRPC, sub);
    } else if t == GRPC && rest != [] {
      var i := IndexOf(ct, PLUS);
      assert ct == t + [PLUS] + rest;
    }
  }

  lemma WebType()
    ensures GRPC + WEB == GRPC_WEB
  {
  }

  // ---------------------------------------------------------------- the writer's state

  datatype State = State(header: Header, announced: Option<seq<Bytes>>, body: Bytes)

  function Start(header: Header): State {
    State(header, None, [])
  }

  /** ShallowClone(hdr["Trailer"]): nil, here None, when no Trailer header is there. */
  function CloneTrailer(header: Header): Option<seq<Bytes>> {
    if TRAILER in header then Some(header[TRAILER]) else None
  }

  function FirstValue(header: Header, k: Bytes): Bytes {
    if Values(header, k) == [] then [] else Values(header, k)[0]
  }

  /** prepareHeadersIfNecessary */
  function Prepare(s: State): State {
    if s.announced.Some? then s
    else
      var h := s.header - {TRAILER};
      var ct := Downgrade(FirstValue(h, CONTENT_TYPE));
      s.(announced := CloneTrailer(s.header), header := h[CONTENT_TYPE := [ct]] - {CONTENT_LENGTH})
  }

  /** Headers as they go out: no trailer announcement, no content length, and everything
      else as the handler left it. The content type is too, once the client has undone its
      downgrade, exactly when it was a gRPC one. */
  lemma PreparedHeader(s: State, k: Bytes)
    ensures s.announced.Some? ==> Prepare(s) == s
    ensures s.announced.None? ==>
            var (h, ct) := (Prepare(s).header, FirstValue(s.header, CONTENT_TYPE));
            && TRAILER !in h && CONTENT_LENGTH !in h
            && (Upgrade(FirstValue(h, CONTENT_TYPE)) == ct <==> ct == WithSubtype(GRPC, SplitPlus(ct).1))
            && (k != TRAILER && k != CONTENT_LENGTH && k != CONTENT_TYPE ==> Values(h, k) == Values(s.header, k))
            && Prepare(s).announced == (if TRAILER in s.header then Some(s.header[TRAILER]) else None)
            && Prepare(s).body == s.body
  {
    hide Downgrade, Upgrade;
    assert |TRAILER| != |CONTENT_TYPE| && |CONTENT_TYPE| != |CONTENT_LENGTH|;
    ContentTypeRoundTrip(FirstValue(s.header, CONTENT_TYPE));
  }

  /** What a handler does with the writer. */
  datatype Op =
    | Edit(header: Header) // leaves the header map in this state
    | Write(data: Bytes)
    | WriteHeader
    | Flush

  function Apply(s: State, op: Op): State {
    match op
    case Edit(h) => s.(header := h)
    case Write(data) => var p := Prepare(s); p.(body := p.body + data)
    case WriteHeader => Prepare(s)
    case Flush => if s.announced.None? then s else Prepare(s)
  }

  function ApplyAll(s: State, ops: seq<Op>): State
    decreases ops
  {
    if ops == [] then s else ApplyAll(Apply(s, ops[0]), ops[1..])
  }

  /** All bytes written by a handler, in order. */
  function Written(ops: seq<Op>): Bytes {
    if ops == [] then []
    else (if ops[0].Write? then ops[0].data else []) + Written(ops[1..])
  }

  lemma {:induction false} BodyIsWritten(s: State, ops: seq<Op>)
    ensures ApplyAll(s, ops).body == s.body + Written(ops)
    decreases ops
  {
    if ops != [] {
      var data := if ops[0].Write? then ops[0].data else [];
      assert Apply(s, ops[0]).body == s.body + data;
      BodyIsWritten(Apply(s, ops[0]), ops[1..]);
      Assoc(s.body, data, Written(ops[1..]));
    }
  }

  /** Finalize: `visits` is the order in which the range loop meets the header keys,
      `order` the one in which the trailer names are written. */
  function Finalized(s: State, visits: seq<Bytes>, order: seq<Bytes>): State
    requires Legal(StartWalk(s.header, s.announced), visits)
  {
    var header := CollectedHeader(s.header, s.announced, visits);
    if s.announced.None? then s.(header := header)
    else
      var block := WriteBlock(CollectedTrailers(s.header, s.announced, visits), order);
      s.(header := header, body := s.body + Encode(Frame(METADATA_FLAGS, block)))
  }

  // ---------------------------------------------------------------- when headers go out

  /** What makes headers go out: writing, or sending them. Flushing does not. */
  predicate Sends(op: Op) {
    op.Write? || op.WriteHeader?
  }

  /** Trailers count as announced exactly when, at some Write or WriteHeader of the run, the
      header held a Trailer entry. */
  lemma {:induction false} AnnouncedWhenSent(s: State, ops: seq<Op>)
    ensures ApplyAll(s, ops).announced.Some? <==>
            s.announced.Some? || exists i :: 0 <= i < |ops| && Sends(ops[i]) && TRAILER in ApplyAll(s, ops[..i]).header
    ensures s.announced.Some? ==> ApplyAll(s, ops).announced == s.announced
    decreases ops
  {
    hide Apply;
    if ops != [] {
      var t := Apply(s, ops[0]);
      AnnouncedWhenSent(t, ops[1..]);
      ApplyAnnounced(s, ops[0]);
      assert ops[..0] == [];
      forall i | 0 < i < |ops|
        ensures ApplyAll(s, ops[..i]) == ApplyAll(t, ops[1..][..i - 1]) && ops[i] == ops[1..][i - 1]
      {
        assert ops[..i][1..] == ops[1..][..i - 1];
      }
      if exists i :: 0 <= i < |ops[1..]| && Sends(ops[1..][i]) && TRAILER in ApplyAll(t, ops[1..][..i]).header {
        var i :| 0 <= i < |ops[1..]| && Sends(ops[1..][i]) && TRAILER in ApplyAll(t, ops[1..][..i]).header;
        assert Sends(ops[i + 1]) && TRAILER in ApplyAll(s, ops[..i + 1]).header;
      }
    }
  }

  lemma ApplyAnnounced(s: State, op: Op)
    ensures Apply(s, op).announced
         == if s.announced.Some? || !Sends(op) then s.announced else CloneTrailer(s.header)
  {
  }

  /** Flushing never changes anything but the underlying writer's buffers. */
  lemma FlushIsSilent(s: State)
    ensures Apply(s, Flush) == s
  {
  }

  /** Sending the header is writing nothing. */
  lemma HeaderIsEmptyWrite(s: State)
    ensures Apply(s, WriteHeader) == Apply(s, Write([]))
  {
    assert Prepare(s).body + [] == Prepare(s).body;
  }

  // ---------------------------------------------------------------- what finalising leaves in the header

  /** With trailers announced, exactly the plain entries. Without, the header is the trailers:
      no prefixed key, the names of all entries but Trailer, prefixed ones under their plain
      name, and under each name all values that belong to it. The announcement is kept, and
      without one nothing more is sent. */
  lemma FinalizedHeader(s: State, visits: seq<Bytes>, order: seq<Bytes>, name: Bytes)
    requires Legal(StartWalk(s.header, s.announced), visits)
    ensures var t := Finalized(s, visits, order);
            var left := s.header - {TRAILER};
            && t.announced == s.announced
            && (s.announced.Some? ==> t.header == Plain(s.header))
            && (s.announced.None? ==> t.body == s.body)
            && (s.announced.None? && NoneDoubled(s.header) ==>
                  && PrefixedKeys(t.header) == {} && t.header.Keys == Targets(left.Keys)
                  && multiset(Values(t.header, name)) == Load(left, left.Keys, name))
  {
    hide Load;
    var w := StartWalk(s.header, s.announced);
    if s.announced.Some? {
      SeparateConfluence(w, visits, name);
    } else if NoneDoubled(s.header) {
      AliasedConfluence(w, visits, name);
    }
  }

  /** For a handler that leaves plain entries and metadata behind prefixes, exactly: a
      trailers-only response is the plain entries and the metadata, in that order. */
  lemma FinalizedExactly(s: State, p: Header, m: Header, visits: seq<Bytes>, order: seq<Bytes>, x: Bytes)
    requires PrefixedKeys(p) == {} && Metadata(m) && s.header == LeftBehind(p, m)
    requires Legal(StartWalk(s.header, s.announced), visits)
    ensures var h := Finalized(s, visits, order).header;
            && PrefixedKeys(h) == {}
            && (s.announced.Some? ==> h == p)
            && (s.announced.None? && !Prefixed(x) ==>
                  && (x in h <==> (x in p && x != TRAILER) || x in m)
                  && Values(h, x) == (if x == TRAILER then [] else Values(p, x)) + Values(m, x))
  {
    hide LeftBehind, Metadata, Legal;
    if s.announced.Some? {
      assert !Prefixed([]);
      AnnouncedExactly(p, m, s.announced.value, visits, []);
    } else {
      assert !Prefixed([]);
      TrailersOnlyExactly(p, m, visits, if Prefixed(x) then [] else x);
    }
  }

  /** A handler that writes nothing and sets one trailer, plain or behind the prefix, has it as
      the one entry of its header, and no body. */
  lemma OneTrailerOnly(k: Bytes, v: Bytes, plain: bool, visits: seq<Bytes>, order: seq<Bytes>)
    requires CanonicalName(k) && k != TRAILER
    requires Legal(StartWalk(map[(if plain then k else PREFIX + k) := [v]], None), visits)
    ensures var s := Start(map[(if plain then k else PREFIX + k) := [v]]);
            Finalized(s, visits, order) == State(map[k := [v]], None, [])
  {
    hide Legal, CanonicalName;
    if plain {
      NamePlain(k);
      PlainEntryStays(k, v, visits);
    } else {
      EntryArrivesUnannounced(k, v, visits);
    }
  }

  class ResponseWriter {
    var header: Header
    var announcedTrailers: Option<seq<Bytes>>
    var body: Bytes

    ghost function Model(): State
      reads this
    {
      State(header, announcedTrailers, body)
    }

    constructor (header: Header)
      ensures Model() == Start(header)
    {
      this.header := header;
      announcedTrailers := None;
      body := [];
    }

    method PrepareHeadersIfNecessary()
      modifies this
      ensures Model() == Prepare(old(Model()))
    {
      if announcedTrailers.Some? {
        return;
      }
      announcedTrailers := if TRAILER in header then Some(header[TRAILER]) else None;
      header := header - {TRAILER};
      header := header[CONTENT_TYPE := [Downgrade(FirstValue(header, CONTENT_TYPE))]];
      header := header - {CONTENT_LENGTH};
    }

    method WriteStatus()
      modifies this
      ensures Model() == Apply(old(Model()), WriteHeader)
    {
      PrepareHeadersIfNecessary();
    }

    method WriteData(data: Bytes)
      modifies this
      ensures Model() == Apply(old(Model()), Write(data))
    {
      PrepareHeadersIfNecessary();
      body := body + data;
    }

    method FlushData()
      modifies this
      ensures Model() == Apply(old(Model()), Flush)
    {
      if announcedTrailers.None? {
        return;
      }
      PrepareHeadersIfNecessary();
    }

    method Finalize(visits: seq<Bytes>, order: seq<Bytes>)
      requires Legal(StartWalk(header, announcedTrailers), visits)
      modifies this
      ensures Model() == Finalized(old(Model()), visits, order)
    {
      var hdr, trailers := CollectTrailers(header, announcedTrailers, visits);
      header := hdr;
      if announcedTrailers.None? {
        return;
      }
      var buf := WriteBlock(trailers, order);
      ghost var before := body;
      body := body + MessageHeader(METADATA_FLAGS, |buf|);
      body := body + buf;
      Assoc(before, MessageHeader(METADATA_FLAGS, |buf|), buf);
    }
  }
}
