/** readFromServer: the loop that turns server messages into a response, and the exact
    language of message sequences it accepts. */
module WebSocketReceive {
  import opened Framing
  import opened HeaderBlock
  import opened TrailerCollection
  import opened WebSocketProxy

  /** What the client's response writer holds afterwards, and what was returned. */
  datatype View = View(header: Header, body: Bytes, err: Option<Failure>)

  predicate CleanEnd(m: ConnRead) {
    m == PlainEof || (m.CloseFrame? && (m.status == NORMAL_CLOSURE || m.status == GOING_AWAY))
  }

  /** After the trailers only the end of the connection may come. */
  function ReceiveEnd(h: Header, body: Bytes, msgs: seq<ConnRead>): View {
    if msgs == [] then View(h, body, Some(ReadError))
    else if msgs[0].Msg? then View(h, body, Some(MessageAfterTrailers))
    else View(h, body, if CleanEnd(msgs[0]) then None else Some(ReadError))
  }

  /** A binary message that is one valid frame, or why it is not. */
  function CheckFrame(m: ConnRead): Option<Failure> {
    match m
    case Msg(binary, data) =>
      if !binary then Some(NotBinary)
      else
        var e := ValidateGRPCFrame(data);
        if e.Some? then Some(BadFrame(e.value)) else None
    case _ => Some(ReadError)
  }

  function ReceiveBody(h: Header, body: Bytes, msgs: seq<ConnRead>): View
    decreases msgs
  {
    if msgs == [] then View(h, body, Some(ReadError))
    else if CheckFrame(msgs[0]).Some? then View(h, body, CheckFrame(msgs[0]))
    else
      var data := msgs[0].data;
      if IsDataFrame(data) then ReceiveBody(h, body + data, msgs[1..])
      else if IsCompressed(data) then View(h, body, Some(CompressedTrailers))
      else match SetHeader(h, data[HEADER_LENGTH..], true)
        case None => View(h, body, Some(BadBlock))
        case Some(h') => ReceiveEnd(h', body, msgs[1..])
  }

  function ReceiveHeader(h: Header, msgs: seq<ConnRead>): (r: (Header, Option<Failure>)) {
    if msgs == [] then (h, Some(ReadError))
    else if CheckFrame(msgs[0]).Some? then (h, CheckFrame(msgs[0]))
    else if !IsMetadataFrame(msgs[0].data) then (h, Some(NotMetadata))
    else match SetHeader(h, msgs[0].data[HEADER_LENGTH..], false)
      case None => (h, Some(BadBlock))
      case Some(h') => (h', None)
  }

  function Receive(h: Header, msgs: seq<ConnRead>): View {
    var (h1, err) := ReceiveHeader(h, msgs);
    if err.Some? then View(h1, [], err)
    else if Values(h1, GRPC_STATUS) != [] then View(h1, [], None)
    else
      assert msgs != [];
      ReceiveBody(h1, [], msgs[1..])
  }

  class WebSocketConn {
    var header: Header
    var body: Bytes

    constructor (header: Header)
      ensures this.header == header && body == []
    {
      this.header := header;
      body := [];
    }

    method ReadHeader(msgs: seq<ConnRead>) returns (err: Option<Failure>)
      modifies this`header
      ensures (header, err) == ReceiveHeader(old(header), msgs)
      ensures err.None? ==> msgs != []
    {
      if msgs == [] || !msgs[0].Msg? {
        return Some(ReadError);
      }
      if !msgs[0].binary {
        return Some(NotBinary);
      }
      var msg := msgs[0].data;
      var bad := ValidateGRPCFrame(msg);
      if bad.Some? {
        return Some(BadFrame(bad.value));
      }
      if !IsMetadataFrame(msg) {
        return Some(NotMetadata);
      }
      var h := SetHeaderFields(header, msg[HEADER_LENGTH..], false);
      if h.None? {
        return Some(BadBlock);
      }
      header := h.value;
      return None;
    }

    /** readFromServer with the answers the connection will give; a connection that has
        nothing more to say fails. */
    method ReadFromServer(msgs: seq<ConnRead>) returns (err: Option<Failure>)
      requires body == []
      modifies this
      ensures View(header, body, err) == Receive(old(header), msgs)
    {
      hide SetHeader;
      err := ReadHeader(msgs);
      if err.Some? {
        return;
      }
      if Values(header, GRPC_STATUS) != [] {
        return;
      }
      var dataExpected := true;
      var rest := msgs[1..];
      while true
        invariant Receive(old(header), msgs)
               == if dataExpected then ReceiveBody(header, body, rest) else ReceiveEnd(header, body, rest)
        decreases |rest|
      {
        if rest == [] || !rest[0].Msg? {
          if dataExpected || rest == [] || !CleanEnd(rest[0]) {
            return Some(ReadError);
          }
          return None;
        }
        if !dataExpected {
          return Some(MessageAfterTrailers);
        }
        if !rest[0].binary {
          return Some(NotBinary);
        }
        var msg := rest[0].data;
        var bad := ValidateGRPCFrame(msg);
        if bad.Some? {
          return Some(BadFrame(bad.value));
        }
        if IsDataFrame(msg) {
          body := body + msg;
        } else {
          if IsCompressed(msg) {
            return Some(CompressedTrailers);
          }
          dataExpected := false;
          var h := SetHeaderFields(header, msg[HEADER_LENGTH..], true);
          if h.None? {
            return Some(BadBlock);
          }
          header := h.value;
        }
        rest := rest[1..];
      }
    }
  }

  // ---------------------------------------------------------------- the accepted language

  ghost predicate Carries(m: ConnRead, f: Frame) {
    Fits(f) && m == Msg(true, Encode(f))
  }

  ghost predicate CarryAll(msgs: seq<ConnRead>, fs: seq<Frame>) {
    |fs| <= |msgs| && forall i :: 0 <= i < |fs| ==> Carries(msgs[i], fs[i])
  }

  /** Data frames, one uncompressed metadata frame that parses, and a clean end. */
  ghost predicate BodyLanguage(h: Header, msgs: seq<ConnRead>, fs: seq<Frame>, t: Frame, h': Header) {
    && AllData(fs) && CarryAll(msgs, fs)
    && |msgs| >= |fs| + 2
    && Carries(msgs[|fs|], t) && Msb(t.flags) && t.flags % 2 == 0
    && SetHeader(h, t.payload, true) == Some(h')
    && CleanEnd(msgs[|fs| + 1])
  }

  /** A metadata frame that parses and turns the header h into h1. */
  ghost predicate HeaderLanguage(h: Header, msgs: seq<ConnRead>, f: Frame, h1: Header) {
    && msgs != [] && Carries(msgs[0], f) && Msb(f.flags)
    && SetHeader(h, f.payload, false) == Some(h1)
  }

  lemma FrameMessage(m: ConnRead) returns (f: Frame)
    requires CheckFrame(m).None?
    ensures Carries(m, f) && m.data[0] == f.flags && m.data[HEADER_LENGTH..] == f.payload
  {
    ValidFrames(m.data);
    f := Head(m.data).value;
    HeadSound(m.data);
  }

  lemma CarriedFrame(m: ConnRead, f: Frame)
    requires Carries(m, f)
    ensures CheckFrame(m).None? && m.data != [] && m.data[0] == f.flags && m.data[HEADER_LENGTH..] == f.payload
  {
    EncodedIsValid(f);
    HeadOfEncode(f, []);
  }

  /** Data frames are written to the body one after the other. */
  lemma {:induction false} BodyReaches(h: Header, body: Bytes, msgs: seq<ConnRead>, fs: seq<Frame>)
    requires AllData(fs) && CarryAll(msgs, fs)
    ensures ReceiveBody(h, body, msgs) == ReceiveBody(h, body + EncodeAll(fs), msgs[|fs|..])
    decreases fs
  {
    hide SetHeader, CheckFrame, Encode;
    if fs == [] {
      assert body + [] == body && msgs[0..] == msgs;
    } else {
      CarriedFrame(msgs[0], fs[0]);
      assert AllData(fs[1..]) && CarryAll(msgs[1..], fs[1..]);
      BodyReaches(h, body + Encode(fs[0]), msgs[1..], fs[1..]);
      Assoc(body, Encode(fs[0]), EncodeAll(fs[1..]));
      assert msgs[1..][|fs| - 1..] == msgs[|fs|..];
    }
  }

  /** An uncompressed metadata frame ends the body: with the trailers if its block parses and
      the connection then ends cleanly, otherwise with an error. */
  lemma TrailersReceived(h: Header, body: Bytes, msgs: seq<ConnRead>, t: Frame)
    requires |msgs| >= 2 && Carries(msgs[0], t) && Msb(t.flags) && t.flags % 2 == 0 && CleanEnd(msgs[1])
    ensures ReceiveBody(h, body, msgs)
         == match SetHeader(h, t.payload, true)
            case None => View(h, body, Some(BadBlock))
            case Some(h') => View(h', body, None)
  {
    hide SetHeader, CheckFrame, Encode;
    CarriedFrame(msgs[0], t);
  }

  lemma BodyComplete(h: Header, body: Bytes, msgs: seq<ConnRead>, fs: seq<Frame>, t: Frame, h': Header)
    requires BodyLanguage(h, msgs, fs, t, h')
    ensures ReceiveBody(h, body, msgs) == View(h', body + EncodeAll(fs), None)
  {
    hide SetHeader, Encode, ReceiveBody;
    BodyReaches(h, body, msgs, fs);
    TrailersReceived(h, body + EncodeAll(fs), msgs[|fs|..], t);
  }

  lemma {:induction false} BodySound(h: Header, body: Bytes, msgs: seq<ConnRead>) returns (fs: seq<Frame>, t: Frame)
    requires ReceiveBody(h, body, msgs).err.None?
    ensures BodyLanguage(h, msgs, fs, t, ReceiveBody(h, body, msgs).header)
    decreases msgs
  {
    hide SetHeader, CheckFrame, Encode;
    var f := FrameMessage(msgs[0]);
    CarriedFrame(msgs[0], f);
    if IsData(f) {
      var gs;
      gs, t := BodySound(h, body + msgs[0].data, msgs[1..]);
      fs := [f] + gs;
      assert msgs[|fs|] == msgs[1..][|gs|] && msgs[|fs| + 1] == msgs[1..][|gs| + 1];
      assert forall i :: 1 <= i < |fs| ==> fs[i] == gs[i - 1] && msgs[i] == msgs[1..][i - 1];
    } else {
      fs, t := [], f;
    }
  }

  ghost predicate CarriesData(m: ConnRead) {
    exists f :: Carries(m, f) && IsData(f)
  }

  /** All data frames at the head of the messages. */
  ghost predicate LeadingData(msgs: seq<ConnRead>, fs: seq<Frame>) {
    AllData(fs) && CarryAll(msgs, fs) && (|fs| < |msgs| ==> !CarriesData(msgs[|fs|]))
  }

  lemma NoData(m: ConnRead)
    requires CheckFrame(m).Some? || !IsDataFrame(m.data)
    ensures !CarriesData(m)
  {
    if f :| Carries(m, f) && IsData(f) {
      CarriedFrame(m, f);
      assert false;
    }
  }

  /** In every run, failing ones included, the body written is the concatenation of all data
      frames at the head of the messages that follow the header. */
  lemma {:induction false} BodyIsData(h: Header, body: Bytes, msgs: seq<ConnRead>) returns (fs: seq<Frame>)
    ensures LeadingData(msgs, fs)
    ensures ReceiveBody(h, body, msgs).body == body + EncodeAll(fs)
    decreases msgs
  {
    hide SetHeader, CheckFrame, Encode;
    fs := [];
    assert body + [] == body;
    if msgs != [] {
      if CheckFrame(msgs[0]).Some? {
        NoData(msgs[0]);
      } else {
        var f := FrameMessage(msgs[0]);
        if IsData(f) {
          var gs := BodyIsData(h, body + msgs[0].data, msgs[1..]);
          fs := [f] + gs;
          EncodeAllCons(f, gs);
          Assoc(body, Encode(f), EncodeAll(gs));
          assert forall i :: 1 <= i < |fs| ==> fs[i] == gs[i - 1] && msgs[i] == msgs[1..][i - 1];
          assert |fs| < |msgs| ==> msgs[|fs|] == msgs[1..][|gs|];
        } else {
          NoData(msgs[0]);
        }
      }
    }
  }

  /** How the messages after the data frames decide: the header changes only by complete
      trailers, and what follows those decides between success and failure. */
  ghost predicate Decided(h: Header, rest: seq<ConnRead>, got: View) {
    && (rest == [] ==> got.header == h && got.err == Some(ReadError))
    && (rest != [] && !(exists f :: Carries(rest[0], f)) ==>
          && got.header == h && got.err.Some?
          && (got.err == Some(ReadError) <==> !rest[0].Msg?)
          && (got.err == Some(NotBinary) <==> rest[0].Msg? && !rest[0].binary))
    && (forall t :: rest != [] && Carries(rest[0], t) ==>
          if t.flags % 2 == 1 then got.header == h && got.err == Some(CompressedTrailers)
          else match SetHeader(h, t.payload, true)
            case None => got.header == h && got.err == Some(BadBlock)
            case Some(h') =>
              && got.header == h'
              && (got.err == None <==> |rest| > 1 && CleanEnd(rest[1]))
              && (got.err == Some(MessageAfterTrailers) <==> |rest| > 1 && rest[1].Msg?))
  }

  lemma BodyOutcome(h: Header, body: Bytes, msgs: seq<ConnRead>, fs: seq<Frame>)
    requires LeadingData(msgs, fs)
    ensures ReceiveBody(h, body, msgs).body == body + EncodeAll(fs)
    ensures Decided(h, msgs[|fs|..], ReceiveBody(h, body, msgs))
  {
    hide SetHeader, Encode, ReceiveBody, Decided;
    BodyReaches(h, body, msgs, fs);
    AfterData(h, body + EncodeAll(fs), msgs[|fs|..]);
  }

  lemma AfterData(h: Header, body: Bytes, rest: seq<ConnRead>)
    requires rest != [] ==> !CarriesData(rest[0])
    ensures ReceiveBody(h, body, rest).body == body
    ensures Decided(h, rest, ReceiveBody(h, body, rest))
  {
    hide SetHeader, Encode;
    if rest != [] {
      if CheckFrame(rest[0]).None? {
        hide CheckFrame;
        var f := FrameMessage(rest[0]);
        assert !IsData(f);
        forall t | Carries(rest[0], t)
          ensures t.flags == rest[0].data[0] && t.payload == rest[0].data[HEADER_LENGTH..]
        {
          CarriedFrame(rest[0], t);
        }
      } else {
        forall t
          ensures !Carries(rest[0], t)
        {
          if Carries(rest[0], t) {
            CarriedFrame(rest[0], t);
          }
        }
      }
    }
  }

  lemma HeaderExactly(h: Header, msgs: seq<ConnRead>)
    ensures forall f, h1 :: HeaderLanguage(h, msgs, f, h1) ==> ReceiveHeader(h, msgs) == (h1, None)
    ensures ReceiveHeader(h, msgs).1.None? ==> exists f :: HeaderLanguage(h, msgs, f, ReceiveHeader(h, msgs).0)
    ensures ReceiveHeader(h, msgs).1.Some? ==> ReceiveHeader(h, msgs).0 == h
  {
    hide SetHeader, CheckFrame, Encode;
    forall f, h1 | HeaderLanguage(h, msgs, f, h1)
      ensures ReceiveHeader(h, msgs) == (h1, None)
    {
      CarriedFrame(msgs[0], f);
    }
    if ReceiveHeader(h, msgs).1.None? {
      var f := FrameMessage(msgs[0]);
      assert HeaderLanguage(h, msgs, f, ReceiveHeader(h, msgs).0);
    }
  }

  /** readFromServer returns nil exactly on one language: a metadata frame that leaves the
      header with a Grpc-Status, or one that does not and is followed by data frames, one
      uncompressed metadata frame and a clean end of the connection. */
  lemma AcceptedLanguage(h: Header, msgs: seq<ConnRead>)
    ensures Receive(h, msgs).err.None? <==>
            exists f, h1 :: && HeaderLanguage(h, msgs, f, h1)
                            && (|| Values(h1, GRPC_STATUS) != []
                                || exists fs, t, h2 :: BodyLanguage(h1, msgs[1..], fs, t, h2))
  {
    hide SetHeader, CheckFrame, Encode, ReceiveBody, ReceiveHeader;
    HeaderExactly(h, msgs);
    var (h1, err) := ReceiveHeader(h, msgs);
    if err.None? {
      var f :| HeaderLanguage(h, msgs, f, h1);
      var rest := msgs[1..];
      if Receive(h, msgs).err.None? && Values(h1, GRPC_STATUS) == [] {
        var fs, t := BodySound(h1, [], rest);
        assert BodyLanguage(h1, rest, fs, t, ReceiveBody(h1, [], rest).header);
      }
      forall fs, t, h2 | BodyLanguage(h1, rest, fs, t, h2)
        ensures ReceiveBody(h1, [], rest).err.None?
      {
        BodyComplete(h1, [], rest, fs, t, h2);
      }
    }
  }
}
