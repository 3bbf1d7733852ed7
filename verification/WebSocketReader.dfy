/** The server's request body: WebSocket messages, each one gRPC frame, handed out as a
    byte stream until the end-of-stream marker. */
module WebSocketReader {
  import opened Framing
  import opened WebSocketWrite

  datatype Failure =
    | StreamEnd | NotBinary | BadFrame(why: FrameError) | NotData | ConnectionError | BodyError | Cancelled

  /** What the connection yields when asked for the next message. */
  datatype Incoming = Message(binary: bool, data: Bytes) | ReaderFails | BodyFails

  /** The failure a message leads to, if it is not a data frame. */
  function Verdict(m: Incoming): (v: Option<Failure>)
    ensures v.None? ==> m.Message?
  {
    match m
    case ReaderFails => Some(ConnectionError)
    case BodyFails => Some(BodyError)
    case Message(binary, data) =>
      if !binary then Some(NotBinary)
      else
        var e := ValidateGRPCFrame(data);
        if e.Some? then Some(BadFrame(e.value))
        else if IsEndOfStream(data) then Some(StreamEnd)
        else if !IsDataFrame(data) then Some(NotData)
        else None
  }

  // ---------------------------------------------------------------- Read

  datatype State = State(inbox: seq<Incoming>, currMsg: Bytes, err: Option<Failure>)

  function Start(inbox: seq<Incoming>): State {
    State(inbox, [], None)
  }

  datatype Step = Step(state: State, data: Bytes)

  function HandOut(s: State, max: nat): Step {
    var n := Min(max, |s.currMsg|);
    Step(s.(currMsg := s.currMsg[n..]), s.currMsg[..n])
  }

  /** Read into a buffer of `max` bytes. If no message is left, the call can only return
      because the reader was closed. */
  function Read(s: State, max: nat): Step {
    if s.err.Some? then Step(s, [])
    else if s.currMsg != [] then HandOut(s, max)
    else if s.inbox == [] then Step(s.(err := Some(Cancelled)), [])
    else
      var v := Verdict(s.inbox[0]);
      if v.Some? then Step(s.(err := v), [])
      else HandOut(State(s.inbox[1..], s.inbox[0].data, None), max)
  }

  function Run(s: State, sizes: seq<nat>): Step
    decreases sizes
  {
    if sizes == [] then Step(s, [])
    else
      var step := Read(s, sizes[0]);
      var rest := Run(step.state, sizes[1..]);
      Step(rest.state, step.data + rest.data)
  }

  class WsReader {
    var inbox: seq<Incoming>
    var buf: Bytes
    var currMsg: Bytes
    var err: Option<Failure>

    ghost function Model(): State
      reads this
    {
      State(inbox, currMsg, err)
    }

    constructor (inbox: seq<Incoming>)
      ensures Model() == Start(inbox)
    {
      this.inbox := inbox;
      buf, currMsg := [], [];
      err := None;
    }

    method ReadBuffer(max: nat) returns (data: Bytes)
      modifies this
      ensures Step(Model(), data) == Read(old(Model()), max)
    {
      data := [];
      if err == None {
        data, err := DoRead(max);
      }
    }

    /** doRead; a failing message is left in the inbox, where nothing looks at it again. */
    method DoRead(max: nat) returns (data: Bytes, e: Option<Failure>)
      requires err == None
      modifies this`inbox, this`buf, this`currMsg
      ensures Step(Model().(err := e), data) == Read(old(Model()), max)
    {
      if |currMsg| == 0 {
        if inbox == [] {
          return [], Some(Cancelled);
        }
        match inbox[0] {
          case ReaderFails => return [], Some(ConnectionError);
          case BodyFails => return [], Some(BodyError);
          case Message(binary, msg) =>
            if !binary {
              return [], Some(NotBinary);
            }
            buf := msg;
            var bad := ValidateGRPCFrame(buf);
            if bad.Some? {
              return [], Some(BadFrame(bad.value));
            }
            if IsEndOfStream(buf) {
              return [], Some(StreamEnd);
            }
            if !IsDataFrame(buf) {
              return [], Some(NotData);
            }
            currMsg := buf;
            inbox := inbox[1..];
        }
      }
      var n := Min(max, |currMsg|);
      data, e := currMsg[..n], None;
      currMsg := currMsg[n..];
    }
  }

  // ---------------------------------------------------------------- what is delivered, and why it ends

  /** The leading messages that are data frames. */
  function DataMessages(inbox: seq<Incoming>): seq<Bytes> {
    if inbox == [] || Verdict(inbox[0]).Some? then []
    else [inbox[0].data] + DataMessages(inbox[1..])
  }

  /** Why a reader of this inbox must end: the first message that is not a data frame. */
  function Ending(inbox: seq<Incoming>): Failure {
    if inbox == [] then Cancelled
    else if Verdict(inbox[0]).Some? then Verdict(inbox[0]).value
    else Ending(inbox[1..])
  }

  ghost predicate Inv(inbox: seq<Incoming>, s: State, out: Bytes) {
    && out + (s.currMsg + Concat(DataMessages(s.inbox))) == Concat(DataMessages(inbox))
    && Ending(s.inbox) == Ending(inbox)
    && (s.err.Some? ==> s.currMsg == [] && DataMessages(s.inbox) == [] && s.err.value == Ending(inbox))
  }

  lemma HandOutConserves(s: State, max: nat, out: Bytes, later: Bytes)
    ensures var step := HandOut(s, max);
            (out + step.data) + (step.state.currMsg + later) == out + (s.currMsg + later)
  {
    var n := Min(max, |s.currMsg|);
    var a, b := s.currMsg[..n], s.currMsg[n..];
    assert s.currMsg == a + b;
    Assoc(a, b, later);
    Assoc(out, a, b + later);
  }

  lemma ReadKeepsInv(inbox: seq<Incoming>, s: State, max: nat, out: Bytes)
    requires Inv(inbox, s, out)
    ensures var step := Read(s, max);
            Inv(inbox, step.state, out + step.data)
  {
    hide Verdict;
    assert out + [] == out;
    var later := Concat(DataMessages(s.inbox));
    if s.err == None {
      if s.currMsg != [] {
        HandOutConserves(s, max, out, later);
      } else if s.inbox != [] && Verdict(s.inbox[0]).None? {
        var t := State(s.inbox[1..], s.inbox[0].data, None);
        assert DataMessages(s.inbox)[1..] == DataMessages(s.inbox[1..]);
        assert s.currMsg + later == later == t.currMsg + Concat(DataMessages(t.inbox));
        HandOutConserves(t, max, out, Concat(DataMessages(t.inbox)));
      }
    }
  }

  lemma {:induction false} RunKeepsInv(inbox: seq<Incoming>, s: State, sizes: seq<nat>, out: Bytes)
    requires Inv(inbox, s, out)
    ensures var r := Run(s, sizes);
            Inv(inbox, r.state, out + r.data)
    decreases sizes
  {
    if sizes == [] {
      assert out + [] == out;
    } else {
      var step := Read(s, sizes[0]);
      ReadKeepsInv(inbox, s, sizes[0], out);
      RunKeepsInv(inbox, step.state, sizes[1..], out + step.data);
      Assoc(out, step.data, Run(step.state, sizes[1..]).data);
    }
  }

  /** For any messages and any buffer sizes: what is delivered is a prefix of the leading
      data frames, so no byte of any other message; once an error is reported all of them
      were delivered and the error is that of the first other message. */
  lemma DeliversDataFrames(inbox: seq<Incoming>, sizes: seq<nat>)
    ensures var r := Run(Start(inbox), sizes);
            && r.data <= Concat(DataMessages(inbox))
            && (r.state.err.Some? ==> r.data == Concat(DataMessages(inbox)) && r.state.err.value == Ending(inbox))
  {
    var all := Concat(DataMessages(inbox));
    assert [] + ([] + all) == all;
    RunKeepsInv(inbox, Start(inbox), sizes, []);
    var r := Run(Start(inbox), sizes);
    assert [] + r.data == r.data;
  }

  lemma {:induction false} StickyFailure(s: State, sizes: seq<nat>)
    requires s.err.Some?
    ensures Run(s, sizes) == Step(s, [])
    decreases sizes
  {
    if sizes != [] {
      StickyFailure(s, sizes[1..]);
    }
  }

  /** With non-empty buffers every call delivers a byte or ends the stream. */
  lemma {:induction false} KeepsGoing(s: State, sizes: seq<nat>)
    requires forall i :: 0 <= i < |sizes| ==> sizes[i] > 0
    ensures Run(s, sizes).state.err.Some? || |Run(s, sizes).data| >= |sizes|
    decreases sizes
  {
    if s.err.Some? {
      StickyFailure(s, sizes);
    } else if sizes != [] {
      var step := Read(s, sizes[0]);
      assert step.state.err.Some? || |step.data| >= 1;
      KeepsGoing(step.state, sizes[1..]);
      if step.state.err.Some? {
        StickyFailure(step.state, sizes[1..]);
      }
    }
  }

  /** A call never returns more bytes than its buffer holds. */
  lemma ReadFits(s: State, max: nat)
    ensures |Read(s, max).data| <= max
  {
  }

  // ---------------------------------------------------------------- why it ends, exactly

  ghost predicate CarriesData(m: Incoming) {
    exists f: Frame :: Fits(f) && IsData(f) && m == Message(true, Encode(f))
  }

  /** Each failure belongs to one kind of message, and data frames to none. */
  lemma VerdictExactly(m: Incoming)
    ensures Verdict(m) == None <==> CarriesData(m)
    ensures Verdict(m) == Some(StreamEnd) <==> m == Message(true, [128, 0, 0, 0, 0])
    ensures Verdict(m) == Some(ConnectionError) <==> m == ReaderFails
    ensures Verdict(m) == Some(BodyError) <==> m == BodyFails
    ensures Verdict(m) == Some(NotBinary) <==> m.Message? && !m.binary
    ensures (exists why :: Verdict(m) == Some(BadFrame(why))) <==>
            m.Message? && m.binary && forall f: Frame :: Fits(f) ==> m.data != Encode(f)
    ensures Verdict(m) == Some(NotData) <==>
            exists f: Frame :: Fits(f) && !IsData(f) && f != Frame(128, []) && m == Message(true, Encode(f))
  {
    hide Encode, Fits, IsData;
    if m.Message? && m.binary {
      hide Verdict;
      ValidFrames(m.data);
      BinaryVerdict(m.data);
      if ValidateGRPCFrame(m.data).None? {
        var f: Frame :| Fits(f) && m.data == Encode(f);
        OneFrame(f, m.data);
        FrameVerdict(f);
        assert m == Message(true, Encode(f));
      }
    }
  }

  lemma BinaryVerdict(data: Bytes)
    ensures var v := Verdict(Message(true, data));
            && v != Some(ConnectionError) && v != Some(BodyError) && v != Some(NotBinary) && v != Some(Cancelled)
            && ((exists why :: v == Some(BadFrame(why))) <==> ValidateGRPCFrame(data).Some?)
            && (v == Some(StreamEnd) <==> data == [128, 0, 0, 0, 0])
            && (v == None || v == Some(NotData) <==> ValidateGRPCFrame(data).None? && data != [128, 0, 0, 0, 0])
  {
    var e := ValidateGRPCFrame(data);
    if e.Some? {
      assert Verdict(Message(true, data)) == Some(BadFrame(e.value));
    }
  }

  /** A message carries one frame only. */
  lemma OneFrame(f: Frame, data: Bytes)
    requires Fits(f) && data == Encode(f)
    ensures forall g: Frame :: Fits(g) && data == Encode(g) ==> g == f
  {
    forall g: Frame | Fits(g) && data == Encode(g)
      ensures g == f
    {
      HeadOfEncode(f, []);
      HeadOfEncode(g, []);
      assert Encode(f) + [] == data == Encode(g) + [];
    }
  }

  /** Data frames and then the binary end-of-stream marker. */
  ghost predicate EndsWell(inbox: seq<Incoming>) {
    exists k: nat :: MarkerAt(inbox, k)
  }

  ghost predicate MarkerAt(inbox: seq<Incoming>, k: nat) {
    && k < |inbox| && inbox[k] == Message(true, [128, 0, 0, 0, 0])
    && forall i :: 0 <= i < k ==> CarriesData(inbox[i])
  }

  lemma {:induction false} EndingExactly(inbox: seq<Incoming>)
    ensures Ending(inbox) == StreamEnd <==> EndsWell(inbox)
    decreases inbox
  {
    hide CarriesData, Verdict;
    if inbox != [] {
      var rest := inbox[1..];
      VerdictExactly(inbox[0]);
      EndingExactly(rest);
      assert inbox[0] == Message(true, [128, 0, 0, 0, 0]) ==> MarkerAt(inbox, 0);
      if EndsWell(inbox) {
        var k: nat :| MarkerAt(inbox, k);
        if k > 0 {
          assert rest[k - 1] == inbox[k];
          assert forall i :: 0 <= i < k - 1 ==> rest[i] == inbox[i + 1];
          assert MarkerAt(rest, k - 1) && CarriesData(inbox[0]);
        }
      }
      if EndsWell(rest) && CarriesData(inbox[0]) {
        var k: nat :| MarkerAt(rest, k);
        assert inbox[k + 1] == rest[k];
        assert forall i :: 0 < i < k + 1 ==> inbox[i] == rest[i - 1];
        assert MarkerAt(inbox, k + 1);
      }
    }
  }

  /** A run that has ended has ended in a clean EOF if and only if its messages were data
      frames and then the marker; a lost connection or a malformed message never looks so. */
  lemma CleanEndExactly(inbox: seq<Incoming>, sizes: seq<nat>)
    requires Run(Start(inbox), sizes).state.err.Some?
    ensures Run(Start(inbox), sizes).state.err == Some(StreamEnd) <==> EndsWell(inbox)
  {
    DeliversDataFrames(inbox, sizes);
    EndingExactly(inbox);
  }

  // ---------------------------------------------------------------- requests end to end

  /** writeToServer: the body cut into frames, then the end-of-stream marker. */
  function RequestMessages(body: Bytes): seq<Bytes> {
    var (sent, err) := Cut(body, false, None);
    if err.None? then sent + [END_STREAM_HEADER] else sent
  }

  method WriteToServer(src: ByteSource, capacity: Option<nat>) returns (sent: seq<Bytes>, err: Option<Error>)
    modifies src
    ensures !src.broken && capacity.None? ==> sent == RequestMessages(old(src.rest))
    ensures var (frames, failed) := Cut(old(src.rest), src.broken, capacity);
            && (err.None? <==> failed.None? && capacity != Some(|frames|))
            && sent == if err.None? then frames + [END_STREAM_HEADER] else frames
  {
    sent, err := Write(src, capacity);
    if err.Some? {
      return;
    }
    if capacity == Some(|sent|) {
      return sent, Some(ConnectionFailed);
    }
    sent := sent + [END_STREAM_HEADER];
  }

  /** How the server's connection sees messages that were sent. */
  function Arriving(ms: seq<Bytes>): (r: seq<Incoming>)
    ensures |r| == |ms| && forall i :: 0 <= i < |ms| ==> r[i] == Message(true, ms[i])
  {
    seq(|ms|, i requires 0 <= i < |ms| => Message(true, ms[i]))
  }

  /** The leading data frames of a frame sequence. */
  function LeadingData(fs: seq<Frame>): seq<Frame> {
    if fs == [] || !IsData(fs[0]) then [] else [fs[0]] + LeadingData(fs[1..])
  }

  lemma FrameVerdict(f: Frame)
    requires Fits(f)
    ensures var v := Verdict(Message(true, Encode(f)));
            && (v.None? <==> IsData(f))
            && (v == Some(StreamEnd) <==> f == Frame(METADATA_FLAGS, []))
  {
    EncodedIsValid(f);
    HeadOfEncode(f, []);
    assert Encode(f) + [] == Encode(f);
    if IsEndOfStream(Encode(f)) {
      HeadOfEncode(Frame(METADATA_FLAGS, []), []);
      assert Encode(Frame(METADATA_FLAGS, [])) + [] == Encode(f);
    }
  }

  lemma {:induction false} LeadingDelivered(fs: seq<Frame>, more: seq<Incoming>)
    requires AllFit(fs)
    ensures LeadingData(fs) != fs ==> DataMessages(Arriving(Messages(fs)) + more) == Messages(LeadingData(fs))
    ensures LeadingData(fs) == fs ==>
              && DataMessages(Arriving(Messages(fs)) + more) == Messages(fs) + DataMessages(more)
              && Ending(Arriving(Messages(fs)) + more) == Ending(more)
  {
    hide Encode, DataMessages, Ending, Fits;
    if fs == [] {
      assert Arriving(Messages(fs)) + more == more && Messages(fs) + DataMessages(more) == DataMessages(more);
    } else {
      var f, rest := fs[0], Arriving(Messages(fs[1..])) + more;
      LeadingDelivered(fs[1..], more);
      assert Arriving(Messages(fs)) + more == [Message(true, Encode(f))] + rest;
      DataNext(f, rest);
      if IsData(f) {
        MessagesCons(f, LeadingData(fs[1..]));
        MessagesCons(f, fs[1..]);
        assert [f] + fs[1..] == fs;
        assert LeadingData(fs)[1..] == LeadingData(fs[1..]);
        assert LeadingData(fs) == fs <==> LeadingData(fs[1..]) == fs[1..];
        assert Messages(fs) + DataMessages(more) == [Encode(f)] + (Messages(fs[1..]) + DataMessages(more));
      }
    }
  }

  lemma MessagesCons(f: Frame, fs: seq<Frame>)
    ensures Messages([f] + fs) == [Encode(f)] + Messages(fs)
  {
  }

  lemma DataNext(f: Frame, rest: seq<Incoming>)
    requires Fits(f)
    ensures var inbox := [Message(true, Encode(f))] + rest;
            && DataMessages(inbox) == (if IsData(f) then [Encode(f)] + DataMessages(rest) else [])
            && (IsData(f) ==> Ending(inbox) == Ending(rest))
  {
    FrameVerdict(f);
    assert ([Message(true, Encode(f))] + rest)[1..] == rest;
  }

  /** WebSocket request round trip, for every body that is a whole number of frames: the
      server is given exactly the leading data frames, byte for byte. If the body has
      nothing else, they are followed by a sticky end of stream, reached after more
      non-empty reads than there are bytes. */
  lemma RequestRoundTrip(fs: seq<Frame>, sizes: seq<nat>)
    requires AllFit(fs)
    ensures var r := Run(Start(Arriving(RequestMessages(EncodeAll(fs)))), sizes);
            && r.data <= EncodeAll(LeadingData(fs))
            && (r.state.err.Some? ==> r.data == EncodeAll(LeadingData(fs)))
            && (LeadingData(fs) == fs ==>
                  && (r.state.err == None || r.state.err == Some(StreamEnd))
                  && ((|sizes| > |EncodeAll(fs)| && forall i :: 0 <= i < |sizes| ==> sizes[i] > 0) ==>
                        r.state.err == Some(StreamEnd) && r.data == EncodeAll(fs)))
  {
    hide Encode, EncodeAll, DataMessages, Ending, Read;
    NilMeansWholeFrames(EncodeAll(fs));
    var eos := [Message(true, END_STREAM_HEADER)];
    var inbox := Arriving(RequestMessages(EncodeAll(fs)));
    assert inbox == Arriving(Messages(fs)) + eos;
    LeadingDelivered(fs, eos);
    EndOfStreamEnds();
    ConcatMessages(LeadingData(fs));
    assert Messages(fs) + [] == Messages(fs);
    DeliversDataFrames(inbox, sizes);
    if forall i :: 0 <= i < |sizes| ==> sizes[i] > 0 {
      KeepsGoing(Start(inbox), sizes);
    }
  }

  /** Whatever the body is, truncated or holding metadata frames, only bytes of its leading
      whole data frames are ever delivered. */
  lemma OnlyDataDelivered(body: Bytes, sizes: seq<nat>)
    ensures Run(Start(Arriving(RequestMessages(body))), sizes).data <= EncodeAll(LeadingData(Split(body).0))
  {
    hide Encode, EncodeAll, DataMessages, Ending, Read;
    var fs := Split(body).0;
    SplitSound(body);
    var more := if Split(body).1 == [] then [Message(true, END_STREAM_HEADER)] else [];
    var inbox := Arriving(RequestMessages(body));
    assert inbox == Arriving(Messages(fs)) + more;
    LeadingDelivered(fs, more);
    EndOfStreamEnds();
    assert DataMessages([]) == [] by { NothingArrives(); }
    ConcatMessages(LeadingData(fs));
    assert Messages(fs) + [] == Messages(fs);
    DeliversDataFrames(inbox, sizes);
  }

  lemma NothingArrives()
    ensures DataMessages([]) == []
  {
  }

  lemma EndOfStreamEnds()
    ensures DataMessages([Message(true, END_STREAM_HEADER)]) == []
    ensures Ending([Message(true, END_STREAM_HEADER)]) == StreamEnd
  {
    FrameVerdict(Frame(METADATA_FLAGS, []));
    assert Encode(Frame(METADATA_FLAGS, [])) == END_STREAM_HEADER;
  }
}
