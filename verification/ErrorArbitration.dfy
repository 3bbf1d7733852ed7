/** The client proxy runs its two directions in two goroutines. The first to report an error
    wins, and after both have finished the error is turned into trailers. */
module ErrorArbitration {
  import opened Framing
  import opened HeaderBlock
  import opened TrailerCollection
  import PercentEncoding

  /** "transport: " */
  const TRANSPORT: Bytes := [116, 114, 97, 110, 115, 112, 111, 114, 116, 58, 32]
  /** "Grpc-Message" */
  const GRPC_MESSAGE: Bytes := [71, 114, 112, 99, 45, 77, 101, 115, 115, 97, 103, 101]
  /** codes.Unavailable, "14" */
  const UNAVAILABLE: Bytes := [49, 52]

  datatype Side = Reading | Writing

  /** Where a goroutine is; errors are their texts. */
  datatype Pc =
    | Running
    | Failed(error: Bytes) // about to swap errFlag
    | Won(error: Bytes)    // swapped first, about to set err
    | Finished

  datatype State = State(
    reading: Pc,
    writing: Pc,
    errFlag: bool,
    err: Option<Bytes>,
    header: Header,
    failures: seq<Bytes>, // history: errors in the order of their failing
    swaps: seq<Bytes>,    // history: errors in the order of their swaps
    concluded: bool)

  function Init(header: Header): State {
    State(Running, Running, false, None, header, [], [], false)
  }

  datatype Action =
    | Edit(header: Header)              // readFromServer changes the response header
    | Succeed(side: Side)
    | Fail(side: Side, error: Bytes)
    | SwapFlag(side: Side)
    | Store(side: Side)
    | Conclude                          // writeErrorIfNecessary, after wg.Wait

  function At(s: State, side: Side): Pc {
    if side.Reading? then s.reading else s.writing
  }

  function Move(s: State, side: Side, pc: Pc): State {
    if side.Reading? then s.(reading := pc) else s.(writing := pc)
  }

  predicate Enabled(s: State, a: Action) {
    match a
    case Edit(_) => s.reading.Running?
    case Succeed(side) => At(s, side).Running?
    case Fail(side, _) => At(s, side).Running?
    case SwapFlag(side) => At(s, side).Failed?
    case Store(side) => At(s, side).Won?
    case Conclude => s.reading.Finished? && s.writing.Finished? && !s.concluded
  }

  /** writeErrorIfNecessary */
  function WithError(header: Header, err: Option<Bytes>): Header {
    if err.None? || Values(header, GRPC_STATUS) != [] then header
    else header[PREFIX + GRPC_STATUS := [UNAVAILABLE]]
               [PREFIX + GRPC_MESSAGE := [PercentEncoding.Encode(TRANSPORT + err.value)]]
  }

  function Next(s: State, a: Action): State
    requires Enabled(s, a)
  {
    match a
    case Edit(h) => s.(header := h)
    case Succeed(side) => Move(s, side, Finished)
    case Fail(side, e) => Move(s, side, Failed(e)).(failures := s.failures + [e])
    case SwapFlag(side) =>
      var e := At(s, side).error;
      Move(s, side, if s.errFlag then Finished else Won(e)).(errFlag := true, swaps := s.swaps + [e])
    case Store(side) => Move(s, side, Finished).(err := Some(At(s, side).error))
    case Conclude => s.(header := WithError(s.header, s.err), concluded := true)
  }

  ghost predicate Runs(s: State, actions: seq<Action>)
    decreases actions
  {
    actions == [] || (Enabled(s, actions[0]) && Runs(Next(s, actions[0]), actions[1..]))
  }

  function Reach(s: State, actions: seq<Action>): State
    requires Runs(s, actions)
    decreases actions
  {
    if actions == [] then s else Reach(Next(s, actions[0]), actions[1..])
  }

  /** The first swap decides; its error is stored, or on its way in exactly one goroutine. */
  ghost predicate Inv(s: State) {
    && (s.errFlag <==> s.swaps != [])
    && !(s.reading.Won? && s.writing.Won?)
    && (forall side :: At(s, side).Won? ==> s.swaps != [] && At(s, side).error == s.swaps[0] && s.err == None)
    && (s.err.Some? ==> s.swaps != [] && s.err.value == s.swaps[0])
    && (s.swaps != [] ==> s.err.Some? || s.reading.Won? || s.writing.Won?)
  }

  /** Every swap is that of a failure, and a failure has swapped or is about to. */
  ghost predicate Swapping(s: State) {
    && (forall e :: e in s.swaps ==> e in s.failures)
    && (s.reading.Failed? ==> s.reading.error in s.failures)
    && (s.writing.Failed? ==> s.writing.error in s.failures)
    && (s.failures != [] ==> s.swaps != [] || s.reading.Failed? || s.writing.Failed?)
  }

  lemma SwappingStep(s: State, a: Action)
    requires Swapping(s) && Enabled(s, a)
    ensures Swapping(Next(s, a))
  {
    hide WithError;
  }

  lemma Step(s: State, a: Action)
    requires Inv(s) && Enabled(s, a)
    ensures Inv(Next(s, a))
  {
    var n := Next(s, a);
    assert forall side :: At(n, side) == if side.Reading? then n.reading else n.writing;
    assert At(s, Reading) == s.reading && At(s, Writing) == s.writing;
  }

  lemma {:induction false} ReachKeeps(s: State, actions: seq<Action>)
    requires Inv(s) && Swapping(s) && Runs(s, actions)
    ensures Inv(Reach(s, actions)) && Swapping(Reach(s, actions))
    decreases actions
  {
    hide Inv, Swapping;
    if actions != [] {
      Step(s, actions[0]);
      SwappingStep(s, actions[0]);
      ReachKeeps(Next(s, actions[0]), actions[1..]);
    }
  }

  /** The errors that goroutines ran into, in order. */
  function Errors(actions: seq<Action>): seq<Bytes> {
    if actions == [] then []
    else (if actions[0].Fail? then [actions[0].error] else []) + Errors(actions[1..])
  }

  lemma {:induction false} FailuresAreErrors(s: State, actions: seq<Action>)
    requires Runs(s, actions)
    ensures Reach(s, actions).failures == s.failures + Errors(actions)
    decreases actions
  {
    if actions == [] {
      assert s.failures + [] == s.failures;
    } else {
      var now := if actions[0].Fail? then [actions[0].error] else [];
      var n := Next(s, actions[0]);
      assert n.failures == s.failures + now;
      FailuresAreErrors(n, actions[1..]);
      assert (s.failures + now) + Errors(actions[1..]) == s.failures + (now + Errors(actions[1..]));
    }
  }

  /** No failure is lost: when both goroutines are done, an error is recorded exactly if one of
      them failed, and it is one they failed with. */
  lemma FailureIsRecorded(header: Header, actions: seq<Action>)
    requires Runs(Init(header), actions)
    requires Enabled(Reach(Init(header), actions), Conclude)
    ensures var err := Reach(Init(header), actions).err;
            && (err == None <==> Errors(actions) == [])
            && (err.Some? ==> err.value in Errors(actions))
  {
    assert Inv(Init(header));
    ReachKeeps(Init(header), actions);
    FailuresAreErrors(Init(header), actions);
    assert [] + Errors(actions) == Errors(actions);
    var s := Reach(Init(header), actions);
    assert At(s, Reading) == s.reading && At(s, Writing) == s.writing;
    assert s.swaps != [] ==> s.swaps[0] in s.swaps;
  }

  /** Over every interleaving: when both goroutines are done, the recorded error is that of
      the first swap, or none if nothing failed. The concluding step then writes
      Unavailable and the error text, so encoded that a client decodes it to valid UTF-8,
      exactly when an error was recorded and no plain Grpc-Status header is there. */
  lemma FirstErrorWins(header: Header, actions: seq<Action>)
    requires Runs(Init(header), actions)
    requires Enabled(Reach(Init(header), actions), Conclude)
    ensures var s := Reach(Init(header), actions);
            var t := Next(s, Conclude);
            && s.err == (if s.swaps == [] then None else Some(s.swaps[0]))
            && (if s.swaps != [] && Values(s.header, GRPC_STATUS) == [] then
                  && Values(t.header, PREFIX + GRPC_STATUS) == [UNAVAILABLE]
                  && |Values(t.header, PREFIX + GRPC_MESSAGE)| == 1
                  && PercentEncoding.Decode(Values(t.header, PREFIX + GRPC_MESSAGE)[0])
                  == PercentEncoding.Repair(TRANSPORT + s.swaps[0])
                  && (forall x :: x != PREFIX + GRPC_STATUS && x != PREFIX + GRPC_MESSAGE ==>
                        Values(t.header, x) == Values(s.header, x))
                else t.header == s.header)
  {
    assert Inv(Init(header));
    ReachKeeps(Init(header), actions);
    var s := Reach(Init(header), actions);
    if s.swaps != [] {
      PercentEncoding.RoundTrip(TRANSPORT + s.swaps[0]);
      DistinctNames();
    }
  }

  lemma DistinctNames()
    ensures PREFIX + GRPC_STATUS != PREFIX + GRPC_MESSAGE
  {
    assert |GRPC_STATUS| != |GRPC_MESSAGE|;
  }

  /** The server's status arrives in trailers and reading succeeds, then writing fails. */
  function StatusThenError(status: Bytes, error: Bytes): seq<Action> {
    [Edit(map[PREFIX + GRPC_STATUS := [status]]), Succeed(Reading),
     Fail(Writing, error), SwapFlag(Writing), Store(Writing)]
  }

  /** A status that was received in trailers is replaced by Unavailable, whatever it was. */
  lemma StatusOverwritten(header: Header, status: Bytes, error: Bytes)
    ensures Runs(Init(header), StatusThenError(status, error))
    ensures var s := Reach(Init(header), StatusThenError(status, error));
            && Enabled(s, Conclude)
            && Values(s.header, PREFIX + GRPC_STATUS) == [status]
            && Values(Next(s, Conclude).header, PREFIX + GRPC_STATUS) == [UNAVAILABLE]
  {
    var a := StatusThenError(status, error);
    var s1 := Next(Init(header), a[0]);
    var s2 := Next(s1, a[1]);
    var s3 := Next(s2, a[2]);
    var s4 := Next(s3, a[3]);
    var s5 := Next(s4, a[4]);
    assert Enabled(s5, Conclude) && Values(s5.header, PREFIX + GRPC_STATUS) == [status];
    hide Next, Enabled;
    RunsOne(s4, a[4..]);
    RunsOne(s3, a[3..]);
    RunsOne(s2, a[2..]);
    RunsOne(s1, a[1..]);
    RunsOne(Init(header), a);
    ErrorReplacesStatus(s5);
  }

  lemma RunsOne(s: State, actions: seq<Action>)
    requires actions != [] && Enabled(s, actions[0]) && Runs(Next(s, actions[0]), actions[1..])
    ensures Runs(s, actions) && Reach(s, actions) == Reach(Next(s, actions[0]), actions[1..])
  {
  }

  lemma ErrorReplacesStatus(s: State)
    requires Enabled(s, Conclude) && s.err.Some? && Values(s.header, GRPC_STATUS) == []
    ensures Values(Next(s, Conclude).header, PREFIX + GRPC_STATUS) == [UNAVAILABLE]
  {
    DistinctNames();
  }

  lemma StatusIsPrefixed()
    ensures PREFIX + GRPC_STATUS != GRPC_STATUS
  {
    assert |PREFIX + GRPC_STATUS| != |GRPC_STATUS|;
  }
}
