/** The server reader as two goroutines: readerLoop asks the connection for messages, Read
    drains them, and a one-slot channel of tokens keeps them from overlapping. Close may
    come at any time. Every interleaving is a sequence of the steps below. */
module WebSocketBarrier {
  import opened Framing
  import opened WebSocketWrite
  import opened WebSocketReader

  datatype LoopPc =
    | AtBarrier              // select on readCtx.Done and barrierC
    | Asking                 // inside conn.Reader
    | Offering(m: Incoming)  // select on readCtx.Done and readerResultC
    | Stopped

  datatype ReadPc =
    | Idle                              // no Read call, or one that returned
    | Waiting(max: nat)                 // select on readCtx.Done and readerResultC
    | Got(max: nat, m: Incoming)        // has a result, buffer not yet reset
    | Draining(max: nat, m: Incoming)   // buf.ReadFrom
    | Returning(max: nat)               // sending the token back
    | Checking(max: nat)                // validating the message in buf

  datatype Proto = Proto(
    loop: LoopPc,
    reader: ReadPc,
    tokens: nat,          // in barrierC, capacity one
    cancelled: bool,
    inbox: seq<Incoming>, // everything the connection will ever yield
    taken: nat,           // how many of those conn.Reader has returned
    undrained: bool,      // the last reader returned has unread bytes
    buf: Bytes,
    currMsg: Bytes,
    err: Option<Failure>,
    accepted: nat,        // history: messages that became currMsg
    delivered: Bytes)     // history: bytes handed to callers

  function Init(inbox: seq<Incoming>): Proto {
    Proto(AtBarrier, Idle, 1, false, inbox, 0, false, [], [], None, 0, [])
  }

  datatype Action =
    | LoopStops | LoopTakesToken | LoopIsAnswered | HandOver
    | ReadFails | ReadCopies(max: nat) | ReadWaits(max: nat) | ReadCancelled
    | ReadReset | ReadDrains | ReadReturnsToken | ReadChecks
    | Cancel

  predicate Enabled(s: Proto, a: Action) {
    match a
    case LoopStops => s.cancelled && (s.loop.AtBarrier? || s.loop.Offering?)
    case LoopTakesToken => s.loop.AtBarrier? && s.tokens > 0
    case LoopIsAnswered => s.loop.Asking? && s.taken < |s.inbox|
    case HandOver => s.loop.Offering? && s.reader.Waiting?
    case ReadFails => s.reader.Idle? && s.err.Some?
    case ReadCopies(_) => s.reader.Idle? && s.err.None? && s.currMsg != []
    case ReadWaits(_) => s.reader.Idle? && s.err.None? && s.currMsg == []
    case ReadCancelled => s.reader.Waiting? && s.cancelled
    case ReadReset => s.reader.Got?
    case ReadDrains => s.reader.Draining?
    case ReadReturnsToken => s.reader.Returning? && s.tokens < 1
    case ReadChecks => s.reader.Checking?
    case Cancel => true
  }

  /** The part of readerLoop after conn.Reader: text messages become errors. */
  predicate IsReader(m: Incoming) {
    m.BodyFails? || (m.Message? && m.binary)
  }

  function CopyOut(s: Proto, max: nat): Proto {
    var n := Min(max, |s.currMsg|);
    s.(reader := Idle, currMsg := s.currMsg[n..], delivered := s.delivered + s.currMsg[..n])
  }

  function Next(s: Proto, a: Action): Proto
    requires Enabled(s, a)
  {
    match a
    case LoopStops => s.(loop := Stopped)
    case LoopTakesToken => s.(loop := Asking, tokens := s.tokens - 1)
    case LoopIsAnswered =>
      var m := s.inbox[s.taken];
      s.(loop := Offering(m), taken := s.taken + 1, undrained := !m.ReaderFails?)
    case HandOver => s.(loop := AtBarrier, reader := Got(s.reader.max, s.loop.m))
    case ReadFails => s
    case ReadCopies(max) => CopyOut(s, max)
    case ReadWaits(max) => s.(reader := Waiting(max))
    case ReadCancelled => s.(reader := Idle, err := Some(Cancelled))
    case ReadReset =>
      if IsReader(s.reader.m) then s.(reader := Draining(s.reader.max, s.reader.m), buf := [])
      else s.(reader := Idle, err := Verdict(s.reader.m))
    case ReadDrains =>
      if s.reader.m.Message? then s.(reader := Returning(s.reader.max), buf := s.reader.m.data, undrained := false)
      else s.(reader := Idle, err := Some(BodyError))
    case ReadReturnsToken => s.(reader := Checking(s.reader.max), tokens := s.tokens + 1)
    case ReadChecks =>
      var v := Verdict(Message(true, s.buf));
      if v.Some? then s.(reader := Idle, err := v)
      else CopyOut(s.(currMsg := s.buf, accepted := s.accepted + 1), s.reader.max)
    case Cancel => s.(cancelled := true)
  }

  ghost predicate Runs(s: Proto, actions: seq<Action>)
    decreases actions
  {
    actions == [] || (Enabled(s, actions[0]) && Runs(Next(s, actions[0]), actions[1..]))
  }

  function Reach(s: Proto, actions: seq<Action>): Proto
    requires Runs(s, actions)
    decreases actions
  {
    if actions == [] then s else Reach(Next(s, actions[0]), actions[1..])
  }

  // ---------------------------------------------------------------- the invariant

  function LoopHolds(s: Proto): nat {
    if s.loop.Asking? || s.loop.Offering? then 1 else 0
  }

  function ReaderHolds(s: Proto): nat {
    if s.reader.Got? || s.reader.Draining? || s.reader.Returning? then 1 else 0
  }

  /** Tokens in the channel and readers in flight never exceed one, and until something fails
      or stops they are exactly one: the token is neither doubled nor lost. While a reader has
      unread bytes there is no token and nobody is asking for another. */
  ghost predicate Exclusive(s: Proto) {
    && s.tokens + LoopHolds(s) + ReaderHolds(s) <= 1
    && (s.err.None? && !s.loop.Stopped? ==> s.tokens + LoopHolds(s) + ReaderHolds(s) == 1)
    && (s.loop.Stopped? || s.err == Some(Cancelled) ==> s.cancelled)
    && (s.undrained ==> s.tokens == 0 && !s.loop.Asking? && !s.reader.Returning?)
    && (!s.reader.Idle? ==> s.err.None? && s.currMsg == [])
  }

  predicate Working(s: Proto) {
    !s.reader.Idle? && !s.reader.Waiting?
  }

  /** The message the reader side is working on is the given one. */
  predicate WorksOn(s: Proto, m: Incoming) {
    match s.reader
    case Got(_, g) => g == m
    case Draining(_, g) => g == m && IsReader(m)
    case Returning(_) => m == Message(true, s.buf)
    case Checking(_) => m == Message(true, s.buf)
    case _ => true
  }

  /** Messages are worked on in the order of the connection, and every byte of the ones
      accepted is delivered or still to be. */
  ghost predicate InOrder(s: Proto) {
    && s.taken <= |s.inbox|
    && (s.loop.Offering? ==> 0 < s.taken && s.loop.m == s.inbox[s.taken - 1])
    && (s.err.None? && !s.loop.Stopped? ==>
          s.taken == s.accepted + (if Working(s) then 1 else 0) + (if s.loop.Offering? then 1 else 0))
    && (Working(s) ==> s.accepted < |s.inbox| && WorksOn(s, s.inbox[s.accepted]))
    && s.accepted <= |DataMessages(s.inbox)|
    && s.delivered + s.currMsg == Concat(DataMessages(s.inbox)[..s.accepted])
    && (s.err.Some? ==> s.currMsg == [])
    && (s.err.Some? && s.err.value != Cancelled ==>
          s.accepted == |DataMessages(s.inbox)| && s.err.value == Ending(s.inbox))
  }

  lemma ExclusiveStep(s: Proto, a: Action)
    requires Exclusive(s) && Enabled(s, a)
    ensures Exclusive(Next(s, a))
  {
    hide Verdict;
    match a
    case ReadReset => VerdictNeverCancelled(s.reader.m); VerdictOfNonReader(s.reader.m);
    case ReadChecks => VerdictNeverCancelled(Message(true, s.buf));
    case _ =>
  }

  /** The leading data messages are exactly those up to the first with a verdict. */
  lemma {:induction false} DataAt(inbox: seq<Incoming>, k: nat)
    requires k <= |DataMessages(inbox)|
    ensures k < |DataMessages(inbox)| ==>
              k < |inbox| && Verdict(inbox[k]).None? && DataMessages(inbox)[k] == inbox[k].data
    ensures k == |DataMessages(inbox)| && k < |inbox| ==> Verdict(inbox[k]) == Some(Ending(inbox))
    decreases inbox
  {
    hide Verdict;
    if inbox != [] && Verdict(inbox[0]).None? && k > 0 {
      DataAt(inbox[1..], k - 1);
    }
  }

  /** Accepting the next data message extends what is delivered or due by that message. */
  lemma AcceptNext(s: Proto)
    requires InOrder(s) && s.reader.Checking? && Verdict(Message(true, s.buf)).None? && s.currMsg == []
    ensures s.accepted + 1 <= |DataMessages(s.inbox)|
    ensures s.delivered + s.buf == Concat(DataMessages(s.inbox)[..s.accepted + 1])
  {
    hide Verdict;
    var k, ds := s.accepted, DataMessages(s.inbox);
    DataAt(s.inbox, k);
    assert k < |ds| && ds[k] == s.buf;
    assert ds[..k + 1] == ds[..k] + [ds[k]];
    ConcatAppend(ds[..k], [ds[k]]);
    assert Concat([ds[k]]) == ds[k] by { assert ds[k] + [] == ds[k]; }
    assert s.delivered + s.currMsg == s.delivered;
  }

  lemma CopyOutInOrder(s: Proto, max: nat)
    requires s.accepted <= |DataMessages(s.inbox)|
    requires s.err.None? && s.delivered + s.currMsg == Concat(DataMessages(s.inbox)[..s.accepted])
    ensures var t := CopyOut(s, max);
            t.delivered + t.currMsg == Concat(DataMessages(t.inbox)[..t.accepted])
  {
    var n := Min(max, |s.currMsg|);
    Assoc(s.delivered, s.currMsg[..n], s.currMsg[n..]);
    assert s.currMsg[..n] + s.currMsg[n..] == s.currMsg;
  }

  lemma InOrderStep(s: Proto, a: Action)
    requires Exclusive(s) && InOrder(s) && Enabled(s, a)
    ensures InOrder(Next(s, a))
  {
    hide Verdict, DataMessages, Ending, Concat;
    match a
    case ReadCopies(max) => CopyOutInOrder(s, max);
    case ReadReset =>
      DataAt(s.inbox, s.accepted);
      VerdictOfNonReader(s.reader.m);
    case ReadDrains => DataAt(s.inbox, s.accepted); VerdictOfNonReader(s.reader.m);
    case ReadChecks =>
      DataAt(s.inbox, s.accepted);
      if Verdict(Message(true, s.buf)).None? {
        AcceptNext(s);
        CopyOutInOrder(s.(currMsg := s.buf, accepted := s.accepted + 1), s.reader.max);
      } else {
        VerdictNeverCancelled(Message(true, s.buf));
      }
    case _ =>
  }

  lemma VerdictOfNonReader(m: Incoming)
    ensures !IsReader(m) ==> Verdict(m).Some?
    ensures m.BodyFails? ==> Verdict(m) == Some(BodyError)
  {
  }

  lemma VerdictNeverCancelled(m: Incoming)
    ensures Verdict(m) != Some(Cancelled)
  {
  }

  lemma {:induction false} ReachKeeps(s: Proto, actions: seq<Action>)
    requires Exclusive(s) && InOrder(s) && Runs(s, actions)
    ensures Exclusive(Reach(s, actions)) && InOrder(Reach(s, actions)) && Reach(s, actions).inbox == s.inbox
    decreases actions
  {
    hide InOrder, Exclusive;
    if actions != [] {
      ExclusiveStep(s, actions[0]);
      InOrderStep(s, actions[0]);
      ReachKeeps(Next(s, actions[0]), actions[1..]);
    }
  }

  /** Safety over every interleaving of readerLoop, Read and Close. */
  lemma BarrierSafety(inbox: seq<Incoming>, actions: seq<Action>)
    requires Runs(Init(inbox), actions)
    ensures var s := Reach(Init(inbox), actions);
            && s.tokens + LoopHolds(s) + ReaderHolds(s) <= 1
            && (s.err.None? && !s.loop.Stopped? ==> s.tokens + LoopHolds(s) + ReaderHolds(s) == 1)
            && (s.loop.Stopped? || s.err == Some(Cancelled) ==> s.cancelled)
            && (s.reader.Returning? ==> Enabled(s, ReadReturnsToken)) // returning the token never blocks
            && (s.loop.Asking? ==> !s.undrained)                      // conn.Reader finds the last reader drained
            && (s.reader.Got? ==> s.currMsg == [])                    // buf is reset only when nothing is unread
            && s.delivered <= Concat(DataMessages(inbox))
            && (s.err.Some? && s.err.value != Cancelled ==>
                  s.delivered == Concat(DataMessages(inbox)) && s.err.value == Ending(inbox))
  {
    InitKeeps(inbox);
    ReachKeeps(Init(inbox), actions);
    var s := Reach(Init(inbox), actions);
    var ds := DataMessages(inbox);
    assert ds == ds[..s.accepted] + ds[s.accepted..];
    ConcatAppend(ds[..s.accepted], ds[s.accepted..]);
    if s.err.Some? {
      assert s.delivered + s.currMsg == s.delivered;
    }
  }

  lemma InitKeeps(inbox: seq<Incoming>)
    ensures Exclusive(Init(inbox)) && InOrder(Init(inbox))
  {
    assert DataMessages(inbox)[..0] == [];
  }

  /** The step a Read call in progress takes next, once the reader is closed. */
  function ReaderMove(s: Proto): Action {
    match s.reader
    case Waiting(_) => ReadCancelled
    case Got(_, _) => ReadReset
    case Draining(_, _) => ReadDrains
    case Returning(_) => ReadReturnsToken
    case Checking(_) => ReadChecks
    case Idle => Cancel
  }

  function StepsLeft(pc: ReadPc): nat {
    match pc
    case Waiting(_) => 5
    case Got(_, _) => 4
    case Draining(_, _) => 3
    case Returning(_) => 2
    case Checking(_) => 1
    case Idle => 0
  }

  /** After Close nothing stays blocked in a select: a Read in progress always has an
      enabled step that brings it closer to returning, no step of another goroutine sets
      it back, and readerLoop can stop unless it is inside conn.Reader. */
  lemma CloseUnblocks(inbox: seq<Incoming>, actions: seq<Action>, other: Action)
    requires Runs(Init(inbox), actions) && Reach(Init(inbox), actions).cancelled
    ensures var s := Reach(Init(inbox), actions);
            && (!s.reader.Idle? ==>
                  Enabled(s, ReaderMove(s)) && StepsLeft(Next(s, ReaderMove(s)).reader) < StepsLeft(s.reader))
            && (!s.reader.Idle? && Enabled(s, other) ==> StepsLeft(Next(s, other).reader) <= StepsLeft(s.reader))
            && (s.loop.Stopped? || s.loop.Asking? || Enabled(s, LoopStops))
  {
    hide InOrder;
    InitKeeps(inbox);
    ReachKeeps(Init(inbox), actions);
  }

  // ---------------------------------------------------------------- progress

  /** The step that brings a Read call in progress forward, its own or one of readerLoop. */
  function Move(s: Proto): Action {
    if s.reader.Waiting? then
      match s.loop
      case AtBarrier => LoopTakesToken
      case Asking => LoopIsAnswered
      case Offering(_) => HandOver
      case Stopped => ReadCancelled
    else ReaderMove(s)
  }

  function Distance(s: Proto): nat {
    if s.reader.Waiting? then
      match s.loop
      case AtBarrier => 8
      case Asking => 7
      case Offering(_) => 6
      case Stopped => 5
    else StepsLeft(s.reader)
  }

  /** Progress, closed or not: a Read in progress always has an enabled step that brings it
      closer to returning, unless the connection has nothing more to say; and no step of
      anyone sets it back. */
  lemma ReadProgresses(inbox: seq<Incoming>, actions: seq<Action>, other: Action)
    requires Runs(Init(inbox), actions) && !Reach(Init(inbox), actions).reader.Idle?
    ensures var s := Reach(Init(inbox), actions);
            && (!(s.reader.Waiting? && s.loop.Asking? && s.taken == |s.inbox|) ==>
                  Enabled(s, Move(s)) && Distance(Next(s, Move(s))) < Distance(s))
            && (Enabled(s, other) ==> Distance(Next(s, other)) <= Distance(s))
  {
    InitKeeps(inbox);
    ReachKeeps(Init(inbox), actions);
    StepForward(Reach(Init(inbox), actions), other);
  }

  lemma StepForward(s: Proto, other: Action)
    requires Exclusive(s) && s.taken <= |s.inbox| && !s.reader.Idle?
    ensures !(s.reader.Waiting? && s.loop.Asking? && s.taken == |s.inbox|) ==>
              Enabled(s, Move(s)) && Distance(Next(s, Move(s))) < Distance(s)
    ensures Enabled(s, other) ==> Distance(Next(s, other)) <= Distance(s)
  {
    hide Verdict;
  }

  // ---------------------------------------------------------------- the protocol refines the sequential reader

  /** What the sequential reader would be looking at. */
  function Seen(s: Proto): State
    requires s.accepted <= |s.inbox|
  {
    State(s.inbox[s.accepted..], s.currMsg, s.err)
  }

  /** The buffer size of the Read call that a step completes, if it completes one. */
  function Completes(s: Proto, a: Action): Option<nat>
    requires Enabled(s, a)
  {
    if a.ReadFails? then Some(0)
    else if a.ReadCopies? then Some(a.max)
    else if !s.reader.Idle? && Next(s, a).reader.Idle? then Some(s.reader.max)
    else None
  }

  /** The sizes of the Read calls that complete in a run, in order. */
  ghost function Completed(s: Proto, actions: seq<Action>): seq<nat>
    requires Runs(s, actions)
    decreases actions
  {
    if actions == [] then []
    else
      var c := Completes(s, actions[0]);
      (if c.Some? then [c.value] else []) + Completed(Next(s, actions[0]), actions[1..])
  }

  /** A step that completes a Read call does what the sequential Read does; any other step
      delivers nothing and leaves the sequential reader as it is. */
  ghost predicate Refines(s: Proto, a: Action)
    requires Enabled(s, a) && s.accepted <= |s.inbox|
  {
    var n := Next(s, a);
    && n.accepted <= |n.inbox|
    && match Completes(s, a)
       case None => Seen(n) == Seen(s) && n.delivered == s.delivered
       case Some(max) =>
         var step := Read(Seen(s), max);
         Seen(n) == step.state && n.delivered == s.delivered + step.data
  }

  lemma StepRefines(s: Proto, a: Action)
    requires Exclusive(s) && InOrder(s) && Enabled(s, a) && a != ReadCancelled
    ensures s.accepted <= |s.inbox| && Refines(s, a)
  {
    hide InOrder, Exclusive, Refines;
    AcceptedFits(s);
    if a.ReadReset? || a.ReadDrains? || a.ReadChecks? {
      WorkingState(s);
      WorkRefines(s, a);
    } else {
      QuietRefines(s, a);
    }
  }

  lemma QuietRefines(s: Proto, a: Action)
    requires Enabled(s, a) && a != ReadCancelled && s.accepted <= |s.inbox|
    requires !a.ReadReset? && !a.ReadDrains? && !a.ReadChecks?
    ensures Refines(s, a)
  {
    hide Verdict;
    assert s.delivered + [] == s.delivered;
  }

  lemma WorkRefines(s: Proto, a: Action)
    requires Enabled(s, a) && (a.ReadReset? || a.ReadDrains? || a.ReadChecks?)
    requires s.accepted < |s.inbox| && WorksOn(s, s.inbox[s.accepted]) && s.err == None && s.currMsg == []
    ensures Refines(s, a)
  {
    hide Verdict;
    assert s.delivered + [] == s.delivered;
    assert s.inbox[s.accepted..][0] == s.inbox[s.accepted];
    assert s.inbox[s.accepted..][1..] == s.inbox[s.accepted + 1..];
    if !a.ReadChecks? {
      VerdictOfNonReader(s.reader.m);
    }
  }

  lemma WorkingState(s: Proto)
    requires Exclusive(s) && InOrder(s) && Working(s)
    ensures s.accepted < |s.inbox| && WorksOn(s, s.inbox[s.accepted]) && s.err == None && s.currMsg == []
  {
  }

  lemma {:induction false} DataFits(inbox: seq<Incoming>)
    ensures |DataMessages(inbox)| <= |inbox|
    decreases inbox
  {
    if inbox != [] && Verdict(inbox[0]).None? {
      DataFits(inbox[1..]);
    }
  }

  lemma {:induction false} ReachRefines(s: Proto, actions: seq<Action>)
    requires Exclusive(s) && InOrder(s) && Runs(s, actions) && ReadCancelled !in actions
    ensures s.accepted <= |s.inbox| && Reach(s, actions).accepted <= |Reach(s, actions).inbox|
    ensures var r := Run(Seen(s), Completed(s, actions));
            && Seen(Reach(s, actions)) == r.state
            && Reach(s, actions).delivered == s.delivered + r.data
    decreases actions
  {
    hide Exclusive, InOrder, Read;
    if actions == [] {
      assert s.accepted <= |s.inbox| by { AcceptedFits(s); }
      assert s.delivered + [] == s.delivered;
    } else {
      var a := actions[0];
      StepRefines(s, a);
      ExclusiveStep(s, a);
      InOrderStep(s, a);
      ReachRefines(Next(s, a), actions[1..]);
      var rest := Completed(Next(s, a), actions[1..]);
      var c := Completes(s, a);
      if c.Some? {
        assert ([c.value] + rest)[0] == c.value && ([c.value] + rest)[1..] == rest;
        var step := Read(Seen(s), c.value);
        Assoc(s.delivered, step.data, Run(step.state, rest).data);
      } else {
        assert [] + rest == rest;
      }
    }
  }

  lemma AcceptedFits(s: Proto)
    requires InOrder(s)
    ensures s.accepted <= |s.inbox|
  {
    DataFits(s.inbox);
  }

  /** Refinement. For every interleaving in which no Read call gives up waiting, the calls that
      complete return exactly the bytes and leave exactly the state of the sequential reader
      called with the same buffer sizes, one after the other. */
  lemma BarrierRefinesReader(inbox: seq<Incoming>, actions: seq<Action>)
    requires Runs(Init(inbox), actions) && ReadCancelled !in actions
    ensures var s := Reach(Init(inbox), actions);
            var r := Run(Start(inbox), Completed(Init(inbox), actions));
            s.delivered == r.data && s.currMsg == r.state.currMsg && s.err == r.state.err
  {
    hide Exclusive, InOrder, Run;
    InitKeeps(inbox);
    ReachRefines(Init(inbox), actions);
    assert inbox[0..] == inbox;
    assert Seen(Init(inbox)) == Start(inbox);
    var r := Run(Start(inbox), Completed(Init(inbox), actions));
    assert [] + r.data == r.data;
  }
}
