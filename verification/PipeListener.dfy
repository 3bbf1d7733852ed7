/** The in-memory listener: Accept, DialContext and Close calls of any number of goroutines
    over one unbuffered channel of connections and a close signal. */
module PipeListener {
  import opened Framing
  import Signal

  type CallId = nat
  type Pipe = nat

  /** Where a call is. `wait` is the channel its select watches for closing: None is the
      channel that was closed from the start. */
  datatype Pc =
    | AcceptStart | AcceptChecked | AcceptSelect(wait: Option<Signal.Chan>) | Accepted(pipe: Pipe) | AcceptErrClosed
    | DialStart | DialChecked | DialSelect(pipe: Pipe, wait: Option<Signal.Chan>)
    | Dialed(pipe: Pipe) | DialErrClosed | DialCtxErr
    | CloseStart | CloseSwapped | CloseNil | CloseErrAlready

  datatype State = State(
    sig: Signal.State,
    calls: map<CallId, Pc>,
    pipes: nat,                        // pipes 0 .. pipes - 1 were made
    met: map<Pipe, (CallId, CallId)>,  // history: dialer and acceptor of each handed-over pipe
    late: set<CallId>)                 // history: calls started after a Close call returned

  /** NewPipeListener: the signal of a new listener is reset. */
  const NEW: State := State(Signal.Next(Signal.ZERO, Signal.Reset(0)), map[], 0, map[], {})

  datatype Action =
    | Start(id: CallId, pc: Pc)
    | Check(id: CallId)           // IsDone
    | Enter(id: CallId)           // evaluate closed.Done() for the select
    | Meet(acceptor: CallId, dialer: CallId)
    | SeeClosed(id: CallId)
    | SeeCtxDone(id: CallId)
    | SwapSignal(id: CallId)
    | CloseChannel(id: CallId)

  predicate At(s: State, id: CallId, ok: set<Pc>) {
    id in s.calls && s.calls[id] in ok
  }

  predicate CanSeeClosed(s: State, wait: Option<Signal.Chan>) {
    wait.None? || wait.value in s.sig.closed
  }

  predicate Selecting(pc: Pc) {
    pc.AcceptSelect? || pc.DialSelect?
  }

  predicate Finished(pc: Pc) {
    || pc.Accepted? || pc.AcceptErrClosed?
    || pc.Dialed? || pc.DialErrClosed? || pc.DialCtxErr?
    || pc.CloseNil? || pc.CloseErrAlready?
  }

  predicate CloseReturned(s: State) {
    exists id :: id in s.calls && (s.calls[id].CloseNil? || s.calls[id].CloseErrAlready?)
  }

  predicate Enabled(s: State, a: Action) {
    match a
    case Start(id, pc) => id !in s.calls && pc in {AcceptStart, DialStart, CloseStart} && id !in s.sig.closing
    case Check(id) => At(s, id, {AcceptStart, DialStart})
    case Enter(id) => At(s, id, {AcceptChecked, DialChecked})
    case Meet(x, y) => x in s.calls && y in s.calls && s.calls[x].AcceptSelect? && s.calls[y].DialSelect?
    case SeeClosed(id) => id in s.calls && Selecting(s.calls[id]) && CanSeeClosed(s, s.calls[id].wait)
    case SeeCtxDone(id) => id in s.calls && s.calls[id].DialSelect?
    case SwapSignal(id) => At(s, id, {CloseStart}) && id !in s.sig.closing
    case CloseChannel(id) => At(s, id, {CloseSwapped}) && id in s.sig.closing
  }

  function Next(s: State, a: Action): State
    requires Enabled(s, a)
  {
    match a
    case Start(id, pc) =>
      s.(calls := s.calls[id := pc], late := if CloseReturned(s) then s.late + {id} else s.late)
    case Check(id) =>
      var accept := s.calls[id].AcceptStart?;
      s.(calls := s.calls[id :=
         if Signal.IsDone(s.sig) then (if accept then AcceptErrClosed else DialErrClosed)
         else if accept then AcceptChecked else DialChecked])
    case Enter(id) =>
      if s.calls[id].AcceptChecked? then s.(calls := s.calls[id := AcceptSelect(s.sig.current)])
      else s.(calls := s.calls[id := DialSelect(s.pipes, s.sig.current)], pipes := s.pipes + 1)
    case Meet(x, y) =>
      var p := s.calls[y].pipe;
      s.(calls := s.calls[x := Accepted(p)][y := Dialed(p)], met := s.met[p := (y, x)])
    case SeeClosed(id) =>
      s.(calls := s.calls[id := if s.calls[id].AcceptSelect? then AcceptErrClosed else DialErrClosed])
    case SeeCtxDone(id) => s.(calls := s.calls[id := DialCtxErr])
    case SwapSignal(id) =>
      s.(calls := s.calls[id := if s.sig.current.Some? then CloseSwapped else CloseErrAlready],
         sig := Signal.Next(s.sig, Signal.Swap(id)))
    case CloseChannel(id) =>
      s.(calls := s.calls[id := CloseNil], sig := Signal.Next(s.sig, Signal.Close(id)))
  }

  ghost predicate Runs(s: State, actions: seq<Action>)
    decreases actions
  {
    actions == [] || (Enabled(s, actions[0]) && Runs(Next(s, actions[0]), actions[1..]))
  }

  function Reach(s: State, actions: seq<Action>): State
    requires Runs(s, actions)
    decreases actions
  {
    if actions == [] then s else Reach(Next(s, actions[0]), actions[1..])
  }

  // ---------------------------------------------------------------- dials and accepts pair up

  predicate HasPipe(pc: Pc) {
    pc.DialSelect? || pc.Dialed?
  }

  type Calls = map<CallId, Pc>

  /** Each dialing call has a pipe of its own. */
  ghost predicate OwnPipes(calls: Calls, pipes: nat) {
    && (forall d :: d in calls && HasPipe(calls[d]) ==> calls[d].pipe < pipes)
    && (forall d, e :: (d in calls && e in calls && HasPipe(calls[d]) && HasPipe(calls[e])
                        && calls[d].pipe == calls[e].pipe) ==> d == e)
  }

  /** The pipes handed over are exactly those of the successful dials and exactly those of
      the successful accepts, one call of each kind per pipe. */
  ghost predicate Paired(calls: Calls, met: map<Pipe, (CallId, CallId)>) {
    && (forall p :: p in met ==>
          && met[p].0 in calls && calls[met[p].0] == Dialed(p)
          && met[p].1 in calls && calls[met[p].1] == Accepted(p))
    && (forall d :: d in calls && calls[d].Dialed? ==> calls[d].pipe in met && met[calls[d].pipe].0 == d)
    && (forall x :: x in calls && calls[x].Accepted? ==> calls[x].pipe in met && met[calls[x].pipe].1 == x)
  }

  lemma UpdatePlain(calls: Calls, pipes: nat, met: map<Pipe, (CallId, CallId)>, id: CallId, pc: Pc)
    requires OwnPipes(calls, pipes) && Paired(calls, met)
    requires id in calls ==> !calls[id].Dialed? && !calls[id].Accepted?
    requires !HasPipe(pc) && !pc.Accepted?
    ensures OwnPipes(calls[id := pc], pipes) && Paired(calls[id := pc], met)
  {
  }

  lemma UpdateDial(calls: Calls, pipes: nat, met: map<Pipe, (CallId, CallId)>, id: CallId, wait: Option<Signal.Chan>)
    requires OwnPipes(calls, pipes) && Paired(calls, met)
    requires id in calls && calls[id].DialChecked?
    ensures OwnPipes(calls[id := DialSelect(pipes, wait)], pipes + 1)
    ensures Paired(calls[id := DialSelect(pipes, wait)], met)
  {
  }

  lemma MeetPipes(calls: Calls, pipes: nat, x: CallId, y: CallId)
    requires OwnPipes(calls, pipes)
    requires x in calls && y in calls && calls[x].AcceptSelect? && calls[y].DialSelect?
    ensures OwnPipes(calls[x := Accepted(calls[y].pipe)][y := Dialed(calls[y].pipe)], pipes)
  {
  }

  lemma MeetPairs(calls: Calls, pipes: nat, met: map<Pipe, (CallId, CallId)>, x: CallId, y: CallId)
    requires OwnPipes(calls, pipes) && Paired(calls, met)
    requires x in calls && y in calls && calls[x].AcceptSelect? && calls[y].DialSelect?
    ensures var p := calls[y].pipe;
            Paired(calls[x := Accepted(p)][y := Dialed(p)], met[p := (y, x)])
  {
    var p := calls[y].pipe;
    NotYetMet(calls, pipes, met, y);
    hide OwnPipes;
  }

  lemma NotYetMet(calls: Calls, pipes: nat, met: map<Pipe, (CallId, CallId)>, y: CallId)
    requires OwnPipes(calls, pipes) && Paired(calls, met)
    requires y in calls && calls[y].DialSelect?
    ensures calls[y].pipe !in met
  {
  }

  lemma PairedStep(s: State, a: Action)
    requires OwnPipes(s.calls, s.pipes) && Paired(s.calls, s.met) && Enabled(s, a)
    ensures var n := Next(s, a);
            OwnPipes(n.calls, n.pipes) && Paired(n.calls, n.met)
  {
    hide OwnPipes, Paired;
    var n := Next(s, a);
    match a
    case Meet(x, y) => MeetPipes(s.calls, s.pipes, x, y); MeetPairs(s.calls, s.pipes, s.met, x, y);
    case Enter(id) =>
      if s.calls[id].DialChecked? {
        UpdateDial(s.calls, s.pipes, s.met, id, s.sig.current);
      } else {
        UpdatePlain(s.calls, s.pipes, s.met, id, n.calls[id]);
      }
    case Start(id, pc) => UpdatePlain(s.calls, s.pipes, s.met, id, pc);
    case Check(id) => UpdatePlain(s.calls, s.pipes, s.met, id, n.calls[id]);
    case SeeClosed(id) => UpdatePlain(s.calls, s.pipes, s.met, id, n.calls[id]);
    case SeeCtxDone(id) => UpdatePlain(s.calls, s.pipes, s.met, id, n.calls[id]);
    case SwapSignal(id) => UpdatePlain(s.calls, s.pipes, s.met, id, n.calls[id]);
    case CloseChannel(id) => UpdatePlain(s.calls, s.pipes, s.met, id, n.calls[id]);
  }

  // ---------------------------------------------------------------- closing

  /** Close calls that won the swap. */
  predicate Winner(pc: Pc) {
    pc.CloseSwapped? || pc.CloseNil?
  }

  predicate CloseDone(pc: Pc) {
    pc.CloseNil? || pc.CloseErrAlready?
  }

  /** Where a call may be that started after a Close call returned: never in a select. */
  predicate TooLate(pc: Pc) {
    pc in {AcceptStart, AcceptErrClosed, DialStart, DialErrClosed, CloseStart, CloseErrAlready}
  }

  /** Until the signal is triggered nobody has closed; from then on exactly one Close call
      has won, and it alone returns nil. */
  ghost predicate OneWinner(calls: Calls, triggered: bool) {
    && (forall i, j :: i in calls && j in calls && Winner(calls[i]) && Winner(calls[j]) ==> i == j)
    && (triggered <==> exists i :: i in calls && Winner(calls[i]))
    && (!triggered ==> forall i :: i in calls ==> !CloseDone(calls[i]))
  }

  /** The signal's bookkeeping agrees with where the calls are. */
  ghost predicate SignalAgrees(calls: Calls, sig: Signal.State) {
    && (sig.current == None || sig.current == Some(0))
    && (sig.current.Some? ==> 0 !in sig.closed)
    && (forall id :: id in sig.closing <==> id in calls && calls[id].CloseSwapped?)
    && (forall id :: id in sig.closing ==> sig.closing[id] == 0)
    && (0 in sig.closed <==> exists i :: i in calls && calls[i].CloseNil?)
    && (forall id :: id in calls && Selecting(calls[id]) ==> calls[id].wait == None || calls[id].wait == Some(0))
  }

  ghost predicate LateCalls(s: State) {
    && (s.late != {} ==> s.sig.current.None?)
    && (forall id :: id in s.late ==> id in s.calls && TooLate(s.calls[id]))
  }

  /** ErrClosed is returned, and the closed channel watched, only once the signal was triggered. */
  ghost predicate Honest(s: State) {
    forall id :: id in s.calls && KnowsClosed(s.calls[id]) ==> s.sig.current.None?
  }

  predicate KnowsClosed(pc: Pc) {
    pc.AcceptErrClosed? || pc.DialErrClosed? || (Selecting(pc) && pc.wait.None?)
  }

  ghost predicate Inv(s: State) {
    && OwnPipes(s.calls, s.pipes) && Paired(s.calls, s.met)
    && OneWinner(s.calls, s.sig.current.None?)
    && SignalAgrees(s.calls, s.sig)
    && LateCalls(s) && Honest(s)
  }

  /** Changing a call that is no Close call, and becomes none, leaves the winner alone. */
  lemma SameWinner(calls: Calls, triggered: bool, id: CallId, pc: Pc)
    requires OneWinner(calls, triggered)
    requires id in calls ==> !Winner(calls[id]) && !CloseDone(calls[id])
    requires !Winner(pc) && (CloseDone(pc) ==> triggered)
    ensures OneWinner(calls[id := pc], triggered)
  {
    if triggered {
      var i :| i in calls && Winner(calls[i]);
      assert i in calls[id := pc] && Winner(calls[id := pc][i]);
    }
  }

  lemma NewWinner(calls: Calls, id: CallId)
    requires OneWinner(calls, false) && id in calls
    ensures OneWinner(calls[id := CloseSwapped], true)
  {
    var after := calls[id := CloseSwapped];
    assert id in after && Winner(after[id]);
  }

  lemma WinnerReturns(calls: Calls, id: CallId)
    requires OneWinner(calls, true) && id in calls && calls[id].CloseSwapped?
    ensures OneWinner(calls[id := CloseNil], true)
  {
    var after := calls[id := CloseNil];
    assert Winner(calls[id]);
    assert id in after && Winner(after[id]);
  }

  lemma WinnerTriggered(calls: Calls, triggered: bool, id: CallId)
    requires OneWinner(calls, triggered) && id in calls && Winner(calls[id])
    ensures triggered
  {
  }

  lemma WinnerStep(s: State, a: Action)
    requires OneWinner(s.calls, s.sig.current.None?) && Enabled(s, a)
    ensures OneWinner(Next(s, a).calls, Next(s, a).sig.current.None?)
  {
    hide OneWinner;
    var n := Next(s, a);
    var t := s.sig.current.None?;
    match a
    case Meet(x, y) =>
      var p := s.calls[y].pipe;
      SameWinner(s.calls, t, x, Accepted(p));
      SameWinner(s.calls[x := Accepted(p)], t, y, Dialed(p));
    case SwapSignal(id) =>
      if t {
        SameWinner(s.calls, t, id, CloseErrAlready);
      } else {
        NewWinner(s.calls, id);
      }
    case CloseChannel(id) =>
      WinnerTriggered(s.calls, t, id);
      WinnerReturns(s.calls, id);
    case Start(id, pc) => SameWinner(s.calls, t, id, pc);
    case Check(id) => SameWinner(s.calls, t, id, n.calls[id]);
    case Enter(id) => SameWinner(s.calls, t, id, n.calls[id]);
    case SeeClosed(id) => SameWinner(s.calls, t, id, n.calls[id]);
    case SeeCtxDone(id) => SameWinner(s.calls, t, id, n.calls[id]);
  }

  /** A change that has nothing to do with closing. */
  lemma SameSignal(calls: Calls, sig: Signal.State, id: CallId, pc: Pc)
    requires SignalAgrees(calls, sig)
    requires id in calls ==> !Winner(calls[id])
    requires !Winner(pc) && (Selecting(pc) ==> pc.wait == None || pc.wait == Some(0))
    ensures SignalAgrees(calls[id := pc], sig)
  {
    if 0 in sig.closed {
      var i :| i in calls && calls[i].CloseNil?;
      assert i in calls[id := pc] && calls[id := pc][i].CloseNil?;
    }
  }

  lemma SwappedSignal(calls: Calls, sig: Signal.State, id: CallId)
    requires SignalAgrees(calls, sig) && sig.current.Some? && id !in sig.closing
    requires id in calls && calls[id].CloseStart?
    ensures SignalAgrees(calls[id := CloseSwapped], Signal.Next(sig, Signal.Swap(id)))
  {
  }

  lemma ClosedSignal(calls: Calls, sig: Signal.State, id: CallId)
    requires SignalAgrees(calls, sig) && id in sig.closing && sig.current.None?
    ensures SignalAgrees(calls[id := CloseNil], Signal.Next(sig, Signal.Close(id)))
  {
    assert calls[id := CloseNil][id].CloseNil?;
  }

  lemma CurrentIsFirst(calls: Calls, sig: Signal.State)
    requires SignalAgrees(calls, sig)
    ensures sig.current == None || sig.current == Some(0)
  {
  }

  lemma SignalStep(s: State, a: Action)
    requires OneWinner(s.calls, s.sig.current.None?) && SignalAgrees(s.calls, s.sig) && Enabled(s, a)
    ensures SignalAgrees(Next(s, a).calls, Next(s, a).sig)
  {
    hide SignalAgrees, OneWinner;
    var n := Next(s, a);
    match a
    case Meet(x, y) =>
      var p := s.calls[y].pipe;
      SameSignal(s.calls, s.sig, x, Accepted(p));
      SameSignal(s.calls[x := Accepted(p)], s.sig, y, Dialed(p));
    case SwapSignal(id) =>
      if s.sig.current.Some? {
        SwappedSignal(s.calls, s.sig, id);
      } else {
        SameSignal(s.calls, s.sig, id, CloseErrAlready);
      }
    case CloseChannel(id) =>
      WinnerTriggered(s.calls, s.sig.current.None?, id);
      ClosedSignal(s.calls, s.sig, id);
    case Enter(id) =>
      CurrentIsFirst(s.calls, s.sig);
      SameSignal(s.calls, s.sig, id, n.calls[id]);
    case Start(id, pc) => SameSignal(s.calls, s.sig, id, pc);
    case Check(id) => SameSignal(s.calls, s.sig, id, n.calls[id]);
    case SeeClosed(id) => SameSignal(s.calls, s.sig, id, n.calls[id]);
    case SeeCtxDone(id) => SameSignal(s.calls, s.sig, id, n.calls[id]);
  }

  lemma LateStep(s: State, a: Action)
    requires OneWinner(s.calls, s.sig.current.None?) && LateCalls(s) && Enabled(s, a)
    ensures LateCalls(Next(s, a))
  {
  }

  lemma HonestStep(s: State, a: Action)
    requires Honest(s) && SignalAgrees(s.calls, s.sig) && Enabled(s, a)
    ensures Honest(Next(s, a))
  {
    DoneIsTriggered(s);
    if a.SeeClosed? {
      assert CanSeeClosed(s, s.calls[a.id].wait) ==> s.sig.current.None?;
    }
    hide SignalAgrees;
  }

  lemma DoneIsTriggered(s: State)
    requires SignalAgrees(s.calls, s.sig)
    ensures Signal.IsDone(s.sig) <==> s.sig.current.None?
  {
  }

  lemma Step(s: State, a: Action)
    requires Inv(s) && Enabled(s, a)
    ensures Inv(Next(s, a))
  {
    hide OwnPipes, Paired, OneWinner, SignalAgrees, LateCalls, Honest;
    HonestStep(s, a);
    PairedStep(s, a);
    WinnerStep(s, a);
    SignalStep(s, a);
    LateStep(s, a);
  }

  lemma {:induction false} ReachKeeps(s: State, actions: seq<Action>)
    requires Inv(s) && Runs(s, actions)
    ensures Inv(Reach(s, actions))
    decreases actions
  {
    hide Inv;
    if actions != [] {
      Step(s, actions[0]);
      ReachKeeps(Next(s, actions[0]), actions[1..]);
    }
  }

  // ---------------------------------------------------------------- what the listener guarantees

  /** Conservation over every interleaving: successful dials and successful accepts pair up
      one to one on the same pipe; at most one Close returns nil, and whenever some Close
      call has returned there is exactly one that returns or is about to return nil; and
      an Accept or DialContext started after a completed Close can only return ErrClosed. */
  lemma ListenerConservation(actions: seq<Action>)
    requires Runs(NEW, actions)
    ensures var s := Reach(NEW, actions);
            && Paired(s.calls, s.met)
            && (forall x, y :: (x in s.calls && y in s.calls && s.calls[x].Accepted? && s.calls[y].Accepted?
                                && s.calls[x].pipe == s.calls[y].pipe) ==> x == y)
            && OneWinner(s.calls, s.sig.current.None?)
            && (forall id :: id in s.late ==> id in s.calls && TooLate(s.calls[id]))
  {
    NewInv();
    ReachKeeps(NEW, actions);
  }

  lemma NewInv()
    ensures Inv(NEW)
  {
  }

  /** The step that brings an unfinished call forward once the signal's channel is closed. */
  function Move(s: State, id: CallId): Action
    requires id in s.calls
  {
    match s.calls[id]
    case AcceptStart => Check(id)
    case DialStart => Check(id)
    case AcceptChecked => Enter(id)
    case DialChecked => Enter(id)
    case CloseStart => SwapSignal(id)
    case CloseSwapped => CloseChannel(id)
    case _ => SeeClosed(id)
  }

  /** How far an unfinished call is from returning. */
  function StepsLeft(pc: Pc): nat {
    match pc
    case AcceptStart => 3
    case DialStart => 3
    case AcceptChecked => 2
    case DialChecked => 2
    case CloseStart => 2
    case AcceptSelect(_) => 1
    case DialSelect(_, _) => 1
    case CloseSwapped => 1
    case _ => 0
  }

  /** No call stays blocked once a Close has returned nil, and outside its select none ever
      does: its next step is enabled and brings it closer to returning, and no step of another
      call sets it back. */
  lemma NothingStaysBlocked(actions: seq<Action>, id: CallId, other: Action)
    requires Runs(NEW, actions) && id in Reach(NEW, actions).calls && !Finished(Reach(NEW, actions).calls[id])
    ensures var s := Reach(NEW, actions);
            && ((exists c :: c in s.calls && s.calls[c].CloseNil?) || !Selecting(s.calls[id]) ==>
                  && Enabled(s, Move(s, id))
                  && StepsLeft(Next(s, Move(s, id)).calls[id]) < StepsLeft(s.calls[id]))
            && (Enabled(s, other) ==>
                  id in Next(s, other).calls && StepsLeft(Next(s, other).calls[id]) <= StepsLeft(s.calls[id]))
  {
    hide OwnPipes, Paired, OneWinner, LateCalls, Honest;
    NewInv();
    ReachKeeps(NEW, actions);
    hide Runs, Reach;
    StepForward(Reach(NEW, actions), id);
    if Enabled(Reach(NEW, actions), other) {
      NoStepBack(Reach(NEW, actions), id, other);
    }
  }

  lemma StepForward(s: State, id: CallId)
    requires SignalAgrees(s.calls, s.sig) && id in s.calls && !Finished(s.calls[id])
    ensures (exists c :: c in s.calls && s.calls[c].CloseNil?) || !Selecting(s.calls[id]) ==>
              Enabled(s, Move(s, id)) && StepsLeft(Next(s, Move(s, id)).calls[id]) < StepsLeft(s.calls[id])
  {
  }

  lemma NoStepBack(s: State, id: CallId, other: Action)
    requires id in s.calls && !Finished(s.calls[id]) && Enabled(s, other)
    ensures id in Next(s, other).calls && StepsLeft(Next(s, other).calls[id]) <= StepsLeft(s.calls[id])
  {
  }

  // ---------------------------------------------------------------- open and closed, as callers see it

  /** ErrClosed and ErrAlreadyClosed are returned only by a listener that was closed. */
  lemma ErrorsMeanClosed(actions: seq<Action>, id: CallId)
    requires Runs(NEW, actions) && id in Reach(NEW, actions).calls
    ensures var s := Reach(NEW, actions);
            s.calls[id].AcceptErrClosed? || s.calls[id].DialErrClosed? || s.calls[id].CloseErrAlready? ==>
              exists c :: c in s.calls && Winner(s.calls[c])
  {
    hide OwnPipes, Paired, SignalAgrees, LateCalls;
    NewInv();
    ReachKeeps(NEW, actions);
  }

  function Meeting(x: CallId, y: CallId): seq<Action> {
    [Start(x, AcceptStart), Check(x), Enter(x), Start(y, DialStart), Check(y), Enter(y), Meet(x, y)]
  }

  /** While no Close call has won, a new Accept and a new DialContext can meet, whatever else is
      going on, and both return the two ends of one new pipe. */
  lemma OpenListenerMeets(actions: seq<Action>, x: CallId, y: CallId)
    requires Runs(NEW, actions)
    requires var s := Reach(NEW, actions);
             x != y && x !in s.calls && y !in s.calls && forall c :: c in s.calls ==> !Winner(s.calls[c])
    ensures var s := Reach(NEW, actions);
            && Runs(s, Meeting(x, y))
            && var t := Reach(s, Meeting(x, y));
               && x in t.calls && y in t.calls
               && t.calls[x] == Accepted(s.pipes) && t.calls[y] == Dialed(s.pipes)
  {
    hide OwnPipes, Paired, LateCalls, Honest;
    NewInv();
    ReachKeeps(NEW, actions);
    hide Runs, Reach;
    MeetingRuns(Reach(NEW, actions), x, y);
  }

  lemma MeetingRuns(s: State, x: CallId, y: CallId)
    requires SignalAgrees(s.calls, s.sig) && s.sig.current.Some?
    requires x != y && x !in s.calls && y !in s.calls
    ensures Runs(s, Meeting(x, y))
    ensures var t := Reach(s, Meeting(x, y));
            && x in t.calls && y in t.calls
            && t.calls[x] == Accepted(s.pipes) && t.calls[y] == Dialed(s.pipes)
  {
    assert !Signal.IsDone(s.sig) by { DoneIsTriggered(s); }
    assert x !in s.sig.closing && y !in s.sig.closing;
    hide SignalAgrees;
    Enters(s, x, AcceptStart);
    var s3 := Opened(s, x, AcceptStart);
    Enters(s3, y, DialStart);
    var s6 := Opened(s3, y, DialStart);
    hide Next, Enabled, Opened;
    Meets(s6, x, y);
    assert [Meet(x, y)][1..] == [];
    RunsOne(s6, [Meet(x, y)]);
    EntersThen(s3, y, DialStart, [Meet(x, y)]);
    EntersThen(s, x, AcceptStart, Opening(y, DialStart) + [Meet(x, y)]);
    assert Meeting(x, y) == Opening(x, AcceptStart) + (Opening(y, DialStart) + [Meet(x, y)]);
  }

  function Opening(id: CallId, pc: Pc): seq<Action> {
    [Start(id, pc), Check(id), Enter(id)]
  }

  predicate CanOpen(s: State, id: CallId, pc: Pc) {
    && Enabled(s, Start(id, pc)) && Enabled(Next(s, Start(id, pc)), Check(id))
    && Enabled(Next(Next(s, Start(id, pc)), Check(id)), Enter(id))
  }

  function Opened(s: State, id: CallId, pc: Pc): State
    requires CanOpen(s, id, pc)
  {
    Next(Next(Next(s, Start(id, pc)), Check(id)), Enter(id))
  }

  lemma EntersThen(s: State, id: CallId, pc: Pc, rest: seq<Action>)
    requires CanOpen(s, id, pc) && Runs(Opened(s, id, pc), rest)
    ensures Runs(s, Opening(id, pc) + rest)
    ensures Reach(s, Opening(id, pc) + rest) == Reach(Opened(s, id, pc), rest)
  {
    hide Next, Enabled;
    var m := Opening(id, pc) + rest;
    assert m[1..] == [Check(id), Enter(id)] + rest && m[1..][1..] == [Enter(id)] + rest && m[1..][1..][1..] == rest;
    RunsOne(Next(Next(s, Start(id, pc)), Check(id)), [Enter(id)] + rest);
    RunsOne(Next(s, Start(id, pc)), [Check(id), Enter(id)] + rest);
    RunsOne(s, m);
  }

  /** On an open listener a new call gets to its select. */
  lemma Enters(s: State, id: CallId, pc: Pc)
    requires !Signal.IsDone(s.sig) && id !in s.calls && id !in s.sig.closing
    requires pc == AcceptStart || pc == DialStart
    ensures CanOpen(s, id, pc)
    ensures var t := Opened(s, id, pc);
            && t.sig == s.sig
            && t.pipes == (if pc == AcceptStart then s.pipes else s.pipes + 1)
            && t.calls == s.calls[id := if pc == AcceptStart then AcceptSelect(s.sig.current)
                                        else DialSelect(s.pipes, s.sig.current)]
  {
  }

  lemma Meets(s: State, x: CallId, y: CallId)
    requires x in s.calls && y in s.calls && s.calls[x].AcceptSelect? && s.calls[y].DialSelect?
    ensures Enabled(s, Meet(x, y)) && Runs(Next(s, Meet(x, y)), [])
    ensures var t := Next(s, Meet(x, y));
            && x in t.calls && y in t.calls
            && t.calls[x] == Accepted(s.calls[y].pipe) && t.calls[y] == Dialed(s.calls[y].pipe)
  {
  }

  lemma RunsOne(s: State, actions: seq<Action>)
    requires actions != [] && Enabled(s, actions[0]) && Runs(Next(s, actions[0]), actions[1..])
    ensures Runs(s, actions) && Reach(s, actions) == Reach(Next(s, actions[0]), actions[1..])
  {
  }
}
