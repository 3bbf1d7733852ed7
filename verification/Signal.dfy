/** The lock-free signal: a pointer to a channel, swapped out to trigger and swapped in to
    reset, used by any number of goroutines. Each atomic instruction is one step. */
module Signal {
  import opened Framing

  type Chan = nat
  type Thread = nat

  datatype Event = DidReset | DidSignal

  datatype State = State(
    current: Option<Chan>,      // the ch field; None is nil, the triggered state
    installed: nat,             // channels 0 .. installed - 1 were installed at some time
    closed: set<Chan>,
    closing: map<Thread, Chan>, // swapped out, close call still to come
    closes: multiset<Chan>,     // history: every close call
    log: seq<Event>)            // history: successful calls, in order

  /** The zero value: triggered. */
  const ZERO: State := State(None, 0, {}, map[], multiset{}, [])

  datatype Action =
    | Reset(t: Thread)  // compare-and-swap of nil for a new channel
    | Swap(t: Thread)   // Signal, first half: swap nil in
    | Close(t: Thread)  // Signal, second half: close what was swapped out

  predicate Enabled(s: State, a: Action) {
    match a
    case Reset(t) => t !in s.closing
    case Swap(t) => t !in s.closing
    case Close(t) => t in s.closing
  }

  function Next(s: State, a: Action): State
    requires Enabled(s, a)
  {
    match a
    case Reset(_) =>
      if s.current.Some? then s
      else s.(current := Some(s.installed), installed := s.installed + 1, log := s.log + [DidReset])
    case Swap(t) =>
      if s.current.None? then s
      else s.(current := None, closing := s.closing[t := s.current.value], log := s.log + [DidSignal])
    case Close(t) =>
      var c := s.closing[t];
      s.(closed := s.closed + {c}, closing := s.closing - {t}, closes := s.closes + multiset{c})
  }

  /** What a call returns at its step. */
  function Result(s: State, a: Action): bool
    requires Enabled(s, a)
  {
    match a
    case Reset(_) => s.current.None?
    case Swap(_) => s.current.Some?
    case Close(_) => true
  }

  /** IsDone: nil, or a channel that is closed. */
  predicate IsDone(s: State) {
    s.current.None? || s.current.value in s.closed
  }

  ghost predicate Runs(s: State, actions: seq<Action>)
    decreases actions
  {
    actions == [] || (Enabled(s, actions[0]) && Runs(Next(s, actions[0]), actions[1..]))
  }

  function Reach(s: State, actions: seq<Action>): State
    requires Runs(s, actions)
    decreases actions
  {
    if actions == [] then s else Reach(Next(s, actions[0]), actions[1..])
  }

  // ---------------------------------------------------------------- the invariant

  ghost predicate Owned(s: State, c: Chan) {
    exists t :: t in s.closing && s.closing[t] == c
  }

  /** Exactly one of three. */
  ghost predicate OneOf(a: bool, b: bool, c: bool) {
    (a && !b && !c) || (!a && b && !c) || (!a && !b && c)
  }

  ghost predicate Alternates(log: seq<Event>) {
    forall i :: 0 <= i < |log| ==> log[i] == if i % 2 == 0 then DidReset else DidSignal
  }

  ghost predicate Inv(s: State) {
    && (s.current.Some? ==> s.current.value < s.installed)
    && (forall c: Chan :: c < s.installed ==> OneOf(s.current == Some(c), Owned(s, c), c in s.closed))
    && (forall t :: t in s.closing ==> s.closing[t] < s.installed)
    && (forall t, u :: t in s.closing && u in s.closing && s.closing[t] == s.closing[u] ==> t == u)
    && (forall c :: c in s.closed ==> c < s.installed)
    && (forall c: Chan :: s.closes[c] == if c in s.closed then 1 else 0)
    && Alternates(s.log)
    && (s.current.Some? <==> |s.log| % 2 == 1)
  }

  lemma ResetStep(s: State, t: Thread)
    requires Inv(s) && Enabled(s, Reset(t))
    ensures Inv(Next(s, Reset(t)))
  {
    var n := Next(s, Reset(t));
    if s.current.None? {
      forall c: Chan | c < n.installed
        ensures OneOf(n.current == Some(c), Owned(n, c), c in n.closed)
      {
        assert Owned(n, c) <==> Owned(s, c);
      }
    }
  }

  lemma SwapStep(s: State, t: Thread)
    requires Inv(s) && Enabled(s, Swap(t))
    ensures Inv(Next(s, Swap(t)))
  {
    var n := Next(s, Swap(t));
    if s.current.Some? {
      var cur := s.current.value;
      assert n.closing[t] == cur && Owned(n, cur);
      forall c: Chan | c < n.installed
        ensures OneOf(n.current == Some(c), Owned(n, c), c in n.closed)
      {
        if c != cur {
          if Owned(s, c) {
            var u :| u in s.closing && s.closing[u] == c;
            assert u in n.closing && n.closing[u] == c;
          }
        }
      }
      forall u, v | u in n.closing && v in n.closing && n.closing[u] == n.closing[v]
        ensures u == v
      {
        assert u != t ==> Owned(s, s.closing[u]);
        assert v != t ==> Owned(s, s.closing[v]);
      }
    }
  }

  lemma CloseStep(s: State, t: Thread)
    requires Inv(s) && Enabled(s, Close(t))
    ensures Inv(Next(s, Close(t)))
  {
    var n, d := Next(s, Close(t)), s.closing[t];
    assert Owned(s, d);
    forall c: Chan | c < n.installed
      ensures OneOf(n.current == Some(c), Owned(n, c), c in n.closed)
    {
      if c != d && Owned(s, c) {
        var u :| u in s.closing && s.closing[u] == c;
        assert u in n.closing && n.closing[u] == c;
      }
    }
  }

  lemma Step(s: State, a: Action)
    requires Inv(s) && Enabled(s, a)
    ensures Inv(Next(s, a))
  {
    match a
    case Reset(t) => ResetStep(s, t);
    case Swap(t) => SwapStep(s, t);
    case Close(t) => CloseStep(s, t);
  }

  lemma {:induction false} ReachKeeps(s: State, actions: seq<Action>)
    requires Inv(s) && Runs(s, actions)
    ensures Inv(Reach(s, actions))
    ensures s.closed <= Reach(s, actions).closed && s.installed <= Reach(s, actions).installed
    decreases actions
  {
    hide Inv;
    if actions != [] {
      Step(s, actions[0]);
      ReachKeeps(Next(s, actions[0]), actions[1..]);
    }
  }

  /** Safety over any number of threads and any interleaving: every installed channel is
      exactly one of current, owned by one pending closer, or closed; none is closed
      twice; successful Reset and Signal calls strictly alternate. */
  lemma SignalSafety(actions: seq<Action>)
    requires Runs(ZERO, actions)
    ensures var s := Reach(ZERO, actions);
            && (forall c: Chan :: c < s.installed ==> OneOf(s.current == Some(c), Owned(s, c), c in s.closed))
            && (forall t, u :: t in s.closing && u in s.closing && s.closing[t] == s.closing[u] ==> t == u)
            && (forall c: Chan :: s.closes[c] <= 1)
            && Alternates(s.log)
            && (IsDone(s) <==> s.current.None?)
  {
    assert Inv(ZERO);
    ReachKeeps(ZERO, actions);
  }

  /** A snapshot: the channel current at some time. Later it is still current, or closed,
      or some thread is about to close it; and once closed it stays closed, across resets. */
  lemma SnapshotIsHonoured(before: seq<Action>, after: seq<Action>, c: Chan)
    requires Runs(ZERO, before) && Runs(Reach(ZERO, before), after)
    requires Reach(ZERO, before).current == Some(c)
    ensures var s := Reach(Reach(ZERO, before), after);
            s.current == Some(c) || c in s.closed || exists t :: Enabled(s, Close(t)) && s.closing[t] == c
  {
    assert Inv(ZERO);
    ReachKeeps(ZERO, before);
    ReachKeeps(Reach(ZERO, before), after);
    var s := Reach(Reach(ZERO, before), after);
    if s.current != Some(c) && c !in s.closed {
      assert Owned(s, c);
      var t :| t in s.closing && s.closing[t] == c;
      assert Enabled(s, Close(t)) && s.closing[t] == c;
    }
  }

  /** What the calls report, in any reachable state: Reset succeeds exactly when the signal
      is triggered, Signal exactly when it is not, and only a success changes the state. */
  lemma ResultsTellState(actions: seq<Action>, a: Action)
    requires Runs(ZERO, actions) && Enabled(Reach(ZERO, actions), a)
    ensures var s := Reach(ZERO, actions);
            && (a.Reset? ==> Result(s, a) == IsDone(s) && !IsDone(Next(s, a)))
            && (a.Swap? ==> Result(s, a) == !IsDone(s) && IsDone(Next(s, a)))
            && (!Result(s, a) ==> Next(s, a) == s)
            && (a.Close? ==> IsDone(Next(s, a)) == IsDone(s))
  {
    assert Inv(ZERO);
    ReachKeeps(ZERO, actions);
    Step(Reach(ZERO, actions), a);
    TriggeredIsNil(Reach(ZERO, actions));
    TriggeredIsNil(Next(Reach(ZERO, actions), a));
  }

  lemma TriggeredIsNil(s: State)
    requires Inv(s)
    ensures IsDone(s) <==> s.current.None?
  {
  }

  lemma ClosedStaysClosed(before: seq<Action>, after: seq<Action>, c: Chan)
    requires Runs(ZERO, before) && Runs(Reach(ZERO, before), after)
    requires c in Reach(ZERO, before).closed
    ensures c in Reach(Reach(ZERO, before), after).closed
  {
    assert Inv(ZERO);
    ReachKeeps(ZERO, before);
    ReachKeeps(Reach(ZERO, before), after);
  }
}
