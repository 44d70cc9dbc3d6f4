/** Whether a stream that waits has asked poll for POLLOUT, and what the events then do. */
module StreamPolling {
  import opened Bytes
  import opened Sockets
  import opened StreamProtocol

  /** One of these actions closes, if the stream waits and so calls `all_sent` after every empty write. */
  predicate Closes(actions: seq<Action>)
    decreases actions
  {
    actions != [] && ((match actions[0]
                       case Close => true
                       case Write(_, _, _, onAllSent) => Closes(onAllSent)) || Closes(actions[1..]))
  }

  /** A callback that writes nothing, on a stream that waits. */
  lemma {:induction false} ClosesIff(s: State, actions: seq<Action>)
    requires Silent(actions) && s.open && !s.Idle()
    ensures Acts(s, actions).open <==> !Closes(actions)
    decreases actions
  {
    if actions != [] {
      var a := actions[0];
      OneAction(s, a);
      SilentActs(s, [a]);
      if a.Write? {
        assert s.accepted + a.data == s.accepted && s.(accepted := s.accepted + a.data) == s;
        assert Act(s, a) == BufferStep(s, [], a).0 == Acts(Drained(s), a.onAllSent);
        ClosesIff(Drained(s), a.onAllSent);
      }
      assert Acts(s, actions) == Acts(Act(s, a), actions[1..]);
      ActsFrame(Act(s, a), actions[1..]);
      if Act(s, a).open {
        ClosesIff(Act(s, a), actions[1..]);
      }
    }
  }

  /**
   A write whose callbacks write nothing keeps a waiting stream registered with poll, exactly when it is not an
   empty write to a stream that waits for the connection or for room, unless its `all_sent` callback closes.
   */
  lemma WriteStallsIff(s: State, a: Action)
    requires a.Write? && s.open && s.NoStall() && Silent(a.onSent) && Silent(a.onAllSent)
    ensures WriteStep(s, a).0.NoStall() <==> (a.data != [] || s.Idle() || Closes(a.onAllSent))
  {
    SilentActs(Sent(s, a), a.onSent);
    if s.Idle() {
      SilentActs(Drained(AfterSend(s, a)), a.onAllSent);
    } else {
      var s' := Drained(s.(accepted := s.accepted + a.data));
      SilentActs(s', a.onAllSent);
      ClosesIff(s', a.onAllSent);
    }
  }

  /**
   No write of these actions is empty, and a direct write that the kernel takes whole is not re-entered by its
   `sent` callback.
   */
  predicate Steady(actions: seq<Action>)
    decreases actions
  {
    actions == [] || (SteadyAction(actions[0]) && Steady(actions[1..]))
  }

  predicate SteadyAction(a: Action)
    decreases a
  {
    a.Write? ==>
      && a.data != []
      && (a.Taken() == |a.data| ==> Silent(a.onSent))
      && Steady(a.onAllSent)
  }

  predicate SteadyStep(l: Label) {
    if l.Do? then SteadyAction(l.action)
    else Steady(l.env.onConnected) && Steady(l.env.onSent) && Steady(l.env.onAllSent) && Steady(l.env.onRecv)
  }

  lemma {:induction false} WriteKeepsAsking(s: State, a: Action)
    requires a.Write? && SteadyAction(a) && s.Asks()
    ensures
      var s' := WriteStep(s, a).0;
      s'.Asks() && s'.connecting == s.connecting && (s'.open ==> s.open)
    decreases a, 0
  {
    if s.open && s.Idle() && a.reply.Done? {
      ActsFrame(Sent(s, a), a.onSent);
      if a.Rest() == [] {
        SilentActs(Sent(s, a), a.onSent);
        ActsKeepAsking(Drained(AfterSend(s, a)), a.onAllSent);
      }
    }
  }

  lemma {:induction false} ActsKeepAsking(s: State, actions: seq<Action>)
    requires Steady(actions) && s.Asks()
    ensures
      var s' := Acts(s, actions);
      s'.Asks() && s'.connecting == s.connecting && (s'.open ==> s.open)
    decreases actions
  {
    if actions != [] {
      if actions[0].Write? {
        WriteKeepsAsking(s, actions[0]);
      }
      ActsKeepAsking(Act(s, actions[0]), actions[1..]);
    }
  }

  /** No action reopens a stream or has to do with its connection. */
  lemma {:induction false} ActsFrame(s: State, actions: seq<Action>)
    ensures
      var s' := Acts(s, actions);
      s'.connecting == s.connecting && (s'.open ==> s.open)
    decreases actions
  {
    if actions != [] {
      if actions[0].Write? {
        WriteFrame(s, actions[0]);
      }
      ActsFrame(Act(s, actions[0]), actions[1..]);
    }
  }

  lemma {:induction false} WriteFrame(s: State, a: Action)
    requires a.Write?
    ensures
      var s' := WriteStep(s, a).0;
      s'.connecting == s.connecting && (s'.open ==> s.open)
    decreases a, 0
  {
    ActsFrame(Sent(s, a), a.onSent);
    ActsFrame(Drained(AfterSend(s, a)), a.onAllSent);
    ActsFrame(Drained(s.(accepted := s.accepted + a.data)), a.onAllSent);
  }

  /** Once connected, a stream asks for POLLOUT exactly when its `connected` callback left bytes behind. */
  lemma ConnectedAsksIff(s: State, env: Answers)
    requires s.open && s.connecting && s.NoStall() && Steady(env.onConnected) && env.connectOk && env.peerKnown
    ensures
      var s' := ConnectStep(s, env).0;
      !s'.connecting && (s'.pollout <==> s'.pending != [])
  {
    ActsKeepAsking(s.(connecting := false).Calling(OnConnected), env.onConnected);
  }

  lemma StepKeepsNoStall(s: State, l: Label)
    requires l.Event? ==> Possible(s, l.env)
    requires s.NoStall() && SteadyStep(l)
    ensures Step(s, l).NoStall()
  {
    match l {
      case Do(a) =>
        if a.Write? && s.open {
          WriteKeepsAsking(s, a);
        }
        assert a.Write? && !s.open ==> WriteStep(s, a).0 == s;
      case Event(_, _, env) =>
        forall t: State, actions | t.NoStall() && Steady(actions)
          ensures Acts(t, actions).NoStall() && Acts(t, actions).connecting == t.connecting
        {
          ActsFrame(t, actions);
          if t.open {
            ActsKeepAsking(t, actions);
          }
        }
    }
  }

  /** Every state reached by steady writes waits with POLLOUT whenever it has to wait. */
  lemma {:induction false} RunNeverStalls(s: State, run: seq<Label>)
    requires PossibleRun(s, run) && s.NoStall()
    requires forall l :: l in run ==> SteadyStep(l)
    ensures Run(s, run).NoStall()
    decreases |run|
  {
    if run != [] {
      assert run[0] in run;
      StepKeepsNoStall(s, run[0]);
      RunNeverStalls(Step(s, run[0]), run[1..]);
    }
  }

  /** poll reports POLLOUT only to those who asked for it. */
  predicate Polled(s: State, run: seq<Label>)
    requires PossibleRun(s, run)
    decreases |run|
  {
    run == [] || ((run[0].Event? && run[0].pollout ==> s.pollout) && Polled(Step(s, run[0]), run[1..]))
  }

  /** Nobody writes a byte in this step. */
  predicate SilentStep(l: Label) {
    if l.Do? then SilentAction(l.action)
    else Silent(l.env.onConnected) && Silent(l.env.onSent) && Silent(l.env.onAllSent) && Silent(l.env.onRecv)
  }

  /** A stalled stream sends nothing more until somebody writes again. */
  lemma {:induction false} StalledSendsNothing(s: State, run: seq<Label>)
    requires PossibleRun(s, run) && Polled(s, run)
    requires !s.connecting && s.pending != [] && !s.pollout
    requires forall l :: l in run ==> SilentStep(l)
    ensures Run(s, run).wire == s.wire && Run(s, run).pending == s.pending
    decreases |run|
  {
    if run != [] {
      var l := run[0];
      assert l in run;
      if l.Event? {
        SilentActs(s.Calling(OnRecv), l.env.onRecv);
      } else {
        SilentActs(s, [l.action]);
        assert Acts(s, [l.action]) == Acts(Act(s, l.action), []);
      }
      StalledSendsNothing(Step(s, l), run[1..]);
    }
  }

  /** Three bytes written, one of them taken, then an empty write: two bytes wait and nobody asks for POLLOUT. */
  lemma EmptyWriteStalls()
    ensures
      var run := [Do(Write([1, 2, 3], Done(1), [], [])), Do(Write([], Done(0), [], []))];
      && PossibleRun(Start(false), run)
      && Run(Start(false), run) == State(true, false, false, [2, 3], [1], [1, 2, 3], [], [OnSent(1), OnAllSent])
  {
    var a, b := Write([1, 2, 3], Done(1), [], []), Write([], Done(0), [], []);
    var s0, s1 := Start(false), State(true, false, true, [2, 3], [1], [1, 2, 3], [], [OnSent(1)]);
    assert a.Taken() == 1 && a.Rest() == [2, 3];
    assert Sent(s0, a) == s1.(pollout := false, pending := []);
    assert WriteStep(s0, a).0 == s1;
    var s2 := State(true, false, false, [2, 3], [1], [1, 2, 3], [], [OnSent(1), OnAllSent]);
    assert s1.accepted + [] == s1.accepted && Drained(s1) == s2;
    assert WriteStep(s1, b).0 == s2;
    var last := [Do(b)];
    assert last[1..] == [] && Step(s1, Do(b)) == s2;
    assert PossibleRun(s2, []) && Run(s2, []) == s2;
    assert PossibleRun(s1, last) && Run(s1, last) == s2;
    assert [Do(a), Do(b)][1..] == last && Step(s0, Do(a)) == s1;
  }

  // ----- progress

  /** POLLOUT on a connected stream, and the kernel takes at least one byte if there is one. */
  predicate Flushes(s: State, l: Label) {
    && l.Event? && l.pollout && Possible(s, l.env)
    && l.env.flushError.Done? && (s.pending != [] ==> l.env.moved > 0)
    && l.env.recvOk && SilentStep(l)
  }

  predicate FlushRun(s: State, run: seq<Label>)
    decreases |run|
  {
    run == [] || (Flushes(s, run[0]) && FlushRun(Step(s, run[0]), run[1..]))
  }

  lemma FlushShrinks(s: State, l: Label)
    requires !s.connecting && Flushes(s, l)
    ensures
      var s' := Step(s, l);
      && !s'.connecting && s'.wire + s'.pending == s.wire + s.pending && s'.accepted == s.accepted
      && (if s.pending == [] then s'.pending == [] else |s'.pending| < |s.pending|)
      && (s'.pending == [] ==> !s'.pollout)
  {
    MovePrefix(s.wire, s.pending, l.env.moved);
    var s1 := Flushed(s, l.env.moved, l.env.flushError);
    SilentActs(s1.Calling(OnSent(l.env.moved)), l.env.onSent);
    var s2 := Notified(s1, l.env);
    SilentActs(Drained(s2), l.env.onAllSent);
    SilentActs(s2.Calling(OnRecv), l.env.onRecv);
  }

  /** With one byte taken per event, as many events as there are bytes drain the buffer. */
  lemma {:induction false} FlushRunDrains(s: State, run: seq<Label>)
    requires !s.connecting && s.Conserved() && FlushRun(s, run)
    requires run != [] && |run| >= |s.pending|
    ensures PossibleRun(s, run)
    ensures Run(s, run).wire == s.accepted && Run(s, run).pending == [] && !Run(s, run).pollout
    decreases |run|
  {
    FlushShrinks(s, run[0]);
    var s' := Step(s, run[0]);
    if run[1..] != [] {
      FlushRunDrains(s', run[1..]);
    } else {
      assert s'.pending == [];
    }
  }
}
