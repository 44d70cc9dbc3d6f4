/** What the program is told: the results of its calls, the callbacks of an event, and the bytes `sent` reports. */
module StreamCallbacks {
  import opened Bytes
  import opened Sockets
  import opened StreamProtocol

  // ----- results

  /** A write answers -1 when the kernel refuses it, its size when bytes are left behind, and 0 when none are. */
  lemma WriteAnswers(s: State, a: Action)
    requires a.Write?
    ensures
      var (s', result) := WriteStep(s, a);
      var rest := if s.Idle() && a.reply.Done? && a.reply.count <= |a.data| then a.data[a.reply.count..] else a.data;
      && (result == -1 <==> s.open && s.Idle() && a.reply.Failed?)
      && (result > 0 <==> s.open && if s.Idle() then a.reply.Done? && a.reply.count < |a.data| else a.data != [])
      && (result > 0 ==> result == |a.data| && s'.pollout && rest != [] && EndsWith(s'.pending, rest))
      && (result <= 0 ==> result == 0 || s' == s.Answered(a.reply))
  {
  }

  predicate EndsWith(bytes: seq<byte>, end: seq<byte>) {
    |end| <= |bytes| && bytes[|bytes| - |end|..] == end
  }

  /** An event answers -1 when the connection failed, the kernel refused a byte softly, or `recv` failed; else 0. */
  lemma EventAnswers(s: State, pollout: bool, pollin: bool, env: Answers)
    requires Possible(s, env)
    ensures
      var result := EventStep(s, pollout, pollin, env).1;
      && (result == 0 || result == -1)
      && (result == -1 <==>
          if s.connecting then !env.connectOk
          else if pollout && env.flushError.Failed? && env.flushError.errno !in {ECONNRESET, ENOTCONN, EPIPE} then true
          else pollin && !env.recvOk && (pollout ==> AfterSent(s, env).pending != []))
  {
  }

  /** The stream when an event has flushed the buffer and called `sent`. */
  function AfterSent(s: State, env: Answers): State
    requires Possible(s, env)
  {
    Notified(Flushed(s, env.moved, env.flushError), env)
  }

  // ----- what a POLLOUT event does

  /** An error that is none of these three ends the event; what was sent before it is out, and nobody is told. */
  lemma SoftErrorReturns(s: State, pollin: bool, env: Answers)
    requires !s.connecting && Possible(s, env)
    requires env.flushError.Failed? && env.flushError.errno !in {ECONNRESET, ENOTCONN, EPIPE}
    ensures
      var (s', result) := EventStep(s, true, pollin, env);
      && result == -1 && s'.wire == s.wire + s.pending[..env.moved] && s'.pending == s.pending[env.moved..]
      && s' == s.(wire := s'.wire, pending := s'.pending, errors := s'.errors)
  {
  }

  /** On one of these three the stream is closed, and whatever the callbacks try then changes nothing. */
  lemma FatalErrorCloses(s: State, pollin: bool, env: Answers)
    requires !s.connecting && Possible(s, env)
    requires env.flushError.Failed? && env.flushError.errno in {ECONNRESET, ENOTCONN, EPIPE}
    ensures
      var (s', result) := EventStep(s, true, pollin, env);
      && result == (if pollin && !env.recvOk then -1 else 0)
      && !s'.open && s'.wire == s.wire + s.pending[..env.moved] && s'.pending == s.pending[env.moved..]
      && s' == s.(open := false, wire := s'.wire, pending := s'.pending, errors := s'.errors, calls := s'.calls)
      && s'.calls == s.calls + [OnFailure] + if pollin then [OnRecv] else []
  {
    var closed := Flushed(s, env.moved, env.flushError).(open := false).Calling(OnFailure);
    ClosedActs(closed, env.onSent);
    ClosedActs(closed.Calling(OnRecv), env.onRecv);
  }

  lemma {:induction false} ClosedActs(s: State, actions: seq<Action>)
    requires !s.open
    ensures Acts(s, actions) == s
    decreases |actions|
  {
    if actions != [] {
      assert actions[0].Write? ==> WriteStep(s, actions[0]) == (s, 0);
      assert Act(s, actions[0]) == s;
      ClosedActs(s, actions[1..]);
    }
  }

  /** Without an error, and with callbacks that do nothing: who is called in which order, and what it answers. */
  lemma QuietEvent(s: State, pollin: bool, env: Answers)
    requires !s.connecting && Possible(s, env) && env.flushError.Done? && env.recvOk
    requires env.onSent == env.onAllSent == env.onRecv == []
    ensures
      var sent := if env.moved > 0 then [OnSent(env.moved)] else [];
      var all := env.moved == |s.pending|;
      var after := if all then [OnAllSent] else if pollin then [OnRecv] else [];
      EventStep(s, true, pollin, env)
      == (s.(wire := s.wire + s.pending[..env.moved], pending := s.pending[env.moved..],
             pollout := s.pollout && !all, calls := s.calls + sent + after), 0)
  {
    var s1 := Flushed(s, env.moved, env.flushError);
    assert s1.errors == s.errors;
    var s2 := if env.moved > 0 then s1.Calling(OnSent(env.moved)) else s1;
    assert Notified(s1, env) == s2 && FlushStep(s, env) == DrainedStep(s2, env);
    assert Acts(Drained(s2), []) == Drained(s2) && Acts(s2.Calling(OnRecv), []) == s2.Calling(OnRecv);
    assert s.calls + [] == s.calls && s2.calls + [] == s2.calls;
  }

  /** Whatever the callbacks do, `sent` is called first, exactly after a failure or some bytes. */
  lemma FirstCalled(s: State, pollin: bool, env: Answers)
    requires !s.connecting && Possible(s, env)
    requires env.flushError.Failed? ==> env.flushError.errno in {ECONNRESET, ENOTCONN, EPIPE}
    ensures
      var calls := EventStep(s, true, pollin, env).0.calls;
      && s.calls <= calls
      && (env.flushError.Failed? ==> s.calls + [OnFailure] <= calls)
      && (env.flushError.Done? && env.moved > 0 ==> s.calls + [OnSent(env.moved)] <= calls)
      && (env.flushError.Done? && env.moved == 0 && s.pending == [] ==> s.calls + [OnAllSent] <= calls)
  {
    var s' := Flushed(s, env.moved, env.flushError);
    CallsGrow(s'.(open := false).Calling(OnFailure), env.onSent);
    CallsGrow(s'.Calling(OnSent(env.moved)), env.onSent);
    var s2 := Notified(s', env);
    CallsGrow(Drained(s2), env.onAllSent);
    CallsGrow(s2.Calling(OnRecv), env.onRecv);
  }

  lemma {:induction false} CallsGrow(s: State, actions: seq<Action>)
    ensures s.calls <= Acts(s, actions).calls && s.errors <= Acts(s, actions).errors
    decreases actions
  {
    if actions != [] {
      if actions[0].Write? {
        WriteCalls(s, actions[0]);
      }
      CallsGrow(Act(s, actions[0]), actions[1..]);
    }
  }

  lemma {:induction false} WriteCalls(s: State, a: Action)
    requires a.Write?
    ensures s.calls <= WriteStep(s, a).0.calls && s.errors <= WriteStep(s, a).0.errors
    decreases a, 0
  {
    CallsGrow(Sent(s, a), a.onSent);
    CallsGrow(Drained(AfterSend(s, a)), a.onAllSent);
    CallsGrow(Drained(s.(accepted := s.accepted + a.data)), a.onAllSent);
  }

  // ----- the bytes that `sent` reports

  /** All counts that `sent` was given. */
  function Told(calls: seq<Callback>): nat {
    if calls == [] then 0
    else Told(calls[..|calls| - 1]) + Reported(calls[|calls| - 1])
  }

  function Reported(callback: Callback): nat {
    if callback.OnSent? then callback.count else 0
  }

  lemma ToldMore(calls: seq<Callback>, callback: Callback)
    ensures Told(calls + [callback]) == Told(calls) + Reported(callback)
  {
    assert (calls + [callback])[..|calls|] == calls;
  }

  /** Between s and s' as many bytes were sent as were reported, but for `untold` ones. */
  predicate Tells(s: State, s': State, untold: int) {
    |s'.wire| - |s.wire| == Told(s'.calls) - Told(s.calls) + untold
  }

  lemma {:induction false} ActsTell(s: State, actions: seq<Action>)
    ensures Tells(s, Acts(s, actions), 0)
    decreases actions
  {
    if actions != [] {
      if actions[0].Write? {
        WriteTells(s, actions[0]);
      }
      ActsTell(Act(s, actions[0]), actions[1..]);
    }
  }

  /** A write reports what it sends, at any depth of re-entrance. */
  lemma {:induction false} WriteTells(s: State, a: Action)
    requires a.Write?
    ensures Tells(s, WriteStep(s, a).0, 0)
    decreases a, 1
  {
    if s.open && !s.Idle() {
      BufferTells(s.(accepted := s.accepted + a.data), a.data, a);
    } else if s.open && a.reply.Done? {
      ToldMore(s.calls, OnSent(a.Taken()));
      ActsTell(Sent(s, a), a.onSent);
      BufferTells(AfterSend(s, a), a.Rest(), a);
    }
  }

  lemma {:induction false} BufferTells(s: State, rest: seq<byte>, a: Action)
    requires a.Write?
    ensures Tells(s, BufferStep(s, rest, a).0, 0)
    decreases a, 0
  {
    ToldMore(s.calls, OnAllSent);
    ActsTell(Drained(s), a.onAllSent);
  }

  /** The bytes that a flush sent before it failed. */
  function Untold(s: State, l: Label): nat {
    if l.Event? && !s.connecting && l.pollout && l.env.flushError.Failed? then l.env.moved else 0
  }

  lemma StepTells(s: State, l: Label)
    requires l.Event? ==> Possible(s, l.env)
    ensures Tells(s, Step(s, l), Untold(s, l))
  {
    match l {
      case Do(a) =>
        if a.Write? {
          WriteTells(s, a);
        }
      case Event(pollout, pollin, env) =>
        RecvTells(s, pollin, env);
        if s.connecting {
          ToldMore(s.calls, OnConnected);
          ActsTell(s.(connecting := false).Calling(OnConnected), env.onConnected);
        } else if pollout {
          FlushTells(s, env);
          RecvTells(FlushStep(s, env).0, pollin, env);
        }
    }
  }

  lemma RecvTells(s: State, pollin: bool, env: Answers)
    ensures Tells(s, RecvStep(s, pollin, env).0, 0)
  {
    ToldMore(s.calls, OnRecv);
    ActsTell(s.Calling(OnRecv), env.onRecv);
  }

  lemma NotifiedTells(s: State, env: Answers)
    ensures Tells(s, Notified(s, env), if env.flushError.Done? then -(env.moved as int) else 0)
  {
    ToldMore(s.calls, OnFailure);
    ActsTell(s.(open := false).Calling(OnFailure), env.onSent);
    ToldMore(s.calls, OnSent(env.moved));
    ActsTell(s.Calling(OnSent(env.moved)), env.onSent);
  }

  lemma DrainedTells(s: State, env: Answers)
    ensures Tells(s, DrainedStep(s, env).0, 0)
  {
    ToldMore(s.calls, OnAllSent);
    ActsTell(Drained(s), env.onAllSent);
  }

  lemma FlushTells(s: State, env: Answers)
    requires Possible(s, env)
    ensures Tells(s, FlushStep(s, env).0, if env.flushError.Failed? then env.moved else 0)
  {
    NotifiedTells(Flushed(s, env.moved, env.flushError), env);
    DrainedTells(Notified(Flushed(s, env.moved, env.flushError), env), env);
  }

  function AllUntold(s: State, run: seq<Label>): nat
    requires PossibleRun(s, run)
    decreases |run|
  {
    if run == [] then 0 else Untold(s, run[0]) + AllUntold(Step(s, run[0]), run[1..])
  }

  /** In every run the counts given to `sent` add up to the bytes sent, but for those of flushes that then failed. */
  lemma {:induction false} RunTells(s: State, run: seq<Label>)
    requires PossibleRun(s, run)
    ensures Tells(s, Run(s, run), AllUntold(s, run))
    decreases |run|
  {
    if run != [] {
      StepTells(s, run[0]);
      RunTells(Step(s, run[0]), run[1..]);
    }
  }

  /** Each failing flush of the run fails before it has sent a byte. */
  predicate FailsAtOnce(s: State, run: seq<Label>)
    requires PossibleRun(s, run)
    decreases |run|
  {
    run == [] ||
    ((run[0].Event? && !s.connecting && run[0].pollout && run[0].env.flushError.Failed? ==> run[0].env.moved == 0)
     && FailsAtOnce(Step(s, run[0]), run[1..]))
  }

  lemma {:induction false} FailsAtOnceIff(s: State, run: seq<Label>)
    requires PossibleRun(s, run)
    ensures FailsAtOnce(s, run) <==> AllUntold(s, run) == 0
    decreases |run|
  {
    if run != [] {
      FailsAtOnceIff(Step(s, run[0]), run[1..]);
    }
  }

  /** A program that counts what `sent` reports knows what was sent, exactly when no flush fails half way. */
  lemma ToldIsSentIff(inProgress: bool, run: seq<Label>)
    requires PossibleRun(Start(inProgress), run)
    ensures
      var s := Run(Start(inProgress), run);
      Told(s.calls) == |s.wire| <==> FailsAtOnce(Start(inProgress), run)
  {
    RunTells(Start(inProgress), run);
    FailsAtOnceIff(Start(inProgress), run);
  }

  /** A full segment is taken, the next one meets EAGAIN: all its bytes are sent and none is reported. */
  lemma UnreportedBytes(s: State, env: Answers)
    requires !s.connecting && env.moved == 2024 < |s.pending| && env.flushError == Failed(EAGAIN)
    ensures
      var s' := EventStep(s, true, false, env).0;
      |s'.wire| == |s.wire| + 2024 && s'.calls == s.calls
  {
  }
}
