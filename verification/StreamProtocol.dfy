/** The outbound side of io_stream as steps on values, and what every run of these steps keeps. */
module StreamProtocol {
  import opened Bytes
  import opened Sockets

  /** The calls of the user's callbacks, and what `sent` is told; after a failed flush that is (unsigned)-1. */
  datatype Callback = OnConnected | OnSent(count: nat) | OnFailure | OnAllSent | OnRecv

  /**
   `pending` are the bytes in `out`, `wire` the bytes the kernel took, `accepted` the bytes of all
   writes that did not fail, in the order of the calls, `errors` those the kernel answered but for signals, and
   `calls` the callbacks that were called.
   */
  datatype State = State(
    open: bool,
    connecting: bool,
    pollout: bool,
    pending: seq<byte>,
    wire: seq<byte>,
    accepted: seq<byte>,
    errors: seq<Errno>,
    calls: seq<Callback>)
  {
    /** Nothing lost, doubled or reordered. */
    predicate Conserved() {
      wire + pending == accepted
    }

    /** Whoever waits for the descriptor has asked poll for it. */
    predicate Asks() {
      connecting || pending != [] ==> pollout
    }

    predicate NoStall() {
      open ==> Asks()
    }

    predicate Idle() {
      !connecting && pending == []
    }

    function Answered(reply: Reply): State {
      this.(errors := errors + Errors(reply))
    }

    function Calling(callback: Callback): State {
      this.(calls := calls + [callback])
    }
  }

  /**
   What the program or a callback does. A write comes with what send(2) answers if it is called, and with what
   the `sent` and `all_sent` callbacks do if they are called: they may write and close as well.
   */
  datatype Action =
    | Write(data: seq<byte>, reply: Reply, onSent: seq<Action>, onAllSent: seq<Action>)
    | Close
  {
    /** What a direct send takes: no more than it is offered. */
    function Taken(): (n: nat)
      requires Write?
      ensures n <= |data|
    {
      if reply.Failed? then 0 else if reply.count <= |data| then reply.count else |data|
    }

    function Rest(): seq<byte>
      requires Write?
    {
      data[Taken()..]
    }
  }

  /** io_stream_write */
  function WriteStep(s: State, a: Action): (State, int)
    requires a.Write?
    decreases a, 1
  {
    if !s.open then
      (s, 0)
    else if !s.Idle() then
      BufferStep(s.(accepted := s.accepted + a.data), a.data, a)
    else if a.reply.Failed? then
      (s.Answered(a.reply), -1)
    else
      BufferStep(AfterSend(s, a), a.Rest(), a)
  }

  /** The direct part: some bytes go out, and `sent` learns how many unless there were none. */
  function AfterSend(s: State, a: Action): State
    requires a.Write?
    decreases a, 0
  {
    var s' := Sent(s, a);
    if a.Taken() > 0 then Acts(s', a.onSent) else s'
  }

  function Sent(s: State, a: Action): State
    requires a.Write?
  {
    var s' := s.(wire := s.wire + a.data[..a.Taken()], accepted := s.accepted + a.data);
    if a.Taken() > 0 then s'.Calling(OnSent(a.Taken())) else s'
  }

  /** Nobody waits for room any more, and `all_sent` learns it. */
  function Drained(s: State): State {
    s.(pollout := false).Calling(OnAllSent)
  }

  /** The other part: what is left is buffered, or `all_sent` learns that nothing is. */
  function BufferStep(s: State, rest: seq<byte>, a: Action): (State, int)
    requires a.Write?
    decreases a, 0
  {
    if rest == [] then
      (Acts(Drained(s), a.onAllSent), 0)
    else
      (s.(pending := s.pending + rest, pollout := true), |a.data|)
  }

  function Act(s: State, a: Action): State
    decreases a, 2
  {
    match a
    case Write(_, _, _, _) => WriteStep(s, a).0
    case Close => s.(open := false)
  }

  /** What a callback does, one after the other. */
  function Acts(s: State, actions: seq<Action>): State
    decreases actions
  {
    if actions == [] then s else Acts(Act(s, actions[0]), actions[1..])
  }

  /** What the kernel and the user's callbacks answer while one event is handled. */
  datatype Answers = Answers(
    connectOk: bool,
    peerKnown: bool,
    onConnected: seq<Action>,
    moved: nat,
    flushError: Reply,
    onSent: seq<Action>,
    onAllSent: seq<Action>,
    onRecv: seq<Action>,
    recvOk: bool)

  predicate Fatal(e: Errno) {
    e == ECONNRESET || e == ENOTCONN || e == EPIPE
  }

  /** io_stream_connecting and io_stream_connected */
  function ConnectStep(s: State, env: Answers): (State, int) {
    if !env.connectOk then
      (s.(open := false), -1)
    else if !env.peerKnown then
      (s.(connecting := false), 0)
    else
      var s' := Acts(s.(connecting := false).Calling(OnConnected), env.onConnected);
      (if s'.pending == [] then s'.(pollout := false) else s', 0)
  }

  /** The kernel takes `moved` bytes from the front of the buffer, and then may fail. */
  function Flushed(s: State, moved: nat, reply: Reply): State
    requires moved <= |s.pending|
  {
    s.(wire := s.wire + s.pending[..moved], pending := s.pending[moved..]).Answered(reply)
  }

  /** The POLLIN part of io_stream_event_handler. */
  function RecvStep(s: State, pollin: bool, env: Answers): (State, int) {
    if !pollin then
      (s, 0)
    else
      var s' := Acts(s.Calling(OnRecv), env.onRecv);
      if env.recvOk then (s', 0) else (s'.(open := false), -1)
  }

  datatype Flow = Return(result: int) | Continue

  /** The POLLOUT part of io_stream_event_handler. */
  function FlushStep(s: State, env: Answers): (State, Flow)
    requires Possible(s, env)
  {
    if env.flushError.Failed? && !Fatal(env.flushError.errno) then
      (Flushed(s, env.moved, env.flushError), Return(-1))
    else
      DrainedStep(Notified(Flushed(s, env.moved, env.flushError), env), env)
  }

  /** A fatal error closes; `sent` runs on anything but zero. */
  function Notified(s: State, env: Answers): State {
    if env.flushError.Failed? then
      Acts(s.(open := false).Calling(OnFailure), env.onSent)
    else if env.moved > 0 then
      Acts(s.Calling(OnSent(env.moved)), env.onSent)
    else
      s
  }

  /** A drained buffer ends the request for POLLOUT and the event. */
  function DrainedStep(s: State, env: Answers): (State, Flow) {
    if s.pending == [] then
      (Acts(Drained(s), env.onAllSent), Return(0))
    else
      (s, Continue)
  }

  /** io_stream_event_handler */
  function EventStep(s: State, pollout: bool, pollin: bool, env: Answers): (State, int)
    requires Possible(s, env)
  {
    if s.connecting then
      ConnectStep(s, env)
    else if !pollout then
      RecvStep(s, pollin, env)
    else
      match FlushStep(s, env)
      case (s', Return(result)) => (s', result)
      case (s', Continue) => RecvStep(s', pollin, env)
  }

  predicate Possible(s: State, env: Answers) {
    && env.moved <= |s.pending|
    && (env.flushError.Failed? ==> env.moved < |s.pending|)
  }

  // ----- runs

  datatype Label =
    | Do(action: Action)
    | Event(pollout: bool, pollin: bool, env: Answers)

  function Step(s: State, l: Label): State
    requires l.Event? ==> Possible(s, l.env)
  {
    match l
    case Do(a) => Act(s, a)
    case Event(pollout, pollin, env) => EventStep(s, pollout, pollin, env).0
  }

  predicate PossibleRun(s: State, run: seq<Label>)
    decreases |run|
  {
    run == [] || ((run[0].Event? ==> Possible(s, run[0].env)) && PossibleRun(Step(s, run[0]), run[1..]))
  }

  function Run(s: State, run: seq<Label>): State
    requires PossibleRun(s, run)
    decreases |run|
  {
    if run == [] then s else Run(Step(s, run[0]), run[1..])
  }

  /** io_stream_connect and io_stream_accept, before any callback ran. */
  function Start(inProgress: bool): State {
    State(true, inProgress, inProgress, [], [], [], [], [])
  }

  // ----- nothing is lost or doubled, whatever the callbacks write

  /** The bytes in `owed` are accepted and neither sent nor buffered yet; all others are, once. */
  predicate Balanced(s: State, owed: multiset<byte>) {
    multiset(s.wire + s.pending) + owed == multiset(s.accepted)
  }

  lemma {:induction false} WriteBalances(s: State, a: Action, owed: multiset<byte>)
    requires a.Write? && Balanced(s, owed)
    ensures Balanced(WriteStep(s, a).0, owed)
    decreases a, 1
  {
    if s.open && !s.Idle() {
      BufferBalances(s.(accepted := s.accepted + a.data), a.data, a, owed);
    } else if s.open && !a.reply.Failed? {
      assert a.data == a.data[..a.Taken()] + a.Rest();
      var s' := Sent(s, a);
      assert Balanced(s', owed + multiset(a.Rest()));
      ActsBalance(s', a.onSent, owed + multiset(a.Rest()));
      BufferBalances(AfterSend(s, a), a.Rest(), a, owed);
    }
  }

  lemma {:induction false} BufferBalances(s: State, rest: seq<byte>, a: Action, owed: multiset<byte>)
    requires a.Write? && Balanced(s, owed + multiset(rest))
    ensures Balanced(BufferStep(s, rest, a).0, owed)
    decreases a, 0
  {
    if rest == [] {
      ActsBalance(Drained(s), a.onAllSent, owed);
    } else {
      assert s.wire + (s.pending + rest) == s.wire + s.pending + rest;
    }
  }

  lemma {:induction false} ActsBalance(s: State, actions: seq<Action>, owed: multiset<byte>)
    requires Balanced(s, owed)
    ensures Balanced(Acts(s, actions), owed)
    decreases actions
  {
    if actions != [] {
      if actions[0].Write? {
        WriteBalances(s, actions[0], owed);
      }
      ActsBalance(Act(s, actions[0]), actions[1..], owed);
    }
  }

  lemma FlushBalances(s: State, env: Answers)
    requires Possible(s, env) && Balanced(s, multiset{})
    ensures Balanced(FlushStep(s, env).0, multiset{})
    ensures Balanced(Acts(FlushStep(s, env).0.Calling(OnRecv), env.onRecv), multiset{})
  {
    var s' := Flushed(s, env.moved, env.flushError);
    MovePrefix(s.wire, s.pending, env.moved);
    ActsBalance(s'.Calling(OnSent(env.moved)), env.onSent, multiset{});
    ActsBalance(s'.(open := false).Calling(OnFailure), env.onSent, multiset{});
    ActsBalance(Drained(Notified(Flushed(s, env.moved, env.flushError), env)), env.onAllSent, multiset{});
    ActsBalance(FlushStep(s, env).0.Calling(OnRecv), env.onRecv, multiset{});
  }

  lemma StepBalances(s: State, l: Label)
    requires l.Event? ==> Possible(s, l.env)
    requires Balanced(s, multiset{})
    ensures Balanced(Step(s, l), multiset{})
  {
    match l {
      case Do(a) =>
        if a.Write? {
          WriteBalances(s, a, multiset{});
        }
      case Event(pollout, pollin, env) =>
        ActsBalance(s.Calling(OnRecv), env.onRecv, multiset{});
        if s.connecting {
          ActsBalance(s.(connecting := false).Calling(OnConnected), env.onConnected, multiset{});
        } else if pollout {
          FlushBalances(s, env);
        }
    }
  }

  /** Every run keeps every accepted byte, once, on the wire or in the buffer, at any depth of re-entrance. */
  lemma {:induction false} RunBalances(s: State, run: seq<Label>)
    requires PossibleRun(s, run) && Balanced(s, multiset{})
    ensures Balanced(Run(s, run), multiset{})
    decreases |run|
  {
    if run != [] {
      StepBalances(s, run[0]);
      RunBalances(Step(s, run[0]), run[1..]);
    }
  }

  // ----- order

  /** None of these actions writes a byte. */
  predicate Silent(actions: seq<Action>)
    decreases actions
  {
    actions == [] || (SilentAction(actions[0]) && Silent(actions[1..]))
  }

  predicate SilentAction(a: Action)
    decreases a
  {
    a.Write? ==> a.data == [] && Silent(a.onAllSent)
  }

  /** s' differs from s at most in that the stream was closed, or POLLOUT given up, and in what was called. */
  predicate Quieter(s: State, s': State) {
    && s' == s.(open := s'.open, pollout := s'.pollout, errors := s'.errors, calls := s'.calls)
    && (s'.pollout ==> s.pollout) && (s'.open ==> s.open) && s.errors <= s'.errors && s.calls <= s'.calls
  }

  /** This is all that a callback does which writes nothing. */
  lemma {:induction false} SilentActs(s: State, actions: seq<Action>)
    requires Silent(actions)
    ensures Quieter(s, Acts(s, actions))
    decreases actions
  {
    if actions != [] {
      if actions[0].Write? {
        SilentWrite(s, actions[0]);
      }
      SilentActs(Act(s, actions[0]), actions[1..]);
    }
  }

  lemma {:induction false} SilentWrite(s: State, a: Action)
    requires a.Write? && SilentAction(a)
    ensures Quieter(s, WriteStep(s, a).0)
    decreases a, 0
  {
    assert s.wire + a.data[..a.Taken()] == s.wire && s.accepted + a.data == s.accepted && a.Rest() == [];
    SilentActs(Drained(s), a.onAllSent);
  }

  /** Whenever the kernel takes a part of a direct write, the `sent` callback it runs writes nothing. */
  predicate InOrder(actions: seq<Action>)
    decreases actions
  {
    actions == [] || (InOrderAction(actions[0]) && InOrder(actions[1..]))
  }

  predicate InOrderAction(a: Action)
    decreases a
  {
    a.Write? ==>
      && (a.Taken() > 0 ==> if a.Rest() == [] then InOrder(a.onSent) else Silent(a.onSent))
      && InOrder(a.onAllSent)
  }

  /** The bytes accepted between s and s' joined the others at the end, in their order. */
  predicate Grown(s: State, s': State) {
    && s.accepted <= s'.accepted
    && s'.wire + s'.pending == s.wire + s.pending + s'.accepted[|s.accepted|..]
  }

  lemma GrownOn(s: State, s1: State, s2: State)
    requires Grown(s, s1) && Grown(s1, s2)
    ensures Grown(s, s2)
  {
    assert s2.accepted[|s.accepted|..] == s1.accepted[|s.accepted|..] + s2.accepted[|s1.accepted|..];
  }

  /**
   Each partly taken write in here has a `sent` callback that accepts no byte. Which callbacks are called
   depends on the state, but not on any byte.
   */
  predicate KeepsOrder(s: State, a: Action)
    decreases a
  {
    a.Write? && s.open ==>
      if !s.Idle() then
        a.data == [] ==> AllKeep(Drained(s.(accepted := s.accepted + a.data)), a.onAllSent)
      else
        a.reply.Done? ==>
          if a.Rest() != [] then
            |AfterSend(s, a).accepted| == |Sent(s, a).accepted|
          else
            && (a.Taken() > 0 ==> AllKeep(Sent(s, a), a.onSent))
            && AllKeep(Drained(AfterSend(s, a)), a.onAllSent)
  }

  predicate AllKeep(s: State, actions: seq<Action>)
    decreases actions
  {
    actions == [] || (KeepsOrder(s, actions[0]) && AllKeep(Act(s, actions[0]), actions[1..]))
  }

  /** A partly taken write whose callback adds nothing puts its own bytes together again. */
  lemma NothingAdded(s: State, a: Action)
    requires a.Write? && s.open && s.Idle() && |AfterSend(s, a).accepted| == |Sent(s, a).accepted|
    ensures
      var t := AfterSend(s, a);
      t.accepted == s.accepted + a.data && t.wire + t.pending == s.wire + s.pending + a.data[..a.Taken()]
  {
    ActsExtend(Sent(s, a), a.onSent);
  }

  /** Bytes are added at the end, as many as are accepted. */
  predicate Extended(s: State, s': State) {
    && s.accepted <= s'.accepted && s.wire + s.pending <= s'.wire + s'.pending
    && |s'.accepted| - |s.accepted| == |s'.wire + s'.pending| - |s.wire + s.pending|
  }

  lemma {:induction false} ActsExtend(s: State, actions: seq<Action>)
    ensures Extended(s, Acts(s, actions))
    decreases actions
  {
    if actions != [] {
      if actions[0].Write? {
        WriteExtends(s, actions[0]);
      }
      ActsExtend(Act(s, actions[0]), actions[1..]);
    }
  }

  lemma {:induction false} WriteExtends(s: State, a: Action)
    requires a.Write?
    ensures Extended(s, WriteStep(s, a).0)
    decreases a, 1
  {
    if s.open && !s.Idle() {
      BufferExtends(s, s.(accepted := s.accepted + a.data), a.data, a);
    } else if s.open && !a.reply.Failed? {
      ActsExtend(Sent(s, a), a.onSent);
      BufferExtends(s, AfterSend(s, a), a.Rest(), a);
    }
  }

  lemma {:induction false} BufferExtends(s: State, owing: State, rest: seq<byte>, a: Action)
    requires a.Write? && s.accepted <= owing.accepted && s.wire + s.pending <= owing.wire + owing.pending
    requires |owing.accepted| - |s.accepted| == |owing.wire + owing.pending| - |s.wire + s.pending| + |rest|
    ensures Extended(s, BufferStep(owing, rest, a).0)
    decreases a, 0
  {
    if rest == [] {
      ActsExtend(Drained(owing), a.onAllSent);
    } else {
      assert owing.wire + (owing.pending + rest) == owing.wire + owing.pending + rest;
    }
  }

  lemma {:induction false} KeepsGrowing(s: State, a: Action)
    requires a.Write? && KeepsOrder(s, a)
    ensures Grown(s, WriteStep(s, a).0)
    decreases a, 1
  {
    if s.open && !s.Idle() {
      BufferKeeps(s, s.(accepted := s.accepted + a.data), a.data, a);
    } else if s.open && !a.reply.Failed? {
      if a.Rest() == [] {
        WholeKeeps(s, a);
      } else {
        PartKeeps(s, a);
      }
      BufferKeeps(s, AfterSend(s, a), a.Rest(), a);
    }
  }

  /** A write that is taken whole, or is empty. */
  lemma {:induction false} WholeKeeps(s: State, a: Action)
    requires a.Write? && s.open && s.Idle() && a.reply.Done? && a.Rest() == [] && KeepsOrder(s, a)
    ensures
      var t := AfterSend(s, a);
      Grown(s, t.(pending := t.pending + a.Rest()))
    decreases a, 0
  {
    var s', t := Sent(s, a), AfterSend(s, a);
    assert a.data[..a.Taken()] == a.data && s'.accepted[|s.accepted|..] == a.data;
    assert s'.wire + s'.pending == s.wire + s.pending + a.data;
    if a.Taken() > 0 {
      AllKeepGrowing(s', a.onSent);
    }
    GrownOn(s, s', t);
    assert t.(pending := t.pending + a.Rest()) == t;
  }

  lemma PartKeeps(s: State, a: Action)
    requires a.Write? && s.open && s.Idle() && a.reply.Done? && a.Rest() != [] && KeepsOrder(s, a)
    ensures
      var t := AfterSend(s, a);
      Grown(s, t.(pending := t.pending + a.Rest()))
  {
    NothingAdded(s, a);
    var t := AfterSend(s, a);
    assert a.data == a.data[..a.Taken()] + a.Rest();
    assert t.wire + (t.pending + a.Rest()) == t.wire + t.pending + a.Rest();
    assert s.wire + s.pending + a.data[..a.Taken()] + a.Rest() == s.wire + s.pending + a.data;
    assert t.accepted[|s.accepted|..] == a.data;
  }

  lemma {:induction false} BufferKeeps(s: State, owing: State, rest: seq<byte>, a: Action)
    requires a.Write? && (rest == [] ==> AllKeep(Drained(owing), a.onAllSent))
    requires Grown(s, owing.(pending := owing.pending + rest))
    ensures Grown(s, BufferStep(owing, rest, a).0)
    decreases a, 0
  {
    if rest == [] {
      assert owing.pending + rest == owing.pending;
      AllKeepGrowing(Drained(owing), a.onAllSent);
      GrownOn(s, Drained(owing), BufferStep(owing, rest, a).0);
    }
  }

  lemma {:induction false} AllKeepGrowing(s: State, actions: seq<Action>)
    requires AllKeep(s, actions)
    ensures Grown(s, Acts(s, actions))
    decreases actions
  {
    if actions != [] {
      var s' := Act(s, actions[0]);
      if actions[0].Write? {
        KeepsGrowing(s, actions[0]);
      }
      AllKeepGrowing(s', actions[1..]);
      GrownOn(s, s', Acts(s, actions));
    }
  }

  /** Actions in which no partly taken write is re-entered keep the order in every state. */
  lemma {:induction false} InOrderKeeps(s: State, a: Action)
    requires InOrderAction(a)
    ensures KeepsOrder(s, a)
    decreases a
  {
    if a.Write? && s.open && !s.Idle() {
      AllInOrderKeep(Drained(s.(accepted := s.accepted + a.data)), a.onAllSent);
    } else if a.Write? && s.open && a.reply.Done? {
      if a.Rest() == [] {
        if a.Taken() > 0 {
          AllInOrderKeep(Sent(s, a), a.onSent);
        }
        AllInOrderKeep(Drained(AfterSend(s, a)), a.onAllSent);
      } else if a.Taken() > 0 {
        SilentActs(Sent(s, a), a.onSent);
      }
    }
  }

  lemma {:induction false} AllInOrderKeep(s: State, actions: seq<Action>)
    requires InOrder(actions)
    ensures AllKeep(s, actions)
    decreases actions
  {
    if actions != [] {
      InOrderKeeps(s, actions[0]);
      AllInOrderKeep(Act(s, actions[0]), actions[1..]);
    }
  }

  lemma WriteGrows(s: State, a: Action)
    requires a.Write? && InOrderAction(a)
    ensures Grown(s, WriteStep(s, a).0)
  {
    InOrderKeeps(s, a);
    KeepsGrowing(s, a);
  }

  lemma ActsGrow(s: State, actions: seq<Action>)
    requires InOrder(actions)
    ensures Grown(s, Acts(s, actions))
  {
    AllInOrderKeep(s, actions);
    AllKeepGrowing(s, actions);
  }

  lemma OneAction(s: State, a: Action)
    ensures Acts(s, [a]) == Act(s, a) && (InOrder([a]) <==> InOrderAction(a))
    ensures Silent([a]) <==> SilentAction(a)
  {
    assert [a][1..] == [];
    assert Acts(Act(s, a), []) == Act(s, a) && InOrder([]) && Silent([]);
  }

  predicate InOrderStep(l: Label) {
    if l.Do? then InOrderAction(l.action)
    else InOrder(l.env.onConnected) && InOrder(l.env.onSent) && InOrder(l.env.onAllSent) && InOrder(l.env.onRecv)
  }

  lemma StepConserves(s: State, l: Label)
    requires l.Event? ==> Possible(s, l.env)
    requires s.Conserved() && InOrderStep(l)
    ensures Step(s, l).Conserved()
  {
    match l {
      case Do(a) =>
        if a.Write? {
          WriteGrows(s, a);
        }
      case Event(_, _, env) =>
        forall t: State, actions | t.Conserved() && InOrder(actions)
          ensures Acts(t, actions).Conserved()
        {
          ActsGrow(t, actions);
        }
        MovePrefix(s.wire, s.pending, env.moved);
    }
  }

  predicate InOrderRun(run: seq<Label>) {
    forall l :: l in run ==> InOrderStep(l)
  }

  /** Every run in which no partly taken write is re-entered keeps every accepted byte, once and in order. */
  lemma {:induction false} RunConserves(s: State, run: seq<Label>)
    requires PossibleRun(s, run) && s.Conserved() && InOrderRun(run)
    ensures Run(s, run).Conserved()
    decreases |run|
  {
    if run != [] {
      assert run[0] in run;
      StepConserves(s, run[0]);
      RunConserves(Step(s, run[0]), run[1..]);
    }
  }
}
