/** io_stream: a connection that sends at once when it can and buffers the rest. */
module Stream {
  import opened Bytes
  import opened Sockets
  import opened SegmentedBuffer
  import P = StreamProtocol

  /** What the program or a callback does; the callbacks of a write are called if the write calls them. */
  datatype Deed =
    | Write(data: seq<byte>, onSent: seq<Deed>, onAllSent: seq<Deed>)
    | Close

  /** What the user's callbacks do when an event calls them, and whether `recv` succeeds. */
  datatype Callbacks = Callbacks(
    onConnected: seq<Deed>,
    onSent: seq<Deed>,
    onAllSent: seq<Deed>,
    onRecv: seq<Deed>,
    recvOk: bool)

  /** An action without what the kernel answers. */
  ghost function DeedOf(a: P.Action): Deed
    decreases a
  {
    match a
    case Write(data, _, onSent, onAllSent) => Write(data, DeedsOf(onSent), DeedsOf(onAllSent))
    case Close => Close
  }

  ghost function DeedsOf(actions: seq<P.Action>): seq<Deed>
    decreases actions
  {
    if actions == [] then [] else [DeedOf(actions[0])] + DeedsOf(actions[1..])
  }

  /** What happened during an event is what these callbacks do. */
  ghost predicate Plays(env: P.Answers, callbacks: Callbacks) {
    && DeedsOf(env.onConnected) == callbacks.onConnected && DeedsOf(env.onSent) == callbacks.onSent
    && DeedsOf(env.onAllSent) == callbacks.onAllSent && DeedsOf(env.onRecv) == callbacks.onRecv
    && env.recvOk == callbacks.recvOk
  }

  /** Callbacks that were not called, or not yet. */
  ghost function Planned(callbacks: Callbacks, connectOk: bool, peerKnown: bool): (env: P.Answers)
    ensures Plays(env, callbacks)
  {
    P.Answers(connectOk, peerKnown, Uncalled(callbacks.onConnected), 0, Done(0), Uncalled(callbacks.onSent),
              Uncalled(callbacks.onAllSent), Uncalled(callbacks.onRecv), callbacks.recvOk)
  }

  ghost function UncalledDeed(deed: Deed): (a: P.Action)
    ensures DeedOf(a) == deed
    decreases deed
  {
    match deed
    case Write(data, onSent, onAllSent) => P.Write(data, Done(0), Uncalled(onSent), Uncalled(onAllSent))
    case Close => P.Close
  }

  ghost function Uncalled(deeds: seq<Deed>): (actions: seq<P.Action>)
    ensures DeedsOf(actions) == deeds
    decreases deeds
  {
    if deeds == [] then [] else [UncalledDeed(deeds[0])] + Uncalled(deeds[1..])
  }

  /** A call of the library by the program or by the poll loop. */
  datatype Call =
    | Do(deed: Deed)
    | Event(pollout: bool, pollin: bool, connectOk: bool, peerKnown: bool, callbacks: Callbacks)

  /** The call was this step, but for what the environment answered. */
  ghost predicate Performs(l: P.Label, call: Call) {
    match call
    case Do(deed) => l.Do? && DeedOf(l.action) == deed
    case Event(pollout, pollin, connectOk, peerKnown, callbacks) =>
      && l.Event? && l.pollout == pollout && l.pollin == pollin && Plays(l.env, callbacks)
      && l.env.connectOk == connectOk && l.env.peerKnown == peerKnown
  }

  ghost predicate Plans(run: seq<P.Label>, calls: seq<Call>) {
    |run| == |calls| && forall i :: 0 <= i < |calls| ==> Performs(run[i], calls[i])
  }

  /** These deeds write nothing. */
  ghost predicate Mute(deeds: seq<Deed>)
    decreases deeds
  {
    deeds == [] || ((deeds[0].Write? ==> deeds[0].data == [] && Mute(deeds[0].onAllSent)) && Mute(deeds[1..]))
  }

  /** The `sent` callbacks of these writes write nothing; what `all_sent` does is free. */
  ghost predicate Calm(deeds: seq<Deed>)
    decreases deeds
  {
    deeds == [] || ((deeds[0].Write? ==> Mute(deeds[0].onSent) && Calm(deeds[0].onAllSent)) && Calm(deeds[1..]))
  }

  ghost predicate CalmCall(call: Call) {
    match call
    case Do(deed) => Calm([deed])
    case Event(_, _, _, _, callbacks) =>
      Calm(callbacks.onConnected) && Calm(callbacks.onSent) && Calm(callbacks.onAllSent) && Calm(callbacks.onRecv)
  }

  lemma FirstDeed(actions: seq<P.Action>)
    requires actions != []
    ensures |DeedsOf(actions)| > 0 && DeedsOf(actions)[0] == DeedOf(actions[0])
    ensures DeedsOf(actions)[1..] == DeedsOf(actions[1..])
  {
  }

  lemma {:induction false} MuteIsSilent(actions: seq<P.Action>)
    requires Mute(DeedsOf(actions))
    ensures P.Silent(actions) && P.InOrder(actions)
    decreases actions
  {
    if actions != [] {
      FirstDeed(actions);
      if actions[0].Write? {
        MuteIsSilent(actions[0].onAllSent);
      }
      MuteIsSilent(actions[1..]);
    }
  }

  lemma {:induction false} CalmIsInOrder(actions: seq<P.Action>)
    requires Calm(DeedsOf(actions))
    ensures P.InOrder(actions)
    decreases actions
  {
    if actions != [] {
      FirstDeed(actions);
      if actions[0].Write? {
        MuteIsSilent(actions[0].onSent);
        CalmIsInOrder(actions[0].onAllSent);
      }
      CalmIsInOrder(actions[1..]);
    }
  }

  /** Calls whose `sent` callbacks write nothing never re-enter a write that is half done. */
  lemma CalmCallsInOrder(run: seq<P.Label>, calls: seq<Call>)
    requires Plans(run, calls) && forall c :: c in calls ==> CalmCall(c)
    ensures P.InOrderRun(run)
  {
    forall l | l in run
      ensures P.InOrderStep(l)
    {
      var i :| 0 <= i < |run| && run[i] == l;
      assert CalmCall(calls[i]) && Performs(l, calls[i]);
      if l.Do? {
        assert DeedsOf([l.action]) == [DeedOf(l.action)];
        CalmIsInOrder([l.action]);
      } else {
        CalmIsInOrder(l.env.onConnected);
        CalmIsInOrder(l.env.onSent);
        CalmIsInOrder(l.env.onAllSent);
        CalmIsInOrder(l.env.onRecv);
      }
    }
  }

  class Connection {
    var open: bool
    var connecting: bool
    var pollout: bool
    const out: Buffer
    const socket: Socket
    ghost var accepted: seq<byte>
    ghost var calls: seq<P.Callback>

    ghost predicate Valid()
      reads this, socket, out, out.Repr
    {
      && this !in out.Repr && socket !in out.Repr
      && out.Valid() && out.Tight()
    }

    /** The protocol state this connection is in. */
    ghost function View(): P.State
      reads this, socket, out, out.Repr
    {
      P.State(open, connecting, pollout, out.Contents(), socket.wire, accepted, socket.errors, calls)
    }

    /** io_stream_connect */
    constructor (socket: Socket, inProgress: bool)
      requires socket.wire == [] && socket.errors == []
      ensures Valid() && View() == P.Start(inProgress) && this.socket == socket
      ensures fresh(out) && fresh(out.Repr)
    {
      open, connecting, pollout := true, inProgress, inProgress;
      this.socket := socket;
      out := new Buffer();
      accepted, calls := [], [];
    }

    /** io_stream_write, with what its callbacks do if they are called. */
    method Write(data: seq<byte>, onSent: seq<Deed>, onAllSent: seq<Deed>)
      returns (result: int, ghost action: P.Action)
      requires Valid()
      modifies this, socket`wire, socket`refusals, socket`errors, socket`signals, out, out.Repr
      ensures Valid() && fresh(out.Repr - old(out.Repr)) && socket.refusals >= old(socket.refusals)
      ensures action.Write? && DeedOf(action) == Deed.Write(data, onSent, onAllSent)
      ensures (View(), result) == P.WriteStep(old(View()), action)
      // what waits for POLLOUT was refused by the kernel, unless a signal came first
      ensures old(View()).open && old(View()).Idle() && socket.refusals == old(socket.refusals) ==>
                action.Rest() == [] || action.reply == Failed(EINTR)
      decreases Deed.Write(data, onSent, onAllSent), 1
    {
      action := UncalledDeed(Deed.Write(data, onSent, onAllSent));
      if !open {
        return 0, action;
      }
      var tail, sent := data, 0;
      var empty := out.IsEmpty();
      if !connecting && empty {
        var reply;
        reply, action := SendDirectly(data, onSent, action);
        if reply.Failed? {
          return -1, action;
        }
        sent := reply.count;
        tail := data[sent..];
      } else {
        accepted := accepted + data;
      }
      result, action := BufferRest(tail, sent, onAllSent, action);
    }

    /** The direct part of io_stream_write. */
    method SendDirectly(data: seq<byte>, onSent: seq<Deed>, ghost action0: P.Action)
      returns (reply: Reply, ghost action: P.Action)
      requires Valid() && action0.Write? && action0.data == data && DeedsOf(action0.onSent) == onSent
      modifies this, socket`wire, socket`refusals, socket`errors, socket`signals, out, out.Repr
      ensures Valid() && fresh(out.Repr - old(out.Repr)) && socket.refusals >= old(socket.refusals)
      ensures action.Write? && action == action0.(reply := reply, onSent := action.onSent)
      ensures DeedsOf(action.onSent) == onSent && (reply.Done? ==> reply.count <= |data|)
      ensures View() == if reply.Failed? then old(View()).Answered(reply) else P.AfterSend(old(View()), action)
      ensures socket.refusals == old(socket.refusals) ==> reply == Done(|data|) || reply == Failed(EINTR)
      decreases onSent, 1
    {
      reply := socket.Send(data);
      action := action0.(reply := reply);
      if reply.Failed? {
        return;
      }
      accepted := accepted + data;
      assert socket.errors == old(socket.errors);
      if reply.count > 0 {
        calls := calls + [P.OnSent(reply.count)];
        ghost var actions := Act(onSent);
        action := action.(onSent := actions);
      }
    }

    /** The end of io_stream_write, which buffers what is left. */
    method BufferRest(tail: seq<byte>, sent: nat, onAllSent: seq<Deed>, ghost action0: P.Action)
      returns (result: int, ghost action: P.Action)
      requires Valid() && action0.Write?
      requires |tail| + sent == |action0.data| && DeedsOf(action0.onAllSent) == onAllSent
      modifies this, socket`wire, socket`refusals, socket`errors, socket`signals, out, out.Repr
      ensures Valid() && fresh(out.Repr - old(out.Repr)) && socket.refusals >= old(socket.refusals)
      ensures action.Write? && action == action0.(onAllSent := action.onAllSent)
      ensures DeedsOf(action.onAllSent) == onAllSent
      ensures (View(), result) == P.BufferStep(old(View()), tail, action)
      decreases onAllSent, 1
    {
      action := action0;
      if tail == [] {
        pollout := false;
        calls := calls + [P.OnAllSent];
        ghost var actions := Act(onAllSent);
        return 0, action.(onAllSent := actions);
      }
      pollout := true;
      var buffered := out.Write(tail);
      result := buffered + sent;
    }

    /** A write or a close, by the program or by a callback. */
    method Do(deed: Deed) returns (ghost action: P.Action)
      requires Valid()
      modifies this, socket`wire, socket`refusals, socket`errors, socket`signals, out, out.Repr
      ensures Valid() && fresh(out.Repr - old(out.Repr)) && socket.refusals >= old(socket.refusals)
      ensures DeedOf(action) == deed && View() == P.Act(old(View()), action)
      decreases deed, 3
    {
      match deed {
        case Write(data, onSent, onAllSent) =>
          var _, written := this.Write(data, onSent, onAllSent);
          action := written;
        case Close =>
          this.Close();
          action := P.Close;
      }
    }

    /** A callback. */
    method Act(deeds: seq<Deed>) returns (ghost actions: seq<P.Action>)
      requires Valid()
      modifies this, socket`wire, socket`refusals, socket`errors, socket`signals, out, out.Repr
      ensures Valid() && fresh(out.Repr - old(out.Repr)) && socket.refusals >= old(socket.refusals)
      ensures DeedsOf(actions) == deeds && View() == P.Acts(old(View()), actions)
      decreases deeds, 0
    {
      if deeds == [] {
        return [];
      }
      ghost var action := Do(deeds[0]);
      ghost var rest := Act(deeds[1..]);
      actions := [action] + rest;
    }

    /** io_stream_connecting, then io_stream_connected. */
    method FinishConnect(connectOk: bool, peerKnown: bool, callbacks: Callbacks)
      returns (result: int, ghost env: P.Answers)
      requires Valid()
      modifies this, socket`wire, socket`refusals, socket`errors, socket`signals, out, out.Repr
      ensures Valid() && fresh(out.Repr - old(out.Repr)) && socket.refusals >= old(socket.refusals)
      ensures env.connectOk == connectOk && env.peerKnown == peerKnown && env.moved == 0 && env.flushError.Done?
      ensures Plays(env, callbacks) && (View(), result) == P.ConnectStep(old(View()), env)
    {
      env := Planned(callbacks, connectOk, peerKnown);
      if !connectOk {
        open := false;
        return -1, env;
      }
      connecting := false;
      if peerKnown {
        calls := calls + [P.OnConnected];
        ghost var actions := Act(callbacks.onConnected);
        env := env.(onConnected := actions);
        var empty := out.IsEmpty();
        if empty {
          pollout := false;
        }
      }
      return 0, env;
    }

    /** The POLLIN part of io_stream_event_handler. */
    method Receive(pollin: bool, callbacks: Callbacks, ghost env0: P.Answers)
      returns (result: int, ghost env: P.Answers)
      requires Valid() && Plays(env0, callbacks)
      modifies this, socket`wire, socket`refusals, socket`errors, socket`signals, out, out.Repr
      ensures Valid() && fresh(out.Repr - old(out.Repr)) && socket.refusals >= old(socket.refusals)
      ensures env == env0.(onRecv := env.onRecv) && Plays(env, callbacks)
      ensures (View(), result) == P.RecvStep(old(View()), pollin, env)
    {
      env := env0;
      if pollin {
        calls := calls + [P.OnRecv];
        ghost var actions := Act(callbacks.onRecv);
        env := env.(onRecv := actions);
        if !callbacks.recvOk {
          open := false;
          return -1, env;
        }
      }
      return 0, env;
    }

    /** The end of the POLLOUT part: is the buffer drained? */
    method AfterFlush(callbacks: Callbacks, ghost env0: P.Answers) returns (flow: P.Flow, ghost env: P.Answers)
      requires Valid() && Plays(env0, callbacks)
      modifies this, socket`wire, socket`refusals, socket`errors, socket`signals, out, out.Repr
      ensures Valid() && fresh(out.Repr - old(out.Repr)) && socket.refusals >= old(socket.refusals)
      ensures env == env0.(onAllSent := env.onAllSent) && Plays(env, callbacks)
      ensures (View(), flow) == P.DrainedStep(old(View()), env)
    {
      env := env0;
      var empty := out.IsEmpty();
      if !empty {
        out.EmptyIff();
        return P.Continue, env;
      }
      pollout := false;
      calls := calls + [P.OnAllSent];
      ghost var actions := Act(callbacks.onAllSent);
      return P.Return(0), env.(onAllSent := actions);
    }

    /** Sends what is buffered. */
    method SendBuffered() returns (reply: Reply, ghost moved: nat)
      requires Valid()
      modifies socket`wire, socket`refusals, socket`errors, socket`signals, out.Repr
      ensures Valid() && out.Repr == old(out.Repr)
      ensures moved <= |old(out.Contents())| && View() == P.Flushed(old(View()), moved, reply)
      ensures if reply.Done? then reply.count == moved else reply.errno != EINTR && moved < |old(out.Contents())|
      ensures socket.refusals >= old(socket.refusals)
      ensures socket.refusals == old(socket.refusals) ==> reply.Done? && moved == |old(out.Contents())|
    {
      reply, moved := out.Send(socket);
    }

    /** What follows a flush, unless it failed softly. */
    method Notify(reply: Reply, callbacks: Callbacks, ghost env0: P.Answers) returns (ghost env: P.Answers)
      requires Valid() && Plays(env0, callbacks) && env0.flushError == reply
      requires reply.Done? ==> reply.count == env0.moved
      modifies this, socket`wire, socket`refusals, socket`errors, socket`signals, out, out.Repr
      ensures Valid() && fresh(out.Repr - old(out.Repr)) && socket.refusals >= old(socket.refusals)
      ensures env == env0.(onSent := env.onSent) && Plays(env, callbacks)
      ensures View() == P.Notified(old(View()), env)
    {
      env := env0;
      if reply.Failed? {
        open := false;
      }
      if reply.Failed? || reply.count > 0 {
        calls := calls + [if reply.Failed? then P.OnFailure else P.OnSent(reply.count)];
        ghost var actions := Act(callbacks.onSent);
        env := env.(onSent := actions);
      }
    }

    /** The POLLOUT part of io_stream_event_handler. */
    method Flush(callbacks: Callbacks, ghost env0: P.Answers) returns (flow: P.Flow, ghost env: P.Answers)
      requires Valid() && Plays(env0, callbacks)
      modifies this, socket`wire, socket`refusals, socket`errors, socket`signals, out, out.Repr
      ensures Valid() && fresh(out.Repr - old(out.Repr)) && socket.refusals >= old(socket.refusals)
      ensures P.Possible(old(View()), env) && Plays(env, callbacks)
      ensures env.connectOk == env0.connectOk && env.peerKnown == env0.peerKnown
      ensures (View(), flow) == P.FlushStep(old(View()), env)
      // what is left was refused by the kernel
      ensures socket.refusals == old(socket.refusals) ==>
                env.flushError.Done? && env.moved == |old(out.Contents())|
    {
      var reply;
      ghost var moved;
      reply, moved := SendBuffered();
      env := env0.(moved := moved, flushError := reply);
      if reply.Failed? && !P.Fatal(reply.errno) {
        return P.Return(-1), env;
      }
      env := Notify(reply, callbacks, env);
      flow, env := AfterFlush(callbacks, env);
    }

    /** io_stream_event_handler; `env` records what the kernel and the callbacks answered. */
    method HandleEvent(pollout: bool, pollin: bool, connectOk: bool, peerKnown: bool, callbacks: Callbacks)
      returns (result: int, ghost env: P.Answers)
      requires Valid()
      modifies this, socket`wire, socket`refusals, socket`errors, socket`signals, out, out.Repr
      ensures Valid() && fresh(out.Repr - old(out.Repr)) && socket.refusals >= old(socket.refusals)
      ensures P.Possible(old(View()), env) && Plays(env, callbacks)
      ensures env.connectOk == connectOk && env.peerKnown == peerKnown
      ensures (View(), result) == P.EventStep(old(View()), pollout, pollin, env)
      ensures pollout && !old(connecting) && socket.refusals == old(socket.refusals) ==>
                env.flushError.Done? && env.moved == |old(out.Contents())|
    {
      if connecting {
        result, env := FinishConnect(connectOk, peerKnown, callbacks);
        return;
      }
      env := Planned(callbacks, connectOk, peerKnown);
      if pollout {
        var flow;
        flow, env := Flush(callbacks, env);
        if flow.Return? {
          return flow.result, env;
        }
      }
      result, env := Receive(pollin, callbacks, env);
    }

    /** io_stream_close */
    method Close()
      requires Valid()
      modifies this`open
      ensures Valid() && View() == old(View()).(open := false)
    {
      open := false;
    }

    /** One call does one step of the protocol. */
    method Perform(call: Call) returns (ghost step: P.Label)
      requires Valid()
      modifies this, socket`wire, socket`refusals, socket`errors, socket`signals, out, out.Repr
      ensures Valid() && fresh(out.Repr - old(out.Repr)) && socket.refusals >= old(socket.refusals)
      ensures Performs(step, call) && (step.Event? ==> P.Possible(old(View()), step.env))
      ensures View() == P.Step(old(View()), step)
    {
      match call {
        case Do(deed) =>
          ghost var action := this.Do(deed);
          step := P.Do(action);
        case Event(pollout, pollin, connectOk, peerKnown, callbacks) =>
          var _, env := HandleEvent(pollout, pollin, connectOk, peerKnown, callbacks);
          step := P.Event(pollout, pollin, env);
      }
    }

    /**
     Any sequence of calls is a run of the protocol, so it keeps every accepted byte; and the order of all bytes,
     unless a partly taken write is re-entered.
     */
    method Drive(calls: seq<Call>) returns (ghost run: seq<P.Label>)
      requires Valid()
      modifies this, socket`wire, socket`refusals, socket`errors, socket`signals, out, out.Repr
      ensures Valid() && fresh(out.Repr - old(out.Repr)) && socket.refusals >= old(socket.refusals)
      ensures Plans(run, calls)
      ensures P.PossibleRun(old(View()), run) && View() == P.Run(old(View()), run)
      ensures old(View()).Conserved() ==> multiset(socket.wire + out.Contents()) == multiset(accepted)
      ensures old(View()).Conserved() && P.InOrderRun(run) ==> socket.wire + out.Contents() == accepted
      decreases |calls|
    {
      if calls == [] {
        return [];
      }
      ghost var before := View();
      ghost var step := Perform(calls[0]);
      ghost var rest := Drive(calls[1..]);
      run := [step] + rest;
      if before.Conserved() {
        P.RunBalances(before, run);
        if P.InOrderRun(run) {
          P.RunConserves(before, run);
        }
      }
    }
  }
}
