/** The outbound side of io_dgram_client as steps on values, and what every run of these steps keeps. */
module DatagramProtocol {
  import opened Bytes
  import opened Sockets

  /**
   `waiting` is the queue; `chained` tells whether the queue holds a segment, waiting blocks or not.
   `accepted` are the datagrams whose submission did not fail, in order, and `errors` those the kernel answered.
   */
  datatype State = State(
    pollout: bool,
    chained: bool,
    waiting: seq<Datagram>,
    wire: seq<Datagram>,
    accepted: seq<Datagram>,
    errors: seq<Errno>)
  {
    function Answered(reply: Reply): State {
      this.(errors := errors + if reply.Failed? then [reply.errno] else [])
    }

    /** The flags a client can be seen with: POLLOUT is requested while the queue has a segment. */
    predicate Consistent() {
      pollout == chained && (waiting != [] ==> chained)
    }
  }

  const START := State(false, false, [], [], [], [])

  /** What a queued block keeps of a datagram. */
  function Stored(d: Datagram): Datagram {
    d.(payload := d.payload[..|d.payload| % SIZE_LIMIT])
  }

  /** io_dgram_client_send */
  function SendStep(s: State, d: Datagram, reply: Reply): (State, int) {
    if d.payload == [] then
      (s, 0)
    else if !s.chained && reply.Done? then
      (s.(wire := s.wire + [d], accepted := s.accepted + [d]), |d.payload|)
    else if !s.chained && reply.errno != EAGAIN then
      (s.Answered(reply), -1)
    else
      var s' := if s.chained then s else s.Answered(reply);
      (s'.(pollout := true, chained := true, waiting := s.waiting + [Stored(d)], accepted := s.accepted + [d]),
        |d.payload|)
  }

  /** The POLLOUT half of io_dgram_client_event_handler. */
  function EventStep(s: State, reply: Reply): (State, int) {
    if s.waiting != [] && reply.Failed? && reply.errno != EAGAIN then
      (s.Answered(reply), -1)
    else
      var s' := if s.waiting == [] then s
                else if reply.Failed? then s.Answered(reply)
                else s.(wire := s.wire + [s.waiting[0]], waiting := s.waiting[1..]);
      (if s'.chained then s' else s'.(pollout := false), 0)
  }

  /** A submission answers its size when the datagram was accepted, 0 when it is empty, and -1 when it was refused. */
  lemma SendAnswers(s: State, d: Datagram, reply: Reply)
    ensures
      var (s', result) := SendStep(s, d, reply);
      && result == (if s'.accepted != s.accepted then |d.payload| else if d.payload == [] then 0 else -1)
      && (s'.accepted != s.accepted <==>
          d.payload != [] && (s.chained || reply.Done? || reply.errno == EAGAIN) && s'.accepted == s.accepted + [d])
      && (result <= 0 ==> s' == s.(errors := s'.errors))
  {
  }

  /** A POLLOUT event answers -1 exactly when the oldest datagram is refused for good, and keeps it even so. */
  lemma EventAnswers(s: State, reply: Reply)
    ensures
      var (s', result) := EventStep(s, reply);
      && (result == 0 || result == -1) && s'.accepted == s.accepted
      && (result == -1 <==> s.waiting != [] && reply.Failed? && reply.errno != EAGAIN)
      && (s'.waiting != s.waiting <==> s.waiting != [] && reply.Done?)
      && (result == -1 ==> s' == s.(errors := s.errors + [reply.errno]))
  {
    if s.waiting != [] {
      assert |s.waiting[1..]| < |s.waiting|;
    }
  }

  datatype Label = Send(d: Datagram, reply: Reply) | Event(reply: Reply)

  function Step(s: State, l: Label): State {
    match l
    case Send(d, reply) => SendStep(s, d, reply).0
    case Event(reply) => EventStep(s, reply).0
  }

  function Run(s: State, run: seq<Label>): State
    decreases |run|
  {
    if run == [] then s else Run(Step(s, run[0]), run[1..])
  }

  // ----- order

  /** Datagram by datagram the accepted ones, whole or cut to a 16-bit size. */
  predicate InOrder(s: State) {
    var out := s.wire + s.waiting;
    |out| == |s.accepted| && forall i :: 0 <= i < |out| ==> out[i] == s.accepted[i] || out[i] == Stored(s.accepted[i])
  }

  lemma StepKeepsOrder(s: State, l: Label)
    requires s.Consistent() && InOrder(s)
    ensures Step(s, l).Consistent() && InOrder(Step(s, l))
  {
    var s' := Step(s, l);
    if l.Send? {
      if s'.wire != s.wire {
        assert s.waiting == [];
        assert s'.wire + s'.waiting == s.wire + s.waiting + [l.d];
      } else if s'.accepted != s.accepted {
        assert s'.wire + s'.waiting == s.wire + s.waiting + [Stored(l.d)];
      }
    } else if s'.waiting != s.waiting {
      assert s'.wire + s'.waiting == s.wire + s.waiting;
    }
  }

  /** In every run the datagrams sent, then those that wait, are the accepted ones in the order of submission. */
  lemma {:induction false} RunKeepsOrder(s: State, run: seq<Label>)
    requires s.Consistent() && InOrder(s)
    ensures Run(s, run).Consistent() && InOrder(Run(s, run))
    decreases |run|
  {
    if run != [] {
      StepKeepsOrder(s, run[0]);
      RunKeepsOrder(Step(s, run[0]), run[1..]);
    }
  }

  /** No datagram is changed. */
  predicate Intact(s: State) {
    s.wire + s.waiting == s.accepted
  }

  /** A submission keeps its bytes exactly when it is refused, goes out at once, or has a 16-bit size. */
  lemma SendIntactIff(s: State, d: Datagram, reply: Reply)
    requires s.Consistent() && Intact(s)
    ensures Intact(SendStep(s, d, reply).0)
            <==> ((!s.chained && reply != Failed(EAGAIN)) || |d.payload| < 65536)
  {
    var s' := SendStep(s, d, reply).0;
    if s'.waiting != s.waiting {
      assert s'.wire + s'.waiting == s.accepted + [Stored(d)];
      if Intact(s') {
        assert (s'.wire + s'.waiting)[|s.accepted|] == s'.accepted[|s.accepted|];
        assert |Stored(d).payload| == |d.payload|;
      } else {
        assert Stored(d) != d;
      }
    } else if s'.accepted != s.accepted {
      assert s.waiting == [];
      assert s'.wire + s'.waiting == s.wire + s.waiting + [d];
    }
  }

  /** With 16-bit sizes, what is sent and what waits is exactly what was accepted. */
  lemma {:induction false} RunIntact(s: State, run: seq<Label>)
    requires s.Consistent() && Intact(s)
    requires forall l :: l in run && l.Send? ==> |l.d.payload| < 65536
    ensures Intact(Run(s, run))
    decreases |run|
  {
    if run != [] {
      var l := run[0];
      assert l in run;
      StepKeepsOrder(s, l);
      match l {
        case Send(d, reply) => SendIntactIff(s, d, reply);
        case Event(reply) =>
          var s' := Step(s, l);
          if s'.waiting != s.waiting {
            assert s'.wire + s'.waiting == s.wire + s.waiting;
          }
      }
      RunIntact(Step(s, l), run[1..]);
    }
  }

  // ----- POLLOUT and the direct path

  lemma {:induction false} StaysChained(s: State, run: seq<Label>)
    requires s.Consistent() && s.chained
    ensures Run(s, run).pollout && Run(s, run).chained
    decreases |run|
  {
    if run != [] {
      StaysChained(Step(s, run[0]), run[1..]);
    }
  }

  /**
   Once a datagram was queued, POLLOUT stays requested and no submission reaches the kernel directly,
   however often the queue drains: the i-th step of a run, if it is a submission, leaves the wire as it is.
   */
  lemma {:induction false} QueuedOnceQueuesForever(s: State, run: seq<Label>, i: nat)
    requires s.Consistent() && s.chained && i < |run|
    ensures Run(s, run).pollout && Run(s, run).chained
    ensures run[i].Send? ==> Run(s, run[..i + 1]).wire == Run(s, run[..i]).wire
    decreases i
  {
    StaysChained(s, run);
    if i == 0 {
      assert Run(s, run[..1]) == Run(Step(s, run[0]), run[..1][1..]) == Step(s, run[0]);
    } else {
      QueuedOnceQueuesForever(Step(s, run[0]), run[1..], i - 1);
      assert run[..i + 1][1..] == run[1..][..i] && run[..i][1..] == run[1..][..i - 1];
    }
  }

  /** A client asks for POLLOUT exactly when some submission of its history met EAGAIN. */
  lemma {:induction false} PolloutIff(run: seq<Label>)
    ensures Run(START, run).pollout <==> exists i :: 0 <= i < |run| && MetEagain(run[i])
  {
    PolloutFrom(START, run);
  }

  predicate MetEagain(l: Label) {
    l.Send? && l.d.payload != [] && l.reply == Failed(EAGAIN)
  }

  lemma {:induction false} PolloutFrom(s: State, run: seq<Label>)
    requires s.Consistent()
    ensures Run(s, run).Consistent()
    ensures Run(s, run).pollout <==> s.chained || exists i :: 0 <= i < |run| && MetEagain(run[i])
    decreases |run|
  {
    if run != [] {
      var s' := Step(s, run[0]);
      assert s'.Consistent() && (s'.chained <==> s.chained || MetEagain(run[0]));
      PolloutFrom(s', run[1..]);
      assert forall i :: 0 <= i < |run| - 1 ==> run[1..][i] == run[i + 1];
    }
  }

  // ----- progress

  /** As many successful POLLOUT events as datagrams wait send them all, in order. */
  lemma {:induction false} EventsDrain(s: State, replies: seq<Reply>)
    requires s.Consistent() && |replies| == |s.waiting| && forall r :: r in replies ==> r.Done?
    ensures
      var t := Run(s, seq(|replies|, i requires 0 <= i < |replies| => Event(replies[i])));
      t.wire == s.wire + s.waiting && t.waiting == [] && t.accepted == s.accepted
    decreases |replies|
  {
    var events := seq(|replies|, i requires 0 <= i < |replies| => Event(replies[i]));
    if replies != [] {
      assert replies[0] in replies;
      var rest := replies[1..];
      assert events[1..] == seq(|rest|, i requires 0 <= i < |rest| => Event(rest[i]));
      EventsDrain(Step(s, events[0]), rest);
    }
  }
}
