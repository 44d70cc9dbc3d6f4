/** io_timers as steps on values: what every call does, and a dispatch whose handlers make any calls. */
module TimerProtocol {
  import opened Bytes

  const LIMIT: nat := 10

  /** An int, which has 32 bits. */
  type cint = x: int | -0x8000_0000 <= x < 0x8000_0000

  ghost function Members(ts: seq<nat>): set<nat> {
    set t | t in ts
  }

  /** No timer occurs twice: there are as many timers as places. */
  ghost predicate Distinct(ts: seq<nat>) {
    |Members(ts)| == |ts|
  }

  lemma {:induction false} AtMostAllDiffer(ts: seq<nat>)
    ensures |Members(ts)| <= |ts|
  {
    if ts != [] {
      AtMostAllDiffer(ts[1..]);
      assert Members(ts) == {ts[0]} + Members(ts[1..]);
    }
  }

  lemma DistinctWith(t: nat, ts: seq<nat>)
    ensures Distinct([t] + ts) <==> Distinct(ts) && t !in ts
  {
    AtMostAllDiffer(ts);
    assert Members([t] + ts) == {t} + Members(ts);
  }

  lemma DistinctBut(ts: seq<nat>, i: nat)
    requires i < |ts| && Distinct(ts)
    ensures Distinct(ts[..i] + ts[i + 1..]) && ts[i] !in ts[..i] + ts[i + 1..]
  {
    var rest := ts[..i] + ts[i + 1..];
    AtMostAllDiffer(rest);
    assert Members(ts) == Members(rest) + {ts[i]} by {
      assert ts == ts[..i] + [ts[i]] + ts[i + 1..];
    }
  }

  lemma DistinctAt(ts: seq<nat>, i: nat)
    requires i < |ts| && Distinct(ts)
    ensures forall k :: 0 <= k < |ts| && k != i ==> ts[k] != ts[i]
  {
    var rest := ts[..i] + ts[i + 1..];
    DistinctBut(ts, i);
    forall k | 0 <= k < |ts| && k != i
      ensures ts[k] != ts[i]
    {
      assert ts[k] == rest[if k < i then k else k - 1];
    }
  }

  lemma DistinctSnoc(ts: seq<nat>, t: nat)
    requires Distinct(ts) && t !in ts
    ensures Distinct(ts + [t])
  {
    assert Members(ts + [t]) == Members(ts) + {t};
  }

  /** `ts` without its first occurrence of `t`. */
  ghost function Remove(ts: seq<nat>, t: nat): seq<nat> {
    if ts == [] then [] else if ts[0] == t then ts[1..] else [ts[0]] + Remove(ts[1..], t)
  }

  /** The first occurrence of t is at i, or behind the end. */
  ghost predicate FirstAt(ts: seq<nat>, t: nat, i: nat) {
    i <= |ts| && (forall k :: 0 <= k < i ==> ts[k] != t) && (i < |ts| ==> ts[i] == t)
  }

  lemma {:induction false} RemoveAt(ts: seq<nat>, t: nat, i: nat)
    requires FirstAt(ts, t, i)
    ensures Remove(ts, t) == if i < |ts| then ts[..i] + ts[i + 1..] else ts
    ensures t in ts <==> i < |ts|
  {
    if i > 0 {
      RemoveAt(ts[1..], t, i - 1);
      assert i < |ts| ==> ts[..i] + ts[i + 1..] == [ts[0]] + (ts[1..][..i - 1] + ts[1..][i..]);
    }
  }

  lemma {:induction false} RemoveLeaves(ts: seq<nat>, t: nat)
    requires Distinct(ts)
    ensures Distinct(Remove(ts, t)) && t !in Remove(ts, t)
    ensures forall i :: 0 <= i < |Remove(ts, t)| ==> Remove(ts, t)[i] in ts
    ensures forall i :: 0 <= i < |ts| && ts[i] != t ==> ts[i] in Remove(ts, t)
    decreases |ts|
  {
    if ts != [] {
      assert ts == [ts[0]] + ts[1..];
      DistinctWith(ts[0], ts[1..]);
      if ts[0] != t {
        RemoveLeaves(ts[1..], t);
        DistinctWith(ts[0], Remove(ts[1..], t));
      }
    }
  }

  /** The first deadline after `now` that a periodic timer meets, by steps of its period. */
  function CatchUp(deadline: int, period: int, now: int): int
    requires period > 0
    decreases now - deadline
  {
    if deadline + period > now then deadline + period else CatchUp(deadline + period, period, now)
  }

  /** The deadline that comes `n` periods after `deadline`. */
  function Meeting(deadline: int, period: int, n: int): int {
    deadline + n * period
  }

  /** Catching up finds the least meeting after `now`, whatever number of meetings was missed. */
  lemma {:induction false} CatchUpIsLeast(deadline: int, period: int, now: int)
    requires period > 0 && deadline <= now
    ensures
      var due := CatchUp(deadline, period, now);
      && due > now
      && (exists n :: n > 0 && due == Meeting(deadline, period, n))
      && (forall n :: Meeting(deadline, period, n) > now ==> due <= Meeting(deadline, period, n))
    decreases now - deadline
  {
    var due := CatchUp(deadline, period, now);
    if deadline + period > now {
      assert due == Meeting(deadline, period, 1);
      forall n | Meeting(deadline, period, n) > now
        ensures due <= Meeting(deadline, period, n)
      {
        Monotonic(1, n, period);
      }
    } else {
      CatchUpIsLeast(deadline + period, period, now);
      var k :| k > 0 && due == Meeting(deadline + period, period, k);
      assert due == Meeting(deadline, period, k + 1);
      forall n | Meeting(deadline, period, n) > now
        ensures due <= Meeting(deadline, period, n)
      {
        assert Meeting(deadline, period, n) == Meeting(deadline + period, period, n - 1);
      }
    }
  }

  /** The loop that catches up ends exactly for positive periods. */
  lemma {:induction false} CatchUpEndsIff(deadline: int, period: int, now: int)
    requires deadline <= now
    ensures (exists n :: n > 0 && Meeting(deadline, period, n) > now) <==> period > 0
  {
    if period > 0 {
      CatchUpIsLeast(deadline, period, now);
    } else {
      forall n | n > 0
        ensures Meeting(deadline, period, n) <= now
      {
        assert n * period == -(n * -period);
        Nonnegative(n, -period);
      }
    }
  }

  lemma Nonnegative(k: int, p: int)
    requires k >= 0 && p >= 0
    ensures k * p >= 0
  {
  }

  /** A multiple beyond (m - 1) * p is at least m * p. */
  lemma Monotonic(m: int, n: int, p: int)
    requires p > 0
    ensures n * p > (m - 1) * p ==> n * p >= m * p
  {
    if n < m {
      Nonnegative(m - 1 - n, p);
      assert (m - 1 - n) * p == (m - 1) * p - n * p;
    } else {
      Nonnegative(n - m, p);
      assert (n - m) * p == n * p - m * p;
    }
  }

  // ----- the history of a dispatch

  /** What matters of a timer: its deadline, its period, and whether it is in use. */
  datatype Status = Status(nextTime: int, period: int, active: bool) {
    predicate Due(now: int) {
      active && 0 < nextTime <= now
    }

    /** How a dispatch leaves a timer that no handler touches. */
    function Dispatched(now: int): Status
      requires period >= 0
    {
      if !Due(now) then this
      else if period > 0 then this.(nextTime := CatchUp(nextTime, period, now))
      else this.(active := false)
    }
  }

  ghost function DueIn(statuses: seq<Status>, now: int): set<nat> {
    set t: nat | t < |statuses| && statuses[t].Due(now)
  }

  /**
   A dispatch that found the timers as in `start` and leaves them as in `current`: it has fired
   `fired`, in the order of deadlines and each timer once; what is still due is as it was; and all
   timers but those a handler touched are as before, or dispatched.
   */
  ghost predicate Progress(start: seq<Status>, current: seq<Status>, fired: seq<nat>, touched: set<nat>,
    now: int) {
    && |start| == |current| && (forall t: nat :: t < |start| ==> start[t].period >= 0)
    && (forall t: nat :: t < |current| && current[t].Due(now) ==>
          current[t] == start[t] && t !in touched && t !in fired)
    && (forall t: nat :: t < |current| && t !in touched ==>
          current[t] == if start[t].Due(now) && t !in fired then start[t] else start[t].Dispatched(now))
    && Distinct(fired) && (forall i :: 0 <= i < |fired| ==> fired[i] < |start| && start[fired[i]].Due(now))
    && (forall i, j :: 0 <= i < j < |fired| ==> start[fired[i]].nextTime <= start[fired[j]].nextTime)
    && (forall i, t: nat :: 0 <= i < |fired| && t < |current| && current[t].Due(now) ==>
          start[fired[i]].nextTime <= current[t].nextTime)
  }

  /** Firing the nearest due timer is progress, whatever its handler touches, and leaves fewer due timers. */
  lemma ProgressStep(start: seq<Status>, before: seq<Status>, after: seq<Status>, self: nat,
                     fired: seq<nat>, touched: set<nat>, changed: set<nat>, now: int)
    requires Progress(start, before, fired, touched, now) && |after| == |before|
    requires self < |before| && before[self].Due(now)
    requires forall t: nat :: t < |before| && before[t].Due(now) ==> before[self].nextTime <= before[t].nextTime
    requires !after[self].Due(now) && forall t: nat :: t in changed && t < |after| ==> !after[t].Due(now)
    requires self !in changed ==> after[self] == start[self].Dispatched(now)
    requires forall t: nat :: t < |before| && t !in changed && t != self ==> after[t] == before[t]
    ensures Progress(start, after, fired + [self], touched + changed, now)
    ensures DueIn(after, now) < DueIn(before, now)
  {
    var fired' := fired + [self];
    DistinctSnoc(fired, self);
    assert forall t: nat :: t < |after| && after[t].Due(now) ==> t !in changed && t != self && after[t] == before[t];
    assert forall t :: t in fired' <==> t in fired || t == self;
    assert self in DueIn(before, now) && self !in DueIn(after, now);
  }

  /**
   A finished dispatch that calls the handlers of `fired`: those of all timers that were due, each once, in the
   order of deadlines, but for timers that a handler touched; and all other timers that no handler touched
   are exactly moved on, freed or left alone.
   */
  ghost predicate Complete(start: seq<Status>, end: seq<Status>, fired: seq<nat>, touched: set<nat>,
    now: int) {
    && |start| == |end| && (forall t: nat :: t < |start| ==> start[t].period >= 0)
    && DueIn(start, now) - touched <= Members(fired) <= DueIn(start, now) && DueIn(end, now) == {}
    && Distinct(fired)
    && (forall i, j :: 0 <= i < j < |fired| && fired[i] < |start| && fired[j] < |start| ==>
          start[fired[i]].nextTime <= start[fired[j]].nextTime)
    && (forall t: nat :: t < |start| && t !in touched ==> end[t] == start[t].Dispatched(now))
  }

  lemma DispatchComplete(start: seq<Status>, end: seq<Status>, fired: seq<nat>, touched: set<nat>,
    now: int)
    requires Progress(start, end, fired, touched, now) && DueIn(end, now) == {}
    ensures Complete(start, end, fired, touched, now)
  {
    forall t: nat | t < |start| && t !in touched
      ensures end[t] == start[t].Dispatched(now) && (start[t].Due(now) ==> t in fired)
    {
      assert t !in DueIn(end, now);
    }
  }

  // ----- the module as a state

  datatype Times = Times(nextTime: int, period: int) {
    predicate Armed() {
      nextTime > 0
    }
  }

  /** What timeouts and periods of type int lead to. */
  predicate Bounded(t: Times, clock: int) {
    t.nextTime < clock + 0x8000_0000 && t.period < 0x8000_0000
  }

  /**
   A timer is known by its place in the pool, and `times` holds the deadline and the period of each. `clock` is the
   latest reading of io_now; `called` are the timers whose handlers ran, in order.
   */
  datatype State = State(
    active: seq<nat>,
    free: seq<nat>,
    times: seq<Times>,
    clock: int,
    called: seq<nat>)
  {
    ghost predicate Sound() {
      && Distinct(active) && Distinct(free)
      && (forall t :: t in active ==> t < |times| && t !in free)
      && (forall t :: t in free ==> t < |times|)
    }

    /** The entry of a timer; calls name timers of the pool only. */
    ghost function Of(t: nat): Times {
      if t < |times| then times[t] else Times(-1, 0)
    }

    ghost function With(t: nat, entry: Times): seq<Times> {
      if t < |times| then times[t := entry] else times
    }

    /** No timer has a negative period, with which catching up would not end. */
    ghost predicate Forward() {
      forall t: nat :: t < |times| ==> times[t].period >= 0
    }
  }

  /** A call that a handler makes; an `Arm` reads io_now when that has moved on by `passed`. */
  datatype Order =
    | Alloc
    | Free(t: nat)
    | Stop(t: nat)
    | Arm(t: nat, passed: nat, delay: cint, periodic: bool)

  /** What the call does. */
  ghost function Do(s: State, o: Order): State {
    match o
    case Alloc =>
      if s.free == [] then s
      else
        var t := s.free[0];
        s.(active := [t] + s.active, free := s.free[1..], times := s.With(t, Times(-1, 0)))
    case Free(t) =>
      if t in s.active then s.(active := Remove(s.active, t), free := [t] + s.free) else s
    case Stop(t) =>
      s.(times := s.With(t, Times(-1, s.Of(t).period)))
    case Arm(t, passed, delay, periodic) =>
      var later := s.clock + passed;
      s.(times := s.With(t, Times(later + delay, if periodic then delay else s.Of(t).period)), clock := later)
  }

  /** What a handler does, one call after the other. */
  ghost function DoAll(s: State, script: seq<Order>): State
    decreases |script|
  {
    if script == [] then s else DoAll(Do(s, script[0]), script[1..])
  }

  /** The timer that a call allocates, frees, stops or arms. */
  ghost function Target(s: State, o: Order): set<nat> {
    if !o.Alloc? then {o.t} else if s.free == [] then {} else {s.free[0]}
  }

  ghost function Targets(s: State, script: seq<Order>): set<nat>
    decreases |script|
  {
    if script == [] then {} else Target(s, script[0]) + Targets(Do(s, script[0]), script[1..])
  }

  /** The first of the armed ones among the first n active timers with the least deadline. */
  ghost function NearestOf(s: State, n: nat): (nearest: Option<nat>)
    requires n <= |s.active|
    ensures nearest.Some? ==> nearest.value in s.active && s.Of(nearest.value).Armed()
  {
    if n == 0 then None
    else
      var before, t := NearestOf(s, n - 1), s.active[n - 1];
      if s.Of(t).Armed() && (before.None? || s.Of(t).nextTime < s.Of(before.value).nextTime) then Some(t) else before
  }

  /** io_get_nearest_timer */
  ghost function Nearest(s: State): Option<nat> {
    NearestOf(s, |s.active|)
  }

  /** It is the first of them, and there is one exactly when some timer is armed. */
  lemma {:induction false} NearestIsFirst(s: State, n: nat) returns (k: nat)
    requires n <= |s.active|
    ensures NearestOf(s, n).None? ==> forall i :: 0 <= i < n ==> !s.Of(s.active[i]).Armed()
    ensures NearestOf(s, n).Some? ==>
              var least := s.Of(NearestOf(s, n).value).nextTime;
              && k < n && s.active[k] == NearestOf(s, n).value && s.Of(s.active[k]).Armed()
              && (forall i :: 0 <= i < k && s.Of(s.active[i]).Armed() ==> least < s.Of(s.active[i]).nextTime)
              && (forall i :: k <= i < n && s.Of(s.active[i]).Armed() ==> least <= s.Of(s.active[i]).nextTime)
  {
    k := 0;
    if n > 0 {
      k := NearestIsFirst(s, n - 1);
      if NearestOf(s, n) != NearestOf(s, n - 1) {
        k := n - 1;
      }
    }
  }

  /** Some active timer is due. */
  ghost predicate IsDue(s: State, now: int) {
    var nearest := Nearest(s);
    nearest.Some? && s.Of(nearest.value).nextTime <= now
  }

  /** The nearest timer is moved on to its next meeting, or freed; then its handler is called. */
  ghost function FireStep(s: State, now: int, script: seq<Order>): State {
    match Nearest(s)
    case None => s
    case Some(t) => DoAll(Calling(Moved(s, t, now), t), script)
  }

  ghost function Moved(s: State, t: nat, now: int): State {
    var was := s.Of(t);
    if was.period > 0 then
      s.(times := s.With(t, was.(nextTime := CatchUp(was.nextTime, was.period, now))))
    else
      Do(s, Free(t))
  }

  ghost function Calling(s: State, t: nat): State {
    s.(called := s.called + [t])
  }

  ghost function FireTargets(s: State, now: int, script: seq<Order>): set<nat> {
    match Nearest(s)
    case None => {}
    case Some(t) => Targets(Calling(Moved(s, t, now), t), script)
  }

  /** The loop of io_get_timeout, where the k-th handler that is called does what the k-th script says. */
  ghost function Rounds(s: State, now: int, scripts: seq<seq<Order>>): State
    decreases |scripts|
  {
    if scripts == [] || !IsDue(s, now) then s else Rounds(FireStep(s, now, scripts[0]), now, scripts[1..])
  }

  /** The timers whose handlers are called in it, in order. */
  ghost function Fired(s: State, now: int, scripts: seq<seq<Order>>): seq<nat>
    decreases |scripts|
  {
    if scripts == [] || !IsDue(s, now) then []
    else [Nearest(s).value] + Fired(FireStep(s, now, scripts[0]), now, scripts[1..])
  }

  /** The timers that these handlers allocate, free, stop or arm. */
  ghost function Touched(s: State, now: int, scripts: seq<seq<Order>>): set<nat>
    decreases |scripts|
  {
    if scripts == [] || !IsDue(s, now) then {}
    else FireTargets(s, now, scripts[0]) + Touched(FireStep(s, now, scripts[0]), now, scripts[1..])
  }

  // ----- what handlers have to keep to

  /** All calls name timers of the pool. */
  predicate Known(pool: nat, script: seq<Order>)
    decreases |script|
  {
    script == [] || ((script[0].Alloc? || script[0].t < pool) && Known(pool, script[1..]))
  }

  /** A handler that arms timers only after `now`, or for a deadline that never comes, and sets no negative period. */
  predicate Polite(clock: int, now: int, script: seq<Order>)
    decreases |script|
  {
    script == []
    || match script[0]
       case Arm(_, passed, delay, periodic) =>
         && !(0 < clock + passed + delay <= now) && (periodic ==> delay >= 0)
         && Polite(clock + passed, now, script[1..])
       case _ => Polite(clock, now, script[1..])
  }

  /** The clock when a handler that starts at `clock` has ended. */
  function After(clock: int, script: seq<Order>): (r: int)
    ensures r >= clock
    decreases |script|
  {
    if script == [] then clock
    else After(if script[0].Arm? then clock + script[0].passed else clock, script[1..])
  }

  /** What the handlers do that are called one after the other. */
  predicate Supplied(pool: nat, clock: int, now: int, scripts: seq<seq<Order>>)
    decreases |scripts|
  {
    scripts == []
    || (Known(pool, scripts[0]) && Polite(clock, now, scripts[0])
        && Supplied(pool, After(clock, scripts[0]), now, scripts[1..]))
  }

  ghost predicate Ready(s: State, now: int, scripts: seq<seq<Order>>) {
    s.Sound() && s.Forward() && Supplied(|s.times|, s.clock, now, scripts)
  }

  ghost function StatusIn(s: State, t: nat): Status
    requires t < |s.times|
  {
    Status(s.times[t].nextTime, s.times[t].period, t in s.active)
  }

  /** The status of every timer. */
  ghost function Statuses(s: State): seq<Status> {
    seq(|s.times|, t requires 0 <= t < |s.times| => StatusIn(s, t))
  }

  /** Between s and r, only timers of `touched` changed, and those are not due. */
  ghost predicate Leaves(s: State, r: State, touched: set<nat>, now: int) {
    && r.Sound() && |r.times| == |s.times| && (s.Forward() ==> r.Forward())
    && (forall t: nat :: t < |s.times| && t !in touched ==> StatusIn(r, t) == StatusIn(s, t))
    && (forall t: nat :: t < |s.times| && t in touched ==> !StatusIn(r, t).Due(now))
  }

  lemma DoLeaves(s: State, now: int, script: seq<Order>)
    requires s.Sound() && script != [] && Known(|s.times|, script) && Polite(s.clock, now, script)
    ensures Leaves(s, Do(s, script[0]), Target(s, script[0]), now)
    ensures Do(s, script[0]).clock == if script[0].Arm? then s.clock + script[0].passed else s.clock
    ensures Do(s, script[0]).called == s.called
  {
    match script[0] {
      case Alloc =>
        if s.free != [] {
          AllocLeaves(s);
        }
      case Free(t) =>
        FreeLeaves(s, t);
      case _ =>
    }
  }

  lemma AllocLeaves(s: State)
    requires s.Sound() && s.free != []
    ensures
      var t, r := s.free[0], Do(s, Alloc);
      && t < |s.times| && r.Sound() && r == s.(active := [t] + s.active, free := s.free[1..], times := r.times)
      && r.times == s.times[t := Times(-1, 0)]
      && forall x :: x != t ==> (x in r.active <==> x in s.active)
  {
    var t, rest := s.free[0], s.free[1..];
    assert s.free == [t] + rest;
    DistinctWith(t, rest);
    DistinctWith(t, s.active);
    var r := Do(s, Alloc);
    assert t in s.free;
    forall x
      ensures (x in r.active <==> x == t || x in s.active) && (x in r.free ==> x in s.free && x != t)
    {
      assert r.active == [t] + s.active && r.free == rest;
    }
  }

  lemma FreeLeaves(s: State, t: nat)
    requires s.Sound()
    ensures
      var r := Do(s, Free(t));
      && r.Sound() && r.times == s.times && r.clock == s.clock && r.called == s.called && t !in r.active
      && forall x :: x != t ==> (x in r.active <==> x in s.active)
  {
    if t in s.active {
      RemoveLeaves(s.active, t);
      DistinctWith(t, s.free);
      var r := Do(s, Free(t));
      assert r.active == Remove(s.active, t) && r.free == [t] + s.free;
      forall x | x in r.active
        ensures x < |r.times| && x !in r.free
      {
        assert x in s.active && x != t;
        assert x in [t] + s.free ==> x in s.free;
      }
    }
  }

  lemma {:induction false} ScriptLeaves(s: State, now: int, script: seq<Order>)
    requires s.Sound() && Known(|s.times|, script) && Polite(s.clock, now, script)
    ensures Leaves(s, DoAll(s, script), Targets(s, script), now)
    ensures DoAll(s, script).clock == After(s.clock, script) && DoAll(s, script).called == s.called
    decreases |script|
  {
    if script != [] {
      DoLeaves(s, now, script);
      ScriptLeaves(Do(s, script[0]), now, script[1..]);
    }
  }

  /** Moving a due timer on, or freeing it, dispatches it and nothing else. */
  lemma MovedIsDispatched(s: State, t: nat, now: int)
    requires s.Sound() && s.Forward() && t in s.active && StatusIn(s, t).Due(now)
    ensures
      var r := Moved(s, t, now);
      && r.Sound() && r.Forward() && |r.times| == |s.times| && r.clock == s.clock && r.called == s.called
      && StatusIn(r, t) == StatusIn(s, t).Dispatched(now) && !StatusIn(r, t).Due(now)
      && forall x: nat :: x < |s.times| && x != t ==> StatusIn(r, x) == StatusIn(s, x)
  {
    if s.times[t].period > 0 {
      CatchUpIsLeast(s.times[t].nextTime, s.times[t].period, now);
    } else {
      FreeLeaves(s, t);
    }
  }

  /** A script for the next handler. */
  ghost predicate CanFire(s: State, now: int, script: seq<Order>) {
    s.Sound() && s.Forward() && IsDue(s, now) && Known(|s.times|, script) && Polite(s.clock, now, script)
  }

  lemma FireLeaves(s: State, now: int, script: seq<Order>)
    requires CanFire(s, now, script)
    ensures
      var r, self, touched := FireStep(s, now, script), Nearest(s).value, FireTargets(s, now, script);
      && r.Sound() && r.Forward() && |r.times| == |s.times| && r.clock == After(s.clock, script)
      && r.called == s.called + [self] && !StatusIn(r, self).Due(now)
      && (self !in touched ==> StatusIn(r, self) == StatusIn(s, self).Dispatched(now))
      && (forall t: nat :: t < |s.times| && t in touched ==> !StatusIn(r, t).Due(now))
      && (forall t: nat :: t < |s.times| && t != self && t !in touched ==> StatusIn(r, t) == StatusIn(s, t))
  {
    var self := Nearest(s).value;
    var k := NearestIsFirst(s, |s.active|);
    assert s.active[k] in s.active;
    MovedIsDispatched(s, self, now);
    ScriptLeaves(Calling(Moved(s, self, now), self), now, script);
  }

  /** One round is progress, and leaves fewer due timers. */
  lemma FireProgress(start: seq<Status>, s: State, now: int, script: seq<Order>, fired: seq<nat>,
                     touched: set<nat>)
    requires CanFire(s, now, script)
    requires Progress(start, Statuses(s), fired, touched, now)
    ensures
      var r, self := FireStep(s, now, script), Nearest(s).value;
      && Progress(start, Statuses(r), fired + [self], touched + FireTargets(s, now, script), now)
      && DueIn(Statuses(r), now) < DueIn(Statuses(s), now)
  {
    var self := Nearest(s).value;
    var k := NearestIsFirst(s, |s.active|);
    assert s.active[k] in s.active;
    FireLeaves(s, now, script);
    ProgressStep(start, Statuses(s), Statuses(FireStep(s, now, script)), self, fired, touched,
                 FireTargets(s, now, script), now);
  }

  lemma NotDue(s: State, now: int)
    requires s.Sound()
    ensures IsDue(s, now) <==> DueIn(Statuses(s), now) != {}
  {
    var k := NearestIsFirst(s, |s.active|);
    if IsDue(s, now) {
      assert s.active[k] in DueIn(Statuses(s), now);
    }
  }

  /** The rounds are progress from any point on. */
  lemma {:induction false} RoundsProgress(start: seq<Status>, s: State, now: int, scripts: seq<seq<Order>>,
    fired: seq<nat>, touched: set<nat>, end: seq<Status>, allFired: seq<nat>, allTouched: set<nat>)
    requires Ready(s, now, scripts) && Progress(start, Statuses(s), fired, touched, now)
    requires end == Statuses(Rounds(s, now, scripts))
    requires allFired == fired + Fired(s, now, scripts) && allTouched == touched + Touched(s, now, scripts)
    ensures Progress(start, end, allFired, allTouched, now)
    decreases |scripts|
  {
    if scripts == [] || !IsDue(s, now) {
      assert allFired == fired && allTouched == touched;
    } else {
      var self, next := Nearest(s).value, FireStep(s, now, scripts[0]);
      FireLeaves(s, now, scripts[0]);
      FireProgress(start, s, now, scripts[0], fired, touched);
      NextMoved(fired, self, Fired(next, now, scripts[1..]));
      RoundsProgress(start, next, now, scripts[1..], fired + [self], touched + FireTargets(s, now, scripts[0]),
                     end, allFired, allTouched);
    }
  }

  /** One script for every due timer is enough; the state records whose handlers were called. */
  lemma {:induction false} RoundsEnd(s: State, now: int, scripts: seq<seq<Order>>)
    requires Ready(s, now, scripts)
    ensures
      var r := Rounds(s, now, scripts);
      && r.Sound() && r.Forward() && r.clock >= s.clock && r.called == s.called + Fired(s, now, scripts)
      && (|scripts| >= |DueIn(Statuses(s), now)| ==> !IsDue(r, now))
    decreases |scripts|
  {
    NotDue(s, now);
    if scripts != [] && IsDue(s, now) {
      var self, next := Nearest(s).value, FireStep(s, now, scripts[0]);
      FireLeaves(s, now, scripts[0]);
      FewerDue(s, now, scripts[0]);
      RoundsEnd(next, now, scripts[1..]);
      NextMoved(s.called, self, Fired(next, now, scripts[1..]));
    }
  }

  lemma FewerDue(s: State, now: int, script: seq<Order>)
    requires CanFire(s, now, script)
    ensures |DueIn(Statuses(FireStep(s, now, script)), now)| < |DueIn(Statuses(s), now)|
  {
    var self, few := Nearest(s).value, DueIn(Statuses(FireStep(s, now, script)), now);
    var many := DueIn(Statuses(s), now);
    FireLeaves(s, now, script);
    var k := NearestIsFirst(s, |s.active|);
    assert s.active[k] in many;
    Subset(few, many - {self});
  }

  lemma {:induction false} Subset(part: set<nat>, all: set<nat>)
    requires part <= all
    ensures |part| <= |all| && (|part| == |all| ==> part == all)
    decreases part
  {
    if part != {} {
      var t :| t in part;
      Subset(part - {t}, all - {t});
    }
  }

  lemma ProgressStarts(start: seq<Status>, now: int)
    requires forall t: nat :: t < |start| ==> start[t].period >= 0
    ensures Progress(start, start, [], {}, now)
  {
  }

  lemma DispatchProgress(s: State, now: int, scripts: seq<seq<Order>>, start: seq<Status>,
    end: seq<Status>, fired: seq<nat>, touched: set<nat>)
    requires Ready(s, now, scripts) && start == Statuses(s) && end == Statuses(Rounds(s, now, scripts))
    requires fired == Fired(s, now, scripts) && touched == Touched(s, now, scripts)
    requires DueIn(end, now) == {}
    ensures Complete(start, end, fired, touched, now)
  {
    ProgressStarts(start, now);
    RoundsProgress(start, s, now, scripts, [], {}, end, fired, touched);
    DispatchComplete(start, end, fired, touched, now);
  }

  /** Whatever the handlers do, a dispatch calls the right ones. */
  lemma DispatchFires(s: State, now: int, scripts: seq<seq<Order>>)
    requires Ready(s, now, scripts) && |scripts| >= |DueIn(Statuses(s), now)|
    ensures
      var r := Rounds(s, now, scripts);
      && r.called == s.called + Fired(s, now, scripts)
      && Complete(Statuses(s), Statuses(r), Fired(s, now, scripts), Touched(s, now, scripts), now)
  {
    var r := Rounds(s, now, scripts);
    RoundsEnd(s, now, scripts);
    NotDue(r, now);
    DispatchProgress(s, now, scripts, Statuses(s), Statuses(r), Fired(s, now, scripts), Touched(s, now, scripts));
  }

  /** The loop fires as long as some timer is due, and ends in `end`. */
  ghost predicate OnTrack(s: State, now: int, scripts: seq<seq<Order>>, end: State)
    decreases |scripts|
  {
    if !IsDue(s, now) then s == end
    else scripts != [] && CanFire(s, now, scripts[0]) && OnTrack(FireStep(s, now, scripts[0]), now, scripts[1..], end)
  }

  lemma {:induction false} RoundsOnTrack(s: State, now: int, scripts: seq<seq<Order>>)
    requires Ready(s, now, scripts) && |scripts| >= |DueIn(Statuses(s), now)|
    ensures OnTrack(s, now, scripts, Rounds(s, now, scripts))
    decreases |scripts|
  {
    NotDue(s, now);
    if IsDue(s, now) {
      assert |DueIn(Statuses(s), now)| > 0;
      FireLeaves(s, now, scripts[0]);
      FewerDue(s, now, scripts[0]);
      RoundsOnTrack(FireStep(s, now, scripts[0]), now, scripts[1..]);
    }
  }

  lemma DueAreActive(s: State, now: int)
    requires s.Sound()
    ensures |DueIn(Statuses(s), now)| <= |s.active|
  {
    Subset(DueIn(Statuses(s), now), Members(s.active));
  }

  // ----- a handler that arms its timer again, a millisecond later and for the longest time

  function Again(t: nat): seq<Order> {
    [Alloc, Arm(t, 1, 0x7FFF_FFFF, false)]
  }

  lemma {:induction false} IdleSupplied(pool: nat, clock: int, now: int, scripts: seq<seq<Order>>)
    requires forall i :: 0 <= i < |scripts| ==> scripts[i] == []
    ensures Supplied(pool, clock, now, scripts)
    decreases |scripts|
  {
    if scripts != [] {
      IdleSupplied(pool, clock, now, scripts[1..]);
    }
  }

  lemma AgainSupplied(pool: nat, now: int, t: nat, idle: seq<seq<Order>>)
    requires t < pool && now >= 0 && forall i :: 0 <= i < |idle| ==> idle[i] == []
    ensures Supplied(pool, now, now, [Again(t)] + idle)
  {
    var arm := Arm(t, 1, 0x7FFF_FFFF, false);
    assert Again(t)[1..] == [arm] && [arm][1..] == [];
    assert Known(pool, [arm]) && Polite(now, now, [arm]);
    assert After(now, Again(t)) == After(now, [arm]) == After(now + 1, []) == now + 1;
    IdleSupplied(pool, now + 1, now, idle);
    assert ([Again(t)] + idle)[1..] == idle;
  }

  /** The timer then waits for 2^31 milliseconds. */
  lemma ArmedAgain(s: State, t: nat, idle: seq<seq<Order>>)
    requires s.active == [t] && t < |s.times| && 0 < s.times[t].nextTime <= s.clock && s.times[t].period == 0
    ensures
      var r := Rounds(s, s.clock, [Again(t)] + idle);
      Nearest(r) == Some(t) && r.Of(t).nextTime == s.clock + 0x8000_0000
  {
    var now, arm, scripts := s.clock, Arm(t, 1, 0x7FFF_FFFF, false), [Again(t)] + idle;
    assert NearestOf(s, 0) == None && Nearest(s) == Some(t);
    var s1 := Calling(Moved(s, t, now), t);
    assert s1 == s.(active := [], free := [t] + s.free, called := s.called + [t]);
    var s2 := Do(s1, Alloc);
    assert [t] + [] == [t] && s2.active == [t];
    var s3 := Do(s2, arm);
    assert Again(t)[1..] == [arm] && [arm][1..] == [];
    assert DoAll(s2, [arm]) == DoAll(s3, []) == s3;
    assert DoAll(s1, Again(t)) == s3 && FireStep(s, now, scripts[0]) == s3;
    assert NearestOf(s3, 0) == None && Nearest(s3) == Some(t);
    assert scripts[1..] == idle && Rounds(s3, now, idle) == s3;
  }
}
