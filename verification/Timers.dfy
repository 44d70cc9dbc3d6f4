/** io_timers: a fixed pool of timers on two linked lists, and the dispatch of the due ones. */
module Timers {
  import opened Bytes
  import opened TimerProtocol

  class Timer {
    // its place in the pool
    const id: nat
    var next: Timer?
    var nextTime: int
    var period: int

    constructor (id: nat)
      ensures this.id == id && nextTime == -1 && period == 0 && next == null
    {
      this.id := id;
      next, nextTime, period := null, -1, 0;
    }
  }

  /** The static array of timers. */
  method NewPool() returns (ts: seq<Timer>)
    ensures Placed(ts) && fresh(ts)
    ensures forall i :: 0 <= i < |ts| ==> ts[i].period == 0
  {
    ts := [];
    while |ts| < LIMIT
      invariant |ts| <= LIMIT && fresh(ts)
      invariant forall i :: 0 <= i < |ts| ==> ts[i].id == i && ts[i].period == 0
    {
      var t := new Timer(|ts|);
      ts := ts + [t];
    }
  }

  /** A pool, where every timer knows its place. */
  ghost predicate Placed(pool: seq<Timer>) {
    |pool| == LIMIT && forall i :: 0 <= i < |pool| ==> pool[i].id == i
  }

  ghost predicate Within(ids: seq<nat>) {
    forall i :: 0 <= i < |ids| ==> ids[i] < LIMIT
  }

  /** The timer at the i-th place of a list, or null behind its end. */
  ghost function At(pool: seq<Timer>, ids: seq<nat>, i: nat): Timer?
    requires |pool| == LIMIT && Within(ids)
  {
    if i < |ids| then pool[ids[i]] else null
  }

  /** `first` heads the list of exactly the timers `ids`, in this order. */
  ghost predicate Linked(pool: seq<Timer>, first: Timer?, ids: seq<nat>)
    requires |pool| == LIMIT && Within(ids)
    reads pool`next
  {
    && first == At(pool, ids, 0)
    && forall i {:trigger pool[ids[i]].next} :: 0 <= i < |ids| ==> pool[ids[i]].next == At(pool, ids, i + 1)
  }

  /** All places of the pool, from i on. */
  ghost function Places(i: nat): (ids: seq<nat>)
    requires i <= LIMIT
    ensures |ids| == LIMIT - i && forall k :: 0 <= k < |ids| ==> ids[k] == i + k
    decreases LIMIT - i
  {
    if i == LIMIT then [] else [i] + Places(i + 1)
  }

  lemma {:induction false} PlacesDiffer(i: nat)
    requires i <= LIMIT
    ensures Distinct(Places(i))
    decreases LIMIT - i
  {
    if i < LIMIT {
      PlacesDiffer(i + 1);
      DistinctWith(i, Places(i + 1));
    }
  }

  /** Chains all timers of the array, stopped. */
  method LinkAll(ts: seq<Timer>)
    requires Placed(ts)
    modifies ts
    ensures Linked(ts, ts[0], Places(0))
    ensures forall i :: 0 <= i < |ts| ==> ts[i].nextTime == -1 && ts[i].period == old(ts[i].period)
  {
    var i := 0;
    while i < |ts| - 1
      invariant i <= |ts| - 1
      invariant forall k {:trigger ts[k].next} :: 0 <= k < i ==> ts[k].next == At(ts, Places(0), k + 1)
      invariant forall k :: 0 <= k < i ==> ts[k].nextTime == -1
      invariant forall k :: 0 <= k < |ts| ==> ts[k].period == old(ts[k].period)
    {
      ts[i].nextTime := -1;
      ts[i].next := ts[i + 1];
      i := i + 1;
    }
    ts[i].nextTime := -1;
    ts[i].next := null;
  }

  /**
   The returned int is the waiting time exactly when that is below 2^31. It is taken for "no timer" only from
   2^32 - 1 on, but is already negative when a handler arms for the longest time one millisecond after `now`.
   */
  lemma ToIntExact(wait: int)
    requires wait > 0
    ensures ToInt(wait) == wait <==> wait < 0x8000_0000
    ensures wait < 0xFFFF_FFFF ==> ToInt(wait) != -1
    ensures ToInt(0x7FFF_FFFF + 1) == -0x8000_0000 && ToInt(0xFFFF_FFFF) == -1
  {
  }

  /** It is the int that differs by a multiple of 2^32. */
  lemma ToIntWraps(wait: int)
    ensures -0x8000_0000 <= ToInt(wait) < 0x8000_0000 && (wait - ToInt(wait)) % 0x1_0000_0000 == 0
  {
  }

  /** The conversion to a 32-bit int. */
  function ToInt(x: int): int {
    (x + 0x8000_0000) % 0x1_0000_0000 - 0x8000_0000
  }

  /** Two lists without common timers, with as many timers as the pool, hold all of it. */
  lemma AllListed(active: seq<nat>, free: seq<nat>)
    requires Distinct(active) && Distinct(free) && Within(active) && Within(free) && |active| + |free| == LIMIT
    requires forall t :: t in active ==> t !in free
    ensures forall t :: 0 <= t < LIMIT ==> t in active || t in free
  {
    var all := AllPlaces(Places(0));
    var a, f := Members(active), Members(free);
    AllOf(a, f, all);
    forall t | 0 <= t < LIMIT
      ensures t in active || t in free
    {
      assert t in all && t in a + f;
    }
  }

  lemma AllPlaces(places: seq<nat>) returns (all: set<nat>)
    requires places == Places(0)
    ensures |all| == LIMIT && forall t :: t in all <==> 0 <= t < LIMIT
  {
    PlacesDiffer(0);
    all := Members(places);
    assert forall t: nat :: t < LIMIT ==> places[t] == t;
  }

  lemma AllOf(a: set<nat>, f: set<nat>, all: set<nat>)
    requires a !! f && a + f <= all && |a| + |f| == |all|
    ensures a + f == all
  {
    assert |a + f| == |a| + |f|;
    Subset(a + f, all);
  }

  /** A list stays linked when its i-th timer is bridged. */
  lemma LinkedWithout(pool: seq<Timer>, first: Timer?, ids: seq<nat>, rest: seq<nat>, i: nat, before: Timer?)
    requires Placed(pool) && Within(ids) && Distinct(ids) && i < |ids| && rest == ids[..i] + ids[i + 1..]
    requires before == if i == 0 then null else At(pool, ids, i - 1)
    requires forall k {:trigger pool[ids[k]].next} :: 0 <= k < |ids| && k + 1 != i ==>
               pool[ids[k]].next == At(pool, ids, k + 1)
    requires if before == null then first == At(pool, ids, 1)
             else first == At(pool, ids, 0) && before.next == At(pool, ids, i + 1)
    ensures Within(rest) && Linked(pool, first, rest)
  {
    forall k | 0 <= k < |rest|
      ensures pool[rest[k]].next == At(pool, rest, k + 1)
    {
      var at := if k < i then k else k + 1;
      assert rest[k] == ids[at] && (k + 1 < |rest| ==> rest[k + 1] == ids[if k + 1 < i then k + 1 else k + 2]);
    }
  }

  /** A new pool, and one with a single timer, which is due at 2. */
  ghost function Unused(): State {
    State([], Places(0), seq(LIMIT, _ => Times(-1, 0)), 0, [])
  }

  ghost function OneUsed(): State {
    State([0], Places(1), seq(LIMIT, _ => Times(-1, 0))[0 := Times(2, 0)], 1, [])
  }

  class Scheduler {
    var firstFree: Timer?
    var firstActive: Timer?
    const pool: seq<Timer>
    // the latest reading of io_now, which never goes back
    var clock: int
    // the places of the timers on both lists
    ghost var free: seq<nat>
    ghost var active: seq<nat>
    // what the fields of the timers hold
    ghost var times: seq<Times>
    // the places of the timers whose handlers ran, in order
    ghost var called: seq<nat>

    /** Both lists are sound, share no timer, and hold timers of the pool. */
    ghost predicate Lists()
      reads `firstFree, `firstActive, `free, `active, pool`next
    {
      && Placed(pool) && Within(active) && Within(free) && Distinct(active) && Distinct(free)
      && (forall t :: t in active ==> t !in free)
      && Linked(pool, firstActive, active) && Linked(pool, firstFree, free)
    }

    ghost predicate Timed()
      reads `times, pool`nextTime, pool`period
    {
      && |pool| == |times| == LIMIT
      && forall i :: 0 <= i < LIMIT ==> times[i] == Times(pool[i].nextTime, pool[i].period)
    }

    /** Deadlines lie less than 2^31 behind the clock, as timeouts and periods are of type int. */
    ghost predicate Timely()
      reads `clock, `times
    {
      clock >= 0 && forall i :: 0 <= i < |times| ==> Bounded(times[i], clock)
    }

    /** The two lists divide the whole pool. */
    ghost predicate Valid()
      reads this, pool
    {
      Lists() && |active| + |free| == LIMIT && Timed() && Timely()
    }

    /** A timer of the pool. */
    ghost predicate Owns(t: Timer) {
      t.id < |pool| && pool[t.id] == t
    }

    /** The state of the protocol this module is in. */
    ghost function View(): State
      reads `active, `free, `times, `clock, `called
    {
      State(active, free, times, clock, called)
    }

    ghost function Pointer(t: Option<nat>): Timer? {
      match t
      case None => null
      case Some(id) => if id < |pool| then pool[id] else null
    }

    /** The static array of timers, then io_timers_init. */
    constructor ()
      ensures Valid() && fresh(pool)
      ensures View() == Unused() && |pool| == 10 && active == [] && forall t :: 0 <= t < 10 ==> t in free
    {
      var ts := NewPool();
      LinkAll(ts);
      PlacesDiffer(0);
      pool, clock, called := ts, 0, [];
      free, active, times := Places(0), [], seq(LIMIT, _ => Times(-1, 0));
      firstActive, firstFree := null, ts[0];
    }

    /** io_timer_alloc; null exactly when every timer of the pool is in use. */
    method Alloc() returns (self: Timer?)
      requires Valid()
      modifies `firstFree, `firstActive, `free, `active, `times, pool
      ensures Valid() && View() == Do(old(View()), Order.Alloc)
      ensures self == if old(free) == [] then null else pool[old(free)[0]]
      ensures self == null ==> forall t :: 0 <= t < 10 ==> t in active
    {
      if firstFree == null {
        AllListed(active, free);
        return null;
      }
      self := TakeFree();
      Reset(self);
    }

    /** Moves the first free timer to the head of the active list. */
    method TakeFree() returns (self: Timer)
      requires Lists() && firstFree != null
      modifies `firstFree, `firstActive, `free, `active, pool`next
      ensures Lists() && old(free) != [] && self == pool[old(free)[0]]
      ensures active == [old(free)[0]] + old(active) && free == old(free)[1..]
    {
      ghost var id, rest := free[0], free[1..];
      assert free == [id] + rest;
      DistinctWith(id, rest);
      DistinctWith(id, active);
      self := firstFree;
      firstFree := self.next;
      self.next := firstActive;
      firstActive := self;
      active, free := [id] + active, rest;
    }

    /** Stops a timer that is taken into use. */
    method Reset(self: Timer)
      requires Owns(self) && Placed(pool) && Timed() && Timely()
      modifies `times, self`nextTime, self`period
      ensures Timed() && Timely() && times == old(times)[self.id := Times(-1, 0)]
    {
      self.nextTime := -1;
      self.period := 0;
      times := times[self.id := Times(-1, 0)];
    }

    /** The place of `self` on the active list, and the timer before it. */
    method Search(self: Timer) returns (before: Timer?, found: bool, ghost i: nat)
      requires Valid() && Owns(self)
      ensures FirstAt(active, self.id, i)
      ensures before == if i == 0 then null else At(pool, active, i - 1)
      ensures found == (i < |active|)
    {
      before := null;
      var t := firstActive;
      i := 0;
      while t != null && t != self
        invariant i <= |active| && t == At(pool, active, i)
        invariant before == if i == 0 then null else At(pool, active, i - 1)
        invariant forall k :: 0 <= k < i ==> active[k] != self.id
        decreases |active| - i
      {
        before, t := t, t.next;
        i := i + 1;
      }
      found := t != null;
    }

    /** io_timer_free; a timer that is not in use is left alone. */
    method Free(self: Timer)
      requires Valid() && Owns(self)
      modifies `firstFree, `firstActive, `free, `active, pool`next
      ensures Valid() && View() == Do(old(View()), Order.Free(self.id))
      ensures self.id !in active && (self.id in old(active) ==> |active| < |old(active)|)
    {
      var before, found;
      ghost var i;
      before, found, i := Search(self);
      if found {
        Unlink(before, self, i);
        PushFree(self);
      } else {
        RemoveAt(active, self.id, i);
      }
    }

    /** Takes the timer behind `before` off the active list. */
    method Unlink(before: Timer?, self: Timer, ghost i: nat)
      requires Lists() && Owns(self) && FirstAt(active, self.id, i) && i < |active|
      requires before == if i == 0 then null else At(pool, active, i - 1)
      modifies `firstActive, `active, pool`next
      ensures Lists() && self.id !in active && self.id !in free
      ensures self.id in old(active) && active == Remove(old(active), self.id) && |active| == |old(active)| - 1
    {
      ghost var rest := active[..i] + active[i + 1..];
      DistinctBut(active, i);
      RemoveAt(active, self.id, i);
      if i > 0 {
        DistinctAt(active, i - 1);
      }
      if before == null {
        firstActive := self.next;
      } else {
        before.next := self.next;
      }
      LinkedWithout(pool, firstActive, active, rest, i, before);
      active := rest;
    }

    /** Puts a timer that is on no list at the head of the free one. */
    method PushFree(self: Timer)
      requires Lists() && Owns(self) && self.id !in active && self.id !in free
      modifies `firstFree, `free, pool`next
      ensures Lists() && free == [self.id] + old(free)
    {
      DistinctWith(self.id, free);
      self.next := firstFree;
      firstFree := self;
      free := [self.id] + free;
    }

    /** io_timers_free */
    method FreeAll()
      requires Valid()
      modifies `firstFree, `firstActive, `free, `active, pool`next
      ensures Valid() && active == [] && firstActive == null
      ensures forall t :: 0 <= t < LIMIT ==> t in free
    {
      while firstActive != null
        invariant Valid()
        decreases |active|
      {
        Free(firstActive);
      }
      AllListed(active, free);
    }

    /** io_timer_set_timeout, called at time `now`; a deadline that is not positive never comes. */
    method SetTimeout(self: Timer, now: int, timeout: cint)
      requires Valid() && Owns(self) && now >= clock
      modifies self`nextTime, `clock, `times
      ensures Valid() && View() == Do(old(View()), Arm(self.id, now - old(clock), timeout, false))
      ensures times == old(times)[self.id := Times(now + timeout, self.period)]
      ensures self.nextTime == now + timeout && (times[self.id].Armed() <==> now + timeout > 0)
    {
      clock := now;
      self.nextTime := now + timeout;
      times := times[self.id := Times(now + timeout, self.period)];
    }

    /** io_timer_set_period */
    method SetPeriod(self: Timer, now: int, period: cint)
      requires Valid() && Owns(self) && now >= clock
      modifies self`nextTime, self`period, `clock, `times
      ensures Valid() && View() == Do(old(View()), Arm(self.id, now - old(clock), period, true))
      ensures self.nextTime == now + period && self.period == period && (times[self.id].Armed() <==> now + period > 0)
    {
      SetTimeout(self, now, period);
      self.period := period;
      times := times[self.id := Times(now + period, period)];
    }

    /** io_timer_stop */
    method Stop(self: Timer)
      requires Valid() && Owns(self)
      modifies self`nextTime, `times
      ensures Valid() && View() == Do(old(View()), Order.Stop(self.id)) && self.nextTime == -1
    {
      self.nextTime := -1;
      times := times[self.id := Times(-1, self.period)];
    }

    /** The first armed timer of the active list. */
    method FirstArmed() returns (t: Timer?, ghost i: nat)
      requires Valid()
      ensures i <= |active| && t == At(pool, active, i) && (t != null ==> t.nextTime > 0)
      ensures NearestOf(View(), i) == None
    {
      t := firstActive;
      i := 0;
      while t != null && !(t.nextTime > 0)
        invariant i <= |active| && t == At(pool, active, i) && NearestOf(View(), i) == None
        decreases |active| - i
      {
        t := t.next;
        i := i + 1;
      }
    }

    /** The first timer with the least deadline, from the first armed one on. */
    method LeastFrom(first: Timer, ghost i0: nat) returns (nearest: Timer)
      requires Valid() && first == At(pool, active, i0) && first.nextTime > 0 && NearestOf(View(), i0) == None
      ensures Owns(nearest) && Nearest(View()) == Some(nearest.id)
    {
      ghost var i := i0 + 1;
      nearest := first;
      var t := first.next;
      while t != null
        invariant i <= |active| && t == At(pool, active, i)
        invariant Owns(nearest) && NearestOf(View(), i) == Some(nearest.id)
        decreases |active| - i
      {
        if t.nextTime > 0 && t.nextTime < nearest.nextTime {
          nearest := t;
        }
        t := t.next;
        i := i + 1;
      }
    }

    /** io_get_nearest_timer: the first of the armed timers with the least deadline, or null when none is armed. */
    method FindNearest() returns (nearest: Timer?)
      requires Valid()
      ensures nearest == Pointer(Nearest(View())) && (nearest == null <==> Nearest(View()) == None)
    {
      var first;
      ghost var i;
      first, i := FirstArmed();
      nearest := null;
      if first != null {
        nearest := LeastFrom(first, i);
      }
    }

    /** One call of a handler; an arming reads the clock when it has moved on by `passed`. */
    method Obey(order: Order)
      requires Valid() && (order.Alloc? || order.t < LIMIT)
      modifies this, pool
      ensures Valid() && View() == Do(old(View()), order) && clock >= old(clock)
    {
      match order {
        case Alloc =>
          var _ := this.Alloc();
        case Free(t) =>
          this.Free(pool[t]);
        case Stop(t) =>
          this.Stop(pool[t]);
        case Arm(t, passed, delay, periodic) =>
          if periodic {
            SetPeriod(pool[t], clock + passed, delay);
          } else {
            SetTimeout(pool[t], clock + passed, delay);
          }
      }
    }

    /** The handler of `self`, which makes the calls of `script`. */
    method RunHandler(ghost self: nat, script: seq<Order>)
      requires Valid() && Known(LIMIT, script)
      modifies this, pool
      ensures Valid() && View() == DoAll(Calling(old(View()), self), script) && clock >= old(clock)
    {
      called := called + [self];
      var i := 0;
      while i < |script|
        invariant i <= |script| && Valid() && Known(LIMIT, script[i..]) && clock >= old(clock)
        invariant DoAll(View(), script[i..]) == DoAll(Calling(old(View()), self), script)
      {
        Obey(script[i]);
        i := i + 1;
      }
    }

    /** Moves a periodic timer to its first deadline after `now`. */
    method Advance(self: Timer, now: int)
      requires Valid() && Owns(self) && 0 < self.nextTime <= now && self.period > 0 && now <= clock
      modifies self`nextTime, `times
      ensures Valid() && self.nextTime == CatchUp(old(self.nextTime), self.period, now) > now
      ensures times == old(times)[self.id := Times(self.nextTime, self.period)]
    {
      self.nextTime := self.nextTime + self.period;
      while self.nextTime <= now
        invariant self.period == old(self.period) && self.nextTime <= now + self.period && times == old(times)
        invariant CatchUp(old(self.nextTime), self.period, now)
                  == if self.nextTime > now then self.nextTime else CatchUp(self.nextTime, self.period, now)
        decreases now - self.nextTime
      {
        self.nextTime := self.nextTime + self.period;
      }
      times := times[self.id := Times(self.nextTime, self.period)];
    }

    /** What io_get_timeout does to a due timer before it calls its handler: move it on or free it. */
    method Move(self: Timer, now: int)
      requires Valid() && Owns(self) && 0 < self.nextTime <= now && self.period >= 0 && now <= clock
      modifies this, pool
      ensures Valid() && View() == Moved(old(View()), self.id, now) && clock == old(clock)
    {
      if self.period != 0 {
        Advance(self, now);
      } else {
        Free(self);
      }
    }

    /** One round of the dispatch loop: the nearest timer, which is due, is moved on or freed, then called. */
    method Fire(self: Timer, now: int, script: seq<Order>)
      requires Valid() && View().Forward() && now <= clock && Known(LIMIT, script)
      requires Owns(self) && Nearest(View()) == Some(self.id) && self.nextTime <= now
      modifies this, pool
      ensures Valid() && View() == FireStep(old(View()), now, script) && clock >= old(clock)
    {
      Move(self, now);
      RunHandler(self.id, script);
    }

    /** The state when io_now has been read. */
    ghost function Reading(now: int): State
      reads `active, `free, `times, `clock, `called
    {
      View().(clock := now)
    }

    method ReadClock(now: int)
      requires Valid() && now >= clock
      modifies `clock
      ensures Valid() && View() == old(Reading(now))
    {
      clock := now;
    }

    /**
     The loop of io_get_timeout, up to the nearest deadline that is left. The k-th handler that is called does
     what the k-th script says; no more are called than there are timers.
     */
    method Dispatch(now: int, scripts: seq<seq<Order>>) returns (nearest: Timer?)
      requires Valid() && now >= clock && Ready(Reading(now), now, scripts) && |scripts| >= LIMIT
      modifies this, pool
      ensures Valid() && now <= clock && View() == Rounds(old(Reading(now)), now, scripts) && !IsDue(View(), now)
      ensures nearest == Pointer(Nearest(View())) && (nearest == null <==> Nearest(View()) == None)
    {
      ghost var start := Reading(now);
      DueAreActive(start, now);
      RoundsOnTrack(start, now, scripts);
      ReadClock(now);
      nearest := FireAll(now, scripts, Rounds(start, now, scripts));
    }

    /** Fires the nearest timer as long as it is due. */
    method FireAll(now: int, scripts: seq<seq<Order>>, ghost end: State) returns (nearest: Timer?)
      requires Valid() && now <= clock && OnTrack(View(), now, scripts, end)
      modifies this, pool
      ensures Valid() && now <= clock && View() == end && !IsDue(end, now)
      ensures nearest == Pointer(Nearest(end)) && (nearest == null <==> Nearest(end) == None)
    {
      var rest := scripts;
      while true
        invariant Valid() && now <= clock && OnTrack(View(), now, rest, end)
        decreases |rest|
      {
        nearest := FindNearest();
        if nearest == null || nearest.nextTime > now {
          return;
        }
        Fire(nearest, now, rest[0]);
        rest := rest[1..];
      }
    }

    /**
     io_get_timeout: the handlers of the due timers are called; the result is -1 exactly when no timer is armed
     then, unless the handlers ran for 2^31 or longer; and otherwise the time to the nearest deadline exactly when
     that is below 2^31, as it is while no handler read a later clock.
     */
    method GetTimeout(now: int, scripts: seq<seq<Order>>) returns (timeout: int)
      requires Valid() && now >= clock && Ready(Reading(now), now, scripts) && |scripts| >= LIMIT
      modifies this, pool
      ensures Valid() && now <= clock && View() == Rounds(old(Reading(now)), now, scripts)
      ensures called == old(called) + Fired(old(Reading(now)), now, scripts)
      ensures Complete(Statuses(old(Reading(now))), Statuses(View()), Fired(old(Reading(now)), now, scripts),
                       Touched(old(Reading(now)), now, scripts), now)
      ensures match Nearest(View())
              case None => timeout == -1
              case Some(t) =>
                var wait := View().Of(t).nextTime - now;
                && 0 < wait < clock - now + 0x8000_0000 && timeout == ToInt(wait)
                && (timeout == wait <==> wait < 0x8000_0000) && (clock - now < 0x8000_0000 ==> timeout != -1)
    {
      DueAreActive(Reading(now), now);
      DispatchFires(Reading(now), now, scripts);
      var nearest := Dispatch(now, scripts);
      timeout := -1;
      if nearest != null {
        ToIntExact(nearest.nextTime - now);
        timeout := ToInt(nearest.nextTime - now);
      }
    }
  }

  lemma FirstTimer()
    ensures Unused().free[0] == 0 && Do(Do(Unused(), Alloc), Arm(0, 1, 1, false)) == OneUsed()
  {
    assert Places(0) == [0] + Places(1);
  }

  method OneTimer() returns (s: Scheduler)
    ensures fresh(s) && fresh(s.pool) && s.Valid() && s.View() == OneUsed()
  {
    FirstTimer();
    s := new Scheduler();
    var t := s.Alloc();
    s.SetTimeout(t, 1, 1);
  }

  lemma OneTimerReady(s: State, idle: seq<seq<Order>>)
    requires s == OneUsed().(clock := 2)
    requires forall i :: 0 <= i < |idle| ==> idle[i] == []
    ensures Ready(s, 2, [Again(0)] + idle)
  {
    PlacesDiffer(0);
    DistinctWith(0, Places(1));
    assert Places(0) == [0] + Places(1);
    DistinctWith(0, []);
    assert [0] + [] == s.active;
    AgainSupplied(LIMIT, 2, 0, idle);
  }

  /** The int that a dispatch returns can be negative with a timer armed. */
  method NegativeWait() returns (timeout: int)
    ensures timeout == -0x8000_0000
  {
    var s := OneTimer();
    var idle := seq(LIMIT - 1, _ => []);
    OneTimerReady(s.Reading(2), idle);
    ArmedAgain(s.Reading(2), 0, idle);
    timeout := s.GetTimeout(2, [Again(0)] + idle);
    ToIntExact(0x8000_0000);
  }
}
