/** When the order of the calls survives writes that re-enter each other, at any depth and for all bytes. */
module StreamOrder {
  import opened Bytes
  import opened Sockets
  import opened StreamProtocol

  /** The same calls, with the same lengths and the same answers of the kernel, whatever the bytes are. */
  predicate Alike(a: Action, b: Action)
    decreases a
  {
    match a
    case Close => b.Close?
    case Write(data, reply, onSent, onAllSent) =>
      && b.Write? && |data| == |b.data| && reply == b.reply
      && AllAlike(onSent, b.onSent) && AllAlike(onAllSent, b.onAllSent)
  }

  predicate AllAlike(these: seq<Action>, those: seq<Action>)
    decreases these
  {
    |these| == |those| && (these == [] || (Alike(these[0], those[0]) && AllAlike(these[1..], those[1..])))
  }

  // ----- states that differ in bytes only

  predicate SameShape(s: State, t: State) {
    && s.open == t.open && s.connecting == t.connecting && s.pollout == t.pollout
    && |s.pending| == |t.pending| && |s.accepted| == |t.accepted| && s.errors == t.errors
    && s.calls == t.calls
  }

  lemma SentAlike(s: State, t: State, a: Action, b: Action)
    requires SameShape(s, t) && Alike(a, b) && a.Write?
    ensures a.Taken() == b.Taken() && |a.Rest()| == |b.Rest()| && SameShape(Sent(s, a), Sent(t, b))
  {
  }

  lemma {:induction false} SendsAlike(s: State, t: State, a: Action, b: Action)
    requires SameShape(s, t) && Alike(a, b) && a.Write?
    ensures SameShape(AfterSend(s, a), AfterSend(t, b))
    ensures AllKeep(Sent(s, a), a.onSent) <==> AllKeep(Sent(t, b), b.onSent)
    decreases a, 0
  {
    SentAlike(s, t, a, b);
    ActsAlike(Sent(s, a), Sent(t, b), a.onSent, b.onSent);
  }

  lemma {:induction false} BuffersAlike(s: State, t: State, rest: seq<byte>, other: seq<byte>, a: Action, b: Action)
    requires SameShape(s, t) && |rest| == |other| && Alike(a, b) && a.Write?
    ensures SameShape(BufferStep(s, rest, a).0, BufferStep(t, other, b).0)
    ensures AllKeep(Drained(s), a.onAllSent) <==> AllKeep(Drained(t), b.onAllSent)
    decreases a, 0
  {
    ActsAlike(Drained(s), Drained(t), a.onAllSent, b.onAllSent);
  }

  lemma {:induction false} WritesAlike(s: State, t: State, a: Action, b: Action)
    requires SameShape(s, t) && Alike(a, b) && a.Write?
    ensures SameShape(WriteStep(s, a).0, WriteStep(t, b).0)
    ensures KeepsOrder(s, a) <==> KeepsOrder(t, b)
    decreases a, 1
  {
    if s.open {
      if s.Idle() {
        SentAlike(s, t, a, b);
        SendsAlike(s, t, a, b);
        BuffersAlike(AfterSend(s, a), AfterSend(t, b), a.Rest(), b.Rest(), a, b);
      } else {
        var s', t' := s.(accepted := s.accepted + a.data), t.(accepted := t.accepted + b.data);
        BuffersAlike(s', t', a.data, b.data, a, b);
      }
    }
  }

  lemma {:induction false} ActsAlike(s: State, t: State, these: seq<Action>, those: seq<Action>)
    requires SameShape(s, t) && AllAlike(these, those)
    ensures SameShape(Acts(s, these), Acts(t, those)) && (AllKeep(s, these) <==> AllKeep(t, those))
    decreases these
  {
    if these != [] {
      if these[0].Write? {
        WritesAlike(s, t, these[0], those[0]);
      }
      ActsAlike(Act(s, these[0]), Act(t, those[0]), these[1..], those[1..]);
    }
  }

  // ----- nothing but zeros

  function Zeros(n: nat): (z: seq<byte>)
    ensures |z| == n && forall i :: 0 <= i < n ==> z[i] == 0
  {
    seq(n, _ => 0)
  }

  /** The same call with all bytes zero. */
  function Blank(a: Action): Action
    decreases a
  {
    match a
    case Close => Close
    case Write(data, reply, onSent, onAllSent) => Write(Zeros(|data|), reply, BlankAll(onSent), BlankAll(onAllSent))
  }

  function BlankAll(actions: seq<Action>): (r: seq<Action>)
    ensures |r| == |actions|
    decreases actions
  {
    if actions == [] then [] else [Blank(actions[0])] + BlankAll(actions[1..])
  }

  lemma {:induction false} BlankAlike(a: Action)
    ensures Alike(a, Blank(a))
    decreases a
  {
    if a.Write? {
      BlankAllAlike(a.onSent);
      BlankAllAlike(a.onAllSent);
    }
  }

  lemma {:induction false} BlankAllAlike(actions: seq<Action>)
    ensures AllAlike(actions, BlankAll(actions))
    decreases actions
  {
    if actions != [] {
      BlankAlike(actions[0]);
      BlankAllAlike(actions[1..]);
    }
  }

  /** Between s and s' only n zeros were added. */
  predicate ZerosAdded(s: State, s': State, n: nat) {
    s'.wire + s'.pending == s.wire + s.pending + Zeros(n) && s'.accepted == s.accepted + Zeros(n)
  }

  lemma ZerosJoin(m: nat, n: nat)
    ensures Zeros(m) + Zeros(n) == Zeros(m + n)
  {
  }

  lemma MoreZeros(s: State, s1: State, s2: State, m: nat, n: nat)
    requires ZerosAdded(s, s1, m) && ZerosAdded(s1, s2, n)
    ensures ZerosAdded(s, s2, m + n)
  {
    ZerosJoin(m, n);
    assert s2.wire + s2.pending == s.wire + s.pending + (Zeros(m) + Zeros(n));
    assert s2.accepted == s.accepted + (Zeros(m) + Zeros(n));
  }

  lemma {:induction false} BlankWrites(s: State, a: Action) returns (n: nat)
    requires a.Write?
    ensures ZerosAdded(s, WriteStep(s, Blank(a)).0, n)
    decreases a, 1
  {
    var b := Blank(a);
    if !s.open || (s.Idle() && a.reply.Failed?) {
      n := 0;
    } else if s.Idle() {
      var k := BlankSends(s, a);
      n := BlankBuffers(s, AfterSend(s, b), b.Rest(), a, |a.data| + k);
    } else {
      n := BlankBuffers(s, s.(accepted := s.accepted + b.data), b.data, a, |a.data|);
    }
  }

  /** During the send and its callback: k more zeros than those of the write itself, whose rest is owed. */
  lemma {:induction false} BlankSends(s: State, a: Action) returns (k: nat)
    requires a.Write? && s.Idle()
    ensures
      var b := Blank(a);
      var t := AfterSend(s, b);
      t.wire + t.pending == s.wire + s.pending + Zeros(b.Taken() + k) && t.accepted == s.accepted + Zeros(|a.data| + k)
      && t.accepted == Sent(s, b).accepted + Zeros(k)
    decreases a, 0
  {
    var b := Blank(a);
    k := 0;
    if b.Taken() > 0 {
      k := BlankActs(Sent(s, b), a.onSent);
    }
    ZerosJoin(b.Taken(), k);
    ZerosJoin(|a.data|, k);
    var t := AfterSend(s, b);
    assert b.data[..b.Taken()] == Zeros(b.Taken());
    assert s.wire + Zeros(b.Taken()) + [] + Zeros(k) == s.wire + [] + (Zeros(b.Taken()) + Zeros(k));
    assert s.accepted + Zeros(|a.data|) + Zeros(k) == s.accepted + (Zeros(|a.data|) + Zeros(k));
  }

  lemma {:induction false} BlankBuffers(s: State, owing: State, rest: seq<byte>, a: Action, n0: nat) returns (n: nat)
    requires a.Write? && rest == Zeros(|rest|)
    requires |rest| <= n0 && owing.accepted == s.accepted + Zeros(n0)
    requires owing.wire + owing.pending == s.wire + s.pending + Zeros(n0 - |rest|)
    ensures ZerosAdded(s, BufferStep(owing, rest, Blank(a)).0, n)
    decreases a, 0
  {
    n := n0;
    if rest == [] {
      var k := BlankActs(Drained(owing), a.onAllSent);
      assert ZerosAdded(s, Drained(owing), n0);
      MoreZeros(s, Drained(owing), BufferStep(owing, rest, Blank(a)).0, n0, k);
      n := n0 + k;
    } else {
      ZerosJoin(n0 - |rest|, |rest|);
      assert owing.wire + (owing.pending + rest) == owing.wire + owing.pending + rest;
      assert s.wire + s.pending + Zeros(n0 - |rest|) + rest
          == s.wire + s.pending + (Zeros(n0 - |rest|) + Zeros(|rest|));
    }
  }

  lemma {:induction false} BlankActs(s: State, actions: seq<Action>) returns (n: nat)
    ensures ZerosAdded(s, Acts(s, BlankAll(actions)), n)
    decreases actions
  {
    n := 0;
    if actions != [] {
      var b := Blank(actions[0]);
      if actions[0].Write? {
        n := BlankWrites(s, actions[0]);
      }
      assert ZerosAdded(s, Act(s, b), n);
      var k := BlankActs(Act(s, b), actions[1..]);
      assert BlankAll(actions)[0] == b && BlankAll(actions)[1..] == BlankAll(actions[1..]);
      MoreZeros(s, Act(s, b), Acts(s, BlankAll(actions)), n, k);
      n := n + k;
    } else {
      assert ZerosAdded(s, s, 0);
    }
  }

  // ----- the order is lost

  /** The stream holds as many bytes as were accepted, in another order. */
  predicate Reordered(s: State) {
    |s.wire + s.pending| == |s.accepted| && !s.Conserved()
  }

  lemma StaysReordered(s: State, s': State, n: nat)
    requires Reordered(s) && ZerosAdded(s, s', n)
    ensures Reordered(s')
  {
    SameBefore(s.wire + s.pending, s.accepted, Zeros(n));
  }

  lemma SameBefore(a: seq<byte>, b: seq<byte>, z: seq<byte>)
    requires |a| == |b|
    ensures a + z == b + z <==> a == b
  {
    assert (a + z)[..|a|] == a && (b + z)[..|b|] == b;
  }

  lemma StaysConserved(s: State, s': State, n: nat)
    requires s.Conserved() && ZerosAdded(s, s', n)
    ensures s'.Conserved()
  {
  }

  function Ones(n: nat): (z: seq<byte>)
    ensures |z| == n && forall i :: 0 <= i < n ==> z[i] == 1
  {
    seq(n, _ => 1)
  }

  /** The same call, where the bytes that are not taken directly are ones, and all others zeros. */
  function Marked(a: Action): (b: Action)
    requires a.Write?
    ensures b.Write?
  {
    Write(Zeros(a.Taken()) + Ones(|a.Rest()|), a.reply, BlankAll(a.onSent), BlankAll(a.onAllSent))
  }

  /** A partly taken write whose callback adds bytes has them in front of its rest. */
  lemma MarkedReorders(s: State, a: Action)
    requires a.Write? && s.open && s.Idle() && s.Conserved() && a.reply.Done? && a.Rest() != []
    requires |AfterSend(s, a).accepted| != |Sent(s, a).accepted|
    ensures Alike(a, Marked(a)) && Reordered(WriteStep(s, Marked(a)).0)
  {
    var b := Marked(a);
    BlankAllAlike(a.onSent);
    BlankAllAlike(a.onAllSent);
    SentAlike(s, s, a, b);
    SendsAlike(s, s, a, b);
    var k := BlankActs(Sent(s, b), a.onSent);
    assert b.data[..b.Taken()] == Zeros(a.Taken()) && b.Rest() == Ones(|a.Rest()|);
    var t, s' := AfterSend(s, b), WriteStep(s, b).0;
    assert a.Taken() > 0 && t == Acts(Sent(s, b), b.onSent) && k > 0;
    assert |b.Rest()| > 0 && s' == BufferStep(t, b.Rest(), b).0;
    assert s' == t.(pending := t.pending + b.Rest(), pollout := true);
    assert t.wire + (t.pending + b.Rest()) == t.wire + t.pending + b.Rest();
    assert s'.wire + s'.pending == t.wire + t.pending + Ones(|a.Rest()|);
    assert s'.accepted == s.accepted + b.data + Zeros(k);
    var at := |s.accepted| + a.Taken();
    assert (s'.wire + s'.pending)[at] == 0 && s'.accepted[at] == 1;
  }

  lemma {:induction false} BreakWrite(s: State, a: Action) returns (b: Action)
    requires a.Write? && s.Conserved() && !KeepsOrder(s, a)
    ensures b.Write? && Alike(a, b) && Reordered(WriteStep(s, b).0)
    decreases a, 1
  {
    BlankAlike(a);
    if !s.Idle() {
      var s' := Drained(s.(accepted := s.accepted + a.data));
      var actions := BreakActs(s', a.onAllSent);
      b := a.(onAllSent := actions);
      assert AllAlike(a.onSent, a.onSent) by { SelfAlike(a.onSent); }
    } else if a.Rest() != [] {
      MarkedReorders(s, a);
      b := Marked(a);
    } else {
      b := BreakWhole(s, a);
    }
  }

  /** A write that is taken whole, or is empty. */
  lemma {:induction false} BreakWhole(s: State, a: Action) returns (b: Action)
    requires a.Write? && s.open && s.Idle() && a.reply.Done? && a.Rest() == [] && s.Conserved() && !KeepsOrder(s, a)
    ensures b.Write? && Alike(a, b) && Reordered(WriteStep(s, b).0)
    decreases a, 0
  {
    BlankAlike(a);
    SentAlike(s, s, a, Blank(a));
    var t := Sent(s, Blank(a));
    if a.Taken() > 0 && !AllKeep(Sent(s, a), a.onSent) {
      SelfAlike(a.onSent);
      ActsAlike(Sent(s, a), t, a.onSent, a.onSent);
      BlankSent(s, a, t);
      var actions := BreakActs(t, a.onSent);
      b := SentBroken(s, a, t, actions);
    } else {
      SendsAlike(s, s, a, Blank(a));
      var u := Drained(AfterSend(s, Blank(a)));
      SelfAlike(a.onAllSent);
      ActsAlike(Drained(AfterSend(s, a)), u, a.onAllSent, a.onAllSent);
      BlankSendConserves(s, a, u);
      var actions := BreakActs(u, a.onAllSent);
      b := AllSentBroken(s, a, u, actions);
    }
  }

  lemma BlankSent(s: State, a: Action, t: State)
    requires a.Write? && s.Idle() && s.Conserved() && a.Rest() == [] && t == Sent(s, Blank(a))
    ensures t.Conserved()
  {
    var blank := Blank(a);
    assert blank.data[..blank.Taken()] == blank.data;
  }

  lemma SentAllConserves(s: State, t: State, n: nat)
    requires s.Conserved() && t.wire + t.pending == s.wire + s.pending + Zeros(n)
    requires t.accepted == s.accepted + Zeros(n)
    ensures Drained(t).Conserved()
  {
  }

  lemma BlankSendConserves(s: State, a: Action, u: State)
    requires a.Write? && s.Idle() && s.Conserved() && a.Rest() == []
    requires u == Drained(AfterSend(s, Blank(a)))
    ensures u.Conserved()
  {
    var k := BlankSends(s, a);
    assert Blank(a).Taken() == |a.data|;
    SentAllConserves(s, AfterSend(s, Blank(a)), |a.data| + k);
  }

  /** The `sent` callback has lost the order. */
  lemma SentBroken(s: State, a: Action, t: State, actions: seq<Action>) returns (b: Action)
    requires a.Write? && s.open && s.Idle() && a.reply.Done? && a.Rest() == [] && a.Taken() > 0
    requires t == Sent(s, Blank(a)) && AllAlike(a.onSent, actions) && Reordered(Acts(t, actions))
    ensures b.Write? && Alike(a, b) && Reordered(WriteStep(s, b).0)
  {
    var all := BlankAll(a.onAllSent);
    b := Write(Zeros(|a.data|), a.reply, actions, all);
    BlankAllAlike(a.onAllSent);
    assert Sent(s, b) == t && b.Rest() == [];
    var u := AfterSend(s, b);
    var k := BlankActs(Drained(u), a.onAllSent);
    assert WriteStep(s, b).0 == Acts(Drained(u), all);
    StaysReordered(u, WriteStep(s, b).0, k);
  }

  /** The `all_sent` callback has. */
  lemma AllSentBroken(s: State, a: Action, u: State, actions: seq<Action>) returns (b: Action)
    requires a.Write? && s.open && s.Idle() && a.reply.Done? && a.Rest() == []
    requires u == Drained(AfterSend(s, Blank(a)))
    requires AllAlike(a.onAllSent, actions) && Reordered(Acts(u, actions))
    ensures b.Write? && Alike(a, b) && Reordered(WriteStep(s, b).0)
  {
    var sent := BlankAll(a.onSent);
    b := Write(Zeros(|a.data|), a.reply, sent, actions);
    BlankAllAlike(a.onSent);
    SameSend(s, b, Blank(a));
    LastCallback(s, b, u);
  }

  lemma SameSend(s: State, b: Action, c: Action)
    requires b.Write? && c.Write? && b.data == c.data && b.reply == c.reply && b.onSent == c.onSent
    ensures b.Taken() == c.Taken() && b.Rest() == c.Rest() && AfterSend(s, b) == AfterSend(s, c)
  {
    assert Sent(s, b) == Sent(s, c);
  }

  lemma LastCallback(s: State, b: Action, u: State)
    requires b.Write? && s.open && s.Idle() && b.reply.Done? && b.Rest() == []
    requires u == Drained(AfterSend(s, b))
    ensures WriteStep(s, b).0 == Acts(u, b.onAllSent)
  {
  }

  lemma {:induction false} SelfAlike(actions: seq<Action>)
    ensures AllAlike(actions, actions)
    decreases actions
  {
    if actions != [] {
      if actions[0].Write? {
        SelfAlike(actions[0].onSent);
        SelfAlike(actions[0].onAllSent);
      }
      SelfAlike(actions[1..]);
    }
  }

  lemma {:induction false} BreakActs(s: State, actions: seq<Action>) returns (r: seq<Action>)
    requires s.Conserved() && !AllKeep(s, actions)
    ensures AllAlike(actions, r) && Reordered(Acts(s, r))
    decreases actions
  {
    var first, rest := actions[0], actions[1..];
    BlankAlike(first);
    BlankAllAlike(rest);
    if KeepsOrder(s, first) {
      var b := Blank(first);
      var s' := Act(s, b);
      if first.Write? {
        var n := BlankWrites(s, first);
        StaysConserved(s, s', n);
        WritesAlike(s, s, first, b);
      }
      SelfAlike(rest);
      ActsAlike(Act(s, first), s', rest, rest);
      var more := BreakActs(s', rest);
      r := [b] + more;
      assert r[1..] == more;
    } else {
      var b := BreakWrite(s, first);
      r := [b] + BlankAll(rest);
      assert r[1..] == BlankAll(rest);
      var n := BlankActs(Act(s, b), rest);
      StaysReordered(Act(s, b), Acts(s, r), n);
    }
  }

  /** Every content of a write and of its callbacks keeps its order exactly when no partly taken one is re-entered. */
  lemma KeepsOrderIff(s: State, a: Action)
    requires a.Write? && s.Conserved()
    ensures (forall b: Action | b.Write? && Alike(a, b) :: WriteStep(s, b).0.Conserved()) <==> KeepsOrder(s, a)
  {
    if KeepsOrder(s, a) {
      forall b: Action | b.Write? && Alike(a, b)
        ensures WriteStep(s, b).0.Conserved()
      {
        WritesAlike(s, s, a, b);
        KeepsGrowing(s, b);
      }
    } else {
      var b := BreakWrite(s, a);
      assert !WriteStep(s, b).0.Conserved();
    }
  }
}
