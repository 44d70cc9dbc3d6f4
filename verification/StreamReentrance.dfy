/** A write made from inside the `sent` callback of a write: what becomes of the order, and of POLLOUT. */
module StreamReentrance {
  import opened Bytes
  import opened Sockets
  import opened StreamProtocol

  /** Where the bytes accepted during a `sent` callback go: between the two parts of the outer write. */
  lemma ReentrantBytes(s: State, a: Action, inner: seq<byte>)
    requires a.Write? && s.open && s.Idle() && s.Conserved()
    requires 0 < a.Taken() < |a.data| && InOrder(a.onSent)
    requires AfterSend(s, a).accepted == s.accepted + a.data + inner
    ensures
      var s' := WriteStep(s, a).0;
      s'.wire + s'.pending == s.wire + a.data[..a.Taken()] + inner + a.Rest() && s'.accepted == s.wire + a.data + inner
  {
    ActsGrow(Sent(s, a), a.onSent);
    var t := AfterSend(s, a);
    assert t.accepted[|s.accepted + a.data|..] == inner;
    assert t.wire + (t.pending + a.Rest()) == t.wire + t.pending + a.Rest();
    assert s.accepted == s.wire;
  }

  /** So the order is kept exactly when the inner bytes and the rest of the outer ones may be swapped. */
  lemma ReentrantOrderIff(s: State, a: Action, inner: seq<byte>)
    requires a.Write? && s.open && s.Idle() && s.Conserved()
    requires 0 < a.Taken() < |a.data| && InOrder(a.onSent)
    requires AfterSend(s, a).accepted == s.accepted + a.data + inner
    ensures WriteStep(s, a).0.Conserved() <==> inner + a.Rest() == a.Rest() + inner
  {
    ReentrantBytes(s, a, inner);
    var front := s.wire + a.data[..a.Taken()];
    assert a.data == a.data[..a.Taken()] + a.Rest();
    assert front + inner + a.Rest() == front + (inner + a.Rest());
    assert s.wire + a.data + inner == front + (a.Rest() + inner);
    assert (front + (inner + a.Rest()))[|front|..] == inner + a.Rest();
    assert (front + (a.Rest() + inner))[|front|..] == a.Rest() + inner;
  }

  /** Two writes, the inner one made by the `sent` callback of the outer one. */
  function Nested(outer: seq<byte>, outerReply: Reply, inner: seq<byte>, innerReply: Reply): (a: Action)
    ensures a.Write? && a.onSent == [Write(inner, innerReply, [], [])]
  {
    Write(outer, outerReply, [Write(inner, innerReply, [], [])], [])
  }

  /** The end of a direct write whose `all_sent` does nothing. */
  function Settled(s: State, rest: seq<byte>): State {
    if rest == [] then Drained(s.(pending := [])) else s.(pending := rest, pollout := true)
  }

  /** A direct write whose callbacks do nothing. */
  lemma DirectWrite(s: State, a: Action)
    requires a.Write? && s.open && s.Idle() && a.onSent == [] && a.onAllSent == []
    ensures WriteStep(s, a).0 == (if a.reply.Failed? then s.Answered(a.reply) else Settled(Sent(s, a), a.Rest()))
    ensures InOrderAction(a)
  {
    assert AfterSend(s, a) == Sent(s, a) && [] + a.Rest() == a.Rest();
    assert Acts(Drained(Sent(s, a)), []) == Drained(Sent(s, a));
    assert Silent([]) && InOrder([]);
  }

  /** The inner write finds nothing pending, so it is sent directly as well. */
  lemma NestedActs(s: State, outer: seq<byte>, outerReply: Reply, inner: seq<byte>, innerReply: Reply)
    requires s.open && s.Idle() && outerReply.Done? && outerReply.count > 0 && outer != []
    ensures
      var a := Nested(outer, outerReply, inner, innerReply);
      var s', b := Sent(s, a), a.onSent[0];
      && InOrder(a.onSent)
      && AfterSend(s, a) == (if innerReply.Failed? then s'.Answered(innerReply) else Settled(Sent(s', b), b.Rest()))
  {
    var a := Nested(outer, outerReply, inner, innerReply);
    OneAction(Sent(s, a), a.onSent[0]);
    DirectWrite(Sent(s, a), a.onSent[0]);
  }

  /**
   The order of the calls survives a nested write whatever the bytes are, exactly when the kernel
   took all of the outer write, or none of it, or the inner write adds nothing.
   */
  lemma ReentrantWriteKeepsOrderIff(s: State, outerLength: nat, outerReply: Reply, innerLength: nat, innerReply: Reply)
    requires s.open && s.Idle() && s.Conserved() && (outerReply.Done? ==> outerReply.count <= outerLength)
    ensures (forall outer: seq<byte>, inner: seq<byte> | |outer| == outerLength && |inner| == innerLength ::
               WriteStep(s, Nested(outer, outerReply, inner, innerReply)).0.Conserved())
            <==> (outerReply.Failed? || outerReply.count == outerLength || outerReply.count == 0 || innerLength == 0
                  || innerReply.Failed?)
  {
    var partly := outerReply.Done? && 0 < outerReply.count < outerLength;
    if partly && innerLength != 0 && innerReply.Done? {
      var outer, inner := seq(outerLength, _ => 0 as byte), seq(innerLength, _ => 1 as byte);
      NestedOrder(s, outer, outerReply, inner, innerReply);
      assert (inner + outer[outerReply.count..])[0] != (outer[outerReply.count..] + inner)[0];
      assert !WriteStep(s, Nested(outer, outerReply, inner, innerReply)).0.Conserved();
    } else {
      forall outer: seq<byte>, inner: seq<byte> | |outer| == outerLength && |inner| == innerLength
        ensures WriteStep(s, Nested(outer, outerReply, inner, innerReply)).0.Conserved()
      {
        if partly {
          NestedOrder(s, outer, outerReply, inner, innerReply);
        } else {
          NestedIsInOrder(outer, outerReply, inner, innerReply);
          WriteGrows(s, Nested(outer, outerReply, inner, innerReply));
        }
      }
    }
  }

  lemma NestedIsInOrder(outer: seq<byte>, outerReply: Reply, inner: seq<byte>, innerReply: Reply)
    requires outerReply.Failed? || outerReply.count == |outer| || outerReply.count == 0
    ensures InOrderAction(Nested(outer, outerReply, inner, innerReply))
  {
    var b := Write(inner, innerReply, [], []);
    OneAction(Start(false), b);
    DirectWrite(Start(false), b);
    assert InOrder([]);
  }

  lemma NestedOrder(s: State, outer: seq<byte>, outerReply: Reply, inner: seq<byte>, innerReply: Reply)
    requires s.open && s.Idle() && s.Conserved() && outerReply.Done? && 0 < outerReply.count < |outer|
    ensures
      var rest := outer[outerReply.count..];
      WriteStep(s, Nested(outer, outerReply, inner, innerReply)).0.Conserved()
      <==> innerReply.Failed? || inner + rest == rest + inner
  {
    var a := Nested(outer, outerReply, inner, innerReply);
    NestedActs(s, outer, outerReply, inner, innerReply);
    var added := if innerReply.Failed? then [] else inner;
    assert AfterSend(s, a).accepted == s.accepted + a.data + added;
    ReentrantOrderIff(s, a, added);
  }

  /** A nested write that leaves bytes waiting is forgotten exactly when the outer write was taken whole. */
  lemma ReentrantWriteStallsIff(s: State, outer: seq<byte>, outerReply: Reply, inner: seq<byte>, innerReply: Reply)
    requires s.open && s.Idle() && outerReply.Done? && 0 < outerReply.count <= |outer|
    requires innerReply.Done? ==> innerReply.count <= |inner|
    ensures WriteStep(s, Nested(outer, outerReply, inner, innerReply)).0.NoStall()
            <==> (outerReply.count < |outer| || innerReply.Failed? || innerReply.count == |inner|)
  {
    var a := Nested(outer, outerReply, inner, innerReply);
    NestedActs(s, outer, outerReply, inner, innerReply);
    assert Acts(Drained(AfterSend(s, a)), []) == Drained(AfterSend(s, a));
  }
}
