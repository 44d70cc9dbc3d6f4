/** io_dgram_client: sends datagrams at once while its queue has never been used, and queues the rest. */
module DatagramClient {
  import opened Bytes
  import opened Sockets
  import opened BlockQueue
  import P = DatagramProtocol

  /** The block's memory still holds this datagram. */
  ghost predicate Carries(b: Block, d: Datagram)
    reads b.data
  {
    b.size <= b.data.Length && d == Datagram(b.tag, b.data[..b.size])
  }

  class Client {
    var pollout: bool
    const queue: Queue
    const socket: DatagramSocket
    ghost var accepted: seq<Datagram>
    // the blocks in the queue, and what they stand for
    ghost var blocks: seq<Block>
    ghost var waiting: seq<Datagram>

    /** Among others: no caller has changed the memory of a datagram that waits. */
    ghost predicate Valid()
      reads this, socket, queue, queue.Repr, set b | b in blocks :: b.data
    {
      && this !in queue.Repr && socket !in queue.Repr && queue.Valid()
      && blocks == queue.Contents() && |waiting| == |blocks|
      && (forall i :: 0 <= i < |blocks| ==> blocks[i].data !in queue.Repr && Carries(blocks[i], waiting[i]))
    }

    /** The protocol state this client is in. */
    ghost function View(): P.State
      reads this, socket, queue
    {
      P.State(pollout, queue.first != null, waiting, socket.wire, accepted, socket.errors)
    }

    /** io_dgram_client_create */
    constructor (socket: DatagramSocket)
      requires socket.wire == [] && socket.errors == []
      ensures Valid() && View() == P.START && this.socket == socket
      ensures fresh(queue) && fresh(queue.Repr)
    {
      pollout := false;
      this.socket := socket;
      queue := new Queue();
      accepted, blocks, waiting := [], [], [];
    }

    /** The queueing half of io_dgram_client_send. */
    method Enqueue(to: Tag, data: array<byte>, size: nat, kind: Kind) returns (result: int, ghost block: Block)
      requires Valid() && size <= data.Length && data !in queue.Repr
      modifies this, queue, queue.Repr
      ensures Valid() && fresh(queue.Repr - old(queue.Repr)) && result == size
      ensures
        var d := Datagram(to, old(data[..size]));
        View() == old(View()).(pollout := true, chained := true, accepted := old(accepted) + [d],
                               waiting := old(View()).waiting + [P.Stored(d)])
      ensures queue.Contents() == old(queue.Contents()) + [block]
      ensures block.kind == kind && if kind.Local? then fresh(block.data) else block.data == data
      ensures queue.handed == old(queue.handed) + (if kind == Static then [] else [block.data])
      ensures queue.released == old(queue.released)
    {
      ghost var d := Datagram(to, data[..size]);
      pollout := true;
      accepted := accepted + [d];
      result, block := queue.Put(kind, to, data, size);
      assert Carries(block, P.Stored(d));
      blocks, waiting := blocks + [block], waiting + [P.Stored(d)];
    }

    /**
     io_dgram_client_send, for the three kinds of memory. Memory of a datagram that was sent at once,
     or refused, is never handed over to the queue, so the queue does not free it.
     */
    method Send(to: Tag, data: array<byte>, size: nat, kind: Kind)
      returns (result: int, ghost reply: Reply, ghost block: Option<Block>)
      requires Valid() && size <= data.Length && data !in queue.Repr
      modifies this, socket, queue, queue.Repr
      ensures Valid() && fresh(queue.Repr - old(queue.Repr))
      ensures (View(), result) == P.SendStep(old(View()), Datagram(to, old(data[..size])), reply)
      ensures queue.released == old(queue.released)
      ensures match block
              case None => queue.Contents() == old(queue.Contents()) && queue.handed == old(queue.handed)
              case Some(b) =>
                && queue.Contents() == old(queue.Contents()) + [b]
                && b.kind == kind && (if kind.Local? then fresh(b.data) else b.data == data)
                && queue.handed == old(queue.handed) + (if kind == Static then [] else [b.data])
      // dynamic memory is left to the caller exactly when the datagram is not queued
      ensures block.Some? <==> size != 0 && (old(queue.first) != null || reply == Failed(EAGAIN))
    {
      reply, block := Failed(EAGAIN), None;
      if size == 0 {
        return 0, reply, block;
      }
      var empty := queue.IsEmpty();
      if empty {
        var answer := socket.SendTo(to, data[..size]);
        reply := answer;
        if answer.Done? {
          accepted := accepted + [Datagram(to, data[..size])];
          assert socket.errors == old(socket.errors);
          return answer.count, reply, block;
        }
        if answer.errno != EAGAIN {
          return -1, reply, block;
        }
      }
      ghost var b;
      result, b := Enqueue(to, data, size, kind);
      block := Some(b);
    }

    /** Offers the oldest waiting datagram to the kernel. */
    method SendHead() returns (ok: bool, ghost reply: Reply)
      requires Valid()
      modifies this, socket, queue, queue.Repr
      ensures Valid() && queue.Repr == old(queue.Repr) && (queue.first == null <==> old(queue.first) == null)
      ensures
        var s := old(View());
        View() == if s.waiting == [] then s
                  else if reply.Failed? then s.Answered(reply)
                  else s.(wire := s.wire + [s.waiting[0]], waiting := s.waiting[1..])
      ensures ok <==> View().waiting != old(View()).waiting || old(View()).waiting == [] || reply == Failed(EAGAIN)
      ensures queue.handed == old(queue.handed)
      ensures if |queue.Contents()| == |old(queue.Contents())| then queue.released == old(queue.released)
              else queue.released == old(queue.released) + FreeBlock(old(queue.Contents())[0])
    {
      reply, ok := Failed(EAGAIN), true;
      var head := queue.Get();
      if head.None? {
        return;
      }
      var b := head.value;
      assert Carries(b, waiting[0]);
      var answer := socket.SendTo(b.tag, b.data[..b.size]);
      reply := answer;
      if answer.Done? {
        var _ := queue.Drop();
        blocks, waiting := blocks[1..], waiting[1..];
      } else {
        ok := answer.errno == EAGAIN;
      }
    }

    /** The POLLOUT half of io_dgram_client_event_handler; a datagram's memory is freed when it has left. */
    method HandlePollout() returns (result: int, ghost reply: Reply)
      requires Valid()
      modifies this, socket, queue, queue.Repr
      ensures Valid() && queue.Repr == old(queue.Repr)
      ensures (View(), result) == P.EventStep(old(View()), reply)
      ensures queue.handed == old(queue.handed)
      ensures if |queue.Contents()| == |old(queue.Contents())| then queue.released == old(queue.released)
              else queue.released == old(queue.released) + FreeBlock(old(queue.Contents())[0])
    {
      var ok;
      ok, reply := SendHead();
      if !ok {
        return -1, reply;
      }
      var empty := queue.IsEmpty();
      if empty {
        pollout := false;
      }
      result := 0;
    }

    /** io_dgram_client_free */
    method Free()
      requires Valid()
      modifies this, queue
      ensures Valid() && queue.Contents() == [] && queue.released == queue.handed == old(queue.handed)
    {
      queue.Free();
      blocks, waiting := [], [];
    }

    /** A local datagram is sent with the bytes of the call, whatever the caller then does to its buffer. */
    method SendLocalThenReuse(to: Tag, data: array<byte>, size: nat, next: seq<byte>) returns (ghost reply: Reply)
      requires Valid() && size <= data.Length && data !in queue.Repr && |next| <= data.Length
      requires forall b :: b in queue.Contents() ==> b.data != data
      modifies this, socket, queue, queue.Repr, data
      ensures Valid() && fresh(queue.Repr - old(queue.Repr))
      ensures View() == P.SendStep(old(View()), Datagram(to, old(data[..size])), reply).0
    {
      var _, answer, block := Send(to, data, size, Local);
      reply := answer;
      forall i | 0 <= i < |next| {
        data[i] := next[i];
      }
    }
  }
}
