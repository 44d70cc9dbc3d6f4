/** io_buf: a byte queue kept in a chain of fixed-size segments. */
module SegmentedBuffer {
  import opened Bytes
  import opened Sockets

  const SEGMENT_SIZE := 2048
  const ADDRESS_SIZE := 8
  // room for data in one segment
  const CAPACITY: nat := SEGMENT_SIZE - 3 * ADDRESS_SIZE

  class Segment {
    const data: array<byte>
    var begin: nat
    var end: nat
    var next: Segment?

    constructor ()
      ensures begin == end == 0 && next == null
      ensures data.Length == CAPACITY == 2024 && fresh(data)
    {
      data := new byte[CAPACITY];
      begin, end, next := 0, 0, null;
    }

    /** memcpy behind `end`. */
    method Put(chunk: seq<byte>)
      requires begin <= end && end + |chunk| <= data.Length
      modifies this`end, data
      ensures end == old(end) + |chunk|
      ensures data[begin..end] == old(data[begin..end]) + chunk
    {
      forall i | 0 <= i < |chunk| {
        data[end + i] := chunk[i];
      }
      end := end + |chunk|;
      assert data[old(end)..end] == chunk;
      assert data[begin..old(end)] == old(data[begin..end]);
    }
  }

  class Buffer {
    var first: Segment?
    var last: Segment?
    // the chain in order, and the unread bytes of each segment
    ghost var segments: seq<Segment>
    ghost var chunks: seq<seq<byte>>
    ghost var Repr: set<object>

    /** The byte queue this chain stands for. */
    ghost function Contents(): seq<byte>
      reads this
    {
      Join(chunks)
    }

    /** Link, window and bytes of the i-th segment. */
    ghost predicate SegmentAt(i: nat)
      requires i < |segments| == |chunks|
      reads this, Repr
    {
      var s := segments[i];
      && s in Repr && s.data in Repr
      && s.data.Length == CAPACITY
      && s.begin <= s.end <= CAPACITY
      && s.data[s.begin..s.end] == chunks[i]
      && s.next == (if i + 1 < |segments| then segments[i + 1] else null)
      && (i + 1 < |segments| ==> s.end == CAPACITY)
    }

    ghost predicate Valid()
      reads this, Repr
    {
      && this in Repr
      && |segments| == |chunks|
      && first == (if segments == [] then null else segments[0])
      && last == (if segments == [] then null else segments[|segments| - 1])
      && (forall i, j :: 0 <= i < j < |segments| ==> segments[i] != segments[j] && segments[i].data != segments[j].data)
      && (forall i :: 0 <= i < |segments| ==> SegmentAt(i))
    }

    /** No segment in the chain is drained. */
    ghost predicate Tight()
      reads this
    {
      forall i :: 0 <= i < |chunks| ==> chunks[i] != []
    }

    /** Only the last segment may be drained, and then it still has room. */
    ghost predicate TightEnough()
      requires Valid()
      reads this, Repr
    {
      && (forall i :: 0 <= i < |chunks| - 1 ==> chunks[i] != [])
      && (chunks != [] && chunks[|chunks| - 1] == [] ==> SegmentAt(|chunks| - 1) && last.end < CAPACITY)
    }

    constructor ()
      ensures Valid() && Tight() && Contents() == [] && fresh(Repr)
    {
      first, last, segments, chunks, Repr := null, null, [], [], {this};
    }

    /** A chain without drained segments is absent exactly when no byte is pending. */
    lemma EmptyIff()
      requires Valid() && Tight()
      ensures first == null <==> Contents() == []
    {
      if first != null {
        assert chunks[0] != [];
      }
    }

    /** io_buf_is_empty, which looks at the chain and not at the bytes. */
    method IsEmpty() returns (empty: bool)
      requires Valid()
      ensures empty == (first == null)
      ensures empty ==> Contents() == []
      ensures Tight() && Contents() == [] ==> empty
    {
      empty := first == null;
      if Tight() {
        EmptyIff();
      }
    }

    /** io_buf_length */
    method Length() returns (length: nat)
      requires Valid()
      ensures length == |Contents()|
    {
      length := 0;
      var s := first;
      ghost var i := 0;
      while s != null
        invariant i <= |segments|
        invariant s == if i < |segments| then segments[i] else null
        invariant length == |Join(chunks[..i])|
        decreases |segments| - i
      {
        assert SegmentAt(i);
        assert chunks[..i + 1] == chunks[..i] + [chunks[i]];
        JoinSnoc(chunks[..i], chunks[i]);
        length := length + (s.end - s.begin);
        s := s.next;
        i := i + 1;
      }
      assert chunks[..i] == chunks;
    }

    /** Links a new, empty segment at the end of the chain. */
    method AddSegment() returns (s: Segment)
      requires Valid() && (last != null ==> last.end == CAPACITY)
      modifies Repr
      ensures Valid() && fresh(Repr - old(Repr))
      ensures s == last && s.begin == s.end == 0
      ensures segments == old(segments) + [s] && chunks == old(chunks) + [[]]
      ensures Contents() == old(Contents())
    {
      s := new Segment();
      if last == null {
        first := s;
      } else {
        assert SegmentAt(|segments| - 1);
        last.next := s;
      }
      last := s;
      segments, chunks, Repr := segments + [s], chunks + [[]], Repr + {s, s.data};
      JoinSnoc(old(chunks), []);
      forall i | 0 <= i < |segments|
        ensures SegmentAt(i)
      {
        assert i < |old(segments)| ==> old(SegmentAt(i));
      }
    }

    /** io_buf_get_last_seg */
    method LastSegment() returns (s: Segment)
      requires Valid()
      modifies Repr
      ensures Valid() && fresh(Repr - old(Repr))
      ensures s == last
      ensures if old(segments) == [] then segments == [s] && chunks == [[]] && s.end < CAPACITY
              else segments == old(segments) && chunks == old(chunks)
      ensures Contents() == old(Contents())
    {
      if last == null {
        s := AddSegment();
      } else {
        s := last;
      }
    }

    /** io_buf_get_seg_to_write */
    method SegmentToWrite() returns (s: Segment, room: nat)
      requires Valid() && last != null
      modifies Repr
      ensures Valid() && fresh(Repr - old(Repr))
      ensures s == last && 0 < room == CAPACITY - s.end
      ensures if old(last.end) == CAPACITY then chunks == old(chunks) + [[]] else chunks == old(chunks)
      ensures Contents() == old(Contents())
    {
      s := last;
      assert SegmentAt(|segments| - 1);
      if s.end == CAPACITY {
        s := AddSegment();
      }
      room := CAPACITY - s.end;
    }

    /** Copies `chunk` behind the bytes of the last segment. */
    method PutLast(chunk: seq<byte>)
      requires Valid() && last != null && last.end + |chunk| <= CAPACITY
      modifies Repr
      ensures Valid() && segments == old(segments) && Repr == old(Repr)
      ensures chunks == old(chunks)[|old(chunks)| - 1 := old(chunks)[|old(chunks)| - 1] + chunk]
      ensures last.end == old(last.end) + |chunk|
      ensures Contents() == old(Contents()) + chunk
    {
      var n := |segments| - 1;
      assert SegmentAt(n);
      last.Put(chunk);
      JoinGrowLast(chunks, chunk);
      chunks := chunks[n := chunks[n] + chunk];
      forall i | 0 <= i < |segments|
        ensures SegmentAt(i)
      {
        assert old(SegmentAt(i));
      }
    }

    /** The unread bytes of the first segment. */
    method FirstChunk() returns (chunk: seq<byte>)
      requires Valid() && first != null
      ensures chunk == chunks[0] && chunk <= Contents()
      ensures |chunk| == first.end - first.begin
      ensures |segments| == |chunks| > 0
    {
      assert SegmentAt(0);
      chunk := first.data[first.begin..first.end];
    }

    /** Moves the read position of the first segment. */
    method SkipFirst(n: nat)
      requires Valid() && first != null && n <= |chunks[0]|
      modifies Repr
      ensures Valid() && segments == old(segments) && first == old(first) && Repr == old(Repr)
      ensures chunks == old(chunks)[0 := old(chunks)[0][n..]]
      ensures n <= |old(Contents())| && Contents() == old(Contents())[n..]
    {
      assert SegmentAt(0);
      first.begin := first.begin + n;
      chunks := chunks[0 := chunks[0][n..]];
      forall i | 0 <= i < |segments|
        ensures SegmentAt(i)
      {
        assert old(SegmentAt(i));
      }
    }

    /** Unlinks the first segment, whose bytes have all been read. */
    method DropFirst()
      requires Valid() && first != null && chunks[0] == []
      modifies Repr
      ensures Valid() && Repr == old(Repr)
      ensures segments == old(segments)[1..] && chunks == old(chunks)[1..]
      ensures Contents() == old(Contents())
    {
      assert SegmentAt(0);
      first := first.next;
      if first == null {
        last := null;
      }
      segments, chunks := segments[1..], chunks[1..];
      forall i | 0 <= i < |segments|
        ensures SegmentAt(i)
      {
        assert old(SegmentAt(i + 1));
      }
    }

    /** Consumes `n` bytes of the first segment, and the segment itself once it is drained. */
    method Consume(n: nat)
      requires Valid() && first != null && n <= |chunks[0]|
      modifies Repr
      ensures Valid() && Repr == old(Repr)
      ensures n <= |old(Contents())| && Contents() == old(Contents())[n..]
      ensures old(Tight()) ==> Tight()
      ensures |segments| <= |old(segments)| && (n == |old(chunks)[0]| ==> |segments| < |old(segments)|)
    {
      assert SegmentAt(0);
      var available := first.end - first.begin;
      SkipFirst(n);
      if n == available {
        DropFirst();
      }
    }

    /** One round of io_buf_write: fills the last segment, or a new one when that is full. */
    method WriteSome(data: seq<byte>) returns (len: nat)
      requires Valid() && last != null && data != []
      modifies Repr
      ensures Valid() && fresh(Repr - old(Repr)) && last != null
      ensures 0 < len <= |data| && Contents() + data[len..] == old(Contents()) + data
      ensures old(TightEnough()) ==> Tight()
    {
      var s, room := SegmentToWrite();
      len := if room > |data| then |data| else room;
      MovePrefix(Contents(), data, len);
      PutLast(data[..len]);
    }

    /** io_buf_write */
    method Write(data: seq<byte>) returns (total: nat)
      requires Valid()
      modifies Repr
      ensures Valid() && fresh(Repr - old(Repr))
      ensures total == |data|
      ensures Contents() == old(Contents()) + data
      ensures old(Tight()) ==> Tight()
    {
      if data == [] {
        return 0;
      }
      var s := LastSegment();
      assert old(Tight()) ==> TightEnough();
      var tail := data;
      while tail != []
        invariant Valid() && fresh(Repr - old(Repr)) && last != null
        invariant Contents() + tail == old(Contents()) + data
        invariant old(Tight()) ==> if tail == [] then Tight() else TightEnough()
        decreases |tail|
      {
        var len := WriteSome(tail);
        tail := tail[len..];
      }
      total := |data|;
    }

    /** One round of io_buf_read: copies from the first segment. */
    method ReadFirst(dest: array<byte>, at: nat, size: nat) returns (taken: nat)
      requires Valid() && first != null && at < size <= dest.Length && dest !in Repr
      modifies Repr, dest
      ensures Valid() && Repr == old(Repr)
      ensures at + taken <= size && taken + |Contents()| == |old(Contents())|
      ensures dest[..at + taken] + Contents() == old(dest[..at]) + old(Contents())
      ensures dest[at + taken..] == old(dest[at + taken..])
      ensures taken == 0 ==> |segments| < |old(segments)|
      ensures old(Tight()) ==> Tight()
    {
      var chunk := FirstChunk();
      taken := if |chunk| > size - at then size - at else |chunk|;
      MovePrefix(dest[..at], Contents(), taken);
      assert chunk[..taken] == Contents()[..taken];
      Copy(chunk[..taken], dest, at);
      Consume(taken);
    }

    /** io_buf_read */
    method Read(dest: array<byte>, size: nat) returns (total: nat)
      requires Valid() && size <= dest.Length && dest !in Repr
      modifies Repr, dest
      ensures Valid() && Repr == old(Repr)
      ensures total == if size < |old(Contents())| then size else |old(Contents())|
      ensures dest[..total] == old(Contents())[..total]
      ensures dest[total..] == old(dest[total..])
      ensures Contents() == old(Contents())[total..]
      ensures old(Tight()) ==> Tight()
    {
      ghost var all := Contents();
      total := 0;
      while total < size && first != null
        invariant Valid() && Repr == old(Repr)
        invariant total <= size && total + |Contents()| == |all|
        invariant dest[..total] + Contents() == all
        invariant dest[total..] == old(dest[total..])
        invariant old(Tight()) ==> Tight()
        decreases size - total, |segments|
      {
        var taken := ReadFirst(dest, total, size);
        total := total + taken;
      }
      SplitAt(dest[..total], Contents(), [], all, total);
    }

    /** One round of io_buf_send: offers the first segment to the kernel. */
    method SendFirst(socket: Socket) returns (reply: Reply, drained: bool)
      requires Valid() && first != null && socket !in Repr
      modifies Repr, socket`wire, socket`refusals, socket`errors, socket`signals
      ensures Valid() && Repr == old(Repr)
      ensures socket.wire + Contents() == old(socket.wire) + old(Contents())
      ensures reply.Done? ==> |Contents()| + reply.count == |old(Contents())|
      ensures reply.Failed? ==> reply.errno != EINTR && !drained && Contents() == old(Contents()) != []
      ensures |segments| <= |old(segments)| && (drained ==> |segments| < |old(segments)|)
      ensures reply.Done? && !drained ==> Contents() != []
      // the round is the last one exactly when the kernel did not take all it was offered
      ensures socket.refusals == old(socket.refusals) + if drained then 0 else 1
      ensures socket.errors == old(socket.errors) + Errors(reply)
      ensures old(Tight()) ==> Tight()
    {
      var chunk := FirstChunk();
      if chunk == [] {
        Consume(0);
        return Done(0), true;
      }
      reply := SendRetrying(socket, chunk);
      if reply.Failed? {
        return reply, false;
      }
      MovePrefix(old(socket.wire), Contents(), reply.count);
      assert chunk[..reply.count] == Contents()[..reply.count];
      Consume(reply.count);
      drained := reply.count == |chunk|;
    }

    /** io_buf_send; `moved` counts the bytes the kernel took, also when the call fails later. */
    method Send(socket: Socket) returns (reply: Reply, ghost moved: nat)
      requires Valid() && socket !in Repr
      modifies Repr, socket`wire, socket`refusals, socket`errors, socket`signals
      ensures Valid() && Repr == old(Repr)
      ensures moved <= |old(Contents())|
      ensures socket.wire == old(socket.wire) + old(Contents())[..moved]
      ensures Contents() == old(Contents())[moved..]
      ensures reply.Done? ==> reply.count == moved
      ensures reply.Failed? ==> reply.errno != EINTR && moved < |old(Contents())|
      // it ends when the buffer is drained, or with the first refusal of the kernel, and not before
      ensures socket.refusals == old(socket.refusals) + if Contents() == [] then 0 else 1
      ensures socket.errors == old(socket.errors) + Errors(reply)
      ensures old(Tight()) ==> Tight()
    {
      ghost var all := Contents();
      var total: nat := 0;
      reply := Done(0);
      var drained := true;
      while first != null && drained
        invariant Valid() && Repr == old(Repr)
        invariant socket.wire + Contents() == old(socket.wire) + all
        invariant total + |Contents()| == |all|
        invariant reply.Failed? ==> reply.errno != EINTR && !drained && Contents() != []
        invariant !drained ==> Contents() != []
        invariant socket.refusals == old(socket.refusals) + if drained then 0 else 1
        invariant socket.errors == old(socket.errors) + Errors(reply) && (drained ==> reply.Done?)
        invariant old(Tight()) ==> Tight()
        decreases |segments|, drained
      {
        reply, drained := SendFirst(socket);
        if reply.Done? {
          total := total + reply.count;
        }
      }
      moved := total;
      SplitAt(socket.wire, Contents(), old(socket.wire), all, moved);
      if reply.Done? {
        reply := Done(total);
      }
    }

    /** One round of io_buf_recv. */
    method RecvSome(socket: Socket) returns (reply: Reply, data: seq<byte>, more: bool)
      requires Valid() && last != null && socket !in Repr
      modifies Repr, socket`inbound, socket`errors, socket`signals
      ensures Valid() && fresh(Repr - old(Repr)) && last != null
      ensures Contents() == old(Contents()) + data
      ensures data + socket.inbound == old(socket.inbound)
      ensures if reply.Done? then reply.count == |data| else data == [] && !more
      ensures reply != Failed(EINTR) && socket.errors == old(socket.errors) + Errors(reply)
      ensures more ==> data != []
      // one more round exactly when the last segment is full
      ensures reply.Done? ==> if more then last.end == CAPACITY else last.end < CAPACITY
      ensures old(TightEnough()) ==> TightEnough()
    {
      var s, room := SegmentToWrite();
      reply, data := RecvRetrying(socket, room);
      if reply.Failed? {
        return reply, [], false;
      }
      PutLast(data);
      more := |data| == room;
    }

    /** io_buf_recv; `received` holds the bytes stored, also when the call fails later. */
    method Recv(socket: Socket) returns (reply: Reply, ghost received: seq<byte>)
      requires Valid() && socket !in Repr
      modifies Repr, socket`inbound, socket`errors, socket`signals
      ensures Valid() && fresh(Repr - old(Repr))
      ensures Contents() == old(Contents()) + received
      ensures received + socket.inbound == old(socket.inbound)
      ensures reply.Done? ==> reply.count == |received|
      ensures reply != Failed(EINTR) && socket.errors == old(socket.errors) + Errors(reply)
      // the chain is never absent now, so io_buf_is_empty is wrong exactly when there is no byte in it
      ensures first != null && last != null && (old(Tight()) ==> TightEnough())
      // it goes on until recv(2) leaves room that it was given
      ensures reply.Done? ==> last.end < CAPACITY
    {
      ghost var tight := Tight();
      var s := LastSegment();
      var total, more := 0, true;
      received := [];
      reply := Done(0);
      while more
        invariant Valid() && fresh(Repr - old(Repr)) && last != null
        invariant total == |received| && received + socket.inbound == old(socket.inbound)
        invariant Contents() == old(Contents()) + received
        invariant reply.Failed? ==> !more && reply.errno != EINTR
        invariant socket.errors == old(socket.errors) + Errors(reply)
        invariant !more && reply.Done? ==> last.end < CAPACITY
        invariant tight ==> TightEnough()
        decreases |socket.inbound|, more
      {
        var data;
        reply, data, more := RecvSome(socket);
        total, received := total + |data|, received + data;
      }
      if reply.Done? {
        reply := Done(total);
      }
    }
  }

  /** memcpy into the caller's memory. */
  method Copy(chunk: seq<byte>, dest: array<byte>, at: nat)
    requires at + |chunk| <= dest.Length
    modifies dest
    ensures dest[..at + |chunk|] == old(dest[..at]) + chunk
    ensures dest[at + |chunk|..] == old(dest[at + |chunk|..])
  {
    forall i | 0 <= i < |chunk| {
      dest[at + i] := chunk[i];
    }
  }

  /** send(2), repeated while a signal interrupts it. */
  method SendRetrying(socket: Socket, chunk: seq<byte>) returns (reply: Reply)
    modifies socket`wire, socket`refusals, socket`errors, socket`signals
    ensures reply != Failed(EINTR)
    ensures reply.Done? ==> reply.count <= |chunk| && socket.wire == old(socket.wire) + chunk[..reply.count]
    ensures reply.Failed? ==> socket.wire == old(socket.wire)
    ensures socket.refusals == old(socket.refusals) + if reply == Done(|chunk|) then 0 else 1
    ensures socket.errors == old(socket.errors) + Errors(reply)
  {
    reply := socket.Send(chunk);
    while reply == Failed(EINTR)
      invariant reply.Done? ==> reply.count <= |chunk| && socket.wire == old(socket.wire) + chunk[..reply.count]
      invariant reply.Failed? ==> socket.wire == old(socket.wire)
      invariant socket.refusals == old(socket.refusals)
                                   + if reply == Failed(EINTR) || reply == Done(|chunk|) then 0 else 1
      invariant socket.errors == old(socket.errors) + Errors(reply)
      decreases socket.signals, reply == Failed(EINTR)
    {
      reply := socket.Send(chunk);
    }
  }

  /** recv(2), repeated while a signal interrupts it. */
  method RecvRetrying(socket: Socket, room: nat) returns (reply: Reply, data: seq<byte>)
    modifies socket`inbound, socket`errors, socket`signals
    ensures reply != Failed(EINTR)
    ensures reply.Done? ==> reply.count == |data| <= room && data + socket.inbound == old(socket.inbound)
    ensures reply.Failed? ==> socket.inbound == old(socket.inbound)
    ensures socket.errors == old(socket.errors) + Errors(reply)
  {
    reply, data := socket.Recv(room);
    while reply == Failed(EINTR)
      invariant reply.Done? ==> reply.count == |data| <= room && data + socket.inbound == old(socket.inbound)
      invariant reply.Failed? ==> socket.inbound == old(socket.inbound)
      invariant socket.errors == old(socket.errors) + Errors(reply)
      decreases socket.signals, reply == Failed(EINTR)
    {
      reply, data := socket.Recv(room);
    }
  }
}
