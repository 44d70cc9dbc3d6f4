/** io_queue: a queue of memory blocks, kept in a chain of fixed-length segments. */
module BlockQueue {
  import opened Bytes

  const SEGMENT_BLOCKS: nat := 32

  /** Who frees the data: nobody, the queue, or the queue that also made the copy. */
  datatype Kind = Static | Dynamic | Local

  type Tag = nat

  /** A block; `size` is kept in 16 bits. */
  datatype Block = Block(kind: Kind, size: nat, tag: Tag, data: array<byte>)

  /** The memory the blocks own, in queue order. */
  ghost function Owned(blocks: seq<Block>): seq<array<byte>> {
    if blocks == [] then []
    else FreeBlock(blocks[0]) + Owned(blocks[1..])
  }

  lemma {:induction false} OwnedAppend(a: seq<Block>, b: seq<Block>)
    ensures Owned(a + b) == Owned(a) + Owned(b)
  {
    if a == [] {
      assert a + b == b;
    } else {
      assert (a + b)[1..] == a[1..] + b;
      OwnedAppend(a[1..], b);
    }
  }

  /** io_queue_block_free: the memory it frees. */
  ghost function FreeBlock(b: Block): seq<array<byte>> {
    if b.kind.Static? then [] else [b.data]
  }

  /** Memory is owned exactly through a block that is not static. */
  lemma {:induction false} OwnedIff(blocks: seq<Block>, data: array<byte>)
    ensures data in Owned(blocks)
            <==> exists i :: 0 <= i < |blocks| && blocks[i].kind != Static && blocks[i].data == data
  {
    if blocks != [] {
      OwnedIff(blocks[1..], data);
      assert forall i :: 0 < i < |blocks| ==> blocks[i] == blocks[1..][i - 1];
    }
  }

  class Segment {
    const blocks: array<Block>
    var begin: nat
    var end: nat
    var next: Segment?

    constructor (unset: Block)
      ensures begin == end == 0 && next == null
      ensures blocks.Length == SEGMENT_BLOCKS == 32 && fresh(blocks)
    {
      blocks := new Block[SEGMENT_BLOCKS](_ => unset);
      begin, end, next := 0, 0, null;
    }
  }

  datatype Call = Put(kind: Kind, tag: Tag, data: array<byte>, size: nat) | Drop

  /** This block was put by this call. */
  ghost predicate Stores(block: Block, call: Call) {
    call.Put? && block.kind == call.kind && block.tag == call.tag && (block.kind != Local ==> block.data == call.data)
  }

  ghost predicate Puts(call: Call, blocks: seq<Block>) {
    if call.Put? then |blocks| == 1 && Stores(blocks[0], call) else blocks == []
  }

  /** These are the blocks put by these calls, in order. */
  ghost predicate Stored(blocks: seq<Block>, calls: seq<Call>) {
    if calls == [] then blocks == []
    else if calls[0].Put? then blocks != [] && Stores(blocks[0], calls[0]) && Stored(blocks[1..], calls[1..])
    else Stored(blocks, calls[1..])
  }

  lemma StoredBoth(now: seq<Block>, later: seq<Block>, calls: seq<Call>)
    requires calls != [] && Puts(calls[0], now) && Stored(later, calls[1..])
    ensures Stored(now + later, calls) && Owned(now + later) == Owned(now) + Owned(later)
  {
    OwnedAppend(now, later);
    assert (now + later)[|now|..] == later;
  }

  class Queue {
    var first: Segment?
    var last: Segment?
    // the chain in order, and the waiting blocks of each segment
    ghost var segments: seq<Segment>
    ghost var chunks: seq<seq<Block>>
    ghost var Repr: set<object>
    // memory handed over to the queue, and memory the queue has freed
    ghost var handed: seq<array<byte>>
    ghost var released: seq<array<byte>>

    /** The blocks that wait, oldest first. */
    ghost function Contents(): seq<Block>
      reads this`chunks
    {
      Join(chunks)
    }

    ghost predicate SegmentAt(i: nat)
      requires i < |segments| == |chunks|
      reads this`segments, this`chunks, this`Repr, Repr
    {
      var s := segments[i];
      && s in Repr && s.blocks in Repr
      && s.blocks.Length == SEGMENT_BLOCKS
      && s.begin <= s.end <= SEGMENT_BLOCKS
      && s.blocks[s.begin..s.end] == chunks[i]
      && s.next == (if i + 1 < |segments| then segments[i + 1] else null)
      && (i + 1 < |segments| ==> s.end == SEGMENT_BLOCKS)
      // only a segment that is alone may be drained, and then it starts again
      && (chunks[i] == [] ==> |segments| == 1 && s.end == 0)
    }

    /** Every block of owned memory handed over was freed, or waits, once and in order. */
    ghost predicate Valid()
      reads this, Repr
    {
      Chain() && handed == released + Owned(Contents())
    }

    ghost predicate Chain()
      reads this`first, this`last, this`segments, this`chunks, this`Repr, Repr
    {
      && this !in Repr
      && |segments| == |chunks|
      && first == (if segments == [] then null else segments[0])
      && last == (if segments == [] then null else segments[|segments| - 1])
      && (forall i, j :: 0 <= i < j < |segments| ==>
            segments[i] != segments[j] && segments[i].blocks != segments[j].blocks)
      && (forall i :: 0 <= i < |segments| ==> SegmentAt(i))
    }

    /** io_queue_init */
    constructor ()
      ensures Valid() && Contents() == [] && handed == [] && fresh(Repr) && first == null
    {
      first, last, segments, chunks, Repr := null, null, [], [], {};
      handed, released := [], [];
    }

    /** A block behind those of the last segment. */
    method AppendToLast(b: Block)
      requires Chain() && last != null && last.end < SEGMENT_BLOCKS
      modifies this, Repr
      ensures Chain() && Repr == old(Repr) && first == old(first)
      ensures Contents() == old(Contents()) + [b]
      ensures handed == old(handed) && released == old(released)
    {
      var n := |segments| - 1;
      assert SegmentAt(n);
      last.blocks[last.end] := b;
      last.end := last.end + 1;
      JoinGrowLast(chunks, [b]);
      chunks := chunks[n := chunks[n] + [b]];
      forall i | 0 <= i < |segments|
        ensures SegmentAt(i)
      {
        assert old(SegmentAt(i));
      }
    }

    /** io_queue_seg_new, and a block as the first of the new segment. */
    method AppendToNew(b: Block)
      requires Chain() && (last != null ==> last.end == SEGMENT_BLOCKS)
      modifies this, Repr
      ensures Chain() && fresh(Repr - old(Repr)) && first != null
      ensures Contents() == old(Contents()) + [b]
      ensures handed == old(handed) && released == old(released)
    {
      var s := new Segment(b);
      s.blocks[0] := b;
      s.end := 1;
      if last != null {
        assert SegmentAt(|segments| - 1);
        last.next := s;
      } else {
        first := s;
      }
      last := s;
      JoinSnoc(chunks, [b]);
      segments, chunks, Repr := segments + [s], chunks + [[b]], Repr + {s, s.blocks};
      assert s.blocks[0..1] == [b];
      forall i | 0 <= i < |segments|
        ensures SegmentAt(i)
      {
        if i < |old(segments)| {
          assert old(SegmentAt(i)) && segments[i] == old(segments[i]) && chunks[i] == old(chunks[i]);
        }
      }
    }

    /** io_queue_new_block, filled with `b`. */
    method Append(b: Block)
      requires Chain()
      modifies this, Repr
      ensures Chain() && fresh(Repr - old(Repr)) && first != null
      ensures Contents() == old(Contents()) + [b]
      ensures handed == old(handed) && released == old(released)
    {
      if last != null {
        assert SegmentAt(|segments| - 1);
      }
      if last == null || last.end >= SEGMENT_BLOCKS {
        AppendToNew(b);
      } else {
        AppendToLast(b);
      }
    }

    /** The memory a new block refers to: the caller's, or a copy of it. */
    static method Store(kind: Kind, data: array<byte>, size: nat) returns (stored: array<byte>)
      requires size <= data.Length
      ensures if kind.Local? then fresh(stored) && stored[..] == data[..size] else stored == data
    {
      stored := data;
      if kind.Local? {
        stored := new byte[size](i requires 0 <= i < data.Length reads data => data[i]);
        assert stored[..] == data[..size];
      }
    }

    /** io_queue_put_block */
    method Put(kind: Kind, tag: Tag, data: array<byte>, size: nat) returns (result: nat, ghost block: Block)
      requires Valid() && size <= data.Length
      modifies this, Repr
      ensures Valid() && fresh(Repr - old(Repr)) && first != null
      ensures result == size
      ensures Contents() == old(Contents()) + [block]
      ensures block == Block(kind, size % 65536, tag, block.data)
      ensures if kind.Local? then fresh(block.data) && block.data !in Repr && block.data[..] == old(data[..size])
              else block.data == data
      ensures handed == old(handed) + (if kind == Static then [] else [block.data]) && released == old(released)
    {
      var stored := Store(kind, data, size);
      var b := Block(kind, size % SIZE_LIMIT, tag, stored);
      Append(b);
      OwnedAppend(old(Contents()), [b]);
      handed := handed + Owned([b]);
      return size, b;
    }

    /** io_queue_is_empty, which looks at the chain and not at the blocks. */
    method IsEmpty() returns (empty: bool)
      requires Valid()
      ensures empty == (first == null)
      ensures empty ==> Contents() == []
    {
      empty := first == null;
    }

    /** The first segment holds the first waiting block, or is drained and the only one. */
    lemma FirstSegment()
      requires Chain() && first != null
      ensures chunks != [] && first == segments[0] && SegmentAt(0)
      ensures chunks[0] == [] <==> first.begin == first.end
      ensures chunks[0] == [] ==> |chunks| == 1 && first == last && first.end == 0
    {
      assert SegmentAt(0);
      assert |first.blocks[first.begin..first.end]| == first.end - first.begin;
    }

    /** A chain without waiting blocks is absent or one drained segment. */
    lemma NoneWaiting()
      requires Chain()
      ensures Contents() == [] <==> first == null || first.begin == first.end
      ensures first != null ==> first == segments[0] && SegmentAt(0)
      ensures Contents() != [] ==> chunks[0] != [] && Contents() == chunks[0] + Join(chunks[1..])
      ensures first != null && Contents() == [] ==> first == last && first.end == 0
    {
      if first != null {
        FirstSegment();
        JoinFirst(chunks);
      }
    }

    /** io_queue_get_block */
    method Get() returns (b: Option<Block>)
      requires Valid()
      ensures b == if Contents() == [] then None else Some(Contents()[0])
    {
      NoneWaiting();
      if first == null {
        return None;
      }
      var s := first;
      assert SegmentAt(0);
      b := if s.begin < s.end then Some(s.blocks[s.begin]) else None;
    }

    /** Moves past the first waiting block; a drained segment is unlinked, or starts again when it is the last. */
    method Advance()
      requires Chain() && Contents() != []
      modifies this, Repr
      ensures Chain() && Repr == old(Repr) && first != null
      ensures Contents() == old(Contents())[1..]
      ensures handed == old(handed) && released == old(released)
    {
      NoneWaiting();
      var s := first;
      s.begin := s.begin + 1;
      chunks := chunks[0 := chunks[0][1..]];
      if s.begin >= s.end {
        s.begin, s.end := 0, 0;
        if s.next != null {
          first := s.next;
          segments, chunks := segments[1..], chunks[1..];
        }
      }
      forall i | 0 <= i < |segments|
        ensures SegmentAt(i)
      {
        assert old(SegmentAt(i));
        assert i + 1 < |old(segments)| ==> old(SegmentAt(i + 1));
      }
    }

    /** io_queue_block_drop */
    method Drop() returns (result: int)
      requires Valid()
      modifies this, Repr
      ensures Valid() && Repr == old(Repr)
      ensures first == null <==> old(first) == null
      ensures result == if old(Contents()) == [] then -1 else 0
      ensures old(Contents()) == [] ==> Contents() == [] && released == old(released)
      ensures old(Contents()) != [] ==>
                var b := old(Contents())[0];
                && Contents() == old(Contents())[1..]
                && released == old(released) + (if b.kind == Static then [] else [b.data])
      ensures handed == old(handed)
    {
      NoneWaiting();
      if first == null || first.begin >= first.end {
        return -1;
      }
      released := released + FreeBlock(Contents()[0]);
      Advance();
      result := 0;
    }

    /** io_queue_free: frees what every waiting block owns, segment by segment. */
    method Free()
      requires Valid()
      modifies this
      ensures Valid() && first == null && Contents() == [] && Repr == {}
      ensures handed == old(handed) == released
    {
      var s := first;
      ghost var i := 0;
      first, last := null, null;
      while s != null
        invariant i <= |segments| && first == last == null && unchanged(`segments, `chunks, `Repr, `handed)
        invariant s == if i < |segments| then segments[i] else null
        invariant handed == released + Owned(Join(chunks[i..]))
        decreases |segments| - i
      {
        assert old(SegmentAt(i));
        assert chunks[i..][1..] == chunks[i + 1..] && chunks[i..][0] == chunks[i];
        FreeSegment(s, Join(chunks[i + 1..]));
        s := s.next;
        i := i + 1;
      }
      segments, chunks, Repr := [], [], {};
    }

    /** One call of a program, and the block it put, if it did. */
    method Do(call: Call) returns (ghost put: seq<Block>)
      requires Valid() && (call.Put? ==> call.size <= call.data.Length)
      modifies this, Repr
      ensures Valid() && fresh(Repr - old(Repr))
      ensures handed == old(handed) + Owned(put)
      ensures Puts(call, put)
    {
      match call {
        case Put(kind, tag, data, size) =>
          var _, block := this.Put(kind, tag, data, size);
          put := [block];
        case Drop =>
          var _ := this.Drop();
          put := [];
      }
    }

    /** Any puts and drops, one after the other. */
    method Serve(calls: seq<Call>) returns (ghost put: seq<Block>)
      requires Valid() && forall c :: c in calls && c.Put? ==> c.size <= c.data.Length
      modifies this, Repr
      ensures Valid() && fresh(Repr - old(Repr))
      ensures handed == old(handed) + Owned(put) && Stored(put, calls)
    {
      if calls == [] {
        return [];
      }
      ghost var now := Do(calls[0]);
      ghost var later := Serve(calls[1..]);
      StoredBoth(now, later, calls);
      put := now + later;
    }

    /**
     Any puts and drops, then io_queue_free: the memory freed is that of the blocks put which are not static, each
     piece once and in the order of the puts.
     */
    method ServeAndFree(calls: seq<Call>) returns (ghost put: seq<Block>)
      requires Valid() && Contents() == [] && forall c :: c in calls && c.Put? ==> c.size <= c.data.Length
      modifies this, Repr
      ensures Valid() && Contents() == [] && first == null
      ensures released == old(released) + Owned(put) && Stored(put, calls)
    {
      put := Serve(calls);
      Free();
    }

    /** io_queue_seg_free on a segment that is given up: what it frees. */
    method FreeSegment(s: Segment, ghost behind: seq<Block>)
      requires s.begin <= s.end <= s.blocks.Length
      requires handed == released + Owned(s.blocks[s.begin..s.end] + behind)
      modifies this`released
      ensures handed == released + Owned(behind)
    {
      var b := s.begin;
      while b < s.end
        invariant s.begin <= b <= s.end
        invariant handed == released + Owned(s.blocks[b..s.end] + behind)
      {
        ghost var blocks := s.blocks[b..s.end] + behind;
        assert blocks[1..] == s.blocks[b + 1..s.end] + behind;
        released := released + FreeBlock(s.blocks[b]);
        b := b + 1;
      }
      assert s.blocks[b..s.end] + behind == behind;
    }
  }
}
