/** What a compressed name denotes by section 4.1.4 of RFC 1035, and that the decoder of DnsNames agrees. */
module DnsReference {
  import opened Bytes
  import opened DnsNames

  /** A name as a list of labels; an octet with tag 01 or 10 is reserved by section 4.1.4. */
  datatype Reading =
    | Labels(labels: seq<seq<byte>>)
    | Reserved
    | Broken
    | Endless

  /** The name at `pos`, found by at most `fuel` labels and pointers. */
  function Read(msg: seq<byte>, pos: nat, fuel: nat): Reading
    decreases fuel
  {
    if fuel == 0 then Endless
    else if pos >= |msg| then Broken
    else
      var len := msg[pos];
      if len == 0 then Labels([])
      else if len < 64 then
        if pos + 1 + len > |msg| then Broken
        else
          match Read(msg, pos + 1 + len, fuel - 1)
          case Labels(labels) => Labels([msg[pos + 1..pos + 1 + len]] + labels)
          case other => other
      else if len < 192 then Reserved
      else if pos + 1 >= |msg| then Broken
      else Read(msg, Offset(msg[pos], msg[pos + 1]), fuel - 1)
  }

  /** The 14-bit offset of a pointer. */
  function Offset(high: byte, low: byte): nat
    requires high >= 192
  {
    var h: int := high;
    (h - 192) * 256 + low
  }

  lemma TargetIsOffset(msg: seq<byte>, at: nat)
    requires at + 1 < |msg| && msg[at] >= 192
    ensures Target(msg, at) == Offset(msg[at], msg[at + 1])
  {
    var high: int := msg[at];
    assert high % 64 == high - 192;
  }

  /** Every label followed by a dot. */
  function Dotted(labels: seq<seq<byte>>): seq<byte> {
    if labels == [] then [] else labels[0] + [DOT] + Dotted(labels[1..])
  }

  /** The position just past the octets of the name at `pos`: past its root, or past its first pointer. */
  function End(msg: seq<byte>, pos: nat): nat
    decreases |msg| - pos
  {
    if pos >= |msg| then pos
    else if msg[pos] == 0 then pos + 1
    else if IsPointer(msg[pos]) then pos + 2
    else End(msg, pos + 1 + msg[pos])
  }

  // ----- the decoder finds what the standard says

  /** A decoded name is the denoted one, or the message uses a reserved tag. */
  lemma {:induction false} DecodeSound(msg: seq<byte>, here: nat, k: nat, room: nat, stack: nat) returns (fuel: nat)
    requires Decode(msg, here, k, room, stack).Name?
    ensures Decode(msg, here, k, room, stack).next == End(msg, here)
    ensures Read(msg, here, fuel) == Reserved
            || (Read(msg, here, fuel).Labels?
              && Decode(msg, here, k, room, stack).text == Dotted(Read(msg, here, fuel).labels))
    decreases stack, 1, 0
  {
    fuel := LabelsSound(msg, here, k, room, stack);
  }

  lemma {:induction false} LabelsSound(msg: seq<byte>, here: nat, k: nat, room: nat, stack: nat) returns (fuel: nat)
    requires here <= |msg| && DecodeLabels(msg, here, k, room, stack).Name?
    ensures DecodeLabels(msg, here, k, room, stack).next == End(msg, here)
    ensures Read(msg, here, fuel) == Reserved
            || (Read(msg, here, fuel).Labels?
              && DecodeLabels(msg, here, k, room, stack).text == Dotted(Read(msg, here, fuel).labels))
    decreases stack, 0, |msg| - here
  {
    var len := msg[here];
    if len == 0 {
      fuel := 1;
    } else if IsPointer(len) {
      if len < 192 {
        fuel := 1;
      } else {
        TargetIsOffset(msg, here);
        var f := DecodeSound(msg, Target(msg, here), k, NAME_SIZE, stack - 1);
        fuel := f + 1;
      }
    } else {
      var f := LabelsSound(msg, here + 1 + len, k + len + 1, room, stack);
      fuel := f + 1;
    }
  }

  lemma {:induction false} SelfPointerIsEndless(msg: seq<byte>, pos: nat, fuel: nat)
    requires pos + 1 < |msg| && msg[pos] >= 192 && Offset(msg[pos], msg[pos + 1]) == pos
    ensures Read(msg, pos, fuel) == Endless
  {
    if fuel > 0 {
      SelfPointerIsEndless(msg, pos, fuel - 1);
    }
  }

  /** A name the standard defines is decoded exactly when its text fits, at any nesting of pointers. */
  lemma {:induction false} DecodeComplete(msg: seq<byte>, here: nat, k: nat, fuel: nat, stack: nat)
    requires Read(msg, here, fuel).Labels? && stack >= fuel && k < 512
    ensures
      var text := Dotted(Read(msg, here, fuel).labels);
      Decode(msg, here, k, 512, stack) == if k + |text| < 512 then Name(text, End(msg, here)) else Failed(-1)
    decreases fuel
  {
    var len := msg[here];
    if len == 0 {
    } else if len < 64 {
      if k + len + 1 < NAME_SIZE {
        DecodeComplete(msg, here + 1 + len, k + len + 1, fuel - 1, stack);
      }
    } else {
      TargetIsOffset(msg, here);
      if Target(msg, here) == here {
        SelfPointerIsEndless(msg, here, fuel);
      } else {
        DecodeComplete(msg, Target(msg, here), k, fuel - 1, stack - 1);
        assert DecodeLabels(msg, here, k, NAME_SIZE, stack) == DecodePointer(msg, here, k, stack);
      }
    }
  }

  /** More fuel does not change what was read. */
  lemma {:induction false} ReadMore(msg: seq<byte>, pos: nat, fuel: nat, more: nat)
    requires fuel <= more && Read(msg, pos, fuel) != Endless
    ensures Read(msg, pos, more) == Read(msg, pos, fuel)
    decreases fuel
  {
    if pos < |msg| && msg[pos] != 0 {
      var len := msg[pos];
      if len < 64 && pos + 1 + len <= |msg| {
        ReadMore(msg, pos + 1 + len, fuel - 1, more - 1);
      } else if len >= 192 && pos + 1 < |msg| {
        ReadMore(msg, Offset(len, msg[pos + 1]), fuel - 1, more - 1);
      }
    }
  }

  /** The standard denotes `text` by the name at `pos`. */
  ghost predicate Denotes(msg: seq<byte>, pos: nat, text: seq<byte>) {
    exists fuel: nat :: Read(msg, pos, fuel).Labels? && Dotted(Read(msg, pos, fuel).labels) == text
  }

  /** The name at `pos` goes through a reserved octet. */
  ghost predicate UsesReserved(msg: seq<byte>, pos: nat) {
    exists fuel: nat :: Read(msg, pos, fuel) == Reserved
  }

  /** What is decoded is what the standard denotes, exactly when the name does not go through a reserved octet. */
  lemma DecodedIsDenotedIff(msg: seq<byte>, here: nat, k: nat, room: nat, stack: nat)
    requires Decode(msg, here, k, room, stack).Name?
    ensures Denotes(msg, here, Decode(msg, here, k, room, stack).text) <==> !UsesReserved(msg, here)
  {
    var fuel := DecodeSound(msg, here, k, room, stack);
    if UsesReserved(msg, here) {
      var reserved: nat :| Read(msg, here, reserved) == Reserved;
      forall f: nat
        ensures !Read(msg, here, f).Labels?
      {
        if Read(msg, here, f).Labels? {
          ReadMore(msg, here, f, f + reserved);
          ReadMore(msg, here, reserved, f + reserved);
        }
      }
    }
  }

  /** A reserved octet that the decoder takes for a pointer to octet 2. */
  lemma ReservedIsDecoded(stack: nat, fuel: nat)
    requires stack > 0 && fuel > 0
    ensures Decode([64, 2, 0], 0, 0, NAME_SIZE, stack) == Name([], 2) && Read([64, 2, 0], 0, fuel) == Reserved
  {
    var msg: seq<byte> := [64, 2, 0];
    assert Target(msg, 0) == 2;
    assert Decode(msg, 2, 0, NAME_SIZE, stack - 1) == DecodeLabels(msg, 2, 0, NAME_SIZE, stack - 1) == Name([], 3);
    assert DecodeLabels(msg, 0, 0, NAME_SIZE, stack) == DecodePointer(msg, 0, 0, stack) == Name([], 2);
  }

  // ----- the error codes

  /** The labels at `here` fit and end at a pointer to itself. */
  predicate MeetsItself(msg: seq<byte>, here: nat, k: nat, room: nat)
    decreases |msg| - here
  {
    here + 1 < |msg| && msg[here] != 0 &&
    if msg[here] >= 64 then (msg[here] as int) % 64 * 256 + msg[here + 1] == here
    else
      var next := here + 1 + msg[here];
      next <= |msg| && k + msg[here] + 2 <= room && MeetsItself(msg, next, k + msg[here] + 1, room)
  }

  /** -2 means that the name itself, and not one it points at, ends at a pointer to itself; all else is -1. */
  lemma SelfPointerIff(msg: seq<byte>, here: nat, k: nat, room: nat, stack: nat)
    ensures Decode(msg, here, k, room, stack) == Failed(-2) <==> k < room && MeetsItself(msg, here, k, room)
    ensures Decode(msg, here, k, room, stack).Failed? ==> Decode(msg, here, k, room, stack).code in {-1, -2}
  {
    if here < |msg| {
      SelfPointerInIff(msg, here, k, room, stack);
    }
  }

  lemma {:induction false} SelfPointerInIff(msg: seq<byte>, here: nat, k: nat, room: nat, stack: nat)
    requires here <= |msg|
    ensures DecodeLabels(msg, here, k, room, stack) == Failed(-2) <==> MeetsItself(msg, here, k, room)
    ensures DecodeLabels(msg, here, k, room, stack).Failed? ==> DecodeLabels(msg, here, k, room, stack).code in {-1, -2}
    decreases |msg| - here
  {
    if here + 1 < |msg| && 0 < msg[here] < 64 && here + 1 + msg[here] <= |msg| && msg[here] + k + 2 <= room {
      SelfPointerInIff(msg, here + 1 + msg[here], k + msg[here] + 1, room, stack);
    }
  }

  // ----- termination

  /** Following the name at `here` meets a pointer that does not point before itself, within `stack` pointers. */
  predicate MeetsForward(msg: seq<byte>, here: nat, k: nat, room: nat, stack: nat)
    decreases stack, 1, 0
  {
    here < |msg| && k < room && MeetsForwardLabels(msg, here, k, room, stack)
  }

  predicate MeetsForwardLabels(msg: seq<byte>, here: nat, k: nat, room: nat, stack: nat)
    requires here <= |msg|
    decreases stack, 0, |msg| - here
  {
    here + 1 < |msg| && msg[here] != 0 &&
    var len := msg[here];
    if IsPointer(len) then
      var p := Target(msg, here);
      p < |msg| && p != here && (p > here || (stack > 0 && MeetsForward(msg, p, k, NAME_SIZE, stack - 1)))
    else
      here + 1 + len <= |msg| && len + k + 2 <= room
        && MeetsForwardLabels(msg, here + 1 + len, k + len + 1, room, stack)
  }

  lemma {:induction false} MulGap(a: nat, b: nat, n: nat)
    requires a > b
    ensures a * n >= b * n + n
  {
    if a == b + 1 {
      assert (b + 1) * n == b * n + n;
    } else {
      MulGap(a - 1, b, n);
      assert a * n == (a - 1) * n + n;
    }
  }

  /** With pointers that all point backwards, a stack of a fixed size is enough, so the decoder returns. */
  lemma BackwardTerminates(msg: seq<byte>, here: nat, k: nat, stack: nat)
    requires k <= NAME_SIZE && here <= |msg| && stack >= (NAME_SIZE - k) * |msg| + here
    requires !MeetsForward(msg, here, k, NAME_SIZE, stack)
    ensures Decode(msg, here, k, NAME_SIZE, stack) != OutOfStack
  {
    if here < |msg| && k < NAME_SIZE {
      BackwardLabelsTerminate(msg, here, k, stack, (NAME_SIZE - k) * |msg|);
    }
  }

  lemma {:induction false} BackwardLabelsTerminate(msg: seq<byte>, here: nat, k: nat, stack: nat, budget: nat)
    requires k < NAME_SIZE && here <= |msg| && budget == (NAME_SIZE - k) * |msg| && stack >= budget + here
    requires !MeetsForwardLabels(msg, here, k, NAME_SIZE, stack)
    ensures DecodeLabels(msg, here, k, NAME_SIZE, stack) != OutOfStack
    decreases stack, |msg| - here
  {
    if here + 1 < |msg| && msg[here] != 0 {
      var len := msg[here];
      if IsPointer(len) {
        var p := Target(msg, here);
        if p < here {
          BackwardLabelsTerminate(msg, p, k, stack - 1, budget);
          assert Decode(msg, p, k, NAME_SIZE, stack - 1) != OutOfStack;
        }
        assert DecodePointer(msg, here, k, stack) != OutOfStack;
      } else if here + 1 + len <= |msg| && len + k + 2 <= NAME_SIZE {
        MulGap(NAME_SIZE - k, NAME_SIZE - (k + len + 1), |msg|);
        BackwardLabelsTerminate(msg, here + 1 + len, k + len + 1, stack, (NAME_SIZE - (k + len + 1)) * |msg|);
      }
    }
  }

  /** Two pointers at each other are followed for ever. */
  lemma {:induction false} PointerCycleNeverReturns(stack: nat)
    ensures Decode([192, 2, 192, 0], 0, 0, NAME_SIZE, stack) == OutOfStack
    ensures Decode([192, 2, 192, 0], 2, 0, NAME_SIZE, stack) == OutOfStack
  {
    var msg: seq<byte> := [192, 2, 192, 0];
    assert Target(msg, 0) == 2 && Target(msg, 2) == 0;
    if stack > 0 {
      PointerCycleNeverReturns(stack - 1);
    }
    assert DecodeLabels(msg, 0, 0, NAME_SIZE, stack) == DecodePointer(msg, 0, 0, stack) == OutOfStack;
    assert DecodeLabels(msg, 2, 0, NAME_SIZE, stack) == DecodePointer(msg, 2, 0, stack) == OutOfStack;
  }

  /** A decoding under way: the position, and the length of the text so far. */
  datatype Call = Call(here: nat, k: nat) | NoCall

  /** The nested call that the call at (here, k) makes, if any. */
  function Nested(msg: seq<byte>, here: nat, k: nat): (c: Call)
    requires k < NAME_SIZE
    ensures c.Call? ==> c.here < |msg| && k <= c.k < NAME_SIZE
    decreases |msg| - here
  {
    if here + 1 >= |msg| || msg[here] == 0 then NoCall
    else
      var len := msg[here];
      if IsPointer(len) then
        var p := Target(msg, here);
        if p >= |msg| || p == here then NoCall else Call(p, k)
      else if here + 1 + len > |msg| || len + k + 2 > NAME_SIZE then NoCall
      else Nested(msg, here + 1 + len, k + len + 1)
  }

  /** The n-th of the calls that nest in the call c, which is its own first. */
  function Reached(msg: seq<byte>, c: Call, n: nat): (r: Call)
    requires c.Call? && c.k < NAME_SIZE
    ensures r.Call? ==> r.k < NAME_SIZE && (c.here < |msg| ==> r.here < |msg|)
    decreases n
  {
    if n == 0 then c
    else
      var inner := Nested(msg, c.here, c.k);
      if inner.Call? then Reached(msg, inner, n - 1) else NoCall
  }

  lemma {:induction false} LabelsOverflowIff(msg: seq<byte>, here: nat, k: nat, stack: nat)
    requires here <= |msg| && k < NAME_SIZE
    ensures
      var c := Nested(msg, here, k);
      DecodeLabels(msg, here, k, NAME_SIZE, stack) == OutOfStack
      <==> (c.Call? && (stack == 0 || Decode(msg, c.here, c.k, NAME_SIZE, stack - 1) == OutOfStack))
    decreases |msg| - here
  {
    if here + 1 < |msg| && msg[here] != 0 && !IsPointer(msg[here]) {
      var len := msg[here];
      if here + 1 + len <= |msg| && len + k + 2 <= NAME_SIZE {
        LabelsOverflowIff(msg, here + 1 + len, k + len + 1, stack);
      }
    }
  }

  /** The stack overflows exactly when calls nest deeper than it. */
  lemma {:induction false} OverflowIff(msg: seq<byte>, here: nat, k: nat, stack: nat)
    requires here < |msg| && k < NAME_SIZE
    ensures Decode(msg, here, k, NAME_SIZE, stack) == OutOfStack <==> Reached(msg, Call(here, k), stack + 1).Call?
    decreases stack
  {
    LabelsOverflowIff(msg, here, k, stack);
    var c := Nested(msg, here, k);
    if c.Call? {
      if stack > 0 {
        OverflowIff(msg, c.here, c.k, stack - 1);
      }
      assert Reached(msg, Call(here, k), stack + 1) == Reached(msg, c, stack);
    }
  }

  lemma {:induction false} ReachedBehind(msg: seq<byte>, c: Call, m: nat, n: nat)
    requires c.Call? && c.k < NAME_SIZE && Reached(msg, c, m).Call?
    ensures Reached(msg, c, m + n) == Reached(msg, Reached(msg, c, m), n)
    decreases m
  {
    if m > 0 {
      ReachedBehind(msg, Nested(msg, c.here, c.k), m - 1, n);
    }
  }

  lemma {:induction false} ReachedBefore(msg: seq<byte>, c: Call, m: nat, n: nat)
    requires c.Call? && c.k < NAME_SIZE && m <= n && Reached(msg, c, n).Call?
    ensures Reached(msg, c, m).Call?
    decreases m
  {
    if m > 0 {
      ReachedBefore(msg, Nested(msg, c.here, c.k), m - 1, n - 1);
    }
  }

  predicate SameCall(msg: seq<byte>, c: Call, i: nat, j: nat)
    requires c.Call? && c.k < NAME_SIZE
  {
    Reached(msg, c, i).Call? && Reached(msg, c, i) == Reached(msg, c, j)
  }

  /** Two of the nested calls read from the same position, with the same length of the text so far. */
  ghost predicate Repeats(msg: seq<byte>, c: Call)
    requires c.Call? && c.k < NAME_SIZE
  {
    exists i: nat, j: nat :: i < j && SameCall(msg, c, i, j)
  }

  /** After a repetition the calls go round. */
  lemma {:induction false} RepeatedCallsNest(msg: seq<byte>, c: Call, i: nat, j: nat, n: nat)
    requires c.Call? && c.k < NAME_SIZE && i < j && SameCall(msg, c, i, j)
    ensures Reached(msg, c, n).Call?
    decreases n
  {
    if n <= j {
      ReachedBefore(msg, c, n, j);
    } else {
      RepeatedCallsNest(msg, c, i, j, n - (j - i));
      ReachedBehind(msg, c, i, n - j);
      ReachedBehind(msg, c, j, n - j);
      assert i + (n - j) == n - (j - i) && j + (n - j) == n;
    }
  }

  /** A call as a number below |msg| * NAME_SIZE. */
  function Number(c: Call): nat
    requires c.Call?
  {
    c.here * NAME_SIZE + c.k
  }

  lemma NumberIsUnique(a: Call, b: Call)
    requires a.Call? && b.Call? && a.k < NAME_SIZE && b.k < NAME_SIZE && Number(a) == Number(b)
    ensures a == b
  {
    assert Number(a) / NAME_SIZE == a.here && Number(b) / NAME_SIZE == b.here;
  }

  /** One of the first n + 1 calls has the number x. */
  ghost predicate Numbered(msg: seq<byte>, c: Call, n: nat, x: nat)
    requires c.Call? && c.k < NAME_SIZE
  {
    exists i: nat :: i <= n && Reached(msg, c, i).Call? && Number(Reached(msg, c, i)) == x
  }

  /** Calls that do not repeat are as many different ones as their number. */
  lemma {:induction false} CallsDiffer(msg: seq<byte>, c: Call, n: nat) returns (numbers: set<nat>)
    requires c.Call? && c.here < |msg| && c.k < NAME_SIZE
    requires Reached(msg, c, n).Call? && !Repeats(msg, c)
    ensures |numbers| == n + 1
    ensures forall x :: x in numbers ==> x < |msg| * NAME_SIZE && Numbered(msg, c, n, x)
    decreases n
  {
    var last := Reached(msg, c, n);
    var x := Number(last);
    assert x < |msg| * NAME_SIZE;
    if n == 0 {
      numbers := {x};
    } else {
      ReachedBefore(msg, c, n - 1, n);
      var before := CallsDiffer(msg, c, n - 1);
      if x in before {
        var i: nat :| i <= n - 1 && Reached(msg, c, i).Call? && Number(Reached(msg, c, i)) == x;
        NumberIsUnique(Reached(msg, c, i), last);
        assert SameCall(msg, c, i, n);
      }
      numbers := before + {x};
    }
    assert Numbered(msg, c, n, x);
  }

  lemma {:induction false} BoundedSet(s: set<nat>, n: nat)
    requires forall x :: x in s ==> x < n
    ensures |s| <= n
  {
    if n == 0 {
      assert s == {};
    } else {
      BoundedSet(s - {n - 1}, n - 1);
    }
  }

  /** Calls that nest deeper than there are positions and lengths of a text repeat. */
  lemma DeepCallsRepeat(msg: seq<byte>, c: Call)
    requires c.Call? && c.here < |msg| && c.k < NAME_SIZE && Reached(msg, c, |msg| * NAME_SIZE).Call?
    ensures Repeats(msg, c)
  {
    if !Repeats(msg, c) {
      var numbers := CallsDiffer(msg, c, |msg| * NAME_SIZE);
      BoundedSet(numbers, |msg| * NAME_SIZE);
    }
  }

  /**
   For any message the decoder returns, with some stack, exactly when its nested calls do not repeat;
   and then with a stack of |msg| * NAME_SIZE calls.
   */
  lemma ReturnsIff(msg: seq<byte>, here: nat, k: nat)
    requires here < |msg| && k < NAME_SIZE
    ensures (exists stack: nat :: Decode(msg, here, k, NAME_SIZE, stack) != OutOfStack)
            <==> !Repeats(msg, Call(here, k))
    ensures !Repeats(msg, Call(here, k)) ==> Decode(msg, here, k, NAME_SIZE, |msg| * NAME_SIZE) != OutOfStack
  {
    var c, bound := Call(here, k), |msg| * NAME_SIZE;
    if Repeats(msg, c) {
      var i: nat, j: nat :| i < j && SameCall(msg, c, i, j);
      forall stack: nat
        ensures Decode(msg, here, k, NAME_SIZE, stack) == OutOfStack
      {
        RepeatedCallsNest(msg, c, i, j, stack + 1);
        OverflowIff(msg, here, k, stack);
      }
    } else {
      OverflowIff(msg, here, k, bound);
      if Reached(msg, c, bound + 1).Call? {
        ReachedBefore(msg, c, bound, bound + 1);
        DeepCallsRepeat(msg, c);
      }
    }
  }

  // ----- reads behind the message

  /** The labels at `here`, as long as they fit, end exactly with the message. */
  predicate RunsOut(msg: seq<byte>, here: nat, k: nat)
    requires here <= |msg| && k < NAME_SIZE
    decreases |msg| - here
  {
    here == |msg|
    || (here + 1 < |msg| && msg[here] != 0 && !IsPointer(msg[here])
        && here + 1 + msg[here] <= |msg| && msg[here] + k + 2 <= NAME_SIZE
        && RunsOut(msg, here + 1 + msg[here], k + msg[here] + 1))
  }

  /** One of the calls that nest in c, at most `stack` deep, runs out of the message. */
  predicate RunsOutIn(msg: seq<byte>, c: Call, stack: nat)
    requires c.Call? && c.here <= |msg| && c.k < NAME_SIZE
    decreases stack
  {
    RunsOut(msg, c.here, c.k)
    || (stack > 0 && Nested(msg, c.here, c.k).Call? && RunsOutIn(msg, Nested(msg, c.here, c.k), stack - 1))
  }

  lemma {:induction false} LabelsOverreadIff(msg: seq<byte>, here: nat, k: nat, stack: nat)
    requires here <= |msg| && k < NAME_SIZE
    ensures
      var c := Nested(msg, here, k);
      DecodeLabels(msg, here, k, NAME_SIZE, stack) == Overread
      <==> (RunsOut(msg, here, k)
            || (c.Call? && stack > 0 && Decode(msg, c.here, c.k, NAME_SIZE, stack - 1) == Overread))
    decreases |msg| - here
  {
    if here + 1 < |msg| && msg[here] != 0 && !IsPointer(msg[here]) {
      var len := msg[here];
      if here + 1 + len <= |msg| && len + k + 2 <= NAME_SIZE {
        LabelsOverreadIff(msg, here + 1 + len, k + len + 1, stack);
      }
    }
  }

  /** The decoder reads the octet behind the message exactly when one of its calls runs out of it. */
  lemma {:induction false} OverreadIff(msg: seq<byte>, here: nat, k: nat, stack: nat)
    requires here < |msg| && k < NAME_SIZE
    ensures Decode(msg, here, k, NAME_SIZE, stack) == Overread <==> RunsOutIn(msg, Call(here, k), stack)
    decreases stack
  {
    LabelsOverreadIff(msg, here, k, stack);
    var c := Nested(msg, here, k);
    if c.Call? && stack > 0 {
      OverreadIff(msg, c.here, c.k, stack - 1);
    }
  }

  /** The octet at q, taken for a length, is that of a label which ends with the message. */
  predicate LastLabel(msg: seq<byte>, q: nat) {
    q < |msg| && 0 < msg[q] && msg[q] < 64 && q + 1 + msg[q] == |msg|
  }

  lemma {:induction false} RunsOutBehind(msg: seq<byte>, here: nat, k: nat) returns (q: nat)
    requires here < |msg| && k < NAME_SIZE && RunsOut(msg, here, k)
    ensures LastLabel(msg, q)
    decreases |msg| - here
  {
    var next := here + 1 + msg[here];
    if next == |msg| {
      q := here;
    } else {
      q := RunsOutBehind(msg, next, k + msg[here] + 1);
    }
  }

  lemma {:induction false} RunsOutInBehind(msg: seq<byte>, c: Call, stack: nat) returns (q: nat)
    requires c.Call? && c.here < |msg| && c.k < NAME_SIZE && RunsOutIn(msg, c, stack)
    ensures LastLabel(msg, q)
    decreases stack
  {
    if RunsOut(msg, c.here, c.k) {
      q := RunsOutBehind(msg, c.here, c.k);
    } else {
      q := RunsOutInBehind(msg, Nested(msg, c.here, c.k), stack - 1);
    }
  }

  /** A message is safe to decode, from every position, exactly when no octet starts a label that ends with it. */
  lemma NeverOverreadsIff(msg: seq<byte>)
    ensures (forall here: nat, k: nat, stack: nat | k < NAME_SIZE ::
               Decode(msg, here, k, NAME_SIZE, stack) != Overread)
            <==> (forall q: nat :: !LastLabel(msg, q))
  {
    forall here: nat, k: nat, stack: nat | k < NAME_SIZE && Decode(msg, here, k, NAME_SIZE, stack) == Overread
      ensures exists q: nat :: LastLabel(msg, q)
    {
      OverreadIff(msg, here, k, stack);
      var q := RunsOutInBehind(msg, Call(here, k), stack);
    }
    if q: nat :| LastLabel(msg, q) {
      assert RunsOut(msg, q + 1 + msg[q], msg[q] + 1);
      OverreadIff(msg, q, 0, 0);
      assert Decode(msg, q, 0, NAME_SIZE, 0) == Overread;
    }
  }

  /** A message that ends in a label, without a root. */
  lemma UnendedNameOverreads()
    ensures Decode([1, 97], 0, 0, NAME_SIZE, 0) == Overread && LastLabel([1, 97], 0)
  {
    assert DecodeLabels([1, 97], 2, 2, NAME_SIZE, 0) == Overread;
  }
}
