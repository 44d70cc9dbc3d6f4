/** oi_dns: the name codec of the resolver (sections 3.1, 4.1.2 and 4.1.4 of RFC 1035). */
module DnsNames {
  import opened Bytes

  const NAME_SIZE: nat := 512
  const DOT: byte := 46

  /** What decoding ends with; an overread is a read of the octet behind the message. */
  datatype Decoded =
    | Name(text: seq<byte>, next: nat)
    | Failed(code: int)
    | Overread
    | OutOfStack

  function Prepend(text: seq<byte>, d: Decoded): Decoded {
    if d.Name? then d.(text := text + d.text) else d
  }

  lemma PrependTwice(a: seq<byte>, b: seq<byte>, d: Decoded)
    ensures Prepend(a, Prepend(b, d)) == Prepend(a + b, d)
  {
    if d.Name? {
      assert a + (b + d.text) == a + b + d.text;
    }
  }

  /** The octet starts a pointer, for the decoder: it does not tell the reserved tags from the pointer tag. */
  predicate IsPointer(len: byte) {
    len >= 64
  }

  function Target(msg: seq<byte>, at: nat): nat
    requires at + 1 < |msg|
  {
    var high: int := msg[at];
    (high % 64) * 256 + msg[at + 1]
  }

  /**
   get_objectname on the message `msg`, from octet `here`, behind `k` characters of a text that may
   be `room` long, with at most `stack` nested calls.
   */
  function Decode(msg: seq<byte>, here: nat, k: nat, room: nat, stack: nat): Decoded
    decreases stack, 2, 0
  {
    if here >= |msg| || k >= room then Failed(-1) else DecodeLabels(msg, here, k, room, stack)
  }

  function DecodeLabels(msg: seq<byte>, here: nat, k: nat, room: nat, stack: nat): Decoded
    requires here <= |msg|
    decreases stack, 1, |msg| - here
  {
    if here == |msg| then Overread
    else
      var len := msg[here];
      if len == 0 then Name([], here + 1)
      else if here + 1 >= |msg| then Failed(-1)
      else if IsPointer(len) then DecodePointer(msg, here, k, stack)
      else if here + 1 + len > |msg| || len + k + 2 > room then Failed(-1)
      else
        Prepend(msg[here + 1..here + 1 + len] + [DOT], DecodeLabels(msg, here + 1 + len, k + len + 1, room, stack))
  }

  /** A pointer ends the name here; the rest of it is the name at the target. */
  function DecodePointer(msg: seq<byte>, here: nat, k: nat, stack: nat): Decoded
    requires here + 1 < |msg|
    decreases stack, 0, 0
  {
    var p := Target(msg, here);
    if p >= |msg| then Failed(-1)
    else if p == here then Failed(-2)
    else if stack == 0 then OutOfStack
    else
      match Decode(msg, p, k, NAME_SIZE, stack - 1)
      case Name(text, _) => Name(text, here + 2)
      case Failed(_) => Failed(-1)
      case other => other
  }

  /** What the call returns: the length of the text, or why there is none. */
  datatype Status = Length(k: nat) | Error(code: int) | ReadBehind | Overflowed

  ghost function StatusOf(d: Decoded, k: nat): Status {
    match d
    case Name(text, _) => Length(k + |text|)
    case Failed(code) => Error(code)
    case Overread => ReadBehind
    case OutOfStack => Overflowed
  }

  /** get_objectname: fills `text` from position `k0` and moves `here`. */
  method GetObjectName(msg: seq<byte>, here0: nat, text: array<byte>, room: nat, k0: nat, stack: nat)
    returns (status: Status, here: nat, ghost d: Decoded)
    requires room <= text.Length && NAME_SIZE <= text.Length
    modifies text
    ensures d == Decode(msg, here0, k0, room, stack) && status == StatusOf(d, k0)
    ensures d.Name? ==>
              && here == d.next && status.k < text.Length
              && text[..status.k] == old(text[..])[..k0] + d.text && text[status.k] == 0
    decreases stack, 1
  {
    here := here0;
    if here >= |msg| || k0 >= room {
      return Error(-1), here, Failed(-1);
    }
    var k;
    ghost var done, end;
    status, here, k, done, end := ReadLabels(msg, here, text, room, k0, stack);
    if status.Error? || status.ReadBehind? {
      d := end;
    } else if msg[here] == 0 {
      text[k] := 0;
      here := here + 1;
      status, d := Length(k), Name(done, here);
    } else {
      status, here, d := FollowPointer(msg, here, text, k, stack);
      d := Prepend(done, d);
    }
  }

  /** The loop of get_objectname: copies labels up to the root or to a pointer. */
  method ReadLabels(msg: seq<byte>, here0: nat, text: array<byte>, room: nat, k0: nat, ghost stack: nat)
    returns (status: Status, here: nat, k: nat, ghost done: seq<byte>, ghost end: Decoded)
    requires here0 < |msg| && k0 < room <= text.Length
    modifies text
    ensures here <= |msg| && k == k0 + |done| < room && text[..k] == old(text[..])[..k0] + done
    ensures DecodeLabels(msg, here0, k0, room, stack) == Prepend(done, end)
    ensures status == Error(-1) || status == ReadBehind || status == Length(k)
    ensures status == Error(-1) ==> end == Failed(-1)
    ensures status == ReadBehind ==> end == Overread
    ensures status == Length(k) ==>
              && here < |msg| && end == DecodeLabels(msg, here, k, room, stack)
              && (msg[here] == 0 || (IsPointer(msg[here]) && here + 1 < |msg|))
  {
    here, k, done := here0, k0, [];
    while true
      invariant here <= |msg| && k == k0 + |done| < room
      invariant text[..k] == old(text[..])[..k0] + done
      invariant DecodeLabels(msg, here0, k0, room, stack) == Prepend(done, DecodeLabels(msg, here, k, room, stack))
      decreases |msg| - here
    {
      end := DecodeLabels(msg, here, k, room, stack);
      if here == |msg| {
        return ReadBehind, here, k, done, end;
      }
      var len := msg[here];
      if len == 0 {
        break;
      }
      if here + 1 >= |msg| {
        return Error(-1), here, k, done, end;
      }
      if IsPointer(len) {
        break;
      }
      if here + 1 + len > |msg| || len + k + 2 > room {
        return Error(-1), here, k, done, end;
      }
      ghost var copied := CopyLabel(msg[here + 1..here + 1 + len], text, k);
      PrependTwice(done, copied, DecodeLabels(msg, here + 1 + len, k + len + 1, room, stack));
      done := done + copied;
      here, k := here + 1 + len, k + len + 1;
    }
    status := Length(k);
  }

  /** The part of get_objectname that meets a pointer: the name goes on at its target. */
  method FollowPointer(msg: seq<byte>, here0: nat, text: array<byte>, k: nat, stack: nat)
    returns (status: Status, here: nat, ghost d: Decoded)
    requires here0 + 1 < |msg| && NAME_SIZE <= text.Length
    modifies text
    ensures d == DecodePointer(msg, here0, k, stack) && status == StatusOf(d, k)
    ensures d.Name? ==>
              && here == d.next && status.k < text.Length
              && text[..status.k] == old(text[..])[..k] + d.text && text[status.k] == 0
    decreases stack, 0
  {
    here := here0;
    var p := Target(msg, here);
    if p >= |msg| {
      return Error(-1), here, Failed(-1);
    }
    if p == here {
      return Error(-2), here, Failed(-2);
    }
    if stack == 0 {
      return Overflowed, here, OutOfStack;
    }
    var after;
    status, after, d := GetObjectName(msg, p, text, NAME_SIZE, k, stack - 1);
    if !status.Length? {
      status := if status.Error? then Error(-1) else status;
      d := if d.Failed? then Failed(-1) else d;
      return;
    }
    here := here + 2;
    text[status.k] := 0;
    d := Name(d.text, here);
  }

  /** Copies a label into the text, and a dot behind it. */
  method CopyLabel(octets: seq<byte>, text: array<byte>, k: nat) returns (ghost copied: seq<byte>)
    requires k + |octets| < text.Length
    modifies text
    ensures copied == octets + [DOT]
    ensures text[..k + |copied|] == old(text[..k]) + copied
  {
    var i := 0;
    while i < |octets|
      invariant i <= |octets| && text[..k + i] == old(text[..k]) + octets[..i]
    {
      text[k + i] := octets[i];
      i := i + 1;
    }
    text[k + i] := DOT;
    copied := octets + [DOT];
    assert octets[..i] == octets;
  }
}
