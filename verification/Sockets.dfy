/** The kernel side of a connected socket, as an environment that may do anything POSIX allows. */
module Sockets {
  import opened Bytes

  datatype Errno = EINTR | EAGAIN | ECONNRESET | ENOTCONN | EPIPE | OtherErrno

  datatype Reply = Done(count: nat) | Failed(errno: Errno)

  /** The error of an answer; a signal is none. */
  function Errors(reply: Reply): seq<Errno> {
    if reply.Failed? && reply.errno != EINTR then [reply.errno] else []
  }

  class Socket {
    // every byte the kernel has taken from the program, in order
    ghost var wire: seq<byte>
    // how often the kernel failed a call of send, or took less than it was offered
    ghost var refusals: nat
    // the errors the kernel answered, in order, but for signals
    ghost var errors: seq<Errno>
    // bytes that were not received yet, in the order in which they arrive
    var inbound: seq<byte>
    // signals that may still interrupt a call: any finite number of them
    var signals: nat

    constructor (inbound: seq<byte>, signals: nat)
      ensures wire == [] && refusals == 0 && errors == [] && this.inbound == inbound && this.signals == signals
    {
      wire, refusals, errors := [], 0, [];
      this.inbound := inbound;
      this.signals := signals;
    }

    /** send(2): takes any prefix of `chunk`, or fails and takes nothing. */
    method Send(chunk: seq<byte>) returns (reply: Reply)
      modifies this`wire, this`refusals, this`errors, this`signals
      ensures reply.Done? ==> reply.count <= |chunk| && wire == old(wire) + chunk[..reply.count]
      ensures reply.Failed? ==> wire == old(wire)
      ensures refusals == old(refusals) + if reply == Failed(EINTR) || reply == Done(|chunk|) then 0 else 1
      ensures errors == old(errors) + Errors(reply)
      ensures if reply == Failed(EINTR) then signals < old(signals) else signals == old(signals)
    {
      var interrupted: bool := *;
      if interrupted && signals > 0 {
        signals := signals - 1;
        return Failed(EINTR);
      }
      var errno: Errno := *;
      if errno != EINTR {
        refusals, errors := refusals + 1, errors + [errno];
        return Failed(errno);
      }
      var n: nat :| n <= |chunk|;
      wire, refusals := wire + chunk[..n], refusals + if n < |chunk| then 1 else 0;
      return Done(n);
    }

    /** recv(2): delivers at most `room` bytes, or fails; an empty string is end of stream. */
    method Recv(room: nat) returns (reply: Reply, data: seq<byte>)
      modifies this`inbound, this`errors, this`signals
      ensures reply.Done? ==> reply.count == |data| <= room && data + inbound == old(inbound)
      ensures reply.Failed? ==> inbound == old(inbound)
      ensures errors == old(errors) + Errors(reply)
      ensures if reply == Failed(EINTR) then signals < old(signals) else signals == old(signals)
    {
      data := [];
      var interrupted: bool := *;
      if interrupted && signals > 0 {
        signals := signals - 1;
        return Failed(EINTR), data;
      }
      var errno: Errno := *;
      if errno != EINTR {
        errors := errors + [errno];
        return Failed(errno), data;
      }
      var n: nat :| n <= room && n <= |inbound|;
      data, inbound := inbound[..n], inbound[n..];
      return Done(n), data;
    }
  }

  /** One datagram and where it goes. */
  datatype Datagram = Datagram(to: nat, payload: seq<byte>)

  class DatagramSocket {
    // every datagram the kernel has taken, in order, and every error it answered
    ghost var wire: seq<Datagram>
    ghost var errors: seq<Errno>

    constructor ()
      ensures wire == [] && errors == []
    {
      wire, errors := [], [];
    }

    /** sendto(2): takes the whole datagram, or fails and takes nothing. */
    method SendTo(to: nat, payload: seq<byte>) returns (reply: Reply)
      modifies this
      ensures reply.Done? ==> reply.count == |payload| && wire == old(wire) + [Datagram(to, payload)]
      ensures reply.Failed? ==> wire == old(wire)
      ensures errors == old(errors) + if reply.Failed? then [reply.errno] else []
    {
      reply := *;
      if reply.Failed? {
        errors := errors + [reply.errno];
      } else {
        wire, reply := wire + [Datagram(to, payload)], Done(|payload|);
      }
    }
  }
}
