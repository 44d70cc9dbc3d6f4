/** mk_dns_query: the query packet, and that its name decodes to the domain. */
module DnsQuery {
  import opened Bytes
  import opened DnsNames
  import opened DnsReference

  const HEADER_SIZE: nat := 12

  /** Host order of the id is little endian; the rest is network order. */
  const HEADER: seq<byte> := [1, 0, 1, 0, 0, 1, 0, 0, 0, 0, 0, 0]

  // QTYPE address, QCLASS internet
  const QUESTION: seq<byte> := [0, 1, 0, 1]

  /** The pieces between the dots of `current + rest`, none of which ends in `current`. */
  function SplitFrom(current: seq<byte>, rest: seq<byte>): (pieces: seq<seq<byte>>)
    ensures pieces != []
    decreases |rest|
  {
    if rest == [] then [current]
    else if rest[0] == DOT then [current] + SplitFrom([], rest[1..])
    else SplitFrom(current + [rest[0]], rest[1..])
  }

  function Split(domain: seq<byte>): seq<seq<byte>> {
    SplitFrom([], domain)
  }

  /** Each piece behind an octet with its length, as far as that fits into an octet. */
  function Wire(pieces: seq<seq<byte>>): seq<byte> {
    if pieces == [] then [] else [|pieces[0]| % 256] + pieces[0] + Wire(pieces[1..])
  }

  /** The packet mk_dns_query makes. */
  function Packet(domain: seq<byte>): seq<byte> {
    HEADER + Wire(Split(domain)) + [0] + QUESTION
  }

  lemma {:induction false} WireAppend(a: seq<seq<byte>>, b: seq<seq<byte>>)
    ensures Wire(a + b) == Wire(a) + Wire(b)
  {
    if a == [] {
      assert a + b == b;
    } else {
      assert (a + b)[1..] == a[1..] + b;
      WireAppend(a[1..], b);
    }
  }

  lemma WireSnoc(before: seq<byte>, pieces: seq<seq<byte>>, piece: seq<byte>)
    ensures before + Wire(pieces + [piece]) == (before + Wire(pieces)) + ([|piece| % 256] + piece)
  {
    WireAppend(pieces, [piece]);
    assert Wire([piece]) == [|piece| % 256] + piece;
  }

  /** mk_dns_query: copies the domain one octet behind its place and turns the dots into lengths. */
  method MakeQuery(buf: array<byte>, size: nat, domain: seq<byte>) returns (length: nat)
    requires size <= buf.Length && HEADER_SIZE + |domain| + 2 + |QUESTION| <= size
    modifies buf
    ensures length == HEADER_SIZE + |domain| + 2 + |QUESTION|
    ensures buf[..length] == Packet(domain)
    ensures forall j :: length <= j < size ==> buf[j] == 0
    ensures forall j :: size <= j < buf.Length ==> buf[j] == old(buf[j])
  {
    forall j | 0 <= j < size {
      buf[j] := 0;
    }
    forall j | 0 <= j < HEADER_SIZE {
      buf[j] := HEADER[j];
    }
    var begin := HEADER_SIZE + 1;
    forall j | 0 <= j < |domain| {
      buf[begin + j] := domain[j];
    }
    ghost var pieces := WriteLengths(buf, begin, domain);
    var end := begin + |domain|;
    assert buf[..end] == HEADER + Wire(pieces);
    buf[end + 1], buf[end + 2], buf[end + 3], buf[end + 4] := 0, 1, 0, 1;
    length := HEADER_SIZE + |QUESTION| + |domain| + 2;
    assert buf[..length] == buf[..end] + [0] + QUESTION;
  }

  /** The loop of mk_dns_query. */
  method WriteLengths(buf: array<byte>, begin: nat, domain: seq<byte>) returns (ghost pieces: seq<seq<byte>>)
    requires 0 < begin && begin + |domain| <= buf.Length
    requires forall j :: 0 <= j < |domain| ==> buf[begin + j] == domain[j]
    modifies buf
    ensures pieces == Split(domain)
    ensures buf[..begin + |domain|] == old(buf[..begin - 1]) + Wire(pieces)
    ensures forall j :: begin + |domain| <= j < buf.Length ==> buf[j] == old(buf[j])
  {
    var p, i := 0, 0;
    pieces := [];
    ghost var before := buf[..begin - 1];
    while p < |domain|
      invariant 0 <= i <= p <= |domain|
      invariant buf[..begin + p - i - 1] == before + Wire(pieces)
      invariant forall j :: p - i <= j < |domain| ==> buf[begin + j] == domain[j]
      invariant forall j :: begin + |domain| <= j < buf.Length ==> buf[j] == old(buf[j])
      invariant pieces + SplitFrom(domain[p - i..p], domain[p..]) == Split(domain)
    {
      assert domain[p..][1..] == domain[p + 1..];
      if buf[begin + p] != DOT {
        assert domain[p - i..p] + [domain[p]] == domain[p - i..p + 1];
        i := i + 1;
      } else {
        assert domain[p + 1..p + 1] == [];
        assert pieces + [domain[p - i..p]] + SplitFrom([], domain[p + 1..])
               == pieces + ([domain[p - i..p]] + SplitFrom([], domain[p + 1..]));
        pieces := ClosePiece(buf, begin, domain, p, i, before, pieces);
        i := 0;
      }
      p := p + 1;
    }
    assert domain[p..] == [];
    pieces := ClosePiece(buf, begin, domain, p, i, before, pieces);
  }

  /** Stores the length of the last `i` octets in front of them. */
  method ClosePiece(buf: array<byte>, begin: nat, domain: seq<byte>, p: nat, i: nat, ghost before: seq<byte>,
    ghost pieces0: seq<seq<byte>>)
    returns (ghost pieces: seq<seq<byte>>)
    requires i <= p <= |domain| && 0 < begin && begin + |domain| <= buf.Length
    requires buf[..begin + p - i - 1] == before + Wire(pieces0)
    requires forall j :: p - i <= j < p ==> buf[begin + j] == domain[j]
    modifies buf
    ensures pieces == pieces0 + [domain[p - i..p]]
    ensures buf[..begin + p] == before + Wire(pieces)
    ensures forall j :: begin + p <= j < buf.Length ==> buf[j] == old(buf[j])
  {
    ghost var piece := domain[p - i..p];
    WriteLength(buf, begin + p, i, piece);
    WireSnoc(before, pieces0, piece);
    pieces := pieces0 + [piece];
  }

  /** Stores the length of a piece in front of it. */
  method WriteLength(buf: array<byte>, p: nat, i: nat, ghost piece: seq<byte>)
    requires i < p <= buf.Length && |piece| == i && forall j :: 0 <= j < i ==> buf[p - i + j] == piece[j]
    modifies buf
    ensures buf[..p] == old(buf[..p - i - 1]) + ([i % 256] + piece)
    ensures forall j :: p <= j < buf.Length ==> buf[j] == old(buf[j])
  {
    buf[p - i - 1] := i % 256;
  }

  // ----- the round trip

  /** A piece that section 3.1 of RFC 1035 allows as a label of its own. */
  predicate IsLabel(piece: seq<byte>) {
    1 <= |piece| <= 63
  }

  predicate AllLabels(pieces: seq<seq<byte>>) {
    forall piece :: piece in pieces ==> IsLabel(piece)
  }

  lemma {:induction false} SplitJoins(current: seq<byte>, rest: seq<byte>)
    requires DOT !in current
    ensures Dotted(SplitFrom(current, rest)) == current + rest + [DOT]
    ensures |Wire(SplitFrom(current, rest))| == |current| + |rest| + 1
    ensures forall piece :: piece in SplitFrom(current, rest) ==> DOT !in piece
    decreases |rest|
  {
    if rest == [] {
      assert Dotted([current]) == current + [DOT];
    } else if rest[0] == DOT {
      SplitJoins([], rest[1..]);
      var tail := SplitFrom([], rest[1..]);
      assert Dotted([current] + tail) == current + [DOT] + Dotted(tail);
      assert rest == [DOT] + rest[1..];
    } else {
      SplitJoins(current + [rest[0]], rest[1..]);
      assert current + [rest[0]] + rest[1..] == current + rest;
    }
  }

  lemma {:induction false} DottedAppend(a: seq<seq<byte>>, b: seq<seq<byte>>)
    ensures Dotted(a + b) == Dotted(a) + Dotted(b)
  {
    if a == [] {
      assert a + b == b;
    } else {
      assert (a + b)[1..] == a[1..] + b;
      DottedAppend(a[1..], b);
    }
  }

  /** The octets of `pieces` lie at `at`. */
  predicate LaidOut(msg: seq<byte>, at: nat, pieces: seq<seq<byte>>)
    decreases |pieces|
  {
    if pieces == [] then at <= |msg|
    else
      var next := at + 1 + |pieces[0]|;
      && next <= |msg| && msg[at] == |pieces[0]| % 256 && msg[at + 1..next] == pieces[0]
      && LaidOut(msg, next, pieces[1..])
  }

  lemma {:induction false} WireIsLaidOut(before: seq<byte>, pieces: seq<seq<byte>>, after: seq<byte>)
    ensures LaidOut(before + Wire(pieces) + after, |before|, pieces)
    decreases |pieces|
  {
    if pieces != [] {
      var head := [|pieces[0]| % 256] + pieces[0];
      var msg := before + Wire(pieces) + after;
      assert msg == (before + head) + Wire(pieces[1..]) + after;
      WireIsLaidOut(before + head, pieces[1..], after);
      assert msg[|before|..|before| + |head|] == head;
      SliceOfSlice(msg, |before|, |before| + |head|, 1, |head|);
    }
  }

  lemma {:induction false} LaidOutSplit(msg: seq<byte>, at: nat, a: seq<seq<byte>>, b: seq<seq<byte>>)
    requires LaidOut(msg, at, a + b)
    ensures LaidOut(msg, at, a) && LaidOut(msg, at + |Wire(a)|, b)
    decreases |a|
  {
    if a == [] {
      assert a + b == b;
      LaidOutFits(msg, at, b);
    } else {
      assert (a + b)[1..] == a[1..] + b;
      LaidOutSplit(msg, at + 1 + |a[0]|, a[1..], b);
    }
  }

  lemma {:induction false} LaidOutFits(msg: seq<byte>, at: nat, pieces: seq<seq<byte>>)
    requires LaidOut(msg, at, pieces)
    ensures at + |Wire(pieces)| <= |msg|
    decreases |pieces|
  {
    if pieces != [] {
      LaidOutFits(msg, at + 1 + |pieces[0]|, pieces[1..]);
    }
  }

  lemma LabelRead(msg: seq<byte>, at: nat, piece: seq<byte>, k: nat, stack: nat)
    requires IsLabel(piece) && k < NAME_SIZE && at + 1 + |piece| < |msg|
    requires msg[at] == |piece| && msg[at + 1..at + 1 + |piece|] == piece
    ensures
      var next, k' := at + 1 + |piece|, k + |piece| + 1;
      DecodeLabels(msg, at, k, NAME_SIZE, stack) ==
      if k' < NAME_SIZE then Prepend(piece + [DOT], DecodeLabels(msg, next, k', NAME_SIZE, stack)) else Failed(-1)
  {
  }

  /** Labels laid out at `at` are read one by one, as long as their text fits. */
  lemma {:induction false} DecodeGoodLabels(msg: seq<byte>, at: nat, good: seq<seq<byte>>, k: nat, stack: nat)
    requires AllLabels(good) && k < NAME_SIZE
    requires LaidOut(msg, at, good) && at + |Wire(good)| < |msg|
    ensures
      DecodeLabels(msg, at, k, NAME_SIZE, stack) ==
      if k + |Dotted(good)| < NAME_SIZE then
        Prepend(Dotted(good), DecodeLabels(msg, at + |Wire(good)|, k + |Dotted(good)|, NAME_SIZE, stack))
      else
        Failed(-1)
    decreases |good|
  {
    if good != [] {
      var piece, rest := good[0], good[1..];
      assert piece in good;
      LabelRead(msg, at, piece, k, stack);
      var next, k' := at + 1 + |piece|, k + |piece| + 1;
      if k' < NAME_SIZE {
        DecodeGoodLabels(msg, next, rest, k', stack);
        PrependTwice(piece + [DOT], Dotted(rest),
                     DecodeLabels(msg, at + |Wire(good)|, k + |Dotted(good)|, NAME_SIZE, stack));
      }
    }
  }

  lemma {:induction false} FirstBad(pieces: seq<seq<byte>>) returns (n: nat)
    requires !AllLabels(pieces)
    ensures n < |pieces| && AllLabels(pieces[..n]) && !IsLabel(pieces[n])
  {
    if !IsLabel(pieces[0]) {
      n := 0;
    } else {
      var m := FirstBad(pieces[1..]);
      n := m + 1;
      assert pieces[..n] == [pieces[0]] + pieces[1..][..m];
    }
  }

  /** A piece that is no label either ends the name early, or has a dot put into it. */
  lemma BadPieceRead(msg: seq<byte>, at: nat, bad: seq<byte>, k: nat, stack: nat)
    requires at + |bad| + 1 < |msg| && k < NAME_SIZE && !IsLabel(bad)
    requires msg[at] == |bad| % 256
    ensures
      var end := DecodeLabels(msg, at, k, NAME_SIZE, stack);
      end.Name? ==>
        || end.next < at + |bad| + 2
        || (|bad| % 256 < |bad| && |bad| % 256 < |end.text| && end.text[|bad| % 256] == DOT)
  {
    var len := |bad| % 256;
    if 0 < len < 64 && at + 1 + len <= |msg| && len + k + 2 <= NAME_SIZE {
      var end := DecodeLabels(msg, at, k, NAME_SIZE, stack);
      var rest := DecodeLabels(msg, at + 1 + len, k + len + 1, NAME_SIZE, stack);
      assert end == Prepend(msg[at + 1..at + 1 + len] + [DOT], rest);
      assert end.Name? ==> end.text[len] == (msg[at + 1..at + 1 + len] + [DOT])[len];
    }
  }

  /** Behind good labels, a piece of any other length never reads back as itself. */
  lemma BadPieceBreaks(msg: seq<byte>, at: nat, good: seq<seq<byte>>, bad: seq<byte>, tail: seq<byte>, next: nat,
    stack: nat)
    requires AllLabels(good) && LaidOut(msg, at, good) && !IsLabel(bad) && DOT !in bad
    requires at + |Wire(good)| + |bad| + 1 < next <= |msg| && msg[at + |Wire(good)|] == |bad| % 256
    ensures DecodeLabels(msg, at, 0, NAME_SIZE, stack) != Name(Dotted(good) + (bad + tail), next)
  {
    DecodeGoodLabels(msg, at, good, 0, stack);
    var k, i := |Dotted(good)|, |bad| % 256;
    if k < NAME_SIZE {
      var end := DecodeLabels(msg, at + |Wire(good)|, k, NAME_SIZE, stack);
      BadPieceRead(msg, at + |Wire(good)|, bad, k, stack);
      if end.Name? && i < |bad| && i < |end.text| && end.text[i] == DOT {
        assert (Dotted(good) + end.text)[k + i] == DOT;
        assert (Dotted(good) + (bad + tail))[k + i] == bad[i];
      }
    }
  }

  lemma PacketIsLaidOut(domain: seq<byte>)
    ensures LaidOut(Packet(domain), HEADER_SIZE, Split(domain))
    ensures |Packet(domain)| == HEADER_SIZE + |domain| + 2 + |QUESTION| && |Wire(Split(domain))| == |domain| + 1
    ensures Packet(domain)[HEADER_SIZE + |domain| + 1] == 0
    ensures Packet(domain)[HEADER_SIZE + |domain| + 2..] == QUESTION
  {
    SplitJoins([], domain);
    WireIsLaidOut(HEADER, Split(domain), [0] + QUESTION);
    assert Packet(domain) == HEADER + Wire(Split(domain)) + ([0] + QUESTION);
  }

  /** Two octets in network order. */
  function Word16(msg: seq<byte>, at: nat): int
    requires at + 1 < |msg|
  {
    var high: int := msg[at];
    high * 256 + msg[at + 1]
  }

  /**
   The fields of section 4.1.1 of RFC 1035: an id of which only the first octet is set, nothing but "recursion
   desired" among the flags, one question, and no other records. The question is for the address and the internet.
   */
  lemma QueryFields(domain: seq<byte>)
    ensures
      var msg := Packet(domain);
      && |msg| == 12 + |domain| + 6 && msg[..2] == [1, 0]
      && Word16(msg, 2) == 0x0100 && Word16(msg, 4) == 1
      && Word16(msg, 6) == Word16(msg, 8) == Word16(msg, 10) == 0
      && Word16(msg, 12 + |domain| + 2) == 1 && Word16(msg, 12 + |domain| + 4) == 1
  {
    PacketIsLaidOut(domain);
    var msg := Packet(domain);
    assert msg[..12] == HEADER;
    assert forall i :: 0 <= i < 12 ==> msg[i] == msg[..12][i];
    var question := msg[12 + |domain| + 2..];
    assert forall i :: 0 <= i < 4 ==> msg[12 + |domain| + 2 + i] == question[i];
  }

  /** The packet around one piece. */
  lemma PacketAtPiece(domain: seq<byte>, good: seq<seq<byte>>, bad: seq<byte>, rest: seq<seq<byte>>)
    requires Split(domain) == good + ([bad] + rest)
    ensures
      var msg, at := Packet(domain), HEADER_SIZE + |Wire(good)|;
      && LaidOut(msg, HEADER_SIZE, good) && at + |bad| + 1 < HEADER_SIZE + |domain| + 2 <= |msg|
          && msg[at] == |bad| % 256
  {
    PacketIsLaidOut(domain);
    LaidOutSplit(Packet(domain), HEADER_SIZE, good, [bad] + rest);
    WireAppend(good, [bad] + rest);
  }

  /** The text of the domain around one piece. */
  lemma TextAtPiece(domain: seq<byte>, good: seq<seq<byte>>, bad: seq<byte>, rest: seq<seq<byte>>)
    requires Split(domain) == good + ([bad] + rest)
    ensures DOT !in bad && domain + [DOT] == Dotted(good) + (bad + ([DOT] + Dotted(rest)))
  {
    SplitJoins([], domain);
    assert Split(domain)[|good|] == bad;
    assert [] + domain == domain;
    DottedAppend(good, [bad] + rest);
    assert Dotted([bad] + rest) == bad + ([DOT] + Dotted(rest));
  }

  /**
   The name in a query decodes to the domain and a dot, and the question starts right behind it,
   exactly when all pieces of the domain are labels and the text fits.
   */
  lemma QueryRoundTripIff(domain: seq<byte>, stack: nat)
    ensures Decode(Packet(domain), 12, 0, 512, stack) == Name(domain + ['.' as byte], 12 + |domain| + 2)
            <==> (AllLabels(Split(domain)) && |domain| + 2 <= 512)
    ensures |Packet(domain)| == HEADER_SIZE + |domain| + 2 + |QUESTION|
    ensures Packet(domain)[HEADER_SIZE + |domain| + 2..] == QUESTION
  {
    var pieces, msg := Split(domain), Packet(domain);
    PacketIsLaidOut(domain);
    if AllLabels(pieces) {
      DecodeGoodLabels(msg, HEADER_SIZE, pieces, 0, stack);
      SplitJoins([], domain);
      assert [] + domain == domain;
    } else {
      var n := FirstBad(pieces);
      assert pieces == pieces[..n] + ([pieces[n]] + pieces[n + 1..]);
      var good, bad, rest := pieces[..n], pieces[n], pieces[n + 1..];
      PacketAtPiece(domain, good, bad, rest);
      TextAtPiece(domain, good, bad, rest);
      BadPieceBreaks(msg, HEADER_SIZE, good, bad, [DOT] + Dotted(rest), HEADER_SIZE + |domain| + 2, stack);
    }
  }
}
