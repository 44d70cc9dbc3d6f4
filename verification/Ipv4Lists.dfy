/** What is printed is read back: addresses, and lists of them. */
module Ipv4Lists {
  import opened Bytes
  import opened Ipv4

  predicate AllSpaces(white: seq<byte>) {
    forall i :: 0 <= i < |white| ==> IsSpace(white[i])
  }

  predicate AllBlanks(blanks: seq<byte>) {
    forall i :: 0 <= i < |blanks| ==> blanks[i] == BLANK
  }

  lemma {:induction false} SpacesPassed(s: seq<byte>, p: nat, white: seq<byte>)
    requires Holds(s, p, white) && !IsSpace(CharAt(s, p + |white|))
    requires AllSpaces(white)
    ensures AfterSpaces(s, p) == p + |white|
    decreases |white|
  {
    if white != [] {
      SpacesPassed(s, p + 1, white[1..]);
    }
  }

  lemma {:induction false} BlanksPassed(s: seq<byte>, p: nat, blanks: seq<byte>)
    requires Holds(s, p, blanks) && CharAt(s, p + |blanks|) != BLANK
    requires AllBlanks(blanks)
    ensures SkipBlanks(s, p) == p + |blanks|
    decreases |blanks|
  {
    if blanks != [] {
      BlanksPassed(s, p + 1, blanks[1..]);
    }
  }

  lemma {:induction false} DigitsPassed(s: seq<byte>, p: nat, q: nat)
    requires p <= q <= |s| && !IsDigit(CharAt(s, q)) && forall i :: p <= i < q ==> IsDigit(s[i])
    ensures AfterDigits(s, p) == q
    decreases q - p
  {
    if p < q {
      DigitsPassed(s, p + 1, q);
    }
  }

  /** A number in decimal is digits, and denotes itself. */
  lemma {:induction false} NumberOfDecimal(s: seq<byte>, p: nat, n: nat)
    requires Holds(s, p, Decimal(n))
    ensures p + |Decimal(n)| <= |s| && forall i :: p <= i < p + |Decimal(n)| ==> IsDigit(s[i])
    ensures Number(s, p, p + |Decimal(n)|) == n
    decreases n
  {
    if n < 10 {
      assert Number(s, p, p) == 0;
    } else {
      HoldsBoth(s, p, Decimal(n / 10), [48 + n % 10]);
      NumberOfDecimal(s, p, n / 10);
    }
  }

  lemma DecimalStartsWithDigit(s: seq<byte>, p: nat, n: nat)
    requires Holds(s, p, Decimal(n))
    ensures p < |s| && IsDigit(s[p])
  {
    NumberOfDecimal(s, p, n);
  }

  lemma ReadsOctet(s: seq<byte>, p: nat, white: seq<byte>, n: nat)
    requires n < 256 && Holds(s, p, white) && Holds(s, p + |white|, Decimal(n))
    requires AllSpaces(white)
    requires !IsDigit(CharAt(s, p + |white| + |Decimal(n)|))
    ensures Strtoul(s, p) == Scan(n, p + |white| + |Decimal(n)|)
  {
    var d := p + |white|;
    NumberOfDecimal(s, d, n);
    SpacesPassed(s, p, white);
    DigitsPassed(s, d, d + |Decimal(n)|);
  }

  /** White space, an octet and a dot behind it. */
  lemma ScansDotted(s: seq<byte>, p: nat, white: seq<byte>, octet: byte, dot: nat)
    requires AllSpaces(white) && Holds(s, p, white) && Holds(s, p + |white|, Dotted(octet))
    requires dot == p + |white| + |Decimal(octet)|
    ensures Strtoul(s, p) == Scan(octet, dot) && p < dot && CharAt(s, dot) == DOT && CharAt(s, p) != DOT
  {
    HoldsBoth(s, p + |white|, Decimal(octet), [DOT]);
    ReadsOctet(s, p, white, octet);
    DecimalStartsWithDigit(s, p + |white|, octet);
  }

  lemma ScansNext(s: seq<byte>, p: nat, octet: byte, dot: nat)
    requires Holds(s, p, Dotted(octet)) && dot == p + |Decimal(octet)|
    ensures Strtoul(s, p) == Scan(octet, dot) && p < dot && CharAt(s, dot) == DOT
  {
    ScansDotted(s, p, [], octet, dot);
  }

  lemma HoldsFour(s: seq<byte>, p: nat, a: seq<byte>, b: seq<byte>, c: seq<byte>, d: seq<byte>)
    requires Holds(s, p, a + b + c + d)
    ensures Holds(s, p, a) && Holds(s, p + |a|, b) && Holds(s, p + |a| + |b|, c)
    ensures Holds(s, p + |a| + |b| + |c|, d)
  {
    HoldsBoth(s, p, a + b + c, d);
    HoldsBoth(s, p, a + b, c);
    HoldsBoth(s, p, a, b);
  }

  lemma Octets(ip: uint)
    ensures ((ip / 0x100_0000 % 256 * 256 + ip / 0x1_0000 % 256) * 256 + ip / 0x100 % 256) * 256 + ip % 256 == ip
  {
  }

  /** Four octets with dots between them. */
  lemma ReadsFour(s: seq<byte>, p: nat, p3: nat, p2: nat, p1: nat, p0: nat, a: byte, b: byte, c: byte, d: byte)
    requires CharAt(s, p) != DOT && CharAt(s, p3) == DOT && CharAt(s, p2) == DOT && CharAt(s, p1) == DOT
    requires p < p3 && p3 + 1 < p2 && p2 + 1 < p1 && p1 + 1 < p0
    requires Strtoul(s, p) == Scan(a, p3) && Strtoul(s, p3 + 1) == Scan(b, p2)
    requires Strtoul(s, p2 + 1) == Scan(c, p1) && Strtoul(s, p1 + 1) == Scan(d, p0)
    ensures Strtoi(s, p) == Parsed(((a * 256 + b) * 256 + c) * 256 + d, p0)
  {
    assert Part(s, p, 0, 4, false) == Part(s, p3 + 1, a, 3, false);
    assert Part(s, p3 + 1, a, 3, false) == Part(s, p2 + 1, a * 256 + b, 2, false);
    assert Part(s, p2 + 1, a * 256 + b, 2, false) == Part(s, p1 + 1, (a * 256 + b) * 256 + c, 1, false);
  }

  lemma ReadsHeld(s: seq<byte>, p: nat, white: seq<byte>, p3: nat, p2: nat, p1: nat, a: byte, b: byte, c: byte, d: byte)
    requires AllSpaces(white) && Holds(s, p, white) && Holds(s, p + |white|, Dotted(a))
    requires Holds(s, p3 + 1, Dotted(b)) && Holds(s, p2 + 1, Dotted(c)) && Holds(s, p1 + 1, Decimal(d))
    requires p3 == p + |white| + |Decimal(a)| && p2 == p3 + 1 + |Decimal(b)| && p1 == p2 + 1 + |Decimal(c)|
    requires !IsDigit(CharAt(s, p1 + 1 + |Decimal(d)|))
    ensures Strtoi(s, p) == Parsed(((a * 256 + b) * 256 + c) * 256 + d, p1 + 1 + |Decimal(d)|)
  {
    ScansDotted(s, p, white, a, p3);
    ScansNext(s, p3 + 1, b, p2);
    ScansNext(s, p2 + 1, c, p1);
    ReadsOctet(s, p1 + 1, [], d);
    ReadsFour(s, p, p3, p2, p1, p1 + 1 + |Decimal(d)|, a, b, c, d);
  }

  lemma ReadsParts(s: seq<byte>, p: nat, white: seq<byte>, a: byte, b: byte, c: byte, d: byte)
    requires AllSpaces(white) && Holds(s, p, white)
    requires Holds(s, p + |white|, Dotted(a) + Dotted(b) + Dotted(c) + Decimal(d))
    requires !IsDigit(CharAt(s, p + |white| + |Dotted(a) + Dotted(b) + Dotted(c) + Decimal(d)|))
    ensures Strtoi(s, p) == Parsed(((a * 256 + b) * 256 + c) * 256 + d,
                                   p + |white| + |Dotted(a) + Dotted(b) + Dotted(c) + Decimal(d)|)
  {
    var p3: nat := p + |white| + |Decimal(a)|;
    var p2: nat := p3 + 1 + |Decimal(b)|;
    HoldsFour(s, p + |white|, Dotted(a), Dotted(b), Dotted(c), Decimal(d));
    ReadsHeld(s, p, white, p3, p2, p2 + 1 + |Decimal(c)|, a, b, c, d);
  }

  /** The text of an address, however much white space is in front, is read as the address. */
  lemma ReadsText(s: seq<byte>, p: nat, white: seq<byte>, ip: uint)
    requires AllSpaces(white) && Holds(s, p, white) && Holds(s, p + |white|, Text(ip))
    requires !IsDigit(CharAt(s, p + |white| + |Text(ip)|))
    ensures Strtoi(s, p) == Parsed(ip, p + |white| + |Text(ip)|)
  {
    ReadsParts(s, p, white, ip / 0x100_0000 % 256, ip / 0x1_0000 % 256, ip / 0x100 % 256, ip % 256);
    Octets(ip);
  }

  lemma NothingAtTheEnd(s: seq<byte>, p: nat)
    requires CharAt(s, p) == 0
    ensures Strtoi(s, p).Bad?
  {
    assert AfterSpaces(s, p) == p && AfterDigits(s, p) == p;
  }

  // ----- the short form, with a dot in front

  function ShortText(octets: seq<byte>): seq<byte> {
    if octets == [] then [] else [DOT] + (Decimal(octets[0]) + ShortText(octets[1..]))
  }

  /** `num` with the octets behind it. */
  function Joined(num: nat, octets: seq<byte>): nat
    decreases |octets|
  {
    if octets == [] then num else Joined(num * 256 + octets[0], octets[1..])
  }

  lemma OneShort(s: seq<byte>, p: nat, num: nat, c: nat, octet: byte, end: nat)
    requires 1 <= c <= 3 && num < Power(4 - c)
    requires CharAt(s, p) == DOT && Holds(s, p + 1, Decimal(octet)) && end == p + 1 + |Decimal(octet)|
    requires !IsDigit(CharAt(s, end))
    ensures c > 1 ==> num * 256 + octet < Power(5 - c)
    ensures Dot(s, p, num, c, true) ==
            if c == 1 then Parsed(num * 256 + octet, end) else Dot(s, end, num * 256 + octet, c - 1, true)
  {
    ReadsOctet(s, p + 1, [], octet);
  }

  lemma {:induction false} ReadsShortFrom(s: seq<byte>, p: nat, num: nat, c: nat, octets: seq<byte>)
    requires 1 <= |octets| <= c <= 3 && num < Power(4 - c) && Holds(s, p, ShortText(octets))
    requires !IsDigit(CharAt(s, p + |ShortText(octets)|)) && CharAt(s, p + |ShortText(octets)|) != DOT
    ensures var a := Dot(s, p, num, c, true);
            a.Parsed? && a.num == Joined(num, octets) && a.next == p + |ShortText(octets)|
    decreases |octets|
  {
    var o, rest := octets[0], octets[1..];
    var end := p + 1 + |Decimal(o)|;
    HoldsRest(s, p, DOT, Decimal(o) + ShortText(rest));
    HoldsBoth(s, p + 1, Decimal(o), ShortText(rest));
    OneShort(s, p, num, c, o, end);
    if rest != [] {
      ReadsShortFrom(s, end, num * 256 + o, c - 1, rest);
    }
  }

  /** Up to three octets, each behind a dot, are read as the low octets of an address. */
  lemma ReadsShort(s: seq<byte>, p: nat, octets: seq<byte>)
    requires 1 <= |octets| <= 3 && Holds(s, p, ShortText(octets))
    requires !IsDigit(CharAt(s, p + |ShortText(octets)|)) && CharAt(s, p + |ShortText(octets)|) != DOT
    ensures var a := Strtoi(s, p);
            a.Parsed? && a.num == Joined(0, octets) && a.next == p + |ShortText(octets)|
  {
    ReadsShortFrom(s, p, 0, 3, octets);
  }

  // ----- lists

  /** An address as it may stand in a list: white space before it, blanks behind it. */
  datatype Entry = Entry(white: seq<byte>, ip: uint, blanks: seq<byte>)

  predicate Fine(e: Entry) {
    AllSpaces(e.white) && AllBlanks(e.blanks)
  }

  predicate AllFine(entries: seq<Entry>) {
    entries == [] || (Fine(entries[0]) && AllFine(entries[1..]))
  }

  function EntryText(e: Entry): seq<byte> {
    e.white + (Text(e.ip) + e.blanks)
  }

  function ListText(entries: seq<Entry>): seq<byte> {
    if entries == [] then []
    else if |entries| == 1 then EntryText(entries[0])
    else EntryText(entries[0]) + ([',' as int] + ListText(entries[1..]))
  }

  function Addresses(entries: seq<Entry>): seq<uint> {
    if entries == [] then [] else [entries[0].ip] + Addresses(entries[1..])
  }

  function AtMost(ips: seq<uint>, limit: nat): seq<uint> {
    if limit < |ips| then ips[..limit] else ips
  }

  lemma ReadsEntry(s: seq<byte>, p: nat, e: Entry)
    requires Fine(e) && Holds(s, p, EntryText(e))
    requires CharAt(s, p + |EntryText(e)|) == COMMA || CharAt(s, p + |EntryText(e)|) == 0
    ensures CharAt(s, p) != 0 && Item(s, p) == (e.ip, p + |EntryText(e)|)
  {
    HoldsBoth(s, p, e.white, Text(e.ip) + e.blanks);
    HoldsBoth(s, p + |e.white|, Text(e.ip), e.blanks);
    var q := p + |e.white| + |Text(e.ip)|;
    ReadsText(s, p, e.white, e.ip);
    BlanksPassed(s, q, e.blanks);
    if CharAt(s, p) == 0 {
      NothingAtTheEnd(s, p);
    }
  }

  lemma ReadsLast(s: seq<byte>, p: nat, e: Entry, limit: nat)
    requires Fine(e) && Holds(s, p, EntryText(e)) && p + |EntryText(e)| == |s| && limit > 0
    ensures List(s, p, limit) == [e.ip]
  {
    ReadsEntry(s, p, e);
    ListIs(s, p, limit, e.ip, |s|);
  }

  lemma CommaParts(s: seq<byte>, p: nat, first: seq<byte>, rest: seq<byte>, next: nat)
    requires Holds(s, p, first + ([COMMA] + rest)) && next == p + |first| + 1
    ensures Holds(s, p, first) && CharAt(s, p + |first|) == COMMA && Holds(s, next, rest)
  {
    HoldsBoth(s, p, first, [COMMA] + rest);
    HoldsRest(s, p + |first|, COMMA, rest);
  }

  lemma ReadsNext(s: seq<byte>, p: nat, e: Entry, rest: seq<byte>, limit: nat, next: nat)
    requires Fine(e) && Holds(s, p, EntryText(e) + ([COMMA] + rest)) && limit > 0 && next == p + |EntryText(e)| + 1
    ensures Holds(s, next, rest) && List(s, p, limit) == [e.ip] + List(s, next, limit - 1)
  {
    CommaParts(s, p, EntryText(e), rest, next);
    ReadsEntry(s, p, e);
    ListIs(s, p, limit, e.ip, next - 1);
  }

  /** A comma separated list of printed addresses is read as its first `limit` addresses. */
  lemma {:induction false} ReadsList(s: seq<byte>, p: nat, entries: seq<Entry>, limit: nat)
    requires AllFine(entries)
    requires Holds(s, p, ListText(entries)) && p + |ListText(entries)| == |s|
    ensures List(s, p, limit) == AtMost(Addresses(entries), limit)
    decreases limit
  {
    if limit > 0 && entries != [] {
      FirstOf(entries, limit);
      if |entries| == 1 {
        ReadsLast(s, p, entries[0], limit);
      } else {
        var next := p + |EntryText(entries[0])| + 1;
        ReadsNext(s, p, entries[0], ListText(entries[1..]), limit, next);
        ReadsList(s, next, entries[1..], limit - 1);
      }
    }
  }

  lemma FirstOf(entries: seq<Entry>, limit: nat)
    requires limit > 0 && entries != []
    ensures AtMost(Addresses(entries), limit) == [entries[0].ip] + AtMost(Addresses(entries[1..]), limit - 1)
  {
    assert Addresses(entries) == [entries[0].ip] + Addresses(entries[1..]);
  }

  /** What ipv4_ltoi stores of a list of printed addresses: the first `limit` of them, in order. */
  lemma ListRoundTrip(entries: seq<Entry>, limit: nat)
    requires AllFine(entries)
    ensures List(ListText(entries), 0, limit) == AtMost(Addresses(entries), limit)
  {
    HoldsSlice(ListText(entries), 0, ListText(entries));
    ReadsList(ListText(entries), 0, entries, limit);
  }

  // ----- unreadable addresses in a list

  /** Printed addresses, each with a comma behind it. */
  function CommaText(entries: seq<Entry>): seq<byte> {
    if entries == [] then [] else EntryText(entries[0]) + ([',' as int] + CommaText(entries[1..]))
  }

  /** Whatever comes behind them, addresses with commas are read first. */
  lemma {:induction false} ReadsBefore(s: seq<byte>, p: nat, entries: seq<Entry>, limit: nat, q: nat, left: nat)
    requires AllFine(entries) && Holds(s, p, CommaText(entries)) && q == p + |CommaText(entries)|
    requires limit == |entries| + left
    ensures List(s, p, limit) == Addresses(entries) + List(s, q, left)
    decreases |entries|
  {
    if entries != [] {
      var next := p + |EntryText(entries[0])| + 1;
      ReadsNext(s, p, entries[0], CommaText(entries[1..]), limit, next);
      ReadsBefore(s, next, entries[1..], limit - 1, q, left);
      AddressesFirst(entries, List(s, next, limit - 1), List(s, q, left));
    }
  }

  lemma AddressesFirst(entries: seq<Entry>, behind: seq<uint>, rest: seq<uint>)
    requires entries != [] && behind == Addresses(entries[1..]) + rest
    ensures [entries[0].ip] + behind == Addresses(entries) + rest
  {
  }

  lemma UnreadableFirst(s: seq<byte>, q: nat, left: nat, comma: nat)
    requires left > 0 && CharAt(s, q) != 0 && Strtoi(s, q).Bad? && comma == SkipBlanks(s, q)
    ensures List(s, q, left) == [0] + if CharAt(s, comma) == COMMA then List(s, comma + 1, left - 1) else []
  {
    ListIs(s, q, left, 0, comma);
  }

  /** What is stored behind an unreadable address. */
  function Behind(s: seq<byte>, comma: nat, left: nat): seq<uint> {
    if CharAt(s, comma) == COMMA then List(s, comma + 1, left) else []
  }

  /** Behind any readable addresses, an unreadable one is stored as zero, and ends the list unless a comma follows. */
  lemma UnreadableItem(s: seq<byte>, p: nat, entries: seq<Entry>, limit: nat, q: nat, left: nat)
    requires AllFine(entries) && Holds(s, p, CommaText(entries)) && q == p + |CommaText(entries)|
    requires limit == |entries| + 1 + left && CharAt(s, q) != 0 && Strtoi(s, q).Bad?
    ensures List(s, p, limit) == Addresses(entries) + [0] + Behind(s, SkipBlanks(s, q), left)
  {
    var stored := Behind(s, SkipBlanks(s, q), left);
    ReadsBefore(s, p, entries, limit, q, left + 1);
    assert List(s, q, left + 1) == [0] + stored by {
      UnreadableFirst(s, q, left + 1, SkipBlanks(s, q));
    }
    NextMoved(Addresses(entries), 0, stored);
  }

  lemma BehindEmptyIff(s: seq<byte>, comma: nat, left: nat)
    ensures Behind(s, comma, left) == []
            <==> CharAt(s, comma) != COMMA || CharAt(s, comma + 1) == 0 || left == 0
  {
  }

  lemma NothingAdded(a: seq<uint>, b: seq<uint>)
    ensures a + b == a <==> b == []
  {
    assert |a + b| == |a| + |b|;
  }

  /** It is the last one stored exactly when no comma follows its blanks, or nothing, or the limit is reached. */
  lemma UnreadableEndsIff(s: seq<byte>, p: nat, entries: seq<Entry>, limit: nat, q: nat, left: nat)
    requires AllFine(entries) && Holds(s, p, CommaText(entries)) && q == p + |CommaText(entries)|
    requires limit == |entries| + 1 + left && CharAt(s, q) != 0 && Strtoi(s, q).Bad?
    ensures
      var comma := SkipBlanks(s, q);
      List(s, p, limit) == Addresses(entries) + [0]
      <==> CharAt(s, comma) != COMMA || CharAt(s, comma + 1) == 0 || left == 0
  {
    UnreadableItem(s, p, entries, limit, q, left);
    NothingAdded(Addresses(entries) + [0], Behind(s, SkipBlanks(s, q), left));
    BehindEmptyIff(s, SkipBlanks(s, q), left);
  }

  /** "x," and a printed address: nothing moves over the x, and the address is lost. */
  lemma AddressLost(ip: uint, limit: nat)
    requires limit > 0
    ensures List(['x' as int, ',' as int] + Text(ip), 0, limit) == [0]
  {
    var s: seq<byte> := ['x' as int, ',' as int] + Text(ip);
    assert AfterSpaces(s, 0) == 0 && AfterDigits(s, 0) == 0;
    UnreadableEndsIff(s, 0, [], limit, 0, limit - 1);
    assert SkipBlanks(s, 0) == 0;
  }
}
