/** IPv4 addresses as text, alone and in comma separated lists: library/io_ipv4.c. */
module Ipv4 {
  import opened Bytes
  import MaskWords

  const DOT: byte := 46
  const COMMA: byte := 44
  const BLANK: byte := 32
  const PLUS: byte := 43
  const MINUS: byte := 45
  const ULONG_MAX: nat := 0xFFFF_FFFF_FFFF_FFFF

  // ----- printing

  predicate IsDigit(ch: byte) {
    48 <= ch <= 57
  }

  /** A number in decimal, without leading zeros. */
  function Decimal(n: nat): (s: seq<byte>)
    ensures s != []
  {
    if n < 10 then [48 + n] else Decimal(n / 10) + [48 + n % 10]
  }

  /** An octet and a dot. */
  function Dotted(octet: byte): seq<byte> {
    Decimal(octet) + [DOT]
  }

  /** The dotted text of an address. */
  function Text(ip: uint): seq<byte> {
    Dotted(ip / 0x100_0000 % 256) + Dotted(ip / 0x1_0000 % 256) + Dotted(ip / 0x100 % 256) + Decimal(ip % 256)
  }

  /** `after` is `before` with exactly `bytes` written over it at p. */
  ghost predicate Wrote(before: seq<byte>, after: seq<byte>, p: nat, bytes: seq<byte>) {
    p + |bytes| <= |before| && after == before[..p] + bytes + before[p + |bytes|..]
  }

  lemma DecimalOf(n: nat)
    requires n < 256
    ensures Decimal(n) == if n >= 100 then [48 + n / 100, 48 + n % 100 / 10, 48 + n % 100 % 10]
                          else if n >= 10 then [48 + n / 10, 48 + n % 10]
                          else [48 + n]
  {
    if n >= 100 {
      assert n / 10 / 10 == n / 100 && n / 10 % 10 == n % 100 / 10 && n % 10 == n % 100 % 10;
      assert Decimal(n / 10) == [48 + n / 100] + [48 + n % 100 / 10];
    } else if n >= 10 {
      assert Decimal(n / 10) == [48 + n / 10];
    }
  }

  /** bput; the goto of its first branch enters the second. */
  method Bput(a: array<byte>, p: nat, number: uint) returns (q: nat)
    requires p + |Decimal(number % 256)| <= a.Length
    modifies a
    ensures q == p + |Decimal(number % 256)|
    ensures Wrote(old(a[..]), a[..], p, Decimal(number % 256))
  {
    var n := number % 256;
    DecimalOf(n);
    q := p;
    var tens := n >= 10;
    if n >= 100 {
      a[q] := 48 + n / 100;
      q := q + 1;
      n := n % 100;
    }
    if tens {
      a[q] := 48 + n / 10;
      q := q + 1;
      n := n % 10;
    }
    a[q] := 48 + n;
    q := q + 1;
  }

  /** Writes that follow each other make one. */
  lemma WroteMore(before: seq<byte>, between: seq<byte>, after: seq<byte>, p: nat, first: seq<byte>, second: seq<byte>)
    requires Wrote(before, between, p, first) && Wrote(between, after, p + |first|, second)
    ensures Wrote(before, after, p, first + second)
  {
    var q := p + |first|;
    var r := q + |second|;
    assert between[..q] == before[..p] + first;
    assert between[r..] == before[q..][|second|..] == before[r..];
    assert before[..p] + first + second == before[..p] + (first + second);
  }

  method PutByte(a: array<byte>, p: nat, b: byte)
    requires p < a.Length
    modifies a
    ensures Wrote(old(a[..]), a[..], p, [b])
  {
    a[p] := b;
  }

  /** Adds an octet and a dot behind what has been written since `start`. */
  method AddDotted(a: array<byte>, p: nat, q: nat, number: uint, ghost start: seq<byte>, ghost done: seq<byte>)
    returns (next: nat)
    requires Wrote(start, a[..], p, done) && q == p + |done| && q + |Dotted(number % 256)| <= a.Length
    modifies a
    ensures next == q + |Dotted(number % 256)| && Wrote(start, a[..], p, done + Dotted(number % 256))
  {
    ghost var was, octet := a[..], number % 256;
    next := Bput(a, q, number);
    ghost var put := a[..];
    PutByte(a, next, DOT);
    WroteMore(was, put, a[..], q, Decimal(octet), [DOT]);
    WroteMore(start, was, a[..], p, done, Dotted(octet));
    next := next + 1;
  }

  /** ipv4_itostr writes the text and a NUL. */
  method IToStr(a: array<byte>, p: nat, ip: uint) returns (length: nat)
    requires p + |Text(ip)| < a.Length
    modifies a
    ensures length == |Text(ip)| && Wrote(old(a[..]), a[..], p, Text(ip) + [0])
  {
    ghost var start, d3, d2 := a[..], Dotted(ip / 0x100_0000 % 256), Dotted(ip / 0x1_0000 % 256);
    var q := AddDotted(a, p, p, ip / 0x100_0000, start, []);
    assert [] + d3 == d3;
    q := AddDotted(a, p, q, ip / 0x1_0000, start, d3);
    q := AddDotted(a, p, q, ip / 0x100, start, d3 + d2);
    length := AddLast(a, p, q, ip, start, d3 + d2 + Dotted(ip / 0x100 % 256));
  }

  method AddLast(a: array<byte>, p: nat, q: nat, ip: uint, ghost start: seq<byte>, ghost done: seq<byte>)
    returns (length: nat)
    requires Wrote(start, a[..], p, done) && q == p + |done| && q + |Decimal(ip % 256)| < a.Length
    modifies a
    ensures length == |done + Decimal(ip % 256)| && Wrote(start, a[..], p, done + Decimal(ip % 256) + [0])
  {
    ghost var was := a[..];
    var end := Bput(a, q, ip);
    WroteMore(start, was, a[..], p, done, Decimal(ip % 256));
    was := a[..];
    PutByte(a, end, 0);
    WroteMore(start, was, a[..], p, done + Decimal(ip % 256), [0]);
    length := end - p;
  }

  // ----- strtoul, in base 10

  predicate IsSpace(ch: byte) {
    9 <= ch <= 13 || ch == BLANK
  }

  function AfterSpaces(s: seq<byte>, p: nat): (q: nat)
    ensures q >= p
    decreases |s| - p
  {
    if IsSpace(CharAt(s, p)) then AfterSpaces(s, p + 1) else p
  }

  function AfterDigits(s: seq<byte>, p: nat): (q: nat)
    ensures q >= p
    decreases |s| - p
  {
    if IsDigit(CharAt(s, p)) then AfterDigits(s, p + 1) else p
  }

  /** The digits s[p..q] as a number. */
  function Number(s: seq<byte>, p: nat, q: nat): nat
    decreases q
  {
    if p >= q || q > |s| || !IsDigit(s[q - 1]) then 0 else
      var digit: int := s[q - 1];
      10 * Number(s, p, q - 1) + (digit - 48)
  }

  datatype Scan = Scan(n: nat, next: nat)

  /** strtoul(s + p, &next, 10): no digits move nothing, a sign is taken, too large a number saturates. */
  function Strtoul(s: seq<byte>, p: nat): Scan {
    var b := AfterSpaces(s, p);
    var d := if CharAt(s, b) == PLUS || CharAt(s, b) == MINUS then b + 1 else b;
    var e := AfterDigits(s, d);
    if e == d then Scan(0, p) else
      var v := Number(s, d, e);
      var n := if v > ULONG_MAX then ULONG_MAX
               else if CharAt(s, b) == MINUS && v > 0 then ULONG_MAX + 1 - v else v;
      Scan(n, e)
  }

  // ----- parsing

  datatype Address = Parsed(num: uint, next: nat) | Bad

  /** What n octets stay below. */
  function Power(n: nat): nat {
    if n == 0 then 1 else if n == 1 then 0x100 else if n == 2 then 0x1_0000 else 0x100_0000
  }

  /** ipv4_strtoi at p: four octets or, after a leading dot, up to three. */
  function Strtoi(s: seq<byte>, p: nat): Address {
    if CharAt(s, p) == DOT then Dot(s, p, 0, 3, true) else Part(s, p, 0, 4, false)
  }

  /** At the head of its loop, with c octets to come behind `num`. */
  function Dot(s: seq<byte>, p: nat, num: nat, c: nat, sub: bool): Address
    requires 1 <= c <= 4 && num < Power(4 - c)
    decreases c, 1, p
  {
    if CharAt(s, p) == DOT then Part(s, p + 1, num, c, sub)
    else if sub then Parsed(num, p) else Bad
  }

  function Part(s: seq<byte>, p: nat, num: nat, c: nat, sub: bool): Address
    requires 1 <= c <= 4 && num < Power(4 - c)
    decreases c, 0, p
  {
    var r := Strtoul(s, p);
    if r.next == p || r.n >= 256 then Bad
    else if c == 1 then Parsed(num * 256 + r.n, r.next)
    else Dot(s, r.next, num * 256 + r.n, c - 1, sub)
  }

  method StrToI(s: seq<byte>, p: nat) returns (num: uint, after: nat)
    ensures Strtoi(s, p).Parsed? ==> num == Strtoi(s, p).num && after == Strtoi(s, p).next
    ensures Strtoi(s, p).Bad? ==> num == 0 && after == p
  {
    var sub := CharAt(s, p) == DOT;
    var q: nat, c: nat, enter := p, if sub then 3 else 4, !sub;
    num := 0;
    while true
      invariant 1 <= c <= 4 && num < Power(4 - c)
      invariant Strtoi(s, p) == if enter then Part(s, q, num, c, sub) else Dot(s, q, num, c, sub)
      decreases c
    {
      if !enter {
        if CharAt(s, q) != DOT {
          return if sub then num else 0, if sub then q else p;
        }
        q := q + 1;
      }
      enter := false;
      var r := Strtoul(s, q);
      if r.next == q || r.n >= 256 {
        return 0, p;
      }
      num, q, c := num * 256 + r.n, r.next, c - 1;
      if c == 0 {
        return num, q;
      }
    }
  }

  function SkipBlanks(s: seq<byte>, p: nat): (q: nat)
    ensures q >= p
    decreases |s| - p
  {
    if CharAt(s, p) == BLANK then SkipBlanks(s, p + 1) else p
  }

  /** One item of a list: its address, zero and not moved over when unreadable, and where its blanks end. */
  function Item(s: seq<byte>, p: nat): (uint, nat) {
    var r := Strtoi(s, p);
    if r.Parsed? then (r.num, SkipBlanks(s, r.next)) else (0, SkipBlanks(s, p))
  }

  method PassBlanks(s: seq<byte>, p: nat) returns (q: nat)
    ensures q == SkipBlanks(s, p)
  {
    q := p;
    while CharAt(s, q) == BLANK
      invariant SkipBlanks(s, p) == SkipBlanks(s, q)
      decreases |s| - q
    {
      q := q + 1;
    }
  }

  method ReadItem(s: seq<byte>, p: nat) returns (num: uint, q: nat)
    ensures (num, q) == Item(s, p)
  {
    num, q := StrToI(s, p);
    q := PassBlanks(s, q);
  }

  /** ipv4_ltoi: what it stores. */
  function List(s: seq<byte>, p: nat, limit: nat): seq<uint>
    decreases limit
  {
    if limit == 0 || CharAt(s, p) == 0 then []
    else
      var (num, q) := Item(s, p);
      if CharAt(s, q) == COMMA then [num] + List(s, q + 1, limit - 1) else [num]
  }

  lemma ListIs(s: seq<byte>, p: nat, limit: nat, num: uint, q: nat)
    requires limit > 0 && CharAt(s, p) != 0 && Item(s, p) == (num, q)
    ensures List(s, p, limit) == if CharAt(s, q) == COMMA then [num] + List(s, q + 1, limit - 1) else [num]
  {
  }

  lemma ListStepAt(s: seq<byte>, p: nat, limit: nat, num: uint, q: nat, got: seq<uint>)
    requires limit > 0 && CharAt(s, p) != 0 && Item(s, p) == (num, q)
    ensures got + List(s, p, limit) ==
            if CharAt(s, q) == COMMA then got + [num] + List(s, q + 1, limit - 1) else got + [num]
  {
    if CharAt(s, q) == COMMA {
      NextMoved(got, num, List(s, q + 1, limit - 1));
    }
  }

  lemma ListStep(s: seq<byte>, p: nat, limit: nat, got: seq<uint>)
    requires limit > 0 && CharAt(s, p) != 0
    ensures var (num, q) := Item(s, p);
            got + List(s, p, limit) ==
            if CharAt(s, q) == COMMA then got + [num] + List(s, q + 1, limit - 1) else got + [num]
  {
    var (num, q) := Item(s, p);
    ListStepAt(s, p, limit, num, q, got);
  }

  /** One round of ipv4_ltoi; the blanks it looks for at the comma are none. */
  method StoreItem(ips: array<uint>, count: nat, s: seq<byte>, p: nat) returns (more: bool, q: nat)
    requires count < ips.Length
    modifies ips
    ensures ips[..count + 1] == old(ips[..count]) + [Item(s, p).0]
    ensures forall i :: count < i < ips.Length ==> ips[i] == old(ips[i])
    ensures more == (CharAt(s, Item(s, p).1) == COMMA)
    ensures more ==> q == Item(s, p).1 + 1
  {
    var num;
    num, q := ReadItem(s, p);
    ips[count] := num;
    if CharAt(s, q) != COMMA {
      return false, q;
    }
    q := PassBlanks(s, q);
    return true, q + 1;
  }

  method LToI(ips: array<uint>, limit: nat, list: seq<byte>) returns (count: nat)
    requires limit <= ips.Length
    modifies ips
    ensures count <= limit && ips[..count] == List(list, 0, limit)
    ensures forall i :: count <= i < ips.Length ==> ips[i] == old(ips[i])
  {
    var p, left, more := 0, limit, true;
    ghost var got := [];
    count := 0;
    while more && left > 0 && CharAt(list, p) != 0
      invariant count == limit - left && ips[..count] == got
      invariant List(list, 0, limit) == if more then got + List(list, p, left) else got
      invariant forall i :: count <= i < ips.Length ==> ips[i] == old(ips[i])
      decreases left
    {
      ListStep(list, p, left, got);
      left := left - 1;
      got := got + [Item(list, p).0];
      more, p := StoreItem(ips, count, list, p);
      count := count + 1;
    }
  }

  // ----- recognizing

  /** ipv4_isip at p, with c octets to come: whatever follows the last of them is not looked at. */
  predicate IsIp(s: seq<byte>, p: nat, c: nat)
    requires 1 <= c
    decreases c, p
  {
    var r := Strtoul(s, p);
    r.next != p && r.n < 256 && (c == 1 || (CharAt(s, r.next) == DOT && IsIp(s, r.next + 1, c - 1)))
  }

  lemma IsIpStep(s: seq<byte>, p: nat, c: nat, r: Scan)
    requires 1 <= c && r == Strtoul(s, p)
    ensures IsIp(s, p, c) <==>
            r.next != p && r.n < 256 && (c == 1 || (CharAt(s, r.next) == DOT && IsIp(s, r.next + 1, c - 1)))
  {
  }

  method CheckIp(s: seq<byte>) returns (ok: bool)
    ensures ok == IsIp(s, 0, 4)
  {
    var p, c, enter := 0, 4, true;
    while c > 0
      invariant 0 <= c <= 4 && (enter ==> p == 0 && c == 4)
      invariant IsIp(s, 0, 4) ==
        if enter then IsIp(s, p, c) else c == 0 || (CharAt(s, p) == DOT && IsIp(s, p + 1, c))
    {
      if !enter {
        if CharAt(s, p) != DOT {
          return false;
        }
        p := p + 1;
      }
      enter := false;
      var r := Strtoul(s, p);
      IsIpStep(s, p, c, r);
      if r.next == p || r.n >= 256 {
        return false;
      }
      p := r.next;
      c := c - 1;
    }
    return true;
  }

  lemma {:induction false} IsIpFrom(s: seq<byte>, p: nat, num: nat, c: nat)
    requires 1 <= c <= 4 && num < Power(4 - c)
    ensures IsIp(s, p, c) <==> Part(s, p, num, c, false).Parsed?
    decreases c
  {
    var r := Strtoul(s, p);
    if r.next != p && r.n < 256 && c > 1 && CharAt(s, r.next) == DOT {
      IsIpFrom(s, r.next + 1, num * 256 + r.n, c - 1);
    }
  }

  /** The recognizer accepts exactly what the parser reads, the short form with a leading dot apart. */
  lemma IsIpIff(s: seq<byte>)
    ensures IsIp(s, 0, 4) <==> CharAt(s, 0) != DOT && Strtoi(s, 0).Parsed?
  {
    IsIpFrom(s, 0, 0, 4);
    if CharAt(s, 0) == DOT {
      assert AfterSpaces(s, 0) == 0 && AfterDigits(s, 0) == 0;
    }
  }

  /** ipv4_ismask takes a text for a mask exactly when it is an address that ipv4_wtoi makes of some width. */
  method CheckMask(s: seq<byte>) returns (ok: bool)
    ensures ok <==> CharAt(s, 0) != DOT && Strtoi(s, 0).Parsed? && MaskWords.IsMade(Strtoi(s, 0).num as bv32)
  {
    IsIpIff(s);
    ok := CheckIp(s);
    if ok {
      var num, _ := StrToI(s, 0);
      ok := MaskWords.CheckWord(num as bv32);
    }
  }
}
