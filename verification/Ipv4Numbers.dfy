/** Which numbers the parts of an address may be: all that strtoul reads, and the octets among them. */
module Ipv4Numbers {
  import opened Bytes
  import opened Ipv4
  import opened Ipv4Lists

  /** White space, a sign or none, and a number with any leading zeros: what strtoul reads. */
  datatype Numeral = Numeral(white: seq<byte>, sign: seq<byte>, zeros: seq<byte>, n: nat)

  /** Tab, line feed, vertical tab, form feed, carriage return and the blank. */
  predicate White(ch: byte) {
    ch == 9 || ch == 10 || ch == 11 || ch == 12 || ch == 13 || ch == 32
  }

  predicate Proper(m: Numeral) {
    && (forall i :: 0 <= i < |m.white| ==> White(m.white[i]))
    && (m.sign == [] || m.sign == ['+' as int] || m.sign == ['-' as int])
    && (forall i :: 0 <= i < |m.zeros| ==> m.zeros[i] == '0' as int)
  }

  function NumeralText(m: Numeral): seq<byte> {
    m.white + (m.sign + (m.zeros + Decimal(m.n)))
  }

  /** What an unsigned long holds of it. */
  function ULong(m: Numeral): nat {
    if m.n >= 0x1_0000_0000_0000_0000 then 0xFFFF_FFFF_FFFF_FFFF
    else if m.sign == ['-' as int] && m.n > 0 then 0x1_0000_0000_0000_0000 - m.n
    else m.n
  }

  lemma {:induction false} ZerosAreZero(s: seq<byte>, p: nat, q: nat)
    requires p <= q <= |s| && forall i :: p <= i < q ==> s[i] == '0' as int
    ensures Number(s, p, q) == 0
    decreases q
  {
    if p < q {
      ZerosAreZero(s, p, q - 1);
    }
  }

  /** A number behind zeros. */
  lemma {:induction false} NumberBehindZeros(s: seq<byte>, p: nat, d: nat, n: nat)
    requires p <= d && Holds(s, d, Decimal(n)) && d <= |s| && forall i :: p <= i < d ==> s[i] == '0' as int
    ensures d + |Decimal(n)| <= |s| && forall i :: p <= i < d + |Decimal(n)| ==> IsDigit(s[i])
    ensures Number(s, p, d + |Decimal(n)|) == n
    decreases n
  {
    if n < 10 {
      ZerosAreZero(s, p, d);
    } else {
      HoldsBoth(s, d, Decimal(n / 10), [48 + n % 10]);
      NumberBehindZeros(s, p, d, n / 10);
    }
  }

  /** The digits end where no digit follows. */
  lemma DigitsRead(s: seq<byte>, d: nat, zeros: seq<byte>, n: nat, end: nat)
    requires (forall i :: 0 <= i < |zeros| ==> zeros[i] == '0' as int) && Holds(s, d, zeros + Decimal(n))
    requires end == d + |zeros + Decimal(n)| && !IsDigit(CharAt(s, end))
    ensures d < end && IsDigit(CharAt(s, d)) && AfterDigits(s, d) == end && Number(s, d, end) == n
  {
    HoldsBoth(s, d, zeros, Decimal(n));
    HoldsSlice(s, d, zeros);
    assert forall i :: d <= i < d + |zeros| ==> s[i] == s[d..d + |zeros|][i - d];
    NumberBehindZeros(s, d, d + |zeros|, n);
    DigitsPassed(s, d, end);
  }

  /** The white space ends at a sign or a digit. */
  lemma WhiteRead(s: seq<byte>, p: nat, white: seq<byte>)
    requires forall i :: 0 <= i < |white| ==> White(white[i])
    requires Holds(s, p, white) && !IsSpace(CharAt(s, p + |white|))
    ensures AfterSpaces(s, p) == p + |white|
  {
    SpacesPassed(s, p, white);
  }

  lemma SignRead(s: seq<byte>, b: nat, sign: seq<byte>)
    requires sign == [] || sign == ['+' as int] || sign == ['-' as int]
    requires Holds(s, b, sign) && IsDigit(CharAt(s, b + |sign|))
    ensures !IsSpace(CharAt(s, b)) && (CharAt(s, b) == MINUS <==> sign == ['-' as int])
    ensures b + |sign| == if CharAt(s, b) == PLUS || CharAt(s, b) == MINUS then b + 1 else b
  {
  }

  /** strtoul reads every numeral that no digit follows: the number, or what an unsigned long holds of it. */
  lemma ReadsNumeral(s: seq<byte>, p: nat, m: Numeral)
    requires Proper(m) && Holds(s, p, NumeralText(m)) && !IsDigit(CharAt(s, p + |NumeralText(m)|))
    ensures Strtoul(s, p) == Scan(ULong(m), p + |NumeralText(m)|)
  {
    var b, digits := p + |m.white|, m.zeros + Decimal(m.n);
    HoldsBoth(s, p, m.white, m.sign + digits);
    HoldsBoth(s, b, m.sign, digits);
    DigitsRead(s, b + |m.sign|, m.zeros, m.n, p + |NumeralText(m)|);
    SignRead(s, b, m.sign);
    WhiteRead(s, p, m.white);
  }

  /** The digits are zeros and the decimal of the number they denote. */
  lemma {:induction false} DigitsAreDecimal(s: seq<byte>, p: nat, q: nat) returns (zeros: seq<byte>)
    requires p < q <= |s| && forall i :: p <= i < q ==> IsDigit(s[i])
    ensures s[p..q] == zeros + Decimal(Number(s, p, q))
    ensures forall i :: 0 <= i < |zeros| ==> zeros[i] == '0' as int
    decreases q
  {
    var digit: int, before := s[q - 1], Number(s, p, q - 1);
    assert s[p..q] == s[p..q - 1] + [s[q - 1]];
    if q == p + 1 {
      assert Number(s, p, p) == 0;
      zeros := [];
    } else {
      zeros := DigitsAreDecimal(s, p, q - 1);
      if before == 0 {
        zeros := zeros + [48];
      } else {
        assert Decimal(Number(s, p, q)) == Decimal(before) + [s[q - 1]];
      }
    }
  }

  lemma NumeralBetween(s: seq<byte>, p: nat, b: nat, d: nat, e: nat, zeros: seq<byte>, n: nat)
    requires p <= b <= d <= e <= |s| && s[d..e] == zeros + Decimal(n)
    ensures
      var m := Numeral(s[p..b], s[b..d], zeros, n);
      |NumeralText(m)| == e - p && Holds(s, p, NumeralText(m))
  {
    var m := Numeral(s[p..b], s[b..d], zeros, n);
    assert s[p..e] == s[p..b] + (s[b..d] + s[d..e]);
    HoldsSlice(s, p, NumeralText(m));
  }

  /** And it reads nothing else. */
  lemma OnlyNumerals(s: seq<byte>, p: nat) returns (m: Numeral)
    requires p <= |s| && Strtoul(s, p).next != p
    ensures Proper(m) && Holds(s, p, NumeralText(m)) && Strtoul(s, p).next == p + |NumeralText(m)|
    ensures !IsDigit(CharAt(s, p + |NumeralText(m)|))
  {
    var b := AfterSpaces(s, p);
    var d := if CharAt(s, b) == PLUS || CharAt(s, b) == MINUS then b + 1 else b;
    var e := AfterDigits(s, d);
    SpacesFound(s, p);
    DigitsFound(s, d);
    var zeros := DigitsAreDecimal(s, d, e);
    NumeralBetween(s, p, b, d, e, zeros, Number(s, d, e));
    m := Numeral(s[p..b], s[b..d], zeros, Number(s, d, e));
    SignBetween(s, b, d);
    assert forall i :: 0 <= i < b - p ==> m.white[i] == s[p + i];
  }

  lemma SignBetween(s: seq<byte>, b: nat, d: nat)
    requires b <= d <= |s| && d == if CharAt(s, b) == PLUS || CharAt(s, b) == MINUS then b + 1 else b
    ensures s[b..d] == [] || s[b..d] == ['+' as int] || s[b..d] == ['-' as int]
  {
  }

  lemma {:induction false} SpacesFound(s: seq<byte>, p: nat)
    requires p <= |s|
    ensures AfterSpaces(s, p) <= |s| && forall i :: p <= i < AfterSpaces(s, p) ==> White(s[i])
    decreases |s| - p
  {
    if IsSpace(CharAt(s, p)) {
      SpacesFound(s, p + 1);
    }
  }

  lemma {:induction false} DigitsFound(s: seq<byte>, p: nat)
    requires p <= |s|
    ensures AfterDigits(s, p) <= |s| && forall i :: p <= i < AfterDigits(s, p) ==> IsDigit(s[i])
    ensures !IsDigit(CharAt(s, AfterDigits(s, p)))
    decreases |s| - p
  {
    if IsDigit(CharAt(s, p)) {
      DigitsFound(s, p + 1);
    }
  }

  // ----- numbers that are no octets

  /** Numerals with dots between them. */
  function Dots(parts: seq<Numeral>): seq<byte> {
    if parts == [] then []
    else if |parts| == 1 then NumeralText(parts[0])
    else NumeralText(parts[0]) + (['.' as int] + Dots(parts[1..]))
  }

  /** An octet, or a negative number from -2^64 + 1 to -2^64 + 255. */
  predicate Taken(m: Numeral) {
    if m.sign == ['-' as int] then m.n == 0 || 0x1_0000_0000_0000_0000 - 256 < m.n < 0x1_0000_0000_0000_0000
    else m.n < 256
  }

  lemma {:induction false} PartsIff(s: seq<byte>, p: nat, num: nat, parts: seq<Numeral>)
    requires 1 <= |parts| <= 4 && num < Power(4 - |parts|) && (forall i :: 0 <= i < |parts| ==> Proper(parts[i]))
    requires Holds(s, p, Dots(parts)) && !IsDigit(CharAt(s, p + |Dots(parts)|))
    ensures Part(s, p, num, |parts|, false).Parsed? <==> forall i :: 0 <= i < |parts| ==> Taken(parts[i])
    decreases |parts|
  {
    var first, rest := parts[0], parts[1..];
    var dot := p + |NumeralText(first)|;
    if |parts| == 1 {
      ReadsNumeral(s, p, first);
    } else {
      HoldsBoth(s, p, NumeralText(first), ['.' as int] + Dots(rest));
      HoldsRest(s, dot, '.' as int, Dots(rest));
      ReadsNumeral(s, p, first);
      if Taken(first) {
        PartsIff(s, dot + 1, num * 256 + ULong(first), rest);
      }
      assert forall i :: 0 < i < |parts| ==> parts[i] == rest[i - 1];
      assert forall i :: 0 <= i < |rest| ==> rest[i] == parts[i + 1];
    }
  }

  lemma FirstRead(s: seq<byte>, parts: seq<Numeral>)
    requires |parts| == 4 && Proper(parts[0]) && Holds(s, 0, Dots(parts))
    ensures CharAt(s, 0) != DOT
  {
    var first, behind := NumeralText(parts[0]), ['.' as int] + Dots(parts[1..]);
    HoldsBoth(s, 0, first, behind);
    HoldsRest(s, |first|, '.' as int, Dots(parts[1..]));
    ReadsNumeral(s, 0, parts[0]);
    assert CharAt(s, 0) == DOT ==> AfterSpaces(s, 0) == 0 && AfterDigits(s, 0) == 0;
  }

  /** The text at `p` is `c` numerals with dots between them, and no digit behind. */
  predicate Spelled(s: seq<byte>, p: nat, c: nat, parts: seq<Numeral>) {
    && |parts| == c && (forall i :: 0 <= i < c ==> Proper(parts[i]))
    && Holds(s, p, Dots(parts)) && !IsDigit(CharAt(s, p + |Dots(parts)|))
  }

  predicate AllTaken(parts: seq<Numeral>) {
    forall i :: 0 <= i < |parts| ==> Taken(parts[i])
  }

  /** Numbers with dots between them are an address exactly when each of them is taken for an octet. */
  lemma FourNumbersIff(s: seq<byte>, parts: seq<Numeral>)
    requires Spelled(s, 0, 4, parts)
    ensures Strtoi(s, 0).Parsed? <==> AllTaken(parts)
    ensures IsIp(s, 0, 4) <==> AllTaken(parts)
  {
    PartsIff(s, 0, 0, parts);
    FirstRead(s, parts);
    IsIpFrom(s, 0, 0, 4);
    IsIpIff(s);
  }

  lemma PartInFront(s: seq<byte>, p: nat, first: Numeral, rest: seq<Numeral>)
    requires Proper(first) && Holds(s, p, NumeralText(first)) && rest != []
    requires CharAt(s, p + |NumeralText(first)|) == '.' as int
    requires Spelled(s, p + |NumeralText(first)| + 1, |rest|, rest)
    ensures Spelled(s, p, 1 + |rest|, [first] + rest)
  {
    var parts, dot := [first] + rest, p + |NumeralText(first)|;
    assert parts[1..] == rest && Dots(parts) == NumeralText(first) + (['.' as int] + Dots(rest));
    HoldsRest(s, dot, '.' as int, Dots(rest));
    HoldsBoth(s, p, NumeralText(first), ['.' as int] + Dots(rest));
  }

  /** The numbers of a text that is recognized. */
  lemma {:induction false} PartsOf(s: seq<byte>, p: nat, c: nat) returns (parts: seq<Numeral>)
    requires p <= |s| && c >= 1 && IsIp(s, p, c)
    ensures Spelled(s, p, c, parts) && AllTaken(parts)
    decreases c
  {
    var first := OnlyNumerals(s, p);
    ReadsNumeral(s, p, first);
    parts := [first];
    if c > 1 {
      var rest := PartsOf(s, p + |NumeralText(first)| + 1, c - 1);
      PartInFront(s, p, first, rest);
      parts := [first] + rest;
    }
  }

  /** ipv4_isip accepts exactly four such numbers with dots between them, whatever else follows but a digit. */
  lemma IsIpExactly(s: seq<byte>)
    ensures IsIp(s, 0, 4) <==> exists parts :: Spelled(s, 0, 4, parts) && AllTaken(parts)
  {
    if IsIp(s, 0, 4) {
      var parts := PartsOf(s, 0, 4);
    }
    forall parts | Spelled(s, 0, 4, parts) && AllTaken(parts)
      ensures IsIp(s, 0, 4)
    {
      FourNumbersIff(s, parts);
    }
  }

  /** The last number of "1.2.3.300" is no octet; 2^64 less than one is. */
  lemma NoOctet()
    ensures !Taken(Numeral([], [], [], 300)) && !Taken(Numeral([], ['-' as int], [], 1))
    ensures Taken(Numeral([], ['-' as int], [], 18446744073709551615))
    ensures ULong(Numeral([], ['-' as int], [], 18446744073709551615)) == 1
  {
  }
}
