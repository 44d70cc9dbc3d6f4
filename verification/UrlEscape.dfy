/** io_url_encode and io_url_decode: percent-encoding (section 2.1 of RFC 3986) and the length pre-passes. */
module UrlEscape {
  import opened Bytes

  const PERCENT: byte := 37
  const PLUS: byte := 43
  const SPACE: byte := 32
  const NOT_A_DIGIT: nat := 256

  /** digit2num, on a signed 8-bit char: any char from '@' to DEL counts as a digit. */
  function Digit(ch: byte): nat {
    if 64 <= ch < 96 then ch - 55
    else if 96 <= ch < 128 then ch - 32 - 55
    else if 48 <= ch < 58 then ch - 48
    else NOT_A_DIGIT
  }

  /** is_url_encode_char: controls, quotes, percent and backslash. */
  predicate IsEscaped(ch: byte) {
    ch < 32 || ch == 39 || ch == 34 || ch == PERCENT || ch == 92
  }

  /** "0123456789ABCDEF"[n] */
  function Hex(n: int): byte
    requires 0 <= n < 16
  {
    if n < 10 then 48 + n else 55 + n
  }

  function EncodeChar(ch: byte): seq<byte> {
    if IsEscaped(ch) then [PERCENT, Hex(ch / 16), Hex(ch % 16)] else [ch]
  }

  function Encode(url: seq<byte>): seq<byte> {
    if url == [] then [] else EncodeChar(url[0]) + Encode(url[1..])
  }

  /** What the two characters behind a percent sign at `at` stand for; a string ends in NUL. */
  function EscapeAt(s: seq<byte>, at: nat): nat {
    var high := if at + 1 < |s| then Digit(s[at + 1]) else NOT_A_DIGIT;
    var low := if at + 2 < |s| then Digit(s[at + 2]) else NOT_A_DIGIT;
    high * 16 + low
  }

  function Decode(s: seq<byte>): seq<byte>
    decreases |s|
  {
    if s == [] then []
    else if s[0] == PERCENT && EscapeAt(s, 0) < 256 then [EscapeAt(s, 0)] + Decode(s[3..])
    else if s[0] == PLUS then [SPACE] + Decode(s[1..])
    else [s[0]] + Decode(s[1..])
  }

  function PlusToSpace(s: seq<byte>): (r: seq<byte>)
    ensures |r| == |s| && forall i :: 0 <= i < |s| ==> r[i] == if s[i] == PLUS then SPACE else s[i]
  {
    if s == [] then [] else [if s[0] == PLUS then SPACE else s[0]] + PlusToSpace(s[1..])
  }

  // ----- the law

  lemma DigitOfHex(n: nat)
    requires n < 16
    ensures Digit(Hex(n)) == n
  {
  }

  /** Decoding an encoding gives the string back, but for its plus signs. */
  lemma {:induction false} DecodeEncode(url: seq<byte>)
    ensures Decode(Encode(url)) == PlusToSpace(url)
  {
    if url != [] {
      var ch, rest := url[0], Encode(url[1..]);
      DecodeEncode(url[1..]);
      if IsEscaped(ch) {
        var s := [PERCENT, Hex(ch / 16), Hex(ch % 16)] + rest;
        DigitOfHex(ch / 16);
        DigitOfHex(ch % 16);
        assert Encode(url) == s && EscapeAt(s, 0) == ch && s[3..] == rest;
      } else {
        assert Encode(url)[1..] == rest;
      }
    }
  }

  /** The law is the identity exactly on strings without a plus sign. */
  lemma RoundTripIff(url: seq<byte>)
    ensures Decode(Encode(url)) == url <==> PLUS !in url
  {
    DecodeEncode(url);
    if PLUS in url {
      var i :| 0 <= i < |url| && url[i] == PLUS;
      assert PlusToSpace(url)[i] == SPACE;
    }
  }

  // ----- the characters

  /** The digits of the encoder. */
  lemma HexDigits(n: nat)
    requires n < 16
    ensures Hex(n) == "0123456789ABCDEF"[n] as int && HexValue(Hex(n)) == Some(n)
  {
    var digits := "0123456789ABCDEF";
    assert digits[0] == '0' && digits[1] == '1' && digits[2] == '2' && digits[3] == '3';
    assert digits[4] == '4' && digits[5] == '5' && digits[6] == '6' && digits[7] == '7';
    assert digits[8] == '8' && digits[9] == '9' && digits[10] == 'A' && digits[11] == 'B';
    assert digits[12] == 'C' && digits[13] == 'D' && digits[14] == 'E' && digits[15] == 'F';
  }

  /** Controls and four marks are escaped, and nothing else. */
  lemma EscapedIff(ch: byte)
    ensures IsEscaped(ch) <==> ch < ' ' as int || ch as char in ['\'', '"', '%', '\\']
  {
  }

  /** So nothing but a percent sign of these is left in an encoding. */
  lemma {:induction false} EncodingIsClean(url: seq<byte>, i: nat)
    requires i < |Encode(url)|
    ensures ' ' as int <= Encode(url)[i] && Encode(url)[i] as char !in ['\'', '"', '\\']
  {
    var n := |EncodeChar(url[0])|;
    if i >= n {
      EncodingIsClean(url[1..], i - n);
    }
  }

  /** A hexadecimal digit of section 2.1 of RFC 3986, in either case. */
  function HexValue(ch: byte): Option<nat> {
    if '0' as int <= ch <= '9' as int then Some(ch - '0' as int)
    else if 'A' as int <= ch <= 'F' as int then Some(ch - 'A' as int + 10)
    else if 'a' as int <= ch <= 'f' as int then Some(ch - 'a' as int + 10)
    else None
  }

  /** The decoder reads these digits, and two more characters as 9. */
  lemma DigitIff(ch: byte)
    ensures Digit(ch) < 16 <==> HexValue(ch).Some? || ch == '@' as int || ch == '`' as int
    ensures HexValue(ch).Some? ==> Digit(ch) == HexValue(ch).value
    ensures Digit('@' as int) == Digit('`' as int) == 9
  {
  }

  /** `s` starts with a percent sign and two digits. */
  predicate EscapeFirst(s: seq<byte>) {
    |s| >= 3 && s[0] == '%' as int && HexValue(s[1]).Some? && HexValue(s[2]).Some?
  }

  /** `s` spells `url`: with itself, a plus sign for a space, or a percent sign and two digits for any character. */
  predicate Spells(s: seq<byte>, url: seq<byte>)
    decreases |url|
  {
    if url == [] then s == []
    else if s == [] then false
    else if EscapeFirst(s) then
      HexValue(s[1]).value * 16 + HexValue(s[2]).value == url[0] && Spells(s[3..], url[1..])
    else
      && s[0] != '%' as int && url[0] == (if s[0] == '+' as int then ' ' as int else s[0])
      && Spells(s[1..], url[1..])
  }

  /** All spellings of a string decode to it, whichever characters are escaped and in whichever case. */
  lemma {:induction false} SpelledDecodes(s: seq<byte>, url: seq<byte>)
    requires Spells(s, url)
    ensures Decode(s) == url
    decreases |url|
  {
    if url != [] {
      if EscapeFirst(s) {
        EscapeReads(s);
        SpelledDecodes(s[3..], url[1..]);
      } else {
        SpelledDecodes(s[1..], url[1..]);
      }
    }
  }

  lemma EscapeReads(s: seq<byte>)
    requires EscapeFirst(s)
    ensures EscapeAt(s, 0) == HexValue(s[1]).value * 16 + HexValue(s[2]).value < 256
  {
    DigitIff(s[1]);
    DigitIff(s[2]);
  }

  /** The encoding of a string without plus signs is one of its spellings. */
  lemma {:induction false} EncodingSpells(url: seq<byte>)
    requires '+' as int !in url
    ensures Spells(Encode(url), url)
  {
    if url != [] {
      var ch, rest := url[0], Encode(url[1..]);
      EncodingSpells(url[1..]);
      if IsEscaped(ch) {
        HexDigits(ch / 16);
        HexDigits(ch % 16);
        var s := [PERCENT, Hex(ch / 16), Hex(ch % 16)] + rest;
        assert Encode(url) == s && EscapeFirst(s) && s[3..] == rest;
      } else {
        assert Encode(url)[1..] == rest;
      }
    }
  }

  /** Every percent sign starts an escape with two digits. */
  predicate AllSpelled(s: seq<byte>) {
    forall i :: 0 <= i < |s| && s[i] == '%' as int ==> EscapeFirst(s[i..])
  }

  lemma SpelledBehind(s: seq<byte>, n: nat)
    requires n <= |s|
    ensures AllSpelled(s[n..]) <==> forall i :: n <= i < |s| && s[i] == '%' as int ==> EscapeFirst(s[i..])
  {
    assert forall i :: 0 <= i < |s| - n ==> s[n..][i] == s[n + i] && s[n..][i..] == s[n + i..];
    if !AllSpelled(s[n..]) {
      var i :| 0 <= i < |s| - n && s[n..][i] == '%' as int && !EscapeFirst(s[n..][i..]);
      assert s[n + i] == '%' as int && !EscapeFirst(s[n + i..]);
    }
    if AllSpelled(s[n..]) {
      forall i | n <= i < |s| && s[i] == '%' as int
        ensures EscapeFirst(s[i..])
      {
        assert s[n..][i - n] == s[i] && s[n..][i - n..] == s[i..];
      }
    }
  }

  /** A string is a spelling of what it decodes to exactly when all its percent signs start a proper escape. */
  lemma {:induction false} SpelledIff(s: seq<byte>)
    ensures Spells(s, Decode(s)) <==> AllSpelled(s)
    decreases |s|
  {
    if s != [] {
      assert s[0..] == s;
      if EscapeFirst(s) {
        EscapeReads(s);
        SpelledIff(s[3..]);
        SpelledBehind(s, 3);
      } else if s[0] != '%' as int {
        SpelledIff(s[1..]);
        SpelledBehind(s, 1);
      } else {
        assert Decode(s) != [] && !EscapeFirst(s[0..]);
      }
    }
  }

  /** The decoder takes letters behind F for digits as long as the number fits a byte. */
  lemma LaxEscape()
    ensures Decode(['%' as int, '0' as int, 'G' as int]) == [16]
  {
    var s: seq<byte> := ['%' as int, '0' as int, 'G' as int];
    assert EscapeAt(s, 0) == 16 && s[3..] == [];
  }

  // ----- the encoder

  /** io_url_encoded_length */
  method EncodedLength(url: seq<byte>) returns (length: nat)
    ensures length == |Encode(url)| + 1
  {
    var p, count := 0, 0;
    while p < |url|
      invariant p <= |url| && p + 2 * count + |Encode(url[p..])| == |Encode(url)|
    {
      assert url[p..][1..] == url[p + 1..];
      if IsEscaped(url[p]) {
        count := count + 1;
      }
      p := p + 1;
    }
    length := p + 2 * count + 1;
  }

  /** What the encoder writes when it starts a character only while less than `room` is written. */
  function EncodeWithin(url: seq<byte>, room: int): seq<byte>
    decreases |url|
  {
    if url == [] || room <= 0 then [] else EncodeChar(url[0]) + EncodeWithin(url[1..], room - |EncodeChar(url[0])|)
  }

  lemma {:induction false} EncodeWithinEnough(url: seq<byte>, room: int)
    requires room >= |Encode(url)|
    ensures EncodeWithin(url, room) == Encode(url)
  {
    if url != [] {
      EncodeWithinEnough(url[1..], room - |EncodeChar(url[0])|);
    }
  }

  lemma EncodeFirst(url: seq<byte>, n: nat)
    requires 0 < n <= |url|
    ensures Encode(url[..n]) == EncodeChar(url[0]) + Encode(url[1..][..n - 1])
  {
    assert url[..n][1..] == url[1..][..n - 1];
  }

  /** The first n characters are the shortest part that fills the room, or all. */
  ghost predicate Shortest(url: seq<byte>, room: int, n: nat) {
    && n <= |url| && (n == |url| || |Encode(url[..n])| >= room)
    && forall m :: 0 <= m < n ==> |Encode(url[..m])| < room
  }

  lemma ShortestFirst(url: seq<byte>, room: int, rest: nat)
    requires url != [] && room > 0 && Shortest(url[1..], room - |EncodeChar(url[0])|, rest)
    ensures Shortest(url, room, rest + 1)
  {
    EncodeFirst(url, rest + 1);
    forall m | 0 <= m < rest + 1
      ensures |Encode(url[..m])| < room
    {
      if m > 0 {
        EncodeFirst(url, m);
      }
    }
  }

  /** What is written is the encoding of the shortest part that fills the room, or of all. */
  lemma {:induction false} EncodeWithinIs(url: seq<byte>, room: int) returns (n: nat)
    ensures Shortest(url, room, n) && EncodeWithin(url, room) == Encode(url[..n])
  {
    if url == [] || room <= 0 {
      n := 0;
    } else {
      var rest := EncodeWithinIs(url[1..], room - |EncodeChar(url[0])|);
      n := rest + 1;
      EncodeFirst(url, n);
      ShortestFirst(url, room, rest);
    }
  }

  lemma {:induction false} EncodePrefix(url: seq<byte>, m: nat, n: nat)
    requires m <= n <= |url|
    ensures |Encode(url[..m])| <= |Encode(url[..n])| <= |Encode(url)|
    ensures m < n ==> |Encode(url[..m])| < |Encode(url[..n])|
  {
    if m > 0 {
      EncodeFirst(url, m);
      EncodeFirst(url, n);
      EncodePrefix(url[1..], m - 1, n - 1);
    } else if n > 0 {
      EncodeFirst(url, n);
      EncodePrefix(url[1..], 0, n - 1);
    }
  }

  /** Some part of the string fills the room to the last character. */
  ghost predicate FillsExactly(url: seq<byte>, room: nat) {
    exists n :: 0 <= n <= |url| && |Encode(url[..n])| == room
  }

  /** A buffer is not overrun exactly when the encoding fits, or a part of it fills the buffer exactly. */
  lemma EncodeWithinFitsIff(url: seq<byte>, room: nat)
    ensures |EncodeWithin(url, room)| <= room <==> |Encode(url)| <= room || FillsExactly(url, room)
  {
    var n := EncodeWithinIs(url, room);
    assert url[..|url|] == url;
    if FillsExactly(url, room) {
      var m :| 0 <= m <= |url| && |Encode(url[..m])| == room;
      if m < n {
        assert false;
      } else if n < m {
        EncodePrefix(url, n, m);
      }
    }
  }

  /** The buffer is never left by more than two characters, and a percent sign does leave it by two. */
  lemma {:induction false} EncodeWithinBound(url: seq<byte>, room: nat)
    ensures |EncodeWithin(url, room)| <= room + 2
    ensures |EncodeWithin([PERCENT], 1)| == 3
  {
    assert EncodeWithin([PERCENT], 1) == EncodeChar(PERCENT) + [];
    if url != [] && room > 0 {
      var left := room - |EncodeChar(url[0])|;
      if left > 0 {
        EncodeWithinBound(url[1..], left);
      }
    }
  }

  /** io_url_encode, into memory that holds what it writes. */
  method UrlEncode(to: array<byte>, size: nat, url: seq<byte>) returns (written: nat)
    requires size > 0 && |EncodeWithin(url, size - 1)| < to.Length
    modifies to
    ensures written == |EncodeWithin(url, size - 1)|
    ensures to[..written] == EncodeWithin(url, size - 1) && to[written] == 0
    ensures forall i :: written < i < to.Length ==> to[i] == old(to[i])
    // a buffer of the encoded length is filled with the whole encoding
    ensures size >= |Encode(url)| + 1 ==> to[..written] == Encode(url)
  {
    if size >= |Encode(url)| + 1 {
      EncodeWithinEnough(url, size - 1);
    }
    var p := 0;
    written := 0;
    ghost var text := EncodeWithin(url, size - 1);
    ghost var done, rest := [], text;
    while written < size - 1 && p < |url|
      invariant p <= |url| && written < to.Length
      invariant rest == EncodeWithin(url[p..], size - 1 - written) && text == done + rest && to[..written] == done
      invariant forall i :: written < i < to.Length ==> to[i] == old(to[i])
    {
      assert url[p..][1..] == url[p + 1..];
      ghost var chars := EncodeChar(url[p]);
      assert rest[..|chars|] == chars;
      MovePrefix(done, rest, |chars|);
      written := PutEncoded(to, written, url[p]);
      p := p + 1;
      done, rest := done + chars, rest[|chars|..];
    }
    to[written] := 0;
  }

  /** Writes the encoding of one character. */
  method PutEncoded(to: array<byte>, at: nat, ch: byte) returns (end: nat)
    requires at + |EncodeChar(ch)| <= to.Length
    modifies to
    ensures end == at + |EncodeChar(ch)| && to[..end] == old(to[..at]) + EncodeChar(ch)
    ensures forall i :: end <= i < to.Length ==> to[i] == old(to[i])
  {
    if IsEscaped(ch) {
      to[at], to[at + 1], to[at + 2] := PERCENT, Hex(ch / 16), Hex(ch % 16);
      end := at + 3;
    } else {
      to[at] := ch;
      end := at + 1;
    }
  }

  // ----- the decoder

  function Percents(s: seq<byte>): nat {
    if s == [] then 0 else (if s[0] == PERCENT then 1 else 0) + Percents(s[1..])
  }

  /** Every percent sign starts an escape. */
  predicate AllEscapes(s: seq<byte>) {
    forall i :: 0 <= i < |s| && s[i] == PERCENT ==> EscapeAt(s, i) < 256
  }

  /** io_url_decoded_length; the arithmetic is that of size_t, modulo 2^64, and may come out too small. */
  method DecodedLength(s: seq<byte>) returns (length: int)
    ensures length == |s| - 2 * Percents(s) + 1
  {
    var p, count := 0, 0;
    while p < |s|
      invariant p <= |s| && count + Percents(s[p..]) == Percents(s)
    {
      assert s[p..][1..] == s[p + 1..];
      if s[p] == PERCENT {
        count := count + 1;
      }
      p := p + 1;
    }
    length := p - 2 * count + 1;
  }

  /** Decoding is at least as long as its pre-pass says, and as long exactly when all percent signs are escapes. */
  lemma {:induction false} DecodedLengthIff(s: seq<byte>)
    ensures |Decode(s)| >= |s| - 2 * Percents(s)
    ensures |Decode(s)| == |s| - 2 * Percents(s) <==> AllEscapes(s)
    decreases |s|
  {
    if s != [] {
      if s[0] == PERCENT && EscapeAt(s, 0) < 256 {
        assert Percents(s) == 1 + Percents(s[3..]) by {
          assert s[1..][1..][1..] == s[3..];
          assert s[1] != PERCENT && s[2] != PERCENT;
          assert Percents(s[1..]) == Percents(s[1..][1..]) == Percents(s[3..]);
        }
        DecodedLengthIff(s[3..]);
        EscapesBehind(s, 3);
      } else {
        DecodedLengthIff(s[1..]);
        EscapesBehind(s, 1);
      }
    }
  }

  lemma EscapeShift(s: seq<byte>, n: nat, i: nat)
    requires n + i <= |s|
    ensures EscapeAt(s[n..], i) == EscapeAt(s, n + i)
  {
  }

  lemma {:induction false} PercentsAppend(a: seq<byte>, b: seq<byte>)
    ensures Percents(a + b) == Percents(a) + Percents(b)
  {
    if a == [] {
      assert a + b == b;
    } else {
      assert (a + b)[1..] == a[1..] + b;
      PercentsAppend(a[1..], b);
    }
  }

  /** Whether the percent signs behind the first `n` characters are escapes is told by those characters alone. */
  lemma EscapesBehind(s: seq<byte>, n: nat)
    requires n <= |s|
    ensures AllEscapes(s[n..]) <==> forall i :: n <= i < |s| && s[i] == PERCENT ==> EscapeAt(s, i) < 256
  {
    forall i | 0 <= i < |s| - n
      ensures EscapeAt(s[n..], i) == EscapeAt(s, n + i)
    {
      EscapeShift(s, n, i);
    }
    assert forall i :: n <= i < |s| ==> s[i] == s[n..][i - n];
  }

  /** The lengths of an encoding: both pre-passes are exact for it. */
  lemma {:induction false} EncodedLengths(url: seq<byte>)
    ensures |Encode(url)| - 2 * Percents(Encode(url)) == |url|
  {
    if url != [] {
      EncodedLengths(url[1..]);
      PercentsAppend(EncodeChar(url[0]), Encode(url[1..]));
      OnePercent(url[0]);
    }
  }

  lemma OnePercent(ch: byte)
    ensures |EncodeChar(ch)| - 2 * Percents(EncodeChar(ch)) == 1
  {
    if IsEscaped(ch) {
      var h, l := Hex(ch / 16), Hex(ch % 16);
      assert EncodeChar(ch) == [PERCENT] + ([h] + [l]);
      PercentsAppend([PERCENT], [h] + [l]);
      PercentsAppend([h], [l]);
    }
  }

  /**
   io_url_decode: as much of the decoded string as fits. `behind` tells that it looked at the character behind
   the NUL, as it does for a string that ends in a percent sign and whose decoding fits.
   */
  method UrlDecode(out: array<byte>, size: nat, s: seq<byte>) returns (written: nat, ghost behind: bool)
    requires 0 < size <= out.Length
    modifies out
    ensures written == if |Decode(s)| < size then |Decode(s)| else size - 1
    ensures out[..written] == Decode(s)[..written] && out[written] == 0
    ensures forall i :: written < i < out.Length ==> out[i] == old(out[i])
    ensures behind <==> s != [] && s[|s| - 1] == PERCENT && |Decode(s)| < size
  {
    var p := 0;
    written := 0;
    behind := false;
    ghost var text, done, rest := Decode(s), [], Decode(s);
    while p < |s| && written < size - 1
      invariant p <= |s| && written <= size - 1
      invariant rest == Decode(s[p..]) && text == done + rest && out[..written] == done
      invariant forall i :: written < i < out.Length ==> out[i] == old(out[i])
      invariant behind <==> p == |s| && s != [] && s[|s| - 1] == PERCENT
    {
      var ch, n;
      ch, n, behind := DecodeChar(s, p);
      p := p + n;
      out[written] := ch;
      written := written + 1;
      MovePrefix(done, rest, 1);
      done, rest := done + rest[..1], rest[1..];
      assert rest == Decode(s[p..]);
    }
    DecodedEmpty(s[p..]);
    out[written] := 0;
  }

  lemma DecodedEmpty(s: seq<byte>)
    ensures Decode(s) == [] <==> s == []
  {
  }

  /** One round of io_url_decode: the next decoded character, and how many characters it takes. */
  method DecodeChar(s: seq<byte>, p: nat) returns (ch: byte, n: nat, ghost behind: bool)
    requires p < |s|
    ensures 0 < n && p + n <= |s| && Decode(s[p..]) == [ch] + Decode(s[p + n..])
    ensures behind <==> p + n == |s| && s[|s| - 1] == PERCENT
  {
    EscapeShift(s, p, 0);
    ch, n, behind := s[p], 1, false;
    if ch == PERCENT {
      var num := EscapeAt(s, p);
      behind := p + 2 > |s|;
      if num < 256 {
        ch := num;
        n := 3;
      }
    } else if ch == PLUS {
      ch := SPACE;
    }
    assert s[p..][n..] == s[p + n..];
  }
}
