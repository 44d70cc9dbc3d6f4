/** io_http_header_parse: header lines into the map, and that it accepts exactly the rendered ones. */
module HttpHeaders {
  import opened Bytes
  import opened HeaderMap

  const SPACE: byte := 32
  const COLON: byte := 58
  const CR: byte := 13
  const LF: byte := 10

  /** is_http_token_char: no control, and none of ()<>@,;:\"/[]?={} and space. */
  predicate IsToken(ch: byte) {
    && ch > SPACE && ch != 34 && ch != 40 && ch != 41 && ch != 44 && ch != 47
    && !(COLON <= ch <= 64) && !(91 <= ch <= 93) && ch != 123 && ch != 125
  }

  predicate Token(s: seq<byte>) {
    forall i :: 0 <= i < |s| ==> IsToken(s[i])
  }

  /** io_after_space: the position of the first character that is no space. */
  function AfterSpace(t: seq<byte>, p: nat): (q: nat)
    requires p <= |t|
    ensures p <= q <= |t| && CharAt(t, q) != SPACE
    decreases |t| - p
  {
    if CharAt(t, p) == SPACE then AfterSpace(t, p + 1) else p
  }

  /** match_token: the position behind the token. */
  function AfterToken(t: seq<byte>, p: nat): (q: nat)
    requires p <= |t|
    ensures p <= q <= |t| && !IsToken(CharAt(t, q))
    decreases |t| - p
  {
    if IsToken(CharAt(t, p)) then AfterToken(t, p + 1) else p
  }

  predicate CrlfAt(t: seq<byte>, p: nat) {
    CharAt(t, p) == CR && CharAt(t, p + 1) == LF
  }

  /** strstr(t + p, "\r\n") */
  function FindCrlf(t: seq<byte>, p: nat): (q: Option<nat>)
    requires p <= |t|
    ensures q.Some? ==> p <= q.value && q.value + 1 < |t| && CrlfAt(t, q.value)
    decreases |t| - p
  {
    if p == |t| then None
    else if CrlfAt(t, p) then Some(p)
    else FindCrlf(t, p + 1)
  }

  /** The end of the value without the spaces behind it. */
  function TrimmedEnd(t: seq<byte>, value: nat, end: nat): (q: nat)
    requires value <= end <= |t|
    ensures value <= q <= end && (q > value ==> t[q - 1] != SPACE)
    ensures end > value && t[value] != SPACE ==> q > value
    decreases end
  {
    if end > value && t[end - 1] == SPACE then TrimmedEnd(t, value, end - 1) else end
  }

  /** One line: its name, its value, and where the next line starts; or a return code; or no end of line. */
  datatype Line = Line(name: seq<byte>, value: seq<byte>, next: nat) | Bad(code: int) | NoLineEnd

  function ParseLine(t: seq<byte>, p: nat): (l: Line)
    requires p <= |t|
    ensures l.Line? ==> l.name != [] && l.value != [] && p < l.next <= |t|
  {
    var name := AfterSpace(t, p);
    var nameEnd := AfterToken(t, name);
    if nameEnd == name then Bad(-1)
    else
      var colon := AfterSpace(t, nameEnd);
      if CharAt(t, colon) != COLON then Bad(-2)
      else
        var value := AfterSpace(t, colon + 1);
        match FindCrlf(t, value)
        case None => NoLineEnd
        case Some(end) =>
          if end == value then Bad(-3)
          else
            assert t[value] != SPACE;
            Line(t[name..nameEnd], t[value..TrimmedEnd(t, value, end)], end + 2)
  }

  /**
   What the parser ends with. Without an end of line it reads through a null pointer; with a full
   heap it stores one, and goes on at `next`.
   */
  datatype Outcome = Parsed(next: nat) | Rejected(code: int) | NullLineEnd | HeapFull(next: nat)

  /** What is returned: behind the last line also when the heap was too small for it. */
  function Returned(t: seq<byte>, o: Outcome): Option<int> {
    match o
    case Parsed(_) => Some(0)
    case Rejected(code) => Some(code)
    case NullLineEnd => None
    case HeapFull(next) =>
      if CharAt(t, next) != CR then None else if CharAt(t, next + 1) == LF then Some(0) else Some(-5)
  }

  /** What the parser needs to know of the map. */
  datatype Store = Store(entries: seq<Entry>, slots: nat, room: nat)

  datatype Step = Stop(outcome: Outcome) | Next(next: nat, m: Store)

  /** One line, and its addition to the map. */
  function LineStep(t: seq<byte>, p: nat, m: Store): (s: Step)
    requires p <= |t|
    ensures s.Next? ==> p < s.next <= |t|
  {
    match ParseLine(t, p)
    case Bad(code) => Stop(Rejected(code))
    case NoLineEnd => Stop(NullLineEnd)
    case Line(name, value, next) =>
      var e := Entry(name, value);
      if Find(m.entries, name).Some? || m.slots == 0 then Stop(Rejected(-4))
      else if Size(e) > m.room then Stop(HeapFull(next))
      else Next(next, Store(m.entries + [e], m.slots - 1, m.room - Size(e)))
  }

  /** io_http_header_parse */
  function Parse(t: seq<byte>, p: nat, m: Store): (Outcome, Store)
    requires p <= |t|
    decreases |t| - p
  {
    match LineStep(t, p, m)
    case Stop(outcome) => (outcome, m)
    case Next(next, m') =>
      if CharAt(t, next) != CR then Parse(t, next, m')
      else (Closing(t, next), m')
  }

  lemma ParseNext(t: seq<byte>, p: nat, m: Store, next: nat, m': Store)
    requires p <= |t| && LineStep(t, p, m) == Next(next, m')
    ensures next <= |t|
    ensures Parse(t, p, m) == if CharAt(t, next) != CR then Parse(t, next, m') else (Closing(t, next), m')
  {
  }

  /** The empty line behind the last header. */
  function Closing(t: seq<byte>, cr: nat): Outcome {
    if CharAt(t, cr + 1) != LF then Rejected(-5) else Parsed(cr)
  }

  method SkipSpaces(t: seq<byte>, p: nat) returns (q: nat)
    requires p <= |t|
    ensures q == AfterSpace(t, p)
  {
    q := p;
    while CharAt(t, q) == SPACE
      invariant p <= q <= |t| && AfterSpace(t, q) == AfterSpace(t, p)
      decreases |t| - q
    {
      q := q + 1;
    }
  }

  method MatchToken(t: seq<byte>, p: nat) returns (matched: bool, q: nat)
    requires p <= |t|
    ensures q == AfterToken(t, p) && matched == (q != p)
  {
    q := p;
    while IsToken(CharAt(t, q))
      invariant p <= q <= |t| && AfterToken(t, q) == AfterToken(t, p)
      decreases |t| - q
    {
      q := q + 1;
    }
    matched := q != p;
  }

  method TrimSpaces(t: seq<byte>, value: nat, end: nat) returns (q: nat)
    requires value <= end <= |t|
    ensures q == TrimmedEnd(t, value, end)
  {
    q := end;
    while q > value && t[q - 1] == SPACE
      invariant value <= q <= end && TrimmedEnd(t, value, q) == TrimmedEnd(t, value, end)
    {
      q := q - 1;
    }
  }

  /** The places of one line: where its name and its value begin and end, and where the next line starts. */
  datatype Places = Places(name: nat, nameEnd: nat, value: nat, valueEnd: nat, next: nat) | NoPlaces(code: int) | NoEnd

  method ScanLine(t: seq<byte>, start: nat) returns (l: Places)
    requires start <= |t|
    ensures match ParseLine(t, start)
            case Bad(code) => l == NoPlaces(code)
            case NoLineEnd => l == NoEnd
            case Line(name, value, next) =>
              && l.Places? && l.name < l.nameEnd <= |t| && l.value < l.valueEnd <= |t|
              && t[l.name..l.nameEnd] == name && t[l.value..l.valueEnd] == value && l.next == next
  {
    var name := SkipSpaces(t, start);
    var matched, p := MatchToken(t, name);
    if !matched {
      return NoPlaces(-1);
    }
    var nameEnd := p;
    p := SkipSpaces(t, p);
    if CharAt(t, p) != COLON {
      return NoPlaces(-2);
    }
    var value := SkipSpaces(t, p + 1);
    var end := FindCrlf(t, value);
    if end == None {
      return NoEnd;
    }
    if end.value == value {
      return NoPlaces(-3);
    }
    var valueEnd := TrimSpaces(t, value, end.value);
    l := Places(name, nameEnd, value, valueEnd, end.value + 2);
  }

  ghost function ViewOf(map_: Map): Store
    requires map_.Sound()
    reads map_, map_.heap, map_.heap.buf, map_.kvs
  {
    Store(map_.entries, map_.kvs.Length - map_.last, map_.heap.end - map_.heap.data)
  }

  /** One line of io_http_header_parse, into the map. */
  method AddLine(headers: Map, t: seq<byte>, l: Places) returns (result: int, full: bool)
    requires headers.Sound() && NoNul(t)
    requires l.Places? && l.name < l.nameEnd <= |t| && l.value < l.valueEnd <= |t|
    modifies headers, headers.heap`data, headers.heap.buf, headers.kvs
    ensures
      var e := Entry(t[l.name..l.nameEnd], t[l.value..l.valueEnd]);
      var m := old(ViewOf(headers));
      if Find(m.entries, e.key).Some? || m.slots == 0 then
        result == -1 && !full && headers.Sound() && headers.entries == m.entries
      else if Size(e) > m.room then
        result == 0 && full
      else
        result == 0 && !full && headers.Sound()
          && ViewOf(headers) == Store(m.entries + [e], m.slots - 1, m.room - Size(e))
  {
    assert t[l.name..][..l.nameEnd - l.name] == t[l.name..l.nameEnd];
    assert t[l.value..][..l.valueEnd - l.value] == t[l.value..l.valueEnd];
    ghost var e := Entry(t[l.name..l.nameEnd], t[l.value..l.valueEnd]);
    ghost var room := headers.HasRoom(e);
    result := headers.AddSized(t[l.name..], l.nameEnd - l.name, t[l.value..], l.valueEnd - l.value);
    var kv := if result == 0 then headers.kvs[headers.last - 1] else KeyValue(None, None);
    full := result == 0 && (kv.key == None || kv.value == None);
  }

  /** One round of the loop of io_http_header_parse. */
  method ParseOneLine(headers: Map, t: seq<byte>, p: nat) returns (stop: Option<Outcome>, next: nat)
    requires headers.Sound() && NoNul(t) && p <= |t|
    modifies headers, headers.heap`data, headers.heap.buf, headers.kvs
    ensures match LineStep(t, p, old(ViewOf(headers)))
            case Stop(outcome) =>
              && stop == Some(outcome)
              && (!outcome.HeapFull? ==> headers.Sound() && headers.entries == old(headers.entries))
            case Next(q, m) => stop == None && next == q && headers.Sound() && ViewOf(headers) == m
  {
    next := p;
    var l := ScanLine(t, p);
    if l.NoPlaces? {
      return Some(Rejected(l.code)), next;
    }
    if l.NoEnd? {
      return Some(NullLineEnd), next;
    }
    var result, full := AddLine(headers, t, l);
    if result < 0 {
      return Some(Rejected(-4)), next;
    }
    if full {
      return Some(HeapFull(l.next)), next;
    }
    return None, l.next;
  }

  /** io_http_header_parse; the model ends where the source goes on with a null pointer, read or stored. */
  method HeaderParse(headers: Map, t: seq<byte>, start: nat) returns (outcome: Outcome, result: Option<int>)
    requires headers.Sound() && NoNul(t) && start <= |t|
    modifies headers, headers.heap`data, headers.heap.buf, headers.kvs
    ensures
      var (o, m) := Parse(t, start, old(ViewOf(headers)));
      outcome == o && result == Returned(t, o) && (!o.HeapFull? ==> headers.Sound() && headers.entries == m.entries)
  {
    var p := start;
    ghost var all := Parse(t, start, ViewOf(headers));
    while true
      invariant start <= p <= |t| && headers.Sound() && Parse(t, p, ViewOf(headers)) == all
      decreases |t| - p
    {
      var stop, next := ParseOneLine(headers, t, p);
      if stop.Some? {
        return stop.value, Returned(t, stop.value);
      }
      if CharAt(t, next) == CR {
        return Closing(t, next), Returned(t, Closing(t, next));
      }
      p := next;
    }
  }
}
