/** The header lines io_http_header_parse accepts: rendering them is the inverse of parsing. */
module HeaderGrammar {
  import opened Bytes
  import opened HeaderMap
  import opened HttpHeaders

  /** A header line, with the spaces around its parts. */
  datatype Field = Field(before: nat, name: seq<byte>, mid: nat, after: nat, value: seq<byte>, behind: nat)

  function Spaces(n: nat): (s: seq<byte>)
    ensures |s| == n
  {
    if n == 0 then [] else [SPACE] + Spaces(n - 1)
  }

  predicate NoCrlf(s: seq<byte>) {
    forall i :: 0 <= i < |s| - 1 ==> !(s[i] == CR && s[i + 1] == LF)
  }

  /**
   The characters of a token in section 5.6.2 of RFC 9110: a letter, a digit or one of 15 marks. This library takes
   DEL and every octet above it as well.
   */
  predicate TokenChar(ch: byte) {
    || 'A' as int <= ch <= 'Z' as int || 'a' as int <= ch <= 'z' as int || '0' as int <= ch <= '9' as int
    || ch == '!' as int || ch == '#' as int || ch == '$' as int || ch == '%' as int || ch == '&' as int
    || ch == '\'' as int || ch == '*' as int || ch == '+' as int || ch == '-' as int || ch == '.' as int
    || ch == '^' as int || ch == '_' as int || ch == '`' as int || ch == '|' as int || ch == '~' as int
    || ch >= 127
  }

  predicate TokenText(s: seq<byte>) {
    forall ch :: ch in s ==> TokenChar(ch)
  }

  /** The mask and the list of is_http_token_char leave exactly these. */
  lemma IsTokenIff(ch: byte)
    ensures IsToken(ch) <==> TokenChar(ch)
  {
  }

  lemma TokenIff(s: seq<byte>)
    ensures Token(s) <==> TokenText(s)
  {
    forall i | 0 <= i < |s|
      ensures s[i] in s && (IsToken(s[i]) <==> TokenChar(s[i]))
    {
      IsTokenIff(s[i]);
    }
  }

  /** A token as the name, and a value without a line end and without spaces around it. */
  predicate WellFormed(f: Field) {
    f.name != [] && TokenText(f.name) && ValueText(f.value)
  }

  predicate ValueText(s: seq<byte>) {
    s != [] && s[0] != SPACE && s[|s| - 1] != SPACE && NoCrlf(s)
  }

  predicate AllWellFormed(fs: seq<Field>)
    decreases |fs|
  {
    fs == [] || (WellFormed(fs[0]) && AllWellFormed(fs[1..]))
  }

  /** What a line is made of. */
  function Parts(f: Field): seq<seq<byte>> {
    [Spaces(f.before), f.name, Spaces(f.mid), [COLON], Spaces(f.after), f.value, Spaces(f.behind), [CR, LF]]
  }

  function Render(f: Field): seq<byte> {
    Join(Parts(f))
  }

  lemma JoinCons<T>(a: seq<T>, rest: seq<seq<T>>)
    ensures Join([a] + rest) == a + Join(rest)
  {
    assert ([a] + rest)[1..] == rest;
  }

  lemma JoinFour<T>(a: seq<T>, b: seq<T>, c: seq<T>, d: seq<T>, rest: seq<seq<T>>)
    ensures Join([a, b, c, d] + rest) == a + (b + (c + (d + Join(rest))))
  {
    JoinCons(d, rest);
    JoinCons(c, [d] + rest);
    JoinCons(b, [c] + ([d] + rest));
    JoinCons(a, [b] + ([c] + ([d] + rest)));
    assert [a, b, c, d] + rest == [a] + ([b] + ([c] + ([d] + rest)));
  }

  lemma RenderIs(f: Field)
    ensures Render(f) == Spaces(f.before) + (f.name + (Spaces(f.mid) + ([COLON] + RenderValue(f))))
    ensures |Render(f)| == Length(f)
  {
    var value := [Spaces(f.after), f.value, Spaces(f.behind), [CR, LF]];
    JoinFour(Spaces(f.before), f.name, Spaces(f.mid), [COLON], value);
    assert Parts(f) == [Spaces(f.before), f.name, Spaces(f.mid), [COLON]] + value;
    JoinFour(Spaces(f.after), f.value, Spaces(f.behind), [CR, LF], []);
    assert value + [] == value;
    assert Join(value) == RenderValue(f) + [];
  }

  function RenderValue(f: Field): seq<byte> {
    Spaces(f.after) + (f.value + (Spaces(f.behind) + [CR, LF]))
  }

  function Length(f: Field): nat {
    f.before + |f.name| + f.mid + 1 + f.after + |f.value| + f.behind + 2
  }

  /** Where the parts of a line begin. */
  datatype Marks = Marks(name: nat, nameEnd: nat, colon: nat, value: nat, valueEnd: nat, end: nat)

  function MarksOf(p: nat, f: Field): Marks {
    var name := p + f.before;
    var nameEnd := name + |f.name|;
    var colon := nameEnd + f.mid;
    var value := colon + 1 + f.after;
    var valueEnd := value + |f.value|;
    Marks(name, nameEnd, colon, value, valueEnd, valueEnd + f.behind)
  }

  predicate SpacesAt(t: seq<byte>, p: nat, n: nat)
    decreases n
  {
    n == 0 || (p < |t| && t[p] == SPACE && SpacesAt(t, p + 1, n - 1))
  }

  /** The parts of a line are in their places. */
  predicate LineLies(t: seq<byte>, p: nat, f: Field) {
    var at := MarksOf(p, f);
    at.end + 1 < |t| && NameLies(t, p, f, at) && ValueLies(t, f, at)
  }

  predicate NameLies(t: seq<byte>, p: nat, f: Field, at: Marks)
    requires at.name <= at.nameEnd <= |t| && at.colon < |t|
  {
    && SpacesAt(t, p, f.before) && t[at.name..at.nameEnd] == f.name
    && SpacesAt(t, at.nameEnd, f.mid) && t[at.colon] == COLON
  }

  predicate ValueLies(t: seq<byte>, f: Field, at: Marks)
    requires at.value <= at.valueEnd <= |t|
  {
    && SpacesAt(t, at.colon + 1, f.after) && t[at.value..at.valueEnd] == f.value
    && SpacesAt(t, at.valueEnd, f.behind) && CrlfAt(t, at.end)
  }

  lemma {:induction false} SpacesLie(t: seq<byte>, p: nat, n: nat)
    requires p <= |t|
    ensures Holds(t, p, Spaces(n)) <==> SpacesAt(t, p, n)
    ensures SpacesAt(t, p, n) ==> p + n <= |t|
    decreases n
  {
    if n > 0 && p < |t| {
      SpacesLie(t, p + 1, n - 1);
    }
  }

  lemma CrlfLies(t: seq<byte>, p: nat)
    ensures Holds(t, p, [CR, LF]) <==> p + 1 < |t| && CrlfAt(t, p)
  {
    assert [CR, LF][1..] == [LF] && [LF][1..] == [];
    assert Holds(t, p + 1, [LF]) <==> p + 1 < |t| && t[p + 1] == LF;
  }

  /** A rendered line is its parts, one behind the other. */
  lemma RenderedIff(t: seq<byte>, p: nat, f: Field)
    requires p + Length(f) <= |t|
    ensures Holds(t, p, Render(f)) <==> LineLies(t, p, f)
  {
    var at := MarksOf(p, f);
    RenderedNameIff(t, p, f, at);
    RenderedValueIff(t, f, at);
  }

  lemma LineIff(t: seq<byte>, p: nat, f: Field)
    ensures |Render(f)| == Length(f) && (Holds(t, p, Render(f)) <==> LineLies(t, p, f))
  {
    RenderIs(f);
    if p + Length(f) <= |t| {
      RenderedIff(t, p, f);
    } else {
      HoldsSlice(t, p, Render(f));
    }
  }

  /** Spaces in front of something are spaces, and the something behind them. */
  lemma SpacedIff(t: seq<byte>, p: nat, n: nat, s: seq<byte>)
    requires p + n <= |t|
    ensures Holds(t, p, Spaces(n) + s) <==> SpacesAt(t, p, n) && Holds(t, p + n, s)
  {
    HoldsBoth(t, p, Spaces(n), s);
    SpacesLie(t, p, n);
  }

  /** A text in front of something. */
  lemma TextIff(t: seq<byte>, p: nat, a: seq<byte>, s: seq<byte>)
    requires p + |a| <= |t|
    ensures Holds(t, p, a + s) <==> t[p..p + |a|] == a && Holds(t, p + |a|, s)
  {
    HoldsBoth(t, p, a, s);
    HoldsSlice(t, p, a);
  }

  lemma RenderedNameIff(t: seq<byte>, p: nat, f: Field, at: Marks)
    requires at == MarksOf(p, f) && at.end + 2 <= |t|
    ensures Holds(t, p, Render(f)) <==> NameLies(t, p, f, at) && Holds(t, at.colon + 1, RenderValue(f))
  {
    var value := RenderValue(f);
    RenderIs(f);
    SpacedIff(t, p, f.before, f.name + (Spaces(f.mid) + ([COLON] + value)));
    TextIff(t, at.name, f.name, Spaces(f.mid) + ([COLON] + value));
    SpacedIff(t, at.nameEnd, f.mid, [COLON] + value);
    TextIff(t, at.colon, [COLON], value);
    assert t[at.colon..at.colon + 1] == [COLON] <==> t[at.colon] == COLON;
  }

  lemma RenderedValueIff(t: seq<byte>, f: Field, at: Marks)
    requires at.value == at.colon + 1 + f.after && at.valueEnd == at.value + |f.value|
    requires at.end == at.valueEnd + f.behind && at.end + 2 <= |t|
    ensures Holds(t, at.colon + 1, RenderValue(f)) <==> ValueLies(t, f, at)
  {
    SpacedIff(t, at.colon + 1, f.after, f.value + (Spaces(f.behind) + [CR, LF]));
    TextIff(t, at.value, f.value, Spaces(f.behind) + [CR, LF]);
    SpacedIff(t, at.valueEnd, f.behind, [CR, LF]);
    CrlfLies(t, at.end);
  }

  // ----- the parts of one line

  lemma {:induction false} SpacesSkipped(t: seq<byte>, p: nat, n: nat)
    requires p + n <= |t| && SpacesAt(t, p, n) && CharAt(t, p + n) != SPACE
    ensures AfterSpace(t, p) == p + n
    decreases n
  {
    if n > 0 {
      SpacesSkipped(t, p + 1, n - 1);
    }
  }

  lemma {:induction false} SpacesFound(t: seq<byte>, p: nat)
    requires p <= |t|
    ensures SpacesAt(t, p, AfterSpace(t, p) - p)
    decreases |t| - p
  {
    if CharAt(t, p) == SPACE {
      SpacesFound(t, p + 1);
    }
  }

  lemma {:induction false} TokenMatched(t: seq<byte>, p: nat, q: nat)
    requires p <= q <= |t| && Token(t[p..q]) && !IsToken(CharAt(t, q))
    ensures AfterToken(t, p) == q
    decreases q - p
  {
    if p < q {
      assert t[p..q][0] == t[p] && t[p + 1..q] == t[p..q][1..];
      TokenMatched(t, p + 1, q);
    }
  }

  lemma {:induction false} TokenFound(t: seq<byte>, p: nat)
    requires p <= |t|
    ensures Token(t[p..AfterToken(t, p)])
    decreases |t| - p
  {
    if IsToken(CharAt(t, p)) {
      TokenFound(t, p + 1);
      assert t[p..AfterToken(t, p)] == [t[p]] + t[p + 1..AfterToken(t, p)];
    }
  }

  /** The text from `p` to the line end: a value up to `q`, then spaces. */
  lemma {:induction false} LineEndFound(t: seq<byte>, p: nat, q: nat, behind: nat)
    requires p <= q && q + behind + 1 < |t| && NoCrlf(t[p..q]) && SpacesAt(t, q, behind) && CrlfAt(t, q + behind)
    ensures FindCrlf(t, p) == Some(q + behind)
    decreases q - p + behind
  {
    if p < q {
      assert t[p + 1..q] == t[p..q][1..];
      assert p + 1 < q ==> t[p..q][0] == t[p] && t[p..q][1] == t[p + 1];
      LineEndFound(t, p + 1, q, behind);
    } else if behind > 0 {
      LineEndFound(t, p + 1, q + 1, behind - 1);
    }
  }

  lemma {:induction false} NoCrlfBefore(t: seq<byte>, p: nat)
    requires p <= |t| && FindCrlf(t, p).Some?
    ensures forall i :: p <= i < FindCrlf(t, p).value ==> !CrlfAt(t, i)
    decreases |t| - p
  {
    if !CrlfAt(t, p) {
      NoCrlfBefore(t, p + 1);
    }
  }

  lemma ValueHasNoCrlf(t: seq<byte>, value: nat, valueEnd: nat)
    requires value <= valueEnd <= |t| && FindCrlf(t, value).Some? && valueEnd <= FindCrlf(t, value).value
    ensures NoCrlf(t[value..valueEnd])
  {
    NoCrlfBefore(t, value);
    var s := t[value..valueEnd];
    forall i | 0 <= i < |s| - 1
      ensures !(s[i] == CR && s[i + 1] == LF)
    {
      assert !CrlfAt(t, value + i);
    }
  }

  lemma {:induction false} LastSpace(t: seq<byte>, p: nat, n: nat)
    requires n > 0
    ensures SpacesAt(t, p, n) <==> SpacesAt(t, p, n - 1) && p + n <= |t| && t[p + n - 1] == SPACE
    decreases n
  {
    if n > 1 {
      LastSpace(t, p + 1, n - 1);
    }
  }

  lemma {:induction false} ValueTrimmed(t: seq<byte>, value: nat, p: nat, behind: nat)
    requires value < p && p + behind <= |t| && SpacesAt(t, p, behind) && t[p - 1] != SPACE
    ensures TrimmedEnd(t, value, p + behind) == p
    decreases behind
  {
    if behind > 0 {
      LastSpace(t, p, behind);
      ValueTrimmed(t, value, p, behind - 1);
    }
  }

  lemma {:induction false} TrimmedFound(t: seq<byte>, value: nat, end: nat)
    requires value <= end <= |t|
    ensures SpacesAt(t, TrimmedEnd(t, value, end), end - TrimmedEnd(t, value, end))
    decreases end
  {
    if end > value && t[end - 1] == SPACE {
      TrimmedFound(t, value, end - 1);
      LastSpace(t, TrimmedEnd(t, value, end), end - TrimmedEnd(t, value, end));
    }
  }

  // ----- one line

  lemma ScansRenderedName(t: seq<byte>, p: nat, f: Field, at: Marks)
    requires WellFormed(f) && at == MarksOf(p, f) && at.end + 1 < |t| && NameLies(t, p, f, at)
    ensures AfterSpace(t, p) == at.name && AfterToken(t, at.name) == at.nameEnd && AfterSpace(t, at.nameEnd) == at.colon
  {
    assert f.name[0] == t[at.name];
    TokenIff(f.name);
    SpacesSkipped(t, p, f.before);
    TokenMatched(t, at.name, at.nameEnd);
    SpacesSkipped(t, at.nameEnd, f.mid);
  }

  lemma ScansRenderedValue(t: seq<byte>, f: Field, at: Marks)
    requires ValueText(f.value) && at.value == at.colon + 1 + f.after && at.valueEnd == at.value + |f.value|
    requires at.end == at.valueEnd + f.behind && at.end + 1 < |t| && ValueLies(t, f, at)
    ensures AfterSpace(t, at.colon + 1) == at.value && FindCrlf(t, at.value) == Some(at.end)
    ensures TrimmedEnd(t, at.value, at.end) == at.valueEnd
  {
    assert f.value[0] == t[at.value] && f.value[|f.value| - 1] == t[at.valueEnd - 1];
    SpacesSkipped(t, at.colon + 1, f.after);
    LineEndFound(t, at.value, at.valueEnd, f.behind);
    ValueTrimmed(t, at.value, at.valueEnd, f.behind);
  }

  /** What the parser makes of a line whose parts it finds at these places. */
  lemma LineBetween(t: seq<byte>, p: nat, at: Marks)
    requires p <= at.name < at.nameEnd <= at.colon < at.value < at.valueEnd <= at.end < |t| - 1
    requires AfterSpace(t, p) == at.name && AfterToken(t, at.name) == at.nameEnd
             && AfterSpace(t, at.nameEnd) == at.colon
    requires t[at.colon] == COLON && AfterSpace(t, at.colon + 1) == at.value
    requires FindCrlf(t, at.value) == Some(at.end) && TrimmedEnd(t, at.value, at.end) == at.valueEnd
    ensures ParseLine(t, p) == Line(t[at.name..at.nameEnd], t[at.value..at.valueEnd], at.end + 2)
  {
  }

  /** A rendered line parses to its name and value. */
  lemma ParsesRenderedLine(t: seq<byte>, p: nat, f: Field)
    requires WellFormed(f) && LineLies(t, p, f)
    ensures p <= |t| && ParseLine(t, p) == Line(f.name, f.value, p + Length(f))
  {
    var at := MarksOf(p, f);
    ScansRenderedName(t, p, f, at);
    ScansRenderedValue(t, f, at);
    LineBetween(t, p, at);
  }

  lemma ParsedNameLies(t: seq<byte>, p: nat, f: Field, at: Marks)
    requires at == MarksOf(p, f) && at.end + 1 < |t| && AfterSpace(t, p) == at.name
             && AfterToken(t, at.name) == at.nameEnd
    requires AfterSpace(t, at.nameEnd) == at.colon && t[at.colon] == COLON && f.name == t[at.name..at.nameEnd]
    ensures NameLies(t, p, f, at) && TokenText(f.name)
  {
    SpacesFound(t, p);
    TokenFound(t, at.name);
    TokenIff(f.name);
    SpacesFound(t, at.nameEnd);
  }

  lemma ParsedValueLies(t: seq<byte>, f: Field, at: Marks)
    requires at.value == at.colon + 1 + f.after && at.valueEnd == at.value + |f.value|
             && at.end == at.valueEnd + f.behind
    requires at.end + 1 < |t| && AfterSpace(t, at.colon + 1) == at.value && FindCrlf(t, at.value) == Some(at.end)
    requires TrimmedEnd(t, at.value, at.end) == at.valueEnd && f.value == t[at.value..at.valueEnd]
    ensures ValueLies(t, f, at) && NoCrlf(f.value)
  {
    SpacesFound(t, at.colon + 1);
    TrimmedFound(t, at.value, at.end);
    ValueHasNoCrlf(t, at.value, at.valueEnd);
  }

  /** A line that parses is a rendered one. */
  lemma ParsedLineIsRendered(t: seq<byte>, p: nat) returns (f: Field)
    requires p <= |t| && ParseLine(t, p).Line?
    ensures WellFormed(f) && LineLies(t, p, f)
    ensures ParseLine(t, p) == Line(f.name, f.value, p + Length(f))
  {
    var name := AfterSpace(t, p);
    var nameEnd := AfterToken(t, name);
    var colon := AfterSpace(t, nameEnd);
    var value := AfterSpace(t, colon + 1);
    var end := FindCrlf(t, value).value;
    var valueEnd := TrimmedEnd(t, value, end);
    var at := Marks(name, nameEnd, colon, value, valueEnd, end);
    f := Field(name - p, t[name..nameEnd], colon - nameEnd, value - colon - 1, t[value..valueEnd], end - valueEnd);
    assert at == MarksOf(p, f);
    ParsedNameLies(t, p, f, at);
    ParsedValueLies(t, f, at);
  }

  // ----- all lines

  function RenderAll(fs: seq<Field>): seq<byte> {
    if fs == [] then [] else Render(fs[0]) + RenderAll(fs[1..])
  }

  function EntriesOf(fs: seq<Field>): seq<Entry> {
    if fs == [] then [] else [Entry(fs[0].name, fs[0].value)] + EntriesOf(fs[1..])
  }

  /** The map takes all these entries. */
  ghost predicate Fits(m: Store, entries: seq<Entry>) {
    DistinctKeys(m.entries + entries) && |entries| <= m.slots && Use(entries) <= m.room
  }

  /** Where the header ends. */
  function EndOf(p: nat, fs: seq<Field>): nat
    decreases |fs|
  {
    if fs == [] then p else EndOf(p + Length(fs[0]), fs[1..])
  }

  /** The lines of a header lie one behind the other, and the empty line behind them. */
  predicate HeaderLies(t: seq<byte>, p: nat, fs: seq<Field>)
    decreases |fs|
  {
    if fs == [] then p + 1 < |t| && CrlfAt(t, p) else LineLies(t, p, fs[0]) && HeaderLies(t, p + Length(fs[0]), fs[1..])
  }

  lemma RenderCons(fs: seq<Field>)
    requires fs != []
    ensures RenderAll(fs) + [CR, LF] == Render(fs[0]) + (RenderAll(fs[1..]) + [CR, LF])
  {
  }

  lemma RenderAllIff(t: seq<byte>, p: nat, fs: seq<Field>)
    requires fs != []
    ensures Holds(t, p, RenderAll(fs) + [CR, LF])
            <==> LineLies(t, p, fs[0]) && Holds(t, p + Length(fs[0]), RenderAll(fs[1..]) + [CR, LF])
  {
    LineIff(t, p, fs[0]);
    RenderCons(fs);
    HoldsBoth(t, p, Render(fs[0]), RenderAll(fs[1..]) + [CR, LF]);
  }

  /** A rendered header is its lines, one behind the other, and the empty line. */
  lemma {:induction false} RenderedHeaderIff(t: seq<byte>, p: nat, fs: seq<Field>)
    ensures Holds(t, p, RenderAll(fs) + [CR, LF]) <==> HeaderLies(t, p, fs)
    decreases |fs|
  {
    if fs == [] {
      assert RenderAll(fs) + [CR, LF] == [CR, LF];
      CrlfLies(t, p);
    } else {
      RenderAllIff(t, p, fs);
      RenderedHeaderIff(t, p + Length(fs[0]), fs[1..]);
    }
  }

  lemma {:induction false} EndOfRendered(p: nat, fs: seq<Field>)
    ensures EndOf(p, fs) == p + |RenderAll(fs)|
    decreases |fs|
  {
    if fs != [] {
      RenderIs(fs[0]);
      EndOfRendered(p + Length(fs[0]), fs[1..]);
    }
  }

  lemma LineBegins(t: seq<byte>, p: nat, f: Field)
    requires WellFormed(f) && LineLies(t, p, f)
    ensures p < |t| && t[p] != CR
  {
    TokenIff(f.name);
  }

  /** The map with one more entry. */
  function WithEntry(m: Store, e: Entry): Store
    requires m.slots > 0 && Size(e) <= m.room
  {
    Store(m.entries + [e], m.slots - 1, m.room - Size(e))
  }

  /** Entries fit exactly when the first is new and has room, and the others fit behind it. */
  lemma FitsIff(m: Store, e: Entry, rest: seq<Entry>)
    requires DistinctKeys(m.entries)
    ensures Fits(m, [e] + rest) ==> Find(m.entries, e.key) == None && m.slots > 0 && Size(e) <= m.room
    ensures Find(m.entries, e.key) == None && m.slots > 0 && Size(e) <= m.room ==>
              DistinctKeys(m.entries + [e]) && (Fits(m, [e] + rest) <==> Fits(WithEntry(m, e), rest))
  {
    var all := m.entries + ([e] + rest);
    assert all == m.entries + [e] + rest;
    assert all[|m.entries|] == e;
    FindSpec(m.entries, e.key);
    if DistinctKeys(all) {
      forall k | 0 <= k < |m.entries|
        ensures !SameIgnoringCase(e.key, m.entries[k].key)
      {
        assert all[k] == m.entries[k];
        assert !SameIgnoringCase(all[k].key, all[|m.entries|].key);
      }
    }
    if Find(m.entries, e.key) == None {
      AdditionKeepsDistinctIff(m.entries, e.key, e);
    }
    assert Use([e] + rest) == Size(e) + Use(rest);
  }

  /** The entries fit one after the other. */
  predicate FitsInTurn(m: Store, entries: seq<Entry>)
    decreases |entries|
  {
    entries == []
    || (Find(m.entries, entries[0].key) == None && m.slots > 0 && Size(entries[0]) <= m.room
        && FitsInTurn(WithEntry(m, entries[0]), entries[1..]))
  }

  lemma {:induction false} FitsInTurnIff(m: Store, entries: seq<Entry>)
    requires DistinctKeys(m.entries)
    ensures FitsInTurn(m, entries) <==> Fits(m, entries)
    decreases |entries|
  {
    if entries == [] {
      assert m.entries + entries == m.entries;
    } else {
      var e, rest := entries[0], entries[1..];
      assert entries == [e] + rest;
      FitsIff(m, e, rest);
      if Find(m.entries, e.key) == None && m.slots > 0 && Size(e) <= m.room {
        FitsInTurnIff(WithEntry(m, e), rest);
      }
    }
  }

  /** The parser finds these lines, and then the empty line. */
  predicate LinesParse(t: seq<byte>, p: nat, fs: seq<Field>)
    decreases |fs|
  {
    if fs == [] then p + 1 < |t| && CrlfAt(t, p)
    else
      p < |t| && t[p] != CR && ParseLine(t, p) == Line(fs[0].name, fs[0].value, p + Length(fs[0]))
      && LinesParse(t, p + Length(fs[0]), fs[1..])
  }

  lemma LineParsesIn(t: seq<byte>, p: nat, f: Field)
    requires WellFormed(f) && LineLies(t, p, f)
    ensures p < |t| && t[p] != CR && ParseLine(t, p) == Line(f.name, f.value, p + Length(f))
  {
    LineBegins(t, p, f);
    ParsesRenderedLine(t, p, f);
  }

  lemma {:induction false} HeaderLinesParse(t: seq<byte>, p: nat, fs: seq<Field>)
    requires AllWellFormed(fs) && HeaderLies(t, p, fs)
    ensures LinesParse(t, p, fs)
    decreases |fs|
  {
    if fs != [] {
      HeaderLinesParse(t, p + Length(fs[0]), fs[1..]);
      LineParsesIn(t, p, fs[0]);
    }
  }

  lemma {:induction false} ParsesLines(t: seq<byte>, p: nat, fs: seq<Field>, m: Store)
    requires p <= |t| && fs != [] && LinesParse(t, p, fs) && FitsInTurn(m, EntriesOf(fs))
    ensures Parse(t, p, m).0 == Parsed(EndOf(p, fs))
    ensures Parse(t, p, m).1.entries == m.entries + EntriesOf(fs)
    decreases |fs|
  {
    var next, rest := p + Length(fs[0]), fs[1..];
    var m' := StepsOverLine(t, p, fs, m);
    ParseNext(t, p, m, next, m');
    if rest != [] {
      ParsesLines(t, next, rest, m');
    }
  }

  lemma StepsOverLine(t: seq<byte>, p: nat, fs: seq<Field>, m: Store) returns (m': Store)
    requires p <= |t| && fs != [] && LinesParse(t, p, fs) && FitsInTurn(m, EntriesOf(fs))
    ensures LineStep(t, p, m) == Next(p + Length(fs[0]), m')
    ensures FitsInTurn(m', EntriesOf(fs[1..])) && m.entries + EntriesOf(fs) == m'.entries + EntriesOf(fs[1..])
  {
    var e := Entry(fs[0].name, fs[0].value);
    m' := WithEntry(m, e);
    MoveEntry(m.entries, e, EntriesOf(fs[1..]));
  }

  lemma MoveEntry(a: seq<Entry>, e: Entry, b: seq<Entry>)
    ensures a + ([e] + b) == (a + [e]) + b && ([e] + b)[1..] == b
  {
  }

  /** `fs` is a header at `p` that the map takes. */
  ghost predicate HeaderAt(t: seq<byte>, p: nat, fs: seq<Field>, m: Store) {
    && fs != [] && AllWellFormed(fs)
    && HeaderLies(t, p, fs) && Fits(m, EntriesOf(fs))
  }

  /** Parsing inverts rendering: every rendered header goes into the map, in order, whatever follows it. */
  lemma ParsesHeader(t: seq<byte>, p: nat, fs: seq<Field>, m: Store)
    requires p <= |t| && DistinctKeys(m.entries) && HeaderAt(t, p, fs, m)
    ensures Parse(t, p, m).0 == Parsed(EndOf(p, fs))
    ensures Parse(t, p, m).1.entries == m.entries + EntriesOf(fs)
  {
    HeaderLinesParse(t, p, fs);
    FitsInTurnIff(m, EntriesOf(fs));
    ParsesLines(t, p, fs, m);
  }

  /** A line that goes into the map is a rendered one that fits. */
  lemma StepIsLine(t: seq<byte>, p: nat, m: Store) returns (f: Field)
    requires p <= |t| && LineStep(t, p, m).Next?
    ensures WellFormed(f) && LineLies(t, p, f)
    ensures Find(m.entries, f.name) == None && m.slots > 0 && Size(Entry(f.name, f.value)) <= m.room
    ensures LineStep(t, p, m) == Next(p + Length(f), WithEntry(m, Entry(f.name, f.value)))
  {
    f := ParsedLineIsRendered(t, p);
  }

  lemma AcceptedStep(t: seq<byte>, p: nat, m: Store)
    requires p <= |t| && Parse(t, p, m).0.Parsed?
    ensures
      var step := LineStep(t, p, m);
      && step.Next?
      && if CharAt(t, step.next) == CR then CrlfAt(t, step.next) else Parse(t, step.next, step.m).0.Parsed?
  {
    if LineStep(t, p, m).Next? {
      ParseNext(t, p, m, LineStep(t, p, m).next, LineStep(t, p, m).m);
    }
  }

  lemma LineInFront(t: seq<byte>, p: nat, m: Store, f: Field, rest: seq<Field>)
    requires WellFormed(f) && LineLies(t, p, f) && AllWellFormed(rest) && HeaderLies(t, p + Length(f), rest)
    requires Find(m.entries, f.name) == None && m.slots > 0 && Size(Entry(f.name, f.value)) <= m.room
    requires FitsInTurn(WithEntry(m, Entry(f.name, f.value)), EntriesOf(rest))
    ensures var fs := [f] + rest;
            AllWellFormed(fs) && HeaderLies(t, p, fs) && FitsInTurn(m, EntriesOf(fs))
  {
    var fs := [f] + rest;
    assert fs[1..] == rest && EntriesOf(fs)[1..] == EntriesOf(rest);
  }

  /** A line that goes into the map, in front of a header that fits behind it, is the first of a longer one. */
  lemma StepInFront(t: seq<byte>, p: nat, m: Store, rest: seq<Field>) returns (fs: seq<Field>)
    requires p <= |t| && LineStep(t, p, m).Next? && AllWellFormed(rest)
    requires HeaderLies(t, LineStep(t, p, m).next, rest) && FitsInTurn(LineStep(t, p, m).m, EntriesOf(rest))
    ensures fs != [] && AllWellFormed(fs) && HeaderLies(t, p, fs) && FitsInTurn(m, EntriesOf(fs))
  {
    var f := StepIsLine(t, p, m);
    LineInFront(t, p, m, f, rest);
    fs := [f] + rest;
  }

  /** Rendering inverts parsing: what the parser accepts are rendered lines that fit the map. */
  lemma {:induction false} ParsedIsLines(t: seq<byte>, p: nat, m: Store) returns (fs: seq<Field>)
    requires p <= |t| && Parse(t, p, m).0.Parsed?
    ensures fs != [] && AllWellFormed(fs) && HeaderLies(t, p, fs) && FitsInTurn(m, EntriesOf(fs))
    decreases |t| - p
  {
    AcceptedStep(t, p, m);
    var next := LineStep(t, p, m).next;
    var rest: seq<Field> := [];
    if CharAt(t, next) != CR {
      rest := ParsedIsLines(t, next, LineStep(t, p, m).m);
    }
    fs := StepInFront(t, p, m, rest);
  }

  lemma ParsedIsHeader(t: seq<byte>, p: nat, m: Store) returns (fs: seq<Field>)
    requires p <= |t| && DistinctKeys(m.entries) && Parse(t, p, m).0.Parsed?
    ensures HeaderAt(t, p, fs, m)
  {
    fs := ParsedIsLines(t, p, m);
    FitsInTurnIff(m, EntriesOf(fs));
  }

  lemma ParsesHeld(t: seq<byte>, p: nat, fs: seq<Field>, m: Store)
    requires p <= |t| && fs != [] && AllWellFormed(fs) && DistinctKeys(m.entries) && Fits(m, EntriesOf(fs))
    requires Holds(t, p, RenderAll(fs) + [CR, LF])
    ensures Parse(t, p, m).0 == Parsed(p + |RenderAll(fs)|)
    ensures Parse(t, p, m).1.entries == m.entries + EntriesOf(fs)
  {
    RenderedHeaderIff(t, p, fs);
    EndOfRendered(p, fs);
    ParsesHeader(t, p, fs, m);
  }

  /** Parsing the rendering of a header, between any texts, fills the map with its entries and stops at its end. */
  lemma ParseOfRender(before: seq<byte>, fs: seq<Field>, behind: seq<byte>, m: Store)
    requires fs != [] && AllWellFormed(fs)
    requires DistinctKeys(m.entries) && Fits(m, EntriesOf(fs))
    ensures
      var (outcome, m') := Parse(before + (RenderAll(fs) + [CR, LF]) + behind, |before|, m);
      outcome == Parsed(|before| + |RenderAll(fs)|) && m'.entries == m.entries + EntriesOf(fs)
  {
    var lines := RenderAll(fs) + [CR, LF];
    HeldBetween(before, lines, behind);
    ParsesHeld(before + lines + behind, |before|, fs, m);
  }

  lemma HeldBetween(before: seq<byte>, s: seq<byte>, behind: seq<byte>)
    ensures Holds(before + s + behind, |before|, s)
  {
    var t := before + s + behind;
    assert t[|before|..|before| + |s|] == s;
    HoldsSlice(t, |before|, s);
  }

  /** The parser accepts exactly the headers that rendering makes and the map takes. */
  lemma AcceptsIff(t: seq<byte>, p: nat, m: Store)
    requires p <= |t| && DistinctKeys(m.entries)
    ensures Parse(t, p, m).0.Parsed? <==>
            exists fs :: HeaderAt(t, p, fs, m) && Holds(t, p, RenderAll(fs) + [CR, LF])
  {
    if Parse(t, p, m).0.Parsed? {
      var fs := ParsedIsHeader(t, p, m);
      RenderedHeaderIff(t, p, fs);
    }
    forall fs | HeaderAt(t, p, fs, m)
      ensures Parse(t, p, m).0.Parsed?
    {
      ParsesHeader(t, p, fs, m);
    }
  }

  /** After parsing, every header is found under any casing of its name. */
  lemma ParsedHeaderIsFound(t: seq<byte>, p: nat, fs: seq<Field>, m: Store, i: nat, name: seq<byte>)
    requires p <= |t| && i < |fs| && DistinctKeys(m.entries) && HeaderAt(t, p, fs, m)
    requires SameIgnoringCase(name, fs[i].name)
    ensures
      var entries := Parse(t, p, m).1.entries;
      var found := Find(entries, name);
      found.Some? && entries[found.value] == Entry(fs[i].name, fs[i].value)
  {
    ParsesHeader(t, p, fs, m);
    EntryAt(fs, i);
    FindsAnyCasing(m.entries + EntriesOf(fs), |m.entries| + i, name);
  }

  lemma {:induction false} EntryAt(fs: seq<Field>, i: nat)
    requires i < |fs|
    ensures |EntriesOf(fs)| == |fs| && EntriesOf(fs)[i] == Entry(fs[i].name, fs[i].value)
  {
    if i > 0 {
      EntryAt(fs[1..], i - 1);
    } else if |fs| > 1 {
      EntryAt(fs[1..], 0);
    }
  }
}
