/** The texts on which io_http_header_parse goes on from a null pointer, or stores one. */
module HeaderFailures {
  import opened Bytes
  import opened HeaderMap
  import opened HttpHeaders
  import opened HeaderGrammar

  /** Lines lie one behind the other, and the parser looks for one more. */
  predicate LinesLie(t: seq<byte>, p: nat, fs: seq<Field>)
    decreases |fs|
  {
    fs == []
    || (LineLies(t, p, fs[0]) && CharAt(t, p + Length(fs[0])) != CR && LinesLie(t, p + Length(fs[0]), fs[1..]))
  }

  /** The map behind these entries. */
  function Filled(m: Store, entries: seq<Entry>): Store
    requires |entries| <= m.slots && Use(entries) <= m.room
  {
    Store(m.entries + entries, m.slots - |entries|, m.room - Use(entries))
  }

  /** The lines `fs` go into the map, and the parser comes to `q`. */
  ghost predicate LeadsTo(t: seq<byte>, p: nat, fs: seq<Field>, m: Store, q: nat) {
    AllWellFormed(fs) && LinesLie(t, p, fs) && q == EndOf(p, fs) && Fits(m, EntriesOf(fs))
  }

  lemma FillsFirst(m: Store, e: Entry, rest: seq<Entry>)
    requires m.slots > 0 && Size(e) <= m.room && |rest| < m.slots && Use(rest) <= m.room - Size(e)
    ensures Use([e] + rest) == Size(e) + Use(rest) && Filled(m, [e] + rest) == Filled(WithEntry(m, e), rest)
  {
    UseFirst(e, rest);
    MoveEntry(m.entries, e, rest);
  }

  lemma UseFirst(e: Entry, rest: seq<Entry>)
    ensures Use([e] + rest) == Size(e) + Use(rest)
  {
    assert ([e] + rest)[1..] == rest;
  }

  lemma FirstLineLeads(t: seq<byte>, p: nat, fs: seq<Field>, m: Store, q: nat) returns (next: nat, m1: Store)
    requires p <= |t| && DistinctKeys(m.entries) && LeadsTo(t, p, fs, m, q) && fs != []
    ensures next <= |t| && DistinctKeys(m1.entries) && LeadsTo(t, next, fs[1..], m1, q)
    ensures Parse(t, p, m).0 == Parse(t, next, m1).0
    ensures Filled(m, EntriesOf(fs)) == Filled(m1, EntriesOf(fs[1..]))
  {
    var e := Entry(fs[0].name, fs[0].value);
    FitsIff(m, e, EntriesOf(fs[1..]));
    FillsFirst(m, e, EntriesOf(fs[1..]));
    next, m1 := p + Length(fs[0]), WithEntry(m, e);
    LineSteps(t, p, fs[0], m, next, m1);
  }

  lemma LineSteps(t: seq<byte>, p: nat, f: Field, m: Store, next: nat, m1: Store)
    requires p <= |t| && WellFormed(f) && LineLies(t, p, f) && Takes(m, f, m1)
    requires next == p + Length(f) && CharAt(t, next) != CR
    ensures next <= |t| && Parse(t, p, m).0 == Parse(t, next, m1).0
  {
    LineParsesIn(t, p, f);
    ParseNext(t, p, m, next, m1);
  }

  /** The parser at `q`, with the map as it is there, ends as it does from the start. */
  lemma {:induction false} ComesTo(t: seq<byte>, p: nat, fs: seq<Field>, m: Store, q: nat)
    requires p <= |t| && DistinctKeys(m.entries) && LeadsTo(t, p, fs, m, q)
    ensures q <= |t| && Parse(t, p, m).0 == Parse(t, q, Filled(m, EntriesOf(fs))).0
    decreases |fs|
  {
    if fs == [] {
      assert m.entries + EntriesOf(fs) == m.entries;
    } else {
      var next, m1 := FirstLineLeads(t, p, fs, m, q);
      ComesTo(t, next, fs[1..], m1, q);
    }
  }

  lemma LineLeads(t: seq<byte>, p: nat, f: Field, m: Store, next: nat, m1: Store, rest: seq<Field>, q: nat)
    requires DistinctKeys(m.entries) && WellFormed(f) && LineLies(t, p, f)
    requires next == p + Length(f) && CharAt(t, next) != CR && Takes(m, f, m1) && LeadsTo(t, next, rest, m1, q)
    ensures LeadsTo(t, p, [f] + rest, m, q) && Filled(m, EntriesOf([f] + rest)) == Filled(m1, EntriesOf(rest))
  {
    var e, fs := Entry(f.name, f.value), [f] + rest;
    assert fs[1..] == rest;
    FitsIff(m, e, EntriesOf(rest));
    FillsFirst(m, e, EntriesOf(rest));
  }

  /** The line goes into the map, and leaves it as `m1`. */
  predicate Takes(m: Store, f: Field, m1: Store) {
    var e := Entry(f.name, f.value);
    Find(m.entries, f.name) == None && m.slots > 0 && Size(e) <= m.room && m1 == WithEntry(m, e)
  }

  lemma StepTakes(t: seq<byte>, p: nat, m: Store, next: nat, m1: Store) returns (f: Field)
    requires p <= |t| && LineStep(t, p, m) == Next(next, m1)
    ensures WellFormed(f) && LineLies(t, p, f) && next == p + Length(f) && Takes(m, f, m1)
  {
    f := StepIsLine(t, p, m);
  }

  /** The parser reads no other line behind this one. */
  predicate IsLast(t: seq<byte>, p: nat, m: Store)
    requires p <= |t|
  {
    LineStep(t, p, m).Stop? || CharAt(t, LineStep(t, p, m).next) == CR
  }

  lemma GoesOn(t: seq<byte>, p: nat, m: Store) returns (next: nat, m1: Store)
    requires p <= |t| && DistinctKeys(m.entries) && !IsLast(t, p, m)
    ensures p < next <= |t| && CharAt(t, next) != CR && DistinctKeys(m1.entries)
    ensures LineStep(t, p, m) == Next(next, m1) && Parse(t, next, m1).0 == Parse(t, p, m).0
  {
    var f := StepIsLine(t, p, m);
    next, m1 := p + Length(f), WithEntry(m, Entry(f.name, f.value));
    ParseNext(t, p, m, next, m1);
    AdditionKeepsDistinctIff(m.entries, f.name, Entry(f.name, f.value));
  }

  lemma StepLeads(t: seq<byte>, p: nat, m: Store, next: nat, m1: Store, rest: seq<Field>, q: nat)
    returns (fs: seq<Field>)
    requires p <= |t| && DistinctKeys(m.entries) && LineStep(t, p, m) == Next(next, m1) && CharAt(t, next) != CR
    requires LeadsTo(t, next, rest, m1, q)
    ensures LeadsTo(t, p, fs, m, q) && Filled(m, EntriesOf(fs)) == Filled(m1, EntriesOf(rest))
  {
    var f := StepTakes(t, p, m, next, m1);
    LineLeads(t, p, f, m, next, m1, rest, q);
    fs := [f] + rest;
  }

  lemma NoneBefore(t: seq<byte>, p: nat, m: Store)
    requires p <= |t| && DistinctKeys(m.entries)
    ensures LeadsTo(t, p, [], m, p) && Filled(m, EntriesOf([])) == m
  {
    assert m.entries + [] == m.entries;
  }

  /** The last line that the parser reads, and the lines before it. */
  lemma {:induction false} LastLine(t: seq<byte>, p: nat, m: Store) returns (fs: seq<Field>, q: nat, m': Store)
    requires p <= |t| && DistinctKeys(m.entries)
    ensures LeadsTo(t, p, fs, m, q) && q <= |t| && m' == Filled(m, EntriesOf(fs))
    ensures IsLast(t, q, m') && Parse(t, q, m').0 == Parse(t, p, m).0
    decreases |t| - p
  {
    if IsLast(t, p, m) {
      NoneBefore(t, p, m);
      fs, q, m' := [], p, m;
    } else {
      var next, m1 := GoesOn(t, p, m);
      var rest;
      rest, q, m' := LastLine(t, next, m1);
      fs := StepLeads(t, p, m, next, m1, rest, q);
    }
  }

  /** Where the parser stops within a line, and the lines before it. */
  lemma StopsWithin(t: seq<byte>, p: nat, m: Store) returns (fs: seq<Field>, q: nat, m': Store)
    requires p <= |t| && DistinctKeys(m.entries)
    requires !Parse(t, p, m).0.Parsed? && Parse(t, p, m).0 != Rejected(-5)
    ensures LeadsTo(t, p, fs, m, q) && q <= |t| && m' == Filled(m, EntriesOf(fs))
    ensures LineStep(t, q, m') == Stop(Parse(t, p, m).0)
  {
    fs, q, m' := LastLine(t, p, m);
    LastStep(t, q, m');
  }

  lemma LastStep(t: seq<byte>, p: nat, m: Store)
    requires p <= |t| && IsLast(t, p, m)
    ensures
      var step := LineStep(t, p, m);
      Parse(t, p, m).0 == if step.Stop? then step.outcome else Closing(t, step.next)
  {
    var step := LineStep(t, p, m);
    if step.Next? {
      ParseNext(t, p, m, step.next, step.m);
    }
  }

  // ----- a line without an end

  /** A name and a colon, and no line end anywhere behind. */
  predicate UnfinishedAs(t: seq<byte>, q: nat, before: nat, name: seq<byte>, mid: nat) {
    && name != [] && TokenText(name) && Holds(t, q, Spaces(before) + (name + (Spaces(mid) + [COLON])))
    && forall i :: q + before + |name| + mid < i < |t| ==> !CrlfAt(t, i)
  }

  ghost predicate Unfinished(t: seq<byte>, q: nat) {
    exists before: nat, name: seq<byte>, mid: nat :: UnfinishedAs(t, q, before, name, mid)
  }

  lemma {:induction false} CrlfBehindSpaces(t: seq<byte>, p: nat, i: nat)
    requires p <= i < |t| && CrlfAt(t, i)
    ensures AfterSpace(t, p) <= i
    decreases i - p
  {
    if p < i && CharAt(t, p) == SPACE {
      CrlfBehindSpaces(t, p + 1, i);
    }
  }

  lemma {:induction false} CrlfFound(t: seq<byte>, p: nat, i: nat)
    requires p <= i < |t| && CrlfAt(t, i)
    ensures FindCrlf(t, p).Some?
    decreases i - p
  {
    if p < i && !CrlfAt(t, p) {
      CrlfFound(t, p + 1, i);
    }
  }

  /** The parts of a line up to its colon. */
  lemma NameHeld(t: seq<byte>, q: nat, before: nat, name: seq<byte>, mid: nat)
    requires q + before + |name| + mid < |t|
    ensures
      var nameEnd := q + before + |name|;
      Holds(t, q, Spaces(before) + (name + (Spaces(mid) + [COLON])))
      <==> (SpacesAt(t, q, before) && t[q + before..nameEnd] == name && SpacesAt(t, nameEnd, mid)
        && t[nameEnd + mid] == COLON)
  {
    SpacedIff(t, q, before, name + (Spaces(mid) + [COLON]));
    TextIff(t, q + before, name, Spaces(mid) + [COLON]);
    SpacedIff(t, q + before + |name|, mid, [COLON]);
  }

  lemma NameWithin(t: seq<byte>, q: nat, before: nat, name: seq<byte>, mid: nat)
    requires Holds(t, q, Spaces(before) + (name + (Spaces(mid) + [COLON])))
    ensures q + before + |name| + mid < |t|
  {
    HoldsSlice(t, q, Spaces(before) + (name + (Spaces(mid) + [COLON])));
  }

  lemma UnfinishedParses(t: seq<byte>, q: nat, before: nat, name: seq<byte>, mid: nat)
    requires q <= |t| && UnfinishedAs(t, q, before, name, mid)
    ensures ParseLine(t, q) == NoLineEnd
  {
    NameWithin(t, q, before, name, mid);
    NameHeld(t, q, before, name, mid);
    var at := q + before;
    var nameEnd := at + |name|;
    assert name[0] == t[at];
    TokenIff(name);
    SpacesSkipped(t, q, before);
    TokenMatched(t, at, nameEnd);
    SpacesSkipped(t, nameEnd, mid);
    assert FindCrlf(t, AfterSpace(t, nameEnd + mid + 1)) == None;
  }

  lemma ParsedUnfinished(t: seq<byte>, q: nat)
    requires q <= |t| && ParseLine(t, q) == NoLineEnd
    ensures Unfinished(t, q)
  {
    var at := AfterSpace(t, q);
    var nameEnd := AfterToken(t, at);
    var colon := AfterSpace(t, nameEnd);
    var before, name, mid := at - q, t[at..nameEnd], colon - nameEnd;
    SpacesFound(t, q);
    TokenFound(t, at);
    TokenIff(name);
    SpacesFound(t, nameEnd);
    NameHeld(t, q, before, name, mid);
    forall i | colon < i < |t|
      ensures !CrlfAt(t, i)
    {
      if CrlfAt(t, i) {
        CrlfBehindSpaces(t, colon + 1, i);
        CrlfFound(t, AfterSpace(t, colon + 1), i);
      }
    }
    assert UnfinishedAs(t, q, before, name, mid);
  }

  // ----- the two failures

  /** The parser goes on from a null pointer exactly on lines that fit, with an unfinished line behind them. */
  lemma NullLineEndIff(t: seq<byte>, p: nat, m: Store)
    requires p <= |t| && DistinctKeys(m.entries)
    ensures Parse(t, p, m).0 == NullLineEnd
            <==> exists fs, q :: LeadsTo(t, p, fs, m, q) && Unfinished(t, q)
  {
    if Parse(t, p, m).0 == NullLineEnd {
      var fs, q, m' := StopsWithin(t, p, m);
      ParsedUnfinished(t, q);
    }
    forall fs, q | LeadsTo(t, p, fs, m, q) && Unfinished(t, q)
      ensures Parse(t, p, m).0 == NullLineEnd
    {
      ComesTo(t, p, fs, m, q);
      var before: nat, name: seq<byte>, mid: nat :| UnfinishedAs(t, q, before, name, mid);
      UnfinishedParses(t, q, before, name, mid);
    }
  }

  lemma LineEndsInside(t: seq<byte>, q: nat)
    requires q <= |t| && |t| >= 2 && CrlfAt(t, |t| - 2)
    ensures ParseLine(t, q) != NoLineEnd
  {
    if ParseLine(t, q) == NoLineEnd {
      ParsedUnfinished(t, q);
      var before: nat, name: seq<byte>, mid: nat :| UnfinishedAs(t, q, before, name, mid);
      NameWithin(t, q, before, name, mid);
      NameHeld(t, q, before, name, mid);
    }
  }

  /** A text that ends in CRLF never does that. */
  lemma {:induction false} CrlfAtTheEnd(t: seq<byte>, p: nat, m: Store)
    requires p <= |t| && |t| >= 2 && CrlfAt(t, |t| - 2)
    ensures Parse(t, p, m).0 != NullLineEnd
    decreases |t| - p
  {
    LineEndsInside(t, p);
    var step := LineStep(t, p, m);
    if step.Next? {
      ParseNext(t, p, m, step.next, step.m);
      CrlfAtTheEnd(t, step.next, step.m);
    }
  }

  /** "a: b" */
  lemma UnfinishedHeader(m: Store)
    ensures Parse([97, 58, 32, 98], 0, m).0 == NullLineEnd
  {
    var t: seq<byte> := [97, 58, 32, 98];
    var name: seq<byte> := [97];
    assert t[0..1] == name;
    NameHeld(t, 0, 0, name, 0);
    UnfinishedParses(t, 0, 0, name, 0);
  }

  /** The entry is new and has a slot, and the heap is too small for it. */
  predicate TooBig(m: Store, e: Entry) {
    Find(m.entries, e.key) == None && m.slots > 0 && Size(e) > m.room
  }

  lemma TooBigStops(t: seq<byte>, q: nat, f: Field, m: Store)
    requires q <= |t| && WellFormed(f) && LineLies(t, q, f) && TooBig(m, Entry(f.name, f.value))
    ensures Parse(t, q, m).0 == HeapFull(q + Length(f))
  {
    LineParsesIn(t, q, f);
  }

  lemma StopsTooBig(t: seq<byte>, q: nat, m: Store) returns (f: Field)
    requires q <= |t| && LineStep(t, q, m).Stop? && LineStep(t, q, m).outcome.HeapFull?
    ensures WellFormed(f) && LineLies(t, q, f) && TooBig(m, Entry(f.name, f.value))
    ensures LineStep(t, q, m).outcome == HeapFull(q + Length(f))
  {
    f := ParsedLineIsRendered(t, q);
  }

  /** The line `f`, behind lines that fit, is the first whose strings the heap has no room for; it ends at `next`. */
  ghost predicate Overfills(t: seq<byte>, p: nat, m: Store, fs: seq<Field>, q: nat, f: Field, next: nat) {
    && LeadsTo(t, p, fs, m, q) && WellFormed(f) && LineLies(t, q, f) && next == q + Length(f)
    && TooBig(Filled(m, EntriesOf(fs)), Entry(f.name, f.value))
  }

  lemma OverfilledStops(t: seq<byte>, p: nat, m: Store, fs: seq<Field>, q: nat, f: Field, next: nat)
    requires p <= |t| && DistinctKeys(m.entries) && Overfills(t, p, m, fs, q, f, next)
    ensures Parse(t, p, m).0 == HeapFull(next)
  {
    ComesTo(t, p, fs, m, q);
    TooBigStops(t, q, f, Filled(m, EntriesOf(fs)));
  }

  lemma StopsOverfilled(t: seq<byte>, p: nat, m: Store, next: nat) returns (fs: seq<Field>, q: nat, f: Field)
    requires p <= |t| && DistinctKeys(m.entries) && Parse(t, p, m).0 == HeapFull(next)
    ensures Overfills(t, p, m, fs, q, f, next)
  {
    var m';
    fs, q, m' := StopsWithin(t, p, m);
    f := StopsTooBig(t, q, m');
  }

  /** A null pointer is stored exactly for a new header whose strings do not fit behind those of the lines before it. */
  lemma HeapFullIff(t: seq<byte>, p: nat, m: Store, next: nat)
    requires p <= |t| && DistinctKeys(m.entries)
    ensures Parse(t, p, m).0 == HeapFull(next) <==> exists fs, q, f :: Overfills(t, p, m, fs, q, f, next)
  {
    if Parse(t, p, m).0 == HeapFull(next) {
      var fs, q, f := StopsOverfilled(t, p, m, next);
    }
    forall fs, q, f | Overfills(t, p, m, fs, q, f, next)
      ensures Parse(t, p, m).0 == HeapFull(next)
    {
      OverfilledStops(t, p, m, fs, q, f, next);
    }
  }

  /** All lines but the last fit, and the empty line follows. */
  ghost predicate LastOverfills(t: seq<byte>, p: nat, m: Store, fs: seq<Field>, q: nat, f: Field, next: nat) {
    Overfills(t, p, m, fs, q, f, next) && CharAt(t, next) == CR && CharAt(t, next + 1) == LF
  }

  /** The header is rendered in the text, and the map takes it. */
  ghost predicate Taken(t: seq<byte>, p: nat, m: Store) {
    exists fs :: HeaderAt(t, p, fs, m) && Holds(t, p, RenderAll(fs) + [CR, LF])
  }

  /** Success is returned for the headers that the map takes, and for those whose last line overfills the heap. */
  lemma SuccessIff(t: seq<byte>, p: nat, m: Store)
    requires p <= |t| && DistinctKeys(m.entries)
    ensures Returned(t, Parse(t, p, m).0) == Some(0)
            <==> Taken(t, p, m) || exists fs, q, f, next :: LastOverfills(t, p, m, fs, q, f, next)
  {
    NeverZero(t, p, m);
    TakenIff(t, p, m, Parse(t, p, m).0);
    LastOverfillsIff(t, p, m, Parse(t, p, m).0);
    ZeroIff(t, Parse(t, p, m).0);
  }

  lemma TakenIff(t: seq<byte>, p: nat, m: Store, o: Outcome)
    requires p <= |t| && DistinctKeys(m.entries) && o == Parse(t, p, m).0
    ensures o.Parsed? <==> Taken(t, p, m)
  {
    AcceptsIff(t, p, m);
  }

  /** The empty line stands behind the line that overfilled the heap. */
  predicate StopsAtEnd(t: seq<byte>, o: Outcome) {
    o.HeapFull? && CharAt(t, o.next) == CR && CharAt(t, o.next + 1) == LF
  }

  lemma StopsLast(t: seq<byte>, p: nat, m: Store, o: Outcome) returns (fs: seq<Field>, q: nat, f: Field)
    requires p <= |t| && DistinctKeys(m.entries) && o == Parse(t, p, m).0 && StopsAtEnd(t, o)
    ensures LastOverfills(t, p, m, fs, q, f, o.next)
  {
    fs, q, f := StopsOverfilled(t, p, m, o.next);
  }

  lemma LastStops(t: seq<byte>, p: nat, m: Store, o: Outcome, fs: seq<Field>, q: nat, f: Field, next: nat)
    requires p <= |t| && DistinctKeys(m.entries) && o == Parse(t, p, m).0 && LastOverfills(t, p, m, fs, q, f, next)
    ensures StopsAtEnd(t, o)
  {
    OverfilledStops(t, p, m, fs, q, f, next);
  }

  lemma LastOverfillsIff(t: seq<byte>, p: nat, m: Store, o: Outcome)
    requires p <= |t| && DistinctKeys(m.entries) && o == Parse(t, p, m).0
    ensures StopsAtEnd(t, o) <==> exists fs, q, f, next :: LastOverfills(t, p, m, fs, q, f, next)
  {
    if StopsAtEnd(t, o) {
      var fs, q, f := StopsLast(t, p, m, o);
    }
    if fs, q, f, next :| LastOverfills(t, p, m, fs, q, f, next) {
      LastStops(t, p, m, o, fs, q, f, next);
    }
  }

  lemma ZeroIff(t: seq<byte>, o: Outcome)
    requires o != Rejected(0)
    ensures Returned(t, o) == Some(0) <==> o.Parsed? || StopsAtEnd(t, o)
  {
  }

  /** A refusal is never reported as success. */
  lemma {:induction false} NeverZero(t: seq<byte>, p: nat, m: Store)
    requires p <= |t|
    ensures Parse(t, p, m).0 != Rejected(0)
    decreases |t| - p
  {
    var step := LineStep(t, p, m);
    if step.Next? {
      ParseNext(t, p, m, step.next, step.m);
      NeverZero(t, step.next, step.m);
    }
  }

  lemma FullLine(t: seq<byte>, f: Field)
    requires t == [97, 58, 32, 98, 13, 10, 13, 10] && f == Field(0, [97], 0, 1, [98], 0)
    ensures LineLies(t, 0, f) && WellFormed(f) && Returned(t, HeapFull(6)) == Some(0)
  {
    assert t[0..1] == f.name && t[3..4] == f.value;
  }

  /** "a: b" and both line ends, with less than four bytes of heap: success, and a null pointer in the map. */
  lemma FullHeader(m: Store)
    requires Find(m.entries, [97]) == None && m.slots > 0 && m.room < 4
    ensures
      var t := [97, 58, 32, 98, 13, 10, 13, 10];
      Parse(t, 0, m).0 == HeapFull(6) && Returned(t, HeapFull(6)) == Some(0)
  {
    var t: seq<byte>, f := [97, 58, 32, 98, 13, 10, 13, 10], Field(0, [97], 0, 1, [98], 0);
    FullLine(t, f);
    TooBigStops(t, 0, f, m);
  }
}
