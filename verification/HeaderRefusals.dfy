/** What each return code of io_http_header_parse but 0 says of the text. */
module HeaderRefusals {
  import opened Bytes
  import opened HeaderMap
  import opened HttpHeaders
  import opened HeaderGrammar
  import opened HeaderFailures

  // ----- the start of a line that is none

  /** Behind spaces comes something that starts no token, or the end of the text. */
  predicate NoName(t: seq<byte>, q: nat, before: nat) {
    Holds(t, q, Spaces(before)) && CharAt(t, q + before) != SPACE && !TokenChar(CharAt(t, q + before))
  }

  /** Behind a name and spaces comes something that is no colon. */
  predicate NoColon(t: seq<byte>, q: nat, before: nat, name: seq<byte>, mid: nat) {
    var ch := CharAt(t, q + before + |name| + mid);
    && name != [] && TokenText(name) && Holds(t, q, Spaces(before) + (name + Spaces(mid)))
    && ch != COLON && ch != SPACE && (mid == 0 ==> !TokenChar(ch))
  }

  /** Behind a name and a colon comes nothing but spaces, and the end of the line. */
  predicate NoValue(t: seq<byte>, q: nat, before: nat, name: seq<byte>, mid: nat, after: nat) {
    && name != [] && TokenText(name)
    && Holds(t, q, Spaces(before) + (name + (Spaces(mid) + ([COLON] + (Spaces(after) + [CR, LF])))))
  }

  lemma NoNameIff(t: seq<byte>, q: nat)
    requires q <= |t|
    ensures ParseLine(t, q) == Bad(-1) <==> exists before: nat :: NoName(t, q, before)
  {
    var name := AfterSpace(t, q);
    IsTokenIff(CharAt(t, name));
    SpacesFound(t, q);
    SpacesLie(t, q, name - q);
    if ParseLine(t, q) == Bad(-1) {
      assert NoName(t, q, name - q);
    }
    forall before: nat | NoName(t, q, before)
      ensures ParseLine(t, q) == Bad(-1)
    {
      SpacesLie(t, q, before);
      SpacesSkipped(t, q, before);
    }
  }

  /** The parts up to the end of a name and the spaces behind it. */
  lemma NameHeldIff(t: seq<byte>, q: nat, before: nat, name: seq<byte>, mid: nat, behind: seq<byte>)
    requires q <= |t|
    ensures
      var at, nameEnd := q + before, q + before + |name|;
      Holds(t, q, Spaces(before) + (name + (Spaces(mid) + behind)))
      <==> (nameEnd + mid <= |t| && SpacesAt(t, q, before) && t[at..nameEnd] == name && SpacesAt(t, nameEnd, mid)
            && Holds(t, nameEnd + mid, behind))
  {
    HoldsSlice(t, q, Spaces(before) + (name + (Spaces(mid) + behind)));
    if q + before + |name| + mid <= |t| {
      SpacedIff(t, q, before, name + (Spaces(mid) + behind));
      TextIff(t, q + before, name, Spaces(mid) + behind);
      SpacedIff(t, q + before + |name|, mid, behind);
    }
  }

  /** The scanner finds a name that ends, and the end of the spaces behind it. */
  lemma NameScanned(t: seq<byte>, q: nat, before: nat, name: seq<byte>, mid: nat)
    requires q + before + |name| + mid <= |t| && SpacesAt(t, q, before) && SpacesAt(t, q + before + |name|, mid)
    requires name != [] && TokenText(name) && t[q + before..q + before + |name|] == name
    requires CharAt(t, q + before + |name| + mid) != SPACE
    requires mid == 0 ==> !TokenChar(CharAt(t, q + before + |name|))
    ensures AfterSpace(t, q) == q + before && AfterToken(t, q + before) == q + before + |name|
    ensures AfterSpace(t, q + before + |name|) == q + before + |name| + mid
  {
    var at, nameEnd := q + before, q + before + |name|;
    assert name[0] == t[at];
    TokenIff(name);
    IsTokenIff(CharAt(t, nameEnd));
    SpacesSkipped(t, q, before);
    TokenMatched(t, at, nameEnd);
    SpacesSkipped(t, nameEnd, mid);
  }

  lemma NoColonParses(t: seq<byte>, q: nat, before: nat, name: seq<byte>, mid: nat)
    requires q <= |t| && NoColon(t, q, before, name, mid)
    ensures ParseLine(t, q) == Bad(-2)
  {
    assert Spaces(mid) + [] == Spaces(mid);
    NameHeldIff(t, q, before, name, mid, []);
    NameScanned(t, q, before, name, mid);
  }

  /** What the scanner finds of a line that has a name. */
  lemma NameFound(t: seq<byte>, q: nat) returns (before: nat, name: seq<byte>, mid: nat)
    requires q <= |t| && AfterToken(t, AfterSpace(t, q)) != AfterSpace(t, q)
    ensures q + before == AfterSpace(t, q) && q + before + |name| == AfterToken(t, q + before)
    ensures q + before + |name| + mid == AfterSpace(t, q + before + |name|) <= |t|
    ensures name != [] && TokenText(name) && SpacesAt(t, q, before) && SpacesAt(t, q + before + |name|, mid)
    ensures t[q + before..q + before + |name|] == name && (mid == 0 ==> !TokenChar(CharAt(t, q + before + |name|)))
  {
    var at := AfterSpace(t, q);
    var nameEnd := AfterToken(t, at);
    before, name, mid := at - q, t[at..nameEnd], AfterSpace(t, nameEnd) - nameEnd;
    SpacesFound(t, q);
    TokenFound(t, at);
    TokenIff(name);
    IsTokenIff(CharAt(t, nameEnd));
    SpacesFound(t, nameEnd);
  }

  lemma ParsedNoColon(t: seq<byte>, q: nat) returns (before: nat, name: seq<byte>, mid: nat)
    requires q <= |t| && ParseLine(t, q) == Bad(-2)
    ensures NoColon(t, q, before, name, mid)
  {
    before, name, mid := NameFound(t, q);
    NameHeldIff(t, q, before, name, mid, []);
    assert Spaces(mid) + [] == Spaces(mid);
  }

  lemma NoColonIff(t: seq<byte>, q: nat)
    requires q <= |t|
    ensures ParseLine(t, q) == Bad(-2)
            <==> exists before: nat, name: seq<byte>, mid: nat :: NoColon(t, q, before, name, mid)
  {
    if ParseLine(t, q) == Bad(-2) {
      var before, name, mid := ParsedNoColon(t, q);
    }
    forall before: nat, name: seq<byte>, mid: nat | NoColon(t, q, before, name, mid)
      ensures ParseLine(t, q) == Bad(-2)
    {
      NoColonParses(t, q, before, name, mid);
    }
  }

  lemma ValueHeldIff(t: seq<byte>, colon: nat, after: nat)
    requires colon <= |t|
    ensures
      Holds(t, colon, [COLON] + (Spaces(after) + [CR, LF]))
      <==> (colon + 1 + after + 1 < |t| && t[colon] == COLON && SpacesAt(t, colon + 1, after)
            && CrlfAt(t, colon + 1 + after))
  {
    HoldsSlice(t, colon, [COLON] + (Spaces(after) + [CR, LF]));
    if colon + 1 + after + 1 < |t| {
      HoldsRest(t, colon, COLON, Spaces(after) + [CR, LF]);
      SpacedIff(t, colon + 1, after, [CR, LF]);
      CrlfLies(t, colon + 1 + after);
    }
  }

  lemma NoValueParses(t: seq<byte>, q: nat, before: nat, name: seq<byte>, mid: nat, after: nat)
    requires q <= |t| && NoValue(t, q, before, name, mid, after)
    ensures ParseLine(t, q) == Bad(-3)
  {
    var colon := q + before + |name| + mid;
    NameHeldIff(t, q, before, name, mid, [COLON] + (Spaces(after) + [CR, LF]));
    ValueHeldIff(t, colon, after);
    NameScanned(t, q, before, name, mid);
    NoValueBehind(t, colon, after);
  }

  lemma NoValueBehind(t: seq<byte>, colon: nat, after: nat)
    requires colon + 1 + after + 1 < |t| && SpacesAt(t, colon + 1, after) && CrlfAt(t, colon + 1 + after)
    ensures AfterSpace(t, colon + 1) == colon + 1 + after && FindCrlf(t, colon + 1 + after) == Some(colon + 1 + after)
  {
    SpacesSkipped(t, colon + 1, after);
  }

  lemma ParsedNoValue(t: seq<byte>, q: nat) returns (before: nat, name: seq<byte>, mid: nat, after: nat)
    requires q <= |t| && ParseLine(t, q) == Bad(-3)
    ensures NoValue(t, q, before, name, mid, after)
  {
    before, name, mid := NameFound(t, q);
    var colon := q + before + |name| + mid;
    var value := AfterSpace(t, colon + 1);
    after := value - colon - 1;
    SpacesFound(t, colon + 1);
    ValueHeldIff(t, colon, after);
    NameHeldIff(t, q, before, name, mid, [COLON] + (Spaces(after) + [CR, LF]));
  }

  lemma NoValueIff(t: seq<byte>, q: nat)
    requires q <= |t|
    ensures ParseLine(t, q) == Bad(-3)
            <==> exists before: nat, name: seq<byte>, mid: nat, after: nat :: NoValue(t, q, before, name, mid, after)
  {
    if ParseLine(t, q) == Bad(-3) {
      var before, name, mid, after := ParsedNoValue(t, q);
    }
    forall before: nat, name: seq<byte>, mid: nat, after: nat | NoValue(t, q, before, name, mid, after)
      ensures ParseLine(t, q) == Bad(-3)
    {
      NoValueParses(t, q, before, name, mid, after);
    }
  }

  // ----- the codes

  /** A header whose name the map has already, in any casing, or for which it has no slot. */
  predicate NoPlace(t: seq<byte>, q: nat, f: Field, m: Store) {
    WellFormed(f) && Holds(t, q, Render(f)) && (Find(m.entries, f.name).Some? || m.slots == 0)
  }

  /** What stands at `q` is refused with this code. */
  ghost predicate Refused(t: seq<byte>, q: nat, m: Store, code: int) {
    if code == -1 then exists before: nat :: NoName(t, q, before)
    else if code == -2 then exists before: nat, name: seq<byte>, mid: nat :: NoColon(t, q, before, name, mid)
    else if code == -3 then
      exists before: nat, name: seq<byte>, mid: nat, after: nat :: NoValue(t, q, before, name, mid, after)
    else exists f :: NoPlace(t, q, f, m)
  }

  lemma NoPlaceIff(t: seq<byte>, q: nat, m: Store)
    requires q <= |t|
    ensures LineStep(t, q, m) == Stop(Rejected(-4)) <==> exists f :: NoPlace(t, q, f, m)
  {
    if LineStep(t, q, m) == Stop(Rejected(-4)) {
      var f := ParsedLineIsRendered(t, q);
      LineIff(t, q, f);
      assert NoPlace(t, q, f, m);
    }
    forall f | NoPlace(t, q, f, m)
      ensures LineStep(t, q, m) == Stop(Rejected(-4))
    {
      LineIff(t, q, f);
      ParsesRenderedLine(t, q, f);
    }
  }

  lemma StepRefusedIff(t: seq<byte>, q: nat, m: Store, code: int)
    requires q <= |t| && -5 < code < 0
    ensures LineStep(t, q, m) == Stop(Rejected(code)) <==> Refused(t, q, m, code)
  {
    NoNameIff(t, q);
    NoColonIff(t, q);
    NoValueIff(t, q);
    NoPlaceIff(t, q, m);
  }

  lemma RefusalStops(t: seq<byte>, p: nat, m: Store, code: int, fs: seq<Field>, q: nat)
    requires p <= |t| && DistinctKeys(m.entries) && -5 < code < 0
    requires LeadsTo(t, p, fs, m, q) && Refused(t, q, Filled(m, EntriesOf(fs)), code)
    ensures Parse(t, p, m).0 == Rejected(code)
  {
    ComesTo(t, p, fs, m, q);
    StepRefusedIff(t, q, Filled(m, EntriesOf(fs)), code);
  }

  lemma StopsRefused(t: seq<byte>, p: nat, m: Store, code: int) returns (fs: seq<Field>, q: nat)
    requires p <= |t| && DistinctKeys(m.entries) && -5 < code < 0 && Parse(t, p, m).0 == Rejected(code)
    ensures LeadsTo(t, p, fs, m, q) && Refused(t, q, Filled(m, EntriesOf(fs)), code)
  {
    var m';
    fs, q, m' := StopsWithin(t, p, m);
    StepRefusedIff(t, q, m', code);
  }

  lemma CodeIff(t: seq<byte>, o: Outcome, code: int)
    requires -5 < code < 0
    ensures Returned(t, o) == Some(code) <==> o == Rejected(code)
  {
  }

  /** -1 to -4: behind lines that go into the map, no name, no colon, no value, or no place in the map. */
  lemma RefusedIff(t: seq<byte>, p: nat, m: Store, code: int)
    requires p <= |t| && DistinctKeys(m.entries) && -5 < code < 0
    ensures Returned(t, Parse(t, p, m).0) == Some(code)
            <==> exists fs, q :: LeadsTo(t, p, fs, m, q) && Refused(t, q, Filled(m, EntriesOf(fs)), code)
  {
    CodeIff(t, Parse(t, p, m).0, code);
    if Parse(t, p, m).0 == Rejected(code) {
      var fs, q := StopsRefused(t, p, m, code);
    }
    forall fs, q | LeadsTo(t, p, fs, m, q) && Refused(t, q, Filled(m, EntriesOf(fs)), code)
      ensures Parse(t, p, m).0 == Rejected(code)
    {
      RefusalStops(t, p, m, code, fs, q);
    }
  }

  /** A header that the map has a place for, and behind it a carriage return without a line feed. */
  predicate NoEmptyLine(t: seq<byte>, q: nat, f: Field, m: Store) {
    && WellFormed(f) && Holds(t, q, Render(f)) && Find(m.entries, f.name) == None && m.slots > 0
    && CharAt(t, q + Length(f)) == CR && CharAt(t, q + Length(f) + 1) != LF
  }

  lemma StepOfLine(t: seq<byte>, q: nat, m: Store, name: seq<byte>, value: seq<byte>, next: nat)
    requires q <= |t| && ParseLine(t, q) == Line(name, value, next)
    ensures
      var step := LineStep(t, q, m);
      if Find(m.entries, name).Some? || m.slots == 0 then step == Stop(Rejected(-4))
      else step == Stop(HeapFull(next)) || (step.Next? && step.next == next)
  {
  }

  /** The last line that is read, when it is one. */
  lemma LastEndsIff(t: seq<byte>, q: nat, m: Store, name: seq<byte>, value: seq<byte>, next: nat)
    requires q <= |t| && IsLast(t, q, m) && ParseLine(t, q) == Line(name, value, next)
    ensures Returned(t, Parse(t, q, m).0) == Some(-5)
            <==> Find(m.entries, name) == None && m.slots > 0 && CharAt(t, next) == CR && CharAt(t, next + 1) != LF
  {
    StepOfLine(t, q, m, name, value, next);
    LastStep(t, q, m);
  }

  lemma NoLineNoEmptyLine(t: seq<byte>, q: nat, m: Store)
    requires q <= |t| && IsLast(t, q, m) && !ParseLine(t, q).Line?
    ensures Returned(t, Parse(t, q, m).0) != Some(-5)
  {
    LastStep(t, q, m);
    BadCodes(t, q);
  }

  lemma HeldLineParses(t: seq<byte>, q: nat, f: Field)
    requires q <= |t| && WellFormed(f) && Holds(t, q, Render(f))
    ensures ParseLine(t, q) == Line(f.name, f.value, q + Length(f))
  {
    LineIff(t, q, f);
    ParsesRenderedLine(t, q, f);
  }

  lemma ParsedLineIsHeld(t: seq<byte>, q: nat) returns (f: Field)
    requires q <= |t| && ParseLine(t, q).Line?
    ensures WellFormed(f) && Holds(t, q, Render(f)) && ParseLine(t, q) == Line(f.name, f.value, q + Length(f))
  {
    f := ParsedLineIsRendered(t, q);
    LineIff(t, q, f);
  }

  lemma LastWithoutEmptyLineIff(t: seq<byte>, q: nat, m: Store)
    requires q <= |t| && IsLast(t, q, m)
    ensures Returned(t, Parse(t, q, m).0) == Some(-5) <==> exists f :: NoEmptyLine(t, q, f, m)
  {
    if ParseLine(t, q).Line? {
      var f := ParsedLineIsHeld(t, q);
      LastEndsIff(t, q, m, f.name, f.value, q + Length(f));
      assert Returned(t, Parse(t, q, m).0) == Some(-5) ==> NoEmptyLine(t, q, f, m);
    } else {
      NoLineNoEmptyLine(t, q, m);
    }
    forall f | NoEmptyLine(t, q, f, m)
      ensures Returned(t, Parse(t, q, m).0) == Some(-5)
    {
      HeldLineParses(t, q, f);
      LastEndsIff(t, q, m, f.name, f.value, q + Length(f));
    }
  }

  lemma BadCodes(t: seq<byte>, q: nat)
    requires q <= |t|
    ensures ParseLine(t, q).Bad? ==> -4 < ParseLine(t, q).code < 0
  {
  }

  lemma NoEmptyLineIsLast(t: seq<byte>, q: nat, f: Field, m: Store)
    requires q <= |t| && NoEmptyLine(t, q, f, m)
    ensures IsLast(t, q, m)
  {
    HeldLineParses(t, q, f);
  }

  /** -5: behind lines that go into the map, such a header. */
  lemma NoEmptyLineIff(t: seq<byte>, p: nat, m: Store)
    requires p <= |t| && DistinctKeys(m.entries)
    ensures Returned(t, Parse(t, p, m).0) == Some(-5)
            <==> exists fs, q, f :: LeadsTo(t, p, fs, m, q) && NoEmptyLine(t, q, f, Filled(m, EntriesOf(fs)))
  {
    if Returned(t, Parse(t, p, m).0) == Some(-5) {
      var fs, q, m' := LastLine(t, p, m);
      LastWithoutEmptyLineIff(t, q, m');
      var f :| NoEmptyLine(t, q, f, m');
    }
    forall fs, q, f | LeadsTo(t, p, fs, m, q) && NoEmptyLine(t, q, f, Filled(m, EntriesOf(fs)))
      ensures Returned(t, Parse(t, p, m).0) == Some(-5)
    {
      ComesTo(t, p, fs, m, q);
      NoEmptyLineIsLast(t, q, f, Filled(m, EntriesOf(fs)));
      LastWithoutEmptyLineIff(t, q, Filled(m, EntriesOf(fs)));
    }
  }
}
