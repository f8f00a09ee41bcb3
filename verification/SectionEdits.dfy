/** Whole edits: what is kept, what is read back, what a second edit does, what other sections see. */
module SectionEdits {
  import opened Common
  import opened Text
  import opened ManagedSection
  import opened SectionTheorems

  /** Markers and body lines an edit may use: unbroken, and no body line looks like a marker. */
  ghost predicate Proper(begin: string, end: string, body: seq<string>, foreign: string -> bool) {
    && begin != [] && Bare(begin) && Unbroken(begin)
    && end != [] && Bare(end) && Unbroken(end)
    && begin != end
    && (forall i :: 0 <= i < |body| ==>
          && Unbroken(body[i]) && Trim(body[i]) != begin && Trim(body[i]) != end && !foreign(Trim(body[i])))
  }

  function Section(begin: string, body: seq<string>, end: string): seq<string> {
    [begin] + (body + [end])
  }

  lemma SectionClean(begin: string, end: string, body: seq<string>, foreign: string -> bool, nl: string)
    requires Proper(begin, end, body, foreign)
    ensures AllClean(Section(begin, body, end), nl)
  {}

  lemma TrimBare(s: string)
    requires Bare(s)
    ensures Trim(s) == s
  {
    TrimIs("", s, "");
    assert "" + s + "" == s;
  }

  lemma TrimSection(begin: string, end: string, body: seq<string>)
    requires Bare(begin) && Bare(end)
    ensures TrimAll(Section(begin, body, end)) == Section(begin, TrimAll(body), end)
  {
    TrimBare(begin);
    TrimBare(end);
    TrimAllConcat([begin], body + [end]);
    TrimAllConcat(body, [end]);
    TrimAllOne(begin);
    TrimAllOne(end);
  }

  lemma BodyHasNoMarkers(begin: string, end: string, body: seq<string>, foreign: string -> bool)
    requires Proper(begin, end, body, foreign)
    ensures begin !in TrimAll(body) && end !in TrimAll(body)
    ensures forall i :: 0 <= i < |body| ==> !foreign(TrimAll(body)[i])
  {
    forall i | 0 <= i < |body|
      ensures TrimAll(body)[i] != begin && TrimAll(body)[i] != end && !foreign(TrimAll(body)[i])
    {
      TrimAllAt(body, i);
    }
  }

  // ---- Lines of existing text are clean ----

  lemma ExistingClean(existing: string, i: nat)
    requires i < |Lines(existing)| - (if EndsWith(existing, '\n') then 0 else 1)
    ensures Clean(Lines(existing)[i], Newline(existing))
  {
    LinesUnbroken(existing);
    if !HasCrLf(existing) {
      LinesNoCr(existing);
    }
  }

  lemma AllExistingClean(existing: string, n: nat)
    requires n == if EndsWith(existing, '\n') then 0 else 1
    ensures forall i :: 0 <= i < |Lines(existing)| - n ==> Clean(Lines(existing)[i], Newline(existing))
  {
    forall i | 0 <= i < |Lines(existing)| - n ensures Clean(Lines(existing)[i], Newline(existing)) {
      ExistingClean(existing, i);
    }
  }

  /** Replacing keeps every line before and after the section as it was. */
  lemma RebuiltLines(existing: string, start: nat, finish: nat, section: seq<string>)
    requires start <= finish < |Lines(existing)|
    requires AllClean(section, Newline(existing)) && section != [] && section[|section| - 1] != []
    ensures var lines := Lines(existing);
            Lines(Rebuilt(lines, start, finish, section, Newline(existing), EndsWith(existing, '\n')))
              == lines[..start] + section + lines[finish + 1..]
  {
    var lines, nl, terminated := Lines(existing), Newline(existing), EndsWith(existing, '\n');
    var output := lines[..start] + section + lines[finish + 1..];
    var n := if terminated then 0 else 1;
    LinesUnbroken(existing);
    LastLine(existing);
    AllExistingClean(existing, n);
    OutputClean(lines, start, finish, section, nl, n);
    LinesOfJoin(output, nl, terminated);
  }

  lemma OutputClean(lines: seq<string>, start: nat, finish: nat, section: seq<string>, nl: string, n: nat)
    requires start <= finish < |lines| && section != [] && AllClean(section, nl) && n <= 1
    requires forall i :: 0 <= i < |lines| - n ==> Clean(lines[i], nl)
    ensures var output := lines[..start] + section + lines[finish + 1..];
            && AllClean(output[..|output| - n], nl)
            && (n == 0 ==> AllClean(output, nl))
            && output[|output| - 1] == if finish + 1 < |lines| then lines[|lines| - 1] else section[|section| - 1]
  {
    var output := lines[..start] + section + lines[finish + 1..];
    forall i | 0 <= i < |output| - n ensures Clean(output[i], nl) {
      if i < start {
        assert output[i] == lines[i];
      } else if i < start + |section| {
        assert output[i] == section[i - start];
      } else {
        assert output[i] == lines[i - start - |section| + finish + 1];
      }
    }
  }

  // ---- The shape of every successful edit ----

  /** Before: no section (`old` is empty) or one section between the same neighbours.  After: the new
      section between them, in the lines and in the trimmed lines. */
  lemma EditShape(existing: string, begin: string, end: string, body: seq<string>, foreign: string -> bool)
    returns (x: seq<string>, y: seq<string>)
    requires Proper(begin, end, body, foreign)
    requires Edit(existing, begin, end, Section(begin, body, end), foreign).Ok?
    ensures var t := Edit(existing, begin, end, Section(begin, body, end), foreign).value;
            && Lines(t) == x + (Section(begin, body, end) + y)
            && Holds(TrimAll(Lines(t)), begin, end, TrimAll(x), TrimAll(body), TrimAll(y))
  {
    var section := Section(begin, body, end);
    var t := Edit(existing, begin, end, section, foreign).value;
    var trimmed := TrimAll(Lines(existing));
    var nl := Newline(existing);
    SectionClean(begin, end, body, foreign, nl);
    if Count(trimmed, begin) == 0 {
      x, y := AppendShape(existing, begin, end, section, nl);
    } else {
      x, y := ReplaceShape(existing, begin, end, section, foreign);
    }
    SectionHeld(x, begin, end, body, y, foreign);
  }

  lemma AppendShape(existing: string, begin: string, end: string, section: seq<string>, nl: string)
    returns (x: seq<string>, y: seq<string>)
    requires IsNewline(nl) && AllClean(section, nl)
    requires Count(TrimAll(Lines(existing)), begin) == 0 && Count(TrimAll(Lines(existing)), end) == 0
    requires begin != [] && end != []
    ensures y == [] && Lines(Appended(existing, section, nl)) == x + (section + y)
    ensures begin !in TrimAll(x) && end !in TrimAll(x)
  {
    var text, base, gap := AppendedText(existing, section, nl);
    LinesOfAppend(base, gap, section, nl);
    x, y := Lines(base) + gap, [];
    Join3(Lines(text), Lines(base), gap + section, gap, section);
    Unit(section);
    assert TrimAll(Lines(base)) == TrimAll(Lines(existing)) by {
      if base != existing {
        TerminatedLines(existing, nl);
      }
    }
    CountNone(TrimAll(Lines(existing)), begin);
    CountNone(TrimAll(Lines(existing)), end);
    GapHasNoMarkers(Lines(base), gap, begin);
    GapHasNoMarkers(Lines(base), gap, end);
  }

  lemma GapHasNoMarkers(lines: seq<string>, gap: seq<string>, marker: string)
    requires (gap == [] || gap == [""]) && marker != [] && marker !in TrimAll(lines)
    ensures marker !in TrimAll(lines + gap)
  {
    TrimAllConcat(lines, gap);
    TrimBare("");
    TrimAllOne("");
  }

  /** One begin marker, one end marker, in order: neither occurs outside the section. */
  lemma MarkersCut(trimmed: seq<string>, begin: string, end: string)
    requires Count(trimmed, begin) == 1 && Count(trimmed, end) == 1 && begin != end
    requires PositionOf(trimmed, begin) <= PositionOf(trimmed, end)
    ensures var start, finish := PositionOf(trimmed, begin), PositionOf(trimmed, end);
            && start < finish < |trimmed|
            && begin !in trimmed[..start] && end !in trimmed[..start]
            && begin !in trimmed[finish + 1..] && end !in trimmed[finish + 1..]
            && begin !in trimmed[start + 1..finish] && end !in trimmed[start + 1..finish]
  {
    var start, finish := PositionOf(trimmed, begin), PositionOf(trimmed, end);
    CountedIsFound(trimmed, end);
    OnceOnly(trimmed, begin);
    OnceOnly(trimmed, end);
    NotInSlice(trimmed, begin, 0, start);
    NotInSlice(trimmed, end, 0, start);
    NotInSlice(trimmed, begin, start + 1, finish);
    NotInSlice(trimmed, end, start + 1, finish);
    NotInSlice(trimmed, begin, finish + 1, |trimmed|);
    NotInSlice(trimmed, end, finish + 1, |trimmed|);
  }

  lemma OnceOnly(lines: seq<string>, marker: string)
    requires Count(lines, marker) == 1
    ensures forall i :: 0 <= i < |lines| && i != PositionOf(lines, marker) ==> lines[i] != marker
  {
    var a, b := CutAtMarker(lines, marker);
    forall i | |a| < i < |lines| ensures lines[i] != marker {
      assert lines[i] == b[i - |a| - 1];
    }
  }

  lemma NotInSlice(lines: seq<string>, marker: string, lo: nat, hi: nat)
    requires lo <= hi <= |lines| && forall i :: lo <= i < hi ==> lines[i] != marker
    ensures marker !in lines[lo..hi]
  {}

  lemma EditReplaces(existing: string, begin: string, end: string, section: seq<string>, foreign: string -> bool)
    requires Count(TrimAll(Lines(existing)), begin) > 0 && Edit(existing, begin, end, section, foreign).Ok?
    ensures var trimmed := TrimAll(Lines(existing));
            && Count(trimmed, begin) == 1 && Count(trimmed, end) == 1
            && PositionOf(trimmed, begin) <= PositionOf(trimmed, end) < |Lines(existing)|
            && Edit(existing, begin, end, section, foreign).value ==
                 Rebuilt(Lines(existing), PositionOf(trimmed, begin), PositionOf(trimmed, end), section,
                     Newline(existing), EndsWith(existing, '\n'))
  {
    CountedIsFound(TrimAll(Lines(existing)), end);
  }

  /** A replacement keeps the lines before and after the section. */
  lemma ReplaceShape(existing: string, begin: string, end: string, section: seq<string>, foreign: string -> bool)
    returns (x: seq<string>, y: seq<string>)
    requires AllClean(section, Newline(existing)) && section != [] && section[|section| - 1] != [] && begin != end
    requires Count(TrimAll(Lines(existing)), begin) > 0
    requires Edit(existing, begin, end, section, foreign).Ok?
    ensures Lines(Edit(existing, begin, end, section, foreign).value) == x + (section + y)
    ensures begin !in TrimAll(x) && end !in TrimAll(x) && begin !in TrimAll(y) && end !in TrimAll(y)
    ensures var trimmed := TrimAll(Lines(existing));
            && PositionOf(trimmed, begin) < PositionOf(trimmed, end) < |Lines(existing)|
            && x == Lines(existing)[..PositionOf(trimmed, begin)]
            && y == Lines(existing)[PositionOf(trimmed, end) + 1..]
  {
    var trimmed := TrimAll(Lines(existing));
    EditReplaces(existing, begin, end, section, foreign);
    MarkersCut(trimmed, begin, end);
    x, y := Outside(Lines(existing), PositionOf(trimmed, begin), PositionOf(trimmed, end) + 1, begin, end);
    Surroundings(existing, PositionOf(trimmed, begin), PositionOf(trimmed, end), section, x, y);
  }

  lemma Surroundings(existing: string, start: nat, finish: nat, section: seq<string>, x: seq<string>, y: seq<string>)
    requires start < finish < |Lines(existing)|
    requires AllClean(section, Newline(existing)) && section != [] && section[|section| - 1] != []
    requires x == Lines(existing)[..start] && y == Lines(existing)[finish + 1..]
    ensures Lines(Rebuilt(Lines(existing), start, finish, section, Newline(existing), EndsWith(existing, '\n')))
              == x + (section + y)
  {
    RebuiltLines(existing, start, finish, section);
    Reassociate(x, section, y);
  }

  lemma Outside(lines: seq<string>, start: nat, rest: nat, begin: string, end: string)
    returns (x: seq<string>, y: seq<string>)
    requires start < rest <= |lines|
    requires begin !in TrimAll(lines)[..start] && end !in TrimAll(lines)[..start]
    requires begin !in TrimAll(lines)[rest..] && end !in TrimAll(lines)[rest..]
    ensures x == lines[..start] && y == lines[rest..]
    ensures begin !in TrimAll(x) && end !in TrimAll(x) && begin !in TrimAll(y) && end !in TrimAll(y)
  {
    x, y := lines[..start], lines[rest..];
    TrimCut(lines, start);
    TrimCut(lines, rest);
  }

  lemma TakeDrop<T>(s: seq<T>, n: nat)
    requires n <= |s|
    ensures s == s[..n] + s[n..]
  {}

  lemma TrimCut(lines: seq<string>, n: nat)
    requires n <= |lines|
    ensures TrimAll(lines[..n]) == TrimAll(lines)[..n]
    ensures TrimAll(lines[n..]) == TrimAll(lines)[n..]
  {
    TakeDrop(lines, n);
    TrimAllConcat(lines[..n], lines[n..]);
    CutConcat(TrimAll(lines[..n]), TrimAll(lines[n..]));
  }

  lemma SectionHeld(
      x: seq<string>, begin: string, end: string, body: seq<string>, y: seq<string>, foreign: string -> bool)
    requires Proper(begin, end, body, foreign)
    requires begin !in TrimAll(x) && end !in TrimAll(x) && begin !in TrimAll(y) && end !in TrimAll(y)
    ensures Holds(TrimAll(x + (Section(begin, body, end) + y)), begin, end, TrimAll(x), TrimAll(body), TrimAll(y))
  {
    TrimAllConcat(x, Section(begin, body, end) + y);
    TrimAllConcat(Section(begin, body, end), y);
    TrimSection(begin, end, body);
    BodyHasNoMarkers(begin, end, body, foreign);
    SectionRegroup(begin, TrimAll(body), end, TrimAll(y));
  }

  lemma SectionRegroup(begin: string, body: seq<string>, end: string, y: seq<string>)
    ensures Section(begin, body, end) + y == [begin] + (body + ([end] + y))
  {}

  /** Reading the section after an edit gives exactly the lines the edit wrote. */
  lemma EditReadsBack<T>(
      existing: string, begin: string, end: string, body: seq<string>, foreign: string -> bool,
      read: string -> Result<T>)
    requires Proper(begin, end, body, foreign)
    requires Edit(existing, begin, end, Section(begin, body, end), foreign).Ok?
    ensures var t := Edit(existing, begin, end, Section(begin, body, end), foreign).value;
            ReadSection(TrimAll(Lines(t)), begin, end, read) == ReadLines(TrimAll(body), read)
  {
    var x, y := EditShape(existing, begin, end, body, foreign);
    var t := Edit(existing, begin, end, Section(begin, body, end), foreign).value;
    HoldsReads(TrimAll(Lines(t)), begin, end, TrimAll(x), TrimAll(body), TrimAll(y), read);
  }

  lemma HeldMarkers(
      trimmed: seq<string>, begin: string, end: string, a: seq<string>, inner: seq<string>, b: seq<string>,
      foreign: string -> bool)
    requires Holds(trimmed, begin, end, a, inner, b)
    requires forall i :: 0 <= i < |inner| ==> !foreign(inner[i])
    ensures Count(trimmed, begin) == 1 && Count(trimmed, end) == 1
    ensures PositionOf(trimmed, begin) == |a| && PositionOf(trimmed, end) == |a| + 1 + |inner|
    ensures !Nested(trimmed, |a|, |a| + 1 + |inner|, foreign)
  {
    HoldsCounts(trimmed, begin, end, a, inner, b);
    NotNested(trimmed, |a|, |a| + 1 + |inner|, inner, foreign);
  }

  /** The lines of the text written again with one kind of newline. */
  function Rejoined(s: string, nl: string): string {
    Join(Lines(s), nl) + (if EndsWith(s, '\n') then nl else "")
  }

  /** The text with all its line terminators made alike. */
  function Normalized(t: string): string {
    Rejoined(t, Newline(t))
  }

  /** Writing a section over itself keeps every line. */
  lemma EditHeld(
      t: string, x: seq<string>, y: seq<string>, begin: string, end: string, body: seq<string>,
      foreign: string -> bool)
    requires Proper(begin, end, body, foreign)
    requires Lines(t) == x + (Section(begin, body, end) + y)
    requires Holds(TrimAll(Lines(t)), begin, end, TrimAll(x), TrimAll(body), TrimAll(y))
    ensures Edit(t, begin, end, Section(begin, body, end), foreign) == Ok(Normalized(t))
    ensures Lines(Normalized(t)) == Lines(t)
  {
    var section := Section(begin, body, end);
    var trimmed := TrimAll(Lines(t));
    var start, finish := |x|, |x| + 1 + |body|;
    BodyHasNoMarkers(begin, end, body, foreign);
    HeldMarkers(trimmed, begin, end, TrimAll(x), TrimAll(body), TrimAll(y), foreign);
    SectionCut(x, section, y);
    SectionClean(begin, end, body, foreign, Newline(t));
    RebuiltLines(t, start, finish, section);
    EditOfHeld(t, begin, end, section, foreign);
  }

  /** Repeating an edit succeeds and changes no line. */
  lemma EditTwice(existing: string, begin: string, end: string, body: seq<string>, foreign: string -> bool)
    requires Proper(begin, end, body, foreign)
    requires Edit(existing, begin, end, Section(begin, body, end), foreign).Ok?
    ensures var section := Section(begin, body, end);
            var t := Edit(existing, begin, end, section, foreign).value;
            && Edit(t, begin, end, section, foreign) == Ok(Normalized(t))
            && Lines(Normalized(t)) == Lines(t)
  {
    var x, y := EditShape(existing, begin, end, body, foreign);
    EditHeld(Edit(existing, begin, end, Section(begin, body, end), foreign).value, x, y, begin, end, body, foreign);
  }

  /** After an edit, an edit of the same section with any other lines succeeds. */
  lemma EditAgain(
      existing: string, begin: string, end: string, body: seq<string>, section: seq<string>, foreign: string -> bool)
    requires Proper(begin, end, body, foreign)
    requires Edit(existing, begin, end, Section(begin, body, end), foreign).Ok?
    ensures Edit(Edit(existing, begin, end, Section(begin, body, end), foreign).value, begin, end, section, foreign).Ok?
  {
    var t := Edit(existing, begin, end, Section(begin, body, end), foreign).value;
    var x, y := EditShape(existing, begin, end, body, foreign);
    BodyHasNoMarkers(begin, end, body, foreign);
    HeldMarkers(TrimAll(Lines(t)), begin, end, TrimAll(x), TrimAll(body), TrimAll(y), foreign);
    EditOfHeld(t, begin, end, section, foreign);
  }

  lemma NotNested(trimmed: seq<string>, start: nat, finish: nat, inner: seq<string>, foreign: string -> bool)
    requires start < finish <= |trimmed| && trimmed[start + 1..finish] == inner
    requires forall i :: 0 <= i < |inner| ==> !foreign(inner[i])
    ensures !Nested(trimmed, start, finish, foreign)
  {
    forall i | start < i < finish ensures !foreign(trimmed[i]) {
      assert trimmed[i] == inner[i - start - 1];
    }
  }

  lemma EditOfHeld(t: string, begin: string, end: string, section: seq<string>, foreign: string -> bool)
    requires var trimmed := TrimAll(Lines(t));
             && Count(trimmed, begin) == 1 && Count(trimmed, end) == 1
             && PositionOf(trimmed, begin) <= PositionOf(trimmed, end)
             && !Nested(trimmed, PositionOf(trimmed, begin), PositionOf(trimmed, end), foreign)
    ensures var trimmed := TrimAll(Lines(t));
            && PositionOf(trimmed, end) < |Lines(t)|
            && Edit(t, begin, end, section, foreign) ==
                 Ok(Rebuilt(Lines(t), PositionOf(trimmed, begin), PositionOf(trimmed, end), section, Newline(t),
                     EndsWith(t, '\n')))
  {
    CountedIsFound(TrimAll(Lines(t)), end);
  }

  lemma SectionCut(x: seq<string>, section: seq<string>, y: seq<string>)
    ensures var lines := x + (section + y);
            && lines[..|x|] == x && lines[|x| + |section|..] == y
            && lines[..|x|] + section + lines[|x| + |section|..] == lines
  {}
}
