/** Markers of other sections that stand inside the section being replaced. */
module SectionStrays {
  import opened Text
  import opened ManagedSection
  import opened SectionTheorems
  import opened SectionEdits
  import opened SectionOthers

  /** An edit that succeeds has no begin marker of another section inside. */
  lemma NoForeignInside(existing: string, begin: string, end: string, section: seq<string>, foreign: string -> bool,
      other: string)
    requires Edit(existing, begin, end, section, foreign).Ok? && foreign(other) && other != begin && other != end
    ensures other !in Inside(existing, begin, end)
  {
    if Inside(existing, begin, end) != [] {
      HasSection(existing, begin, end);
      EditNotNested(existing, begin, end, section, foreign);
      NotBetween(TrimAll(Lines(existing)), begin, end, foreign, other);
    }
  }

  lemma EditNotNested(existing: string, begin: string, end: string, section: seq<string>, foreign: string -> bool)
    requires Edit(existing, begin, end, section, foreign).Ok? && Count(TrimAll(Lines(existing)), begin) > 0
    ensures var trimmed := TrimAll(Lines(existing));
            !Nested(trimmed, PositionOf(trimmed, begin), PositionOf(trimmed, end), foreign)
  {}

  lemma NotBetween(trimmed: seq<string>, begin: string, end: string, foreign: string -> bool, other: string)
    requires foreign(other) && other != begin && other != end
    requires PositionOf(trimmed, begin) < PositionOf(trimmed, end) < |trimmed| ==>
               !Nested(trimmed, PositionOf(trimmed, begin), PositionOf(trimmed, end), foreign)
    ensures other !in Between(trimmed, begin, end)
  {
    var start, finish := PositionOf(trimmed, begin), PositionOf(trimmed, end);
    if start < finish < |trimmed| {
      NoForeignBetween(trimmed, start, finish, foreign, other);
    }
  }

  lemma NoForeignBetween(trimmed: seq<string>, start: nat, finish: nat, foreign: string -> bool, other: string)
    requires start < finish < |trimmed| && !Nested(trimmed, start, finish, foreign) && foreign(other)
    requires trimmed[start] != other && trimmed[finish] != other
    ensures other !in trimmed[start..finish + 1]
  {
    forall i | start <= i < finish + 1 ensures trimmed[i] != other {
      assert start < i < finish && i < |trimmed| ==> !foreign(trimmed[i]);
    }
    NotInSlice(trimmed, other, start, finish + 1);
  }

  // ---- Reading with an end marker inside ----

  /** The reader of another section never says that its markers are not paired, unless by count. */
  ghost predicate ReadsOnly<T>(read: string -> Result<T>) {
    forall line :: read(line).Err? ==> read(line).error != MarkersInvalid
  }

  lemma {:induction false} NotMarkers<T>(lines: seq<string>, read: string -> Result<T>)
    requires ReadsOnly(read)
    ensures ReadLines(lines, read) != Err(MarkersInvalid)
  {
    if lines != [] {
      NotMarkers(lines[1..], read);
    }
  }

  /** None of each, or one of each. */
  predicate Paired(starts: int, ends: int) {
    starts == ends <= 1
  }

  /** Counting alone decides whether the reader finds the markers invalid. */
  lemma InvalidIff<T>(trimmed: seq<string>, begin: string, end: string, read: string -> Result<T>)
    requires ReadsOnly(read)
    ensures ReadSection(trimmed, begin, end, read) == Err(MarkersInvalid)
            <==> !Paired(Count(trimmed, begin), Count(trimmed, end))
  {
    var start, finish := PositionOf(trimmed, begin), PositionOf(trimmed, end);
    if start < finish {
      NotMarkers(trimmed[start + 1..finish], read);
    }
  }

  lemma CountThree(a: seq<string>, m: seq<string>, c: seq<string>, marker: string)
    ensures Count(a + (m + c), marker) == Count(a, marker) + Count(m, marker) + Count(c, marker)
  {
    CountConcat(a, m + c, marker);
    CountConcat(m, c, marker);
  }

  /** A lone end marker inside: the reader that starts before meets an unreadable line first. */
  lemma StrayEndIsUnreadable<T>(
      a: seq<string>, m: seq<string>, c: seq<string>, begin: string, end: string, read: string -> Result<T>)
    requires m != [] && m[0] != [] && read(m[0]).Err? && begin !in m && m[0] != end && end in m
    ensures ReadSection(a + (m + c), begin, end, read).Err?
  {
    var trimmed := a + (m + c);
    CountNone(m, end);
    CountThree(a, m, c, end);
    CountedIsFound(m, end);
    CountedIsFound(a, end);
    PositionConcat(a, m + c, end);
    PositionConcat(m, c, end);
    PositionAround(a, m, c, begin);
    if Count(trimmed, begin) == 1 && Count(trimmed, end) == 1 && PositionOf(a, begin) < |a| {
      CrossesIn(a, m, c, PositionOf(a, begin), PositionOf(m, end), read);
    }
  }

  lemma CrossesIn<T>(
      a: seq<string>, m: seq<string>, c: seq<string>, start: nat, k: nat, read: string -> Result<T>)
    requires start < |a| && 0 < k <= |m| && m[0] != [] && read(m[0]).Err?
    ensures ReadLines((a + (m + c))[start + 1..|a| + k], read).Err?
  {
    assert (a + (m + c))[start + 1..|a| + k] == a[start + 1..] + ([m[0]] + m[1..k]);
    ReadStops(a[start + 1..], m[0], m[1..k], read);
  }

  // ---- Theorems ----

  /** No end marker of the other section is among the lines that go, or its markers are unpaired with those
      lines and without them. */
  predicate Unaffected(trimmed: seq<string>, inside: seq<string>, otherBegin: string, otherEnd: string) {
    var starts, ends := Count(trimmed, otherBegin), Count(trimmed, otherEnd);
    var outside := ends - Count(inside, otherEnd);
    otherEnd !in inside || (!Paired(starts, ends) && !Paired(starts, outside))
  }

  /** Before and after, when end markers of the other section are lost with the old lines m. */
  lemma LostEnds<T>(
      a: seq<string>, m: seq<string>, s: seq<string>, c: seq<string>, begin: string, end: string,
      read: string -> Result<T>)
    requires begin !in m && end in m && begin !in s && end !in s && ReadsOnly(read)
    ensures ReadSection(a + (s + c), begin, end, read) == ReadSection(a + (m + c), begin, end, read)
            <==> Unaffected(a + (m + c), m, begin, end)
  {
    CountThree(a, m, c, begin);
    CountThree(a, m, c, end);
    CountThree(a, s, c, begin);
    CountThree(a, s, c, end);
    CountNone(m, begin);
    CountNone(m, end);
    CountNone(s, begin);
    CountNone(s, end);
    InvalidIff(a + (m + c), begin, end, read);
    InvalidIff(a + (s + c), begin, end, read);
  }

  lemma HasSection(existing: string, begin: string, end: string)
    requires Inside(existing, begin, end) != []
    ensures Count(TrimAll(Lines(existing)), begin) > 0
  {
    CountedIsFound(TrimAll(Lines(existing)), begin);
  }

  /** What reading another section gives is the same before and after exactly when the edit takes away no end
      marker of it, or its markers are unpaired with it and without it. */
  lemma OthersUnseenIff<T>(existing: string, begin: string, end: string, body: seq<string>, foreign: string -> bool,
      otherBegin: string, otherEnd: string, read: string -> Result<T>)
    requires Proper(begin, end, body, foreign) && foreign(otherBegin)
    requires Edit(existing, begin, end, Section(begin, body, end), foreign).Ok?
    requires Elsewhere(otherBegin, begin, end, body) && Elsewhere(otherEnd, begin, end, body)
    requires read(begin).Err? && ReadsOnly(read)
    ensures var t := Edit(existing, begin, end, Section(begin, body, end), foreign).value;
            ReadSection(TrimAll(Lines(t)), otherBegin, otherEnd, read)
                == ReadSection(TrimAll(Lines(existing)), otherBegin, otherEnd, read)
            <==> Unaffected(TrimAll(Lines(existing)), Inside(existing, begin, end), otherBegin, otherEnd)
  {
    NoForeignInside(existing, begin, end, Section(begin, body, end), foreign, otherBegin);
    if otherEnd !in Inside(existing, begin, end) {
      OthersUnseen(existing, begin, end, body, foreign, otherBegin, otherEnd, read);
    } else {
      HasSection(existing, begin, end);
      SectionClean(begin, end, body, foreign, Newline(existing));
      var a, m, c := ReplaceParts(existing, begin, end, Section(begin, body, end), foreign);
      var s := TrimmedSection(begin, end, body, foreign, otherBegin, otherEnd);
      LostEnds(a, m, s, c, otherBegin, otherEnd, read);
    }
  }

  /** A section that could be read before reads the same afterwards. */
  lemma ReadableUnseen<T>(existing: string, begin: string, end: string, body: seq<string>, foreign: string -> bool,
      otherBegin: string, otherEnd: string, read: string -> Result<T>)
    requires Proper(begin, end, body, foreign) && foreign(otherBegin)
    requires Edit(existing, begin, end, Section(begin, body, end), foreign).Ok?
    requires Elsewhere(otherBegin, begin, end, body) && Elsewhere(otherEnd, begin, end, body)
    requires read(begin).Err? && ReadSection(TrimAll(Lines(existing)), otherBegin, otherEnd, read).Ok?
    ensures var t := Edit(existing, begin, end, Section(begin, body, end), foreign).value;
            ReadSection(TrimAll(Lines(t)), otherBegin, otherEnd, read)
                == ReadSection(TrimAll(Lines(existing)), otherBegin, otherEnd, read)
  {
    NoForeignInside(existing, begin, end, Section(begin, body, end), foreign, otherBegin);
    if otherEnd in Inside(existing, begin, end) {
      HasSection(existing, begin, end);
      SectionClean(begin, end, body, foreign, Newline(existing));
      var a, m, c := ReplaceParts(existing, begin, end, Section(begin, body, end), foreign);
      StrayEndIsUnreadable(a, m, c, otherBegin, otherEnd, read);
    }
    OthersUnseen(existing, begin, end, body, foreign, otherBegin, otherEnd, read);
  }

  /** An end marker that has no begin marker and stands inside is deleted: the other section could not be read
      before and is an empty one afterwards. */
  lemma StrayIsDeleted<T>(existing: string, begin: string, end: string, body: seq<string>, foreign: string -> bool,
      otherBegin: string, otherEnd: string, read: string -> Result<T>)
    requires Proper(begin, end, body, foreign)
    requires Edit(existing, begin, end, Section(begin, body, end), foreign).Ok?
    requires Elsewhere(otherBegin, begin, end, body) && Elsewhere(otherEnd, begin, end, body)
    requires Count(TrimAll(Lines(existing)), otherBegin) == 0 && Count(TrimAll(Lines(existing)), otherEnd) == 1
    requires otherEnd in Inside(existing, begin, end)
    ensures var t := Edit(existing, begin, end, Section(begin, body, end), foreign).value;
            && ReadSection(TrimAll(Lines(existing)), otherBegin, otherEnd, read) == Err(MarkersInvalid)
            && ReadSection(TrimAll(Lines(t)), otherBegin, otherEnd, read) == Ok([])
  {
    HasSection(existing, begin, end);
    SectionClean(begin, end, body, foreign, Newline(existing));
    var a, m, c := ReplaceParts(existing, begin, end, Section(begin, body, end), foreign);
    var s := TrimmedSection(begin, end, body, foreign, otherBegin, otherEnd);
    NoneLeft(a, m, s, c, otherBegin);
    NoneLeft(a, m, s, c, otherEnd);
  }

  lemma NoneLeft(a: seq<string>, m: seq<string>, s: seq<string>, c: seq<string>, marker: string)
    requires Count(a + (m + c), marker) <= (if marker in m then 1 else 0) && marker !in s
    ensures Count(a + (s + c), marker) == 0
  {
    CountThree(a, m, c, marker);
    CountThree(a, s, c, marker);
    CountNone(m, marker);
    CountNone(s, marker);
  }
}
