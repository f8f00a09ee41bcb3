/** What the readers of other sections see of an edit: nothing. */
module SectionOthers {
  import opened Text
  import opened ManagedSection
  import opened SectionTheorems
  import opened SectionEdits

  lemma CountAround(a: seq<string>, m: seq<string>, c: seq<string>, marker: string)
    requires marker !in m
    ensures Count(a + (m + c), marker) == Count(a, marker) + Count(c, marker)
  {
    CountConcat(a, m + c, marker);
    CountConcat(m, c, marker);
    CountNone(m, marker);
  }

  lemma {:induction false} PositionConcat(a: seq<string>, b: seq<string>, marker: string)
    ensures PositionOf(a + b, marker) ==
              if PositionOf(a, marker) < |a| then PositionOf(a, marker) else |a| + PositionOf(b, marker)
  {
    if a == [] {
      assert a + b == b;
    } else {
      assert (a + b)[0] == a[0] && (a + b)[1..] == a[1..] + b;
      PositionConcat(a[1..], b, marker);
    }
  }

  lemma PositionAround(a: seq<string>, m: seq<string>, c: seq<string>, marker: string)
    requires marker !in m
    ensures PositionOf(a + (m + c), marker) ==
              if PositionOf(a, marker) < |a| then PositionOf(a, marker) else |a| + |m| + PositionOf(c, marker)
  {
    PositionConcat(a, m + c, marker);
    PositionConcat(m, c, marker);
    CountNone(m, marker);
    CountedIsFound(m, marker);
  }

  /** A line that cannot be read ends the reading, whatever follows it. */
  lemma {:induction false} ReadStops<T>(p: seq<string>, stop: string, rest: seq<string>, read: string -> Result<T>)
    requires stop != [] && read(stop).Err?
    ensures ReadLines(p + ([stop] + rest), read) ==
              if ReadLines(p, read).Err? then ReadLines(p, read) else Err(read(stop).error)
  {
    if p == [] {
      assert p + ([stop] + rest) == [stop] + rest;
    } else {
      var s := p + ([stop] + rest);
      assert s[0] == p[0] && s[1..] == p[1..] + ([stop] + rest);
      ReadStops(p[1..], stop, rest, read);
    }
  }

  // ---- Slices of a + (m + c) ----

  lemma SliceBefore<T>(a: seq<T>, r: seq<T>, i: nat, j: nat)
    requires i <= j <= |a|
    ensures (a + r)[i..j] == a[i..j]
  {}

  lemma SliceAfter<T>(a: seq<T>, m: seq<T>, c: seq<T>, i: nat, j: nat)
    requires i <= j <= |c|
    ensures (a + (m + c))[|a| + |m| + i..|a| + |m| + j] == c[i..j]
  {}

  lemma SliceAcross<T>(a: seq<T>, m: seq<T>, c: seq<T>, i: nat, j: nat)
    requires i <= |a| && j <= |c| && m != []
    ensures (a + (m + c))[i..|a| + |m| + j] == a[i..] + ([m[0]] + (m[1..] + c[..j]))
  {}

  /** Reads what stands between two places of a, m, c, each given in a (when inside it) or else in c;
      of m only the first line matters. */
  function ReadSpan<T>(
      a: seq<string>, stop: string, c: seq<string>, start: nat, finish: nat, start2: nat, finish2: nat,
      read: string -> Result<T>): Result<seq<T>>
    requires start <= |a| && finish <= |a| && start2 <= |c| && finish2 <= |c|
  {
    if start < |a| && finish < |a| then
      if finish <= start then Err(MarkersOutOfOrder) else ReadLines(a[start + 1..finish], read)
    else if start < |a| then
      var before, line := ReadLines(a[start + 1..], read), read(stop);
      if before.Err? || line.Ok? then before else Err(line.error)
    else if finish < |a| || finish2 <= start2 then Err(MarkersOutOfOrder)
    else ReadLines(c[start2 + 1..finish2], read)
  }

  /** What a reader gets from lines a, m, c when its markers are not in m. */
  function ReadAround<T>(
      a: seq<string>, stop: string, c: seq<string>, begin: string, end: string,
      read: string -> Result<T>): Result<seq<T>>
  {
    var starts, ends := Count(a, begin) + Count(c, begin), Count(a, end) + Count(c, end);
    if starts == 0 && ends == 0 then Ok([])
    else if starts != 1 || ends != 1 then Err(MarkersInvalid)
    else ReadSpan(a, stop, c, PositionOf(a, begin), PositionOf(a, end), PositionOf(c, begin), PositionOf(c, end), read)
  }

  /** Two markers that are not in m are found around it. */
  lemma FoundAround(a: seq<string>, m: seq<string>, c: seq<string>, marker: string)
    requires marker !in m
    ensures Count(a + (m + c), marker) == Count(a, marker) + Count(c, marker)
    ensures Count(a, marker) + Count(c, marker) == 1 ==>
              PositionOf(a + (m + c), marker) ==
                if PositionOf(a, marker) < |a| then PositionOf(a, marker) else |a| + |m| + PositionOf(c, marker)
    ensures Count(a, marker) + Count(c, marker) == 1 ==> PositionOf(a, marker) < |a| || PositionOf(c, marker) < |c|
  {
    CountAround(a, m, c, marker);
    PositionAround(a, m, c, marker);
    CountedIsFound(a, marker);
    CountedIsFound(c, marker);
  }

  lemma ReadLocated<T>(
      trimmed: seq<string>, begin: string, end: string, start: nat, finish: nat, read: string -> Result<T>)
    requires Count(trimmed, begin) == 1 && Count(trimmed, end) == 1
    requires PositionOf(trimmed, begin) == start && PositionOf(trimmed, end) == finish
    ensures finish <= |trimmed|
    ensures ReadSection(trimmed, begin, end, read) ==
              if finish <= start then Err(MarkersOutOfOrder) else ReadLines(trimmed[start + 1..finish], read)
  {}

  lemma ReadAcross<T>(
      a: seq<string>, m: seq<string>, c: seq<string>, start: nat, finish: nat, read: string -> Result<T>)
    requires start < |a| && finish <= |c| && m != [] && m[0] != [] && read(m[0]).Err?
    ensures ReadLines((a + (m + c))[start + 1..|a| + |m| + finish], read) ==
              var before := ReadLines(a[start + 1..], read); if before.Err? then before else Err(read(m[0]).error)
  {
    SliceAcross(a, m, c, start + 1, finish);
    ReadStops(a[start + 1..], m[0], m[1..] + c[..finish], read);
  }

  lemma ReadSpans<T>(
      a: seq<string>, m: seq<string>, c: seq<string>, start: nat, finish: nat, start2: nat, finish2: nat,
      read: string -> Result<T>)
    requires start <= |a| && finish <= |a| && start2 <= |c| && finish2 <= |c|
    requires m != [] && m[0] != [] && read(m[0]).Err?
    ensures var from := if start < |a| then start else |a| + |m| + start2;
            var to := if finish < |a| then finish else |a| + |m| + finish2;
            ReadSpan(a, m[0], c, start, finish, start2, finish2, read) ==
              if to <= from then Err(MarkersOutOfOrder) else ReadLines((a + (m + c))[from + 1..to], read)
  {
    if start < |a| && finish < |a| {
      if start < finish {
        SliceBefore(a, m + c, start + 1, finish);
      }
    } else if start < |a| {
      ReadAcross(a, m, c, start, finish2, read);
    } else if finish >= |a| && start2 < finish2 {
      SliceAfter(a, m, c, start2 + 1, finish2);
    }
  }

  lemma ReadsAround<T>(
      a: seq<string>, m: seq<string>, c: seq<string>, begin: string, end: string, read: string -> Result<T>)
    requires m != [] && begin !in m && end !in m && m[0] != [] && read(m[0]).Err?
    ensures ReadSection(a + (m + c), begin, end, read) == ReadAround(a, m[0], c, begin, end, read)
  {
    FoundAround(a, m, c, begin);
    FoundAround(a, m, c, end);
    if Count(a, begin) + Count(c, begin) == 1 && Count(a, end) + Count(c, end) == 1 {
      ReadsFound(a + (m + c), a, m, c, begin, end, PositionOf(a, begin), PositionOf(a, end), PositionOf(c, begin),
          PositionOf(c, end), read);
    }
  }

  lemma ReadsFound<T>(lines: seq<string>, a: seq<string>, m: seq<string>, c: seq<string>, begin: string, end: string,
      start: nat, finish: nat, start2: nat, finish2: nat, read: string -> Result<T>)
    requires lines == a + (m + c) && m != [] && m[0] != [] && read(m[0]).Err?
    requires start <= |a| && finish <= |a| && start2 <= |c| && finish2 <= |c|
    requires Count(lines, begin) == 1 && Count(lines, end) == 1
    requires PositionOf(lines, begin) == if start < |a| then start else |a| + |m| + start2
    requires PositionOf(lines, end) == if finish < |a| then finish else |a| + |m| + finish2
    ensures ReadSection(lines, begin, end, read) == ReadSpan(a, m[0], c, start, finish, start2, finish2, read)
  {
    ReadLocated(lines, begin, end, PositionOf(lines, begin), PositionOf(lines, end), read);
    ReadSpans(a, m, c, start, finish, start2, finish2, read);
  }

  /** Lines without its markers at the end do not change what a reader gets. */
  lemma ReadsPrefix<T>(a: seq<string>, m: seq<string>, begin: string, end: string, read: string -> Result<T>)
    requires begin !in m && end !in m
    ensures ReadSection(a + m, begin, end, read) == ReadSection(a, begin, end, read)
  {
    CountConcat(a, m, begin);
    CountConcat(a, m, end);
    CountNone(m, begin);
    CountNone(m, end);
    PositionConcat(a, m, begin);
    PositionConcat(a, m, end);
    CountedIsFound(a, begin);
    CountedIsFound(a, end);
    var start, finish := PositionOf(a, begin), PositionOf(a, end);
    if start < finish < |a| {
      SliceBefore(a, m, start + 1, finish);
    }
  }

  // ---- The theorem ----

  /** Markers of another section: neither is a marker or a line of the section being written. */
  ghost predicate Elsewhere(marker: string, begin: string, end: string, body: seq<string>) {
    marker != [] && marker != begin && marker != end && marker !in TrimAll(body)
  }

  /** The lines from the begin marker to the end marker. */
  function Between(trimmed: seq<string>, begin: string, end: string): seq<string> {
    var start, finish := PositionOf(trimmed, begin), PositionOf(trimmed, end);
    if start < finish < |trimmed| then trimmed[start..finish + 1] else []
  }

  lemma BetweenIs(trimmed: seq<string>, begin: string, end: string, start: nat, rest: nat, m: seq<string>)
    requires start < rest - 1 < |trimmed| && m == trimmed[start..rest]
    requires start == PositionOf(trimmed, begin) && rest == PositionOf(trimmed, end) + 1
    ensures m == Between(trimmed, begin, end)
  {}

  /** The section that stands in the file now, its markers included. */
  function Inside(existing: string, begin: string, end: string): seq<string> {
    Between(TrimAll(Lines(existing)), begin, end)
  }

  lemma TrimmedSection(
      begin: string, end: string, body: seq<string>, foreign: string -> bool, otherBegin: string, otherEnd: string)
    returns (s: seq<string>)
    requires Proper(begin, end, body, foreign)
    requires Elsewhere(otherBegin, begin, end, body) && Elsewhere(otherEnd, begin, end, body)
    ensures s == TrimAll(Section(begin, body, end)) && s != [] && s[0] == begin
    ensures otherBegin !in s && otherEnd !in s
  {
    s := Section(begin, TrimAll(body), end);
    SectionLacks(begin, TrimAll(body), end, otherBegin);
    SectionLacks(begin, TrimAll(body), end, otherEnd);
    TrimSection(begin, end, body);
  }

  lemma SectionLacks(begin: string, inner: seq<string>, end: string, marker: string)
    requires marker != begin && marker != end && marker !in inner
    ensures marker !in Section(begin, inner, end)
  {}

  /** Reading another section gives the same before and after an edit that appends. */
  lemma AppendUnseen<T>(existing: string, begin: string, end: string, body: seq<string>, foreign: string -> bool,
      otherBegin: string, otherEnd: string, read: string -> Result<T>)
    requires Proper(begin, end, body, foreign)
    requires Elsewhere(otherBegin, begin, end, body) && Elsewhere(otherEnd, begin, end, body)
    ensures var t := Appended(existing, Section(begin, body, end), Newline(existing));
            ReadSection(TrimAll(Lines(t)), otherBegin, otherEnd, read)
                == ReadSection(TrimAll(Lines(existing)), otherBegin, otherEnd, read)
  {
    var section, nl := Section(begin, body, end), Newline(existing);
    SectionClean(begin, end, body, foreign, nl);
    var gap := AppendedLines(existing, section, nl);
    var s := TrimmedSection(begin, end, body, foreign, otherBegin, otherEnd);
    ReadsPrefix(TrimAll(Lines(existing)), gap + s, otherBegin, otherEnd, read);
  }

  lemma SplitThree<T>(s: seq<T>, i: nat, j: nat)
    requires i <= j <= |s|
    ensures s == s[..i] + (s[i..j] + s[j..])
  {}

  lemma TrimSlice(lines: seq<string>, i: nat, j: nat)
    requires i <= j <= |lines|
    ensures TrimAll(lines[i..j]) == TrimAll(lines)[i..j]
  {
    TrimCut(lines, j);
    TrimCut(lines[..j], i);
    assert lines[..j][i..] == lines[i..j];
  }

  /** The trimmed lines before an edit that replaces: its neighbours around what stood there. */
  lemma Parts(
      lines: seq<string>, start: nat, rest: nat, x: seq<string>, m: seq<string>, y: seq<string>)
    returns (a: seq<string>, c: seq<string>)
    requires start < rest <= |lines| && x == lines[..start] && y == lines[rest..] && m == TrimAll(lines)[start..rest]
    ensures a == TrimAll(x) && c == TrimAll(y) && TrimAll(lines) == a + (m + c)
  {
    a, c := TrimAll(x), TrimAll(y);
    TrimCut(lines, start);
    TrimCut(lines, rest);
    SplitThree(TrimAll(lines), start, rest);
  }

  /** The trimmed lines after it. */
  lemma NewNeighbours(x: seq<string>, section: seq<string>, y: seq<string>)
    ensures TrimAll(x + (section + y)) == TrimAll(x) + (TrimAll(section) + TrimAll(y))
  {
    TrimAllConcat(x, section + y);
    TrimAllConcat(section, y);
  }

  /** The trimmed lines before and after an edit that replaces: the same neighbours. */
  lemma ReplaceParts(existing: string, begin: string, end: string, section: seq<string>, foreign: string -> bool)
    returns (a: seq<string>, m: seq<string>, c: seq<string>)
    requires AllClean(section, Newline(existing)) && section != [] && section[|section| - 1] != [] && begin != end
    requires Count(TrimAll(Lines(existing)), begin) > 0
    requires Edit(existing, begin, end, section, foreign).Ok?
    ensures m == Inside(existing, begin, end) && |m| > 0 && m[0] == begin
    ensures TrimAll(Lines(existing)) == a + (m + c)
    ensures TrimAll(Lines(Edit(existing, begin, end, section, foreign).value)) == a + (TrimAll(section) + c)
  {
    var x, y, start, rest;
    x, y, start, rest := ReplacePlaces(existing, begin, end, section, foreign);
    NewNeighbours(x, section, y);
    m := SliceFrom(TrimAll(Lines(existing)), start, rest);
    a, c := Parts(Lines(existing), start, rest, x, m, y);
  }

  lemma ReplacePlaces(existing: string, begin: string, end: string, section: seq<string>, foreign: string -> bool)
    returns (x: seq<string>, y: seq<string>, start: nat, rest: nat)
    requires AllClean(section, Newline(existing)) && section != [] && section[|section| - 1] != [] && begin != end
    requires Count(TrimAll(Lines(existing)), begin) > 0
    requires Edit(existing, begin, end, section, foreign).Ok?
    ensures start < rest <= |Lines(existing)| && x == Lines(existing)[..start] && y == Lines(existing)[rest..]
    ensures Inside(existing, begin, end) == TrimAll(Lines(existing))[start..rest]
    ensures TrimAll(Lines(existing))[start] == begin
    ensures Lines(Edit(existing, begin, end, section, foreign).value) == x + (section + y)
  {
    x, y := ReplaceShape(existing, begin, end, section, foreign);
    var trimmed := TrimAll(Lines(existing));
    start, rest := PositionOf(trimmed, begin), PositionOf(trimmed, end) + 1;
  }

  lemma SliceFrom(lines: seq<string>, start: nat, rest: nat) returns (m: seq<string>)
    requires start < rest <= |lines|
    ensures m == lines[start..rest] && |m| > 0 && m[0] == lines[start]
  {
    m := lines[start..rest];
  }

  lemma SameAround<T>(
      a: seq<string>, m: seq<string>, n: seq<string>, c: seq<string>, begin: string, end: string,
      read: string -> Result<T>)
    requires m != [] && n != [] && m[0] == n[0] != [] && read(m[0]).Err?
    requires begin !in m && end !in m && begin !in n && end !in n
    ensures ReadSection(a + (m + c), begin, end, read) == ReadSection(a + (n + c), begin, end, read)
  {
    ReadsAround(a, m, c, begin, end, read);
    ReadsAround(a, n, c, begin, end, read);
  }

  lemma ReplaceUnseen<T>(existing: string, begin: string, end: string, body: seq<string>, foreign: string -> bool,
      otherBegin: string, otherEnd: string, read: string -> Result<T>)
    requires Proper(begin, end, body, foreign) && Count(TrimAll(Lines(existing)), begin) > 0
    requires Edit(existing, begin, end, Section(begin, body, end), foreign).Ok?
    requires Elsewhere(otherBegin, begin, end, body) && Elsewhere(otherEnd, begin, end, body)
    requires otherBegin !in Inside(existing, begin, end) && otherEnd !in Inside(existing, begin, end)
    requires read(begin).Err?
    ensures var t := Edit(existing, begin, end, Section(begin, body, end), foreign).value;
            ReadSection(TrimAll(Lines(t)), otherBegin, otherEnd, read)
                == ReadSection(TrimAll(Lines(existing)), otherBegin, otherEnd, read)
  {
    SectionClean(begin, end, body, foreign, Newline(existing));
    var a, m, c := ReplaceParts(existing, begin, end, Section(begin, body, end), foreign);
    var s := TrimmedSection(begin, end, body, foreign, otherBegin, otherEnd);
    SameAround(a, s, m, c, otherBegin, otherEnd, read);
  }

  /** An edit does not change what reading any other section gives, if no marker of it stands inside. */
  lemma OthersUnseen<T>(existing: string, begin: string, end: string, body: seq<string>, foreign: string -> bool,
      otherBegin: string, otherEnd: string, read: string -> Result<T>)
    requires Proper(begin, end, body, foreign)
    requires Edit(existing, begin, end, Section(begin, body, end), foreign).Ok?
    requires Elsewhere(otherBegin, begin, end, body) && Elsewhere(otherEnd, begin, end, body)
    requires Count(TrimAll(Lines(existing)), begin) > 0 ==>
               otherBegin !in Inside(existing, begin, end) && otherEnd !in Inside(existing, begin, end)
    requires read(begin).Err?
    ensures var t := Edit(existing, begin, end, Section(begin, body, end), foreign).value;
            ReadSection(TrimAll(Lines(t)), otherBegin, otherEnd, read)
                == ReadSection(TrimAll(Lines(existing)), otherBegin, otherEnd, read)
  {
    if Count(TrimAll(Lines(existing)), begin) > 0 {
      ReplaceUnseen(existing, begin, end, body, foreign, otherBegin, otherEnd, read);
    } else {
      AppendUnseen(existing, begin, end, body, foreign, otherBegin, otherEnd, read);
    }
  }
}
