/** The managed section of the hosts file: the helper's editor and the agent's parser, two modules
    that must agree on one text format. */
module Hosts {
  import opened Common
  import opened Text
  import opened ManagedSection
  import opened SectionEdits

  /** An address is the text the source prints for it. */
  datatype Entry = Entry(address: string, hostname: string, comment: Option<string>, enabled: bool)

  const DISABLED := "# NETTOOL DISABLED "
  const BEGIN := "# BEGIN NETTOOL PROFILE "
  const END := "# END NETTOOL PROFILE "

  function BeginMarker(profile: string): string {
    BEGIN + profile
  }

  function EndMarker(profile: string): string {
    END + profile
  }

  // ---- Editor ----

  predicate ValidProfile(profile: string) {
    && profile != []
    && forall i :: 0 <= i < |profile| ==> IsAsciiAlphanumeric(profile[i]) || profile[i] == '-' || profile[i] == '_'
  }

  predicate ValidHostname(hostname: string) {
    && 0 < |hostname| <= 253
    && forall i :: 0 <= i < |hostname| ==>
         IsAsciiAlphanumeric(hostname[i]) || hostname[i] == '-' || hostname[i] == '.' || hostname[i] == '_'
  }

  predicate ValidEntry(entry: Entry) {
    && ValidHostname(entry.hostname)
    && (entry.comment.Some? ==> '\r' !in entry.comment.value && '\n' !in entry.comment.value)
  }

  predicate AllValid(entries: seq<Entry>) {
    forall i :: 0 <= i < |entries| ==> ValidEntry(entries[i])
  }

  function CommentText(comment: Option<string>): string {
    match comment case None => "" case Some(c) => " # " + c
  }

  function EntryLine(entry: Entry): string {
    (if entry.enabled then "" else DISABLED) + (entry.address + " " + entry.hostname + CommentText(entry.comment))
  }

  function EntryLines(entries: seq<Entry>): (lines: seq<string>)
    ensures |lines| == |entries|
  {
    if entries == [] then [] else [EntryLine(entries[0])] + EntryLines(entries[1..])
  }

  function SectionLines(profile: string, entries: seq<Entry>): seq<string> {
    Section(BeginMarker(profile), EntryLines(entries), EndMarker(profile))
  }

  /** `replace_managed_section` */
  function Replace(existing: string, profile: string, entries: seq<Entry>): Result<string> {
    if !ValidProfile(profile) then Err(ProfileInvalid)
    else if !AllValid(entries) then Err(EntryInvalid)
    else Edit(existing, BeginMarker(profile), EndMarker(profile), SectionLines(profile, entries), IsBegin)
  }

  predicate IsBegin(line: string) {
    BEGIN <= line
  }

  // ---- Parser ----

  /** `split_whitespace` */
  function Words(s: string): seq<string>
    decreases |s|
  {
    var t := TrimStart(s);
    if t == [] then []
    else
      var n := WordLength(t);
      [t[..n]] + Words(t[n..])
  }

  function WordLength(s: string): (n: nat)
    ensures n <= |s|
    ensures s != [] && !IsWhitespace(s[0]) ==> n > 0
  {
    if s == [] || IsWhitespace(s[0]) then 0 else 1 + WordLength(s[1..])
  }

  /** One trimmed, non-empty line between the markers. */
  function ParseEntry(line: string, isAddress: string -> bool): Result<Entry> {
    if DISABLED <= line then ParseFields(TrimStart(line[|DISABLED|..]), false, isAddress)
    else ParseFields(line, true, isAddress)
  }

  /** Two fields before the first "#", a comment after it. */
  function ParseFields(text: string, enabled: bool, isAddress: string -> bool): Result<Entry> {
    match Cut(text, '#')
    case (all, None) => Parsed(Words(all), None, enabled, isAddress)
    case (before, Some(note)) => Parsed(Words(TrimEnd(before)), Some(Trim(note)), enabled, isAddress)
  }

  /** `split_once`, with no second part when the separator does not occur. */
  function Cut(text: string, separator: char): (string, Option<string>) {
    var n := Position(text, separator);
    if n < |text| then (text[..n], Some(text[n + 1..])) else (text, None)
  }

  function Parsed(
      fields: seq<string>, comment: Option<string>, enabled: bool, isAddress: string -> bool): Result<Entry>
  {
    if |fields| != 2 then Err(EntryInvalid)
    else if !isAddress(fields[0]) then Err(AddressInvalid)
    else Ok(Entry(fields[0], fields[1], comment, enabled))
  }

  /** `parse_managed_hosts` */
  function Parse(content: string, profile: string, isAddress: string -> bool): Result<seq<Entry>> {
    ReadSection(TrimAll(Lines(content)), BeginMarker(profile), EndMarker(profile), Reader(isAddress))
  }

  function Reader(isAddress: string -> bool): string -> Result<Entry> {
    line => ParseEntry(line, isAddress)
  }

  // ---- The same, as the sources write them ----

  method RenderSection(begin: string, end: string, entries: seq<Entry>, nl: string) returns (text: string)
    ensures text == Unlines(Section(begin, EntryLines(entries), end), nl)
  {
    var lines := [begin];
    for i := 0 to |entries|
      invariant lines == [begin] + EntryLines(entries[..i])
    {
      var entry := entries[i];
      var comment := match entry.comment case None => "" case Some(c) => " # " + c;
      var line := entry.address + " " + entry.hostname + comment;
      if !entry.enabled {
        line := "# NETTOOL DISABLED " + line;
      }
      assert line == EntryLine(entry) by {
        assert "" + (entry.address + " " + entry.hostname + comment) == entry.address + " " + entry.hostname + comment;
      }
      EntryLinesSnoc(entries[..i], entry);
      assert entries[..i] + [entry] == entries[..i + 1];
      lines := lines + [line];
    }
    assert entries[..|entries|] == entries;
    lines := lines + [end];
    assert lines == Section(begin, EntryLines(entries), end);
    JoinTerminated(lines, nl);
    text := Join(lines, nl) + nl;
  }

  lemma {:induction false} EntryLinesSnoc(entries: seq<Entry>, entry: Entry)
    ensures EntryLines(entries + [entry]) == EntryLines(entries) + [EntryLine(entry)]
  {
    if entries == [] {
      assert entries + [entry] == [entry] && [entry][1..] == [];
    } else {
      assert (entries + [entry])[0] == entries[0] && (entries + [entry])[1..] == entries[1..] + [entry];
      EntryLinesSnoc(entries[1..], entry);
    }
  }

  method ParseManagedHosts(content: string, profile: string, isAddress: string -> bool) returns (r: Result<seq<Entry>>)
    ensures r == Parse(content, profile, isAddress)
  {
    r := ParseSection(TrimAll(Lines(content)), BeginMarker(profile), EndMarker(profile), Reader(isAddress));
  }

  method ParseSection<T>(
      lines: seq<string>, begin: string, end: string, read: string -> Result<T>)
    returns (r: Result<seq<T>>)
    ensures r == ReadSection(lines, begin, end, read)
  {
    var starts, ends := Count(lines, begin), Count(lines, end);
    if starts == 0 && ends == 0 {
      return Ok([]);
    }
    if starts != 1 || ends != 1 {
      return Err(MarkersInvalid);
    }
    var start, finish := PositionOf(lines, begin), PositionOf(lines, end);
    if finish <= start {
      return Err(MarkersOutOfOrder);
    }
    r := ParseBody(lines[start + 1..finish], read);
  }

  /** Entries already read, then the outcome of the rest. */
  ghost function After<T>(entries: seq<T>, rest: Result<seq<T>>): Result<seq<T>> {
    if rest.Err? then rest else Ok(entries + rest.value)
  }

  lemma AfterStep<T>(entries: seq<T>, lines: seq<string>, read: string -> Result<T>)
    requires lines != []
    ensures lines[0] == [] ==> After(entries, ReadLines(lines, read)) == After(entries, ReadLines(lines[1..], read))
    ensures lines[0] != [] && read(lines[0]).Err? ==> ReadLines(lines, read) == Err(read(lines[0]).error)
    ensures lines[0] != [] && read(lines[0]).Ok? ==>
              After(entries, ReadLines(lines, read))
                  == After(entries + [read(lines[0]).value], ReadLines(lines[1..], read))
  {
    var rest := ReadLines(lines[1..], read);
    if lines[0] != [] && read(lines[0]).Ok? && rest.Ok? {
      Reassociate(entries, [read(lines[0]).value], rest.value);
    }
  }

  /** The loop of `parse_managed_hosts`. */
  method ParseBody<T>(body: seq<string>, read: string -> Result<T>) returns (r: Result<seq<T>>)
    ensures r == ReadLines(body, read)
  {
    var entries: seq<T> := [];
    FromStart(body, ReadLines(body, read));
    for i := 0 to |body|
      invariant ReadLines(body, read) == After(entries, ReadLines(body[i..], read))
    {
      assert body[i..][0] == body[i] && body[i..][1..] == body[i + 1..];
      AfterStep(entries, body[i..], read);
      if body[i] != [] {
        var entry := read(body[i]);
        if entry.Err? {
          return Err(entry.error);
        }
        entries := entries + [entry.value];
      }
    }
    Unit(entries);
    return Ok(entries);
  }

  lemma FromStart<T>(body: seq<string>, r: Result<seq<T>>)
    ensures body[0..] == body && After([], r) == r
  {
    assert r.Ok? ==> [] + r.value == r.value;
  }

  /** `trim_end_matches(['\r', '\n'])` */
  function TrimBreaks(s: string): string {
    if EndsWith(s, '\n') || EndsWith(s, '\r') then TrimBreaks(s[..|s| - 1]) else s
  }

  function Find(s: string, separator: string): (i: nat)
    ensures i <= |s|
  {
    if s == [] || separator <= s then 0 else 1 + Find(s[1..], separator)
  }

  /** `str::split` */
  function Split(s: string, separator: string): seq<string>
    requires separator != []
    decreases |s|
  {
    var n := Find(s, separator);
    if n + |separator| > |s| then [s] else [s[..n]] + Split(s[n + |separator|..], separator)
  }

  method ReplaceManagedSection(existing: string, profile: string, entries: seq<Entry>) returns (r: Result<string>)
    requires forall i :: 0 <= i < |entries| ==> Unbroken(entries[i].address)
    ensures r == Replace(existing, profile, entries)
  {
    if !ValidProfile(profile) {
      return Err(ProfileInvalid);
    }
    var valid := ValidateEntries(entries);
    if !valid {
      return Err(EntryInvalid);
    }
    SectionUnbroken(profile, entries);
    r := EditManagedSection(existing, BeginMarker(profile), EndMarker(profile), entries);
  }

  method ValidateEntries(entries: seq<Entry>) returns (valid: bool)
    ensures valid <==> AllValid(entries)
  {
    for i := 0 to |entries|
      invariant forall k :: 0 <= k < i ==> ValidEntry(entries[k])
    {
      if !ValidEntry(entries[i]) {
        return false;
      }
    }
    return true;
  }

  method EditManagedSection(
      existing: string, begin: string, end: string, entries: seq<Entry>)
    returns (r: Result<string>)
    requires end != []
    requires AllUnbroken(Section(begin, EntryLines(entries), end))
    ensures r == Edit(existing, begin, end, Section(begin, EntryLines(entries), end), IsBegin)
  {
    var nl := if HasCrLf(existing) then "\r\n" else "\n";
    var lines := Lines(existing);
    var trimmed := TrimAll(lines);
    var begins, ends := Count(trimmed, begin), Count(trimmed, end);
    if begins > 1 || ends > 1 || begins != ends {
      return Err(MarkersInvalid);
    }
    var managed := RenderSection(begin, end, entries, nl);
    if begins == 0 {
      var result := AppendSection(existing, managed, nl);
      return Ok(result);
    }
    CountedIsFound(trimmed, end);
    var start, finish := PositionOf(trimmed, begin), PositionOf(trimmed, end);
    if finish < start || Nested(trimmed, start, finish, IsBegin) {
      return Err(MarkersOutOfOrder);
    }
    var result := RebuildFile(lines, start, finish, Section(begin, EntryLines(entries), end), managed, nl,
        EndsWith(existing, '\n'));
    return Ok(result);
  }

  method RebuildFile(
      lines: seq<string>, start: nat, finish: nat, ghost section: seq<string>, managed: string, nl: string,
      terminated: bool)
    returns (result: string)
    requires start <= finish < |lines| && IsNewline(nl)
    requires section != [] && section[|section| - 1] != [] && AllUnbroken(section)
    requires managed == Unlines(section, nl)
    ensures result == Rebuilt(lines, start, finish, section, nl, terminated)
  {
    SectionSplits(section, nl);
    var output := lines[..start];
    output := output + Split(TrimBreaks(managed), nl);
    output := output + lines[finish + 1..];
    result := Join(output, nl);
    result := result + if terminated then nl else "";
  }

  method AppendSection(existing: string, managed: string, nl: string) returns (result: string)
    ensures var text := existing + Terminator(existing, nl); result == text + BlankLine(text, nl) + managed
  {
    result := existing;
    assert existing + "" == existing;
    if result != [] && !EndsWith(result, '\n') && !EndsWith(result, '\r') {
      result := result + nl;
    }
    assert result == existing + Terminator(existing, nl);
    assert result + "" == result;
    if result != [] && !IsSuffix(nl + nl, result) {
      result := result + nl;
    }
    result := result + managed;
  }

  lemma {:induction false} FindFirst(a: string, nl: string, b: string)
    requires Unbroken(a) && IsNewline(nl)
    ensures Find(a + nl + b, nl) == |a|
    decreases |a|
  {
    var s := a + nl + b;
    if a == [] {
      assert s[..|nl|] == nl;
    } else {
      assert s[0] == a[0] && s[1..] == a[1..] + nl + b;
      assert a[0] in a;
      FindFirst(a[1..], nl, b);
    }
  }

  lemma {:induction false} FindNone(a: string, nl: string)
    requires Unbroken(a) && IsNewline(nl)
    ensures Find(a, nl) == |a|
    decreases |a|
  {
    if a != [] {
      assert a[0] in a;
      FindNone(a[1..], nl);
    }
  }

  lemma {:induction false} SplitJoin(lines: seq<string>, nl: string)
    requires lines != [] && IsNewline(nl) && AllUnbroken(lines)
    ensures Split(Join(lines, nl), nl) == lines
  {
    if |lines| == 1 {
      FindNone(lines[0], nl);
      assert lines == [lines[0]];
    } else {
      var rest := Join(lines[1..], nl);
      var s := lines[0] + nl + rest;
      FindFirst(lines[0], nl, rest);
      assert s[..|lines[0]|] == lines[0] && s[|lines[0]| + |nl|..] == rest;
      SplitJoin(lines[1..], nl);
      assert lines == [lines[0]] + lines[1..];
    }
  }

  /** Every line of a rendered section is unbroken. */
  lemma SectionUnbroken(profile: string, entries: seq<Entry>)
    requires ValidProfile(profile) && AllValid(entries)
    requires forall i :: 0 <= i < |entries| ==> Unbroken(entries[i].address)
    ensures AllUnbroken(SectionLines(profile, entries))
  {
    assert Unbroken(BEGIN) && Unbroken(END);
    forall i | 0 <= i < |entries| ensures Unbroken(EntryLines(entries)[i]) {
      EntryLinesAt(entries, i);
      EntryUnbroken(entries[i]);
    }
  }

  lemma {:induction false} EntryLinesAt(entries: seq<Entry>, i: nat)
    requires i < |entries|
    ensures EntryLines(entries)[i] == EntryLine(entries[i])
  {
    if i > 0 {
      EntryLinesAt(entries[1..], i - 1);
    }
  }

  lemma EntryUnbroken(entry: Entry)
    requires ValidEntry(entry) && Unbroken(entry.address)
    ensures Unbroken(EntryLine(entry))
  {
    assert Unbroken(DISABLED) && Unbroken("") && Unbroken(" ") && Unbroken(" # ");
    assert Unbroken(entry.hostname);
    assert Unbroken(CommentText(entry.comment));
  }

  /** Dropping the final newline and splitting gives the section's lines back. */
  lemma SectionSplits(section: seq<string>, nl: string)
    requires section != [] && section[|section| - 1] != [] && IsNewline(nl)
    requires AllUnbroken(section)
    ensures Split(TrimBreaks(Unlines(section, nl)), nl) == section
  {
    JoinTerminated(section, nl);
    JoinEndsLikeLast(section, nl);
    var last := section[|section| - 1];
    assert last[|last| - 1] in last;
    TrimBreaksNewline(Join(section, nl), nl);
    SplitJoin(section, nl);
  }

  lemma {:induction false} JoinEndsLikeLast(lines: seq<string>, nl: string)
    requires lines != [] && lines[|lines| - 1] != []
    ensures Join(lines, nl) != []
    ensures var last := lines[|lines| - 1]; Join(lines, nl)[|Join(lines, nl)| - 1] == last[|last| - 1]
  {
    if |lines| > 1 {
      JoinEndsLikeLast(lines[1..], nl);
    }
  }

  lemma TrimBreaksNewline(s: string, nl: string)
    requires s != [] && IsNewline(nl) && !EndsWith(s, '\n') && !EndsWith(s, '\r')
    ensures TrimBreaks(s + nl) == s
  {
    assert TrimBreaks(s) == s;
    if nl == "\n" {
      assert (s + nl)[..|s + nl| - 1] == s;
    } else {
      var t := s + "\r";
      assert (s + nl)[..|s + nl| - 1] == t && t[..|t| - 1] == s;
    }
  }
}
