/** The helper's editor and the agent's parser agree on every file, profile and entry list. */
module HostsTheorems {
  import opened Common
  import opened Text
  import opened ManagedSection
  import opened SectionTheorems
  import opened SectionEdits
  import opened SectionBytes
  import opened SectionOthers
  import opened SectionKeeps
  import opened SectionStrays
  import opened Hosts

  /** Letters, digits and the marks of profile names, hostnames and printed addresses. */
  predicate PlainChar(c: char) {
    IsAsciiAlphanumeric(c) || c == '-' || c == '_' || c == '.' || c == ':'
  }

  predicate Plain(s: string) {
    s != [] && forall i :: 0 <= i < |s| ==> PlainChar(s[i])
  }

  /** What is assumed of address parsing: only plain texts are addresses. */
  ghost predicate PlainAddresses(isAddress: string -> bool) {
    forall a :: isAddress(a) ==> Plain(a)
  }

  /** What the type of the helper's entries promises: every address prints as one that parses. */
  ghost predicate Addressed(entries: seq<Entry>, isAddress: string -> bool) {
    PlainAddresses(isAddress) && forall i :: 0 <= i < |entries| ==> isAddress(entries[i].address)
  }

  lemma PlainIsInk(c: char)
    requires PlainChar(c)
    ensures !IsWhitespace(c) && c != '#' && c != '\n' && c != '\r'
  {
    AsciiWhitespace(c);
  }

  ghost predicate NoWhitespace(s: string) {
    forall i :: 0 <= i < |s| ==> !IsWhitespace(s[i])
  }

  lemma PlainText(s: string)
    requires Plain(s)
    ensures NoWhitespace(s) && Bare(s) && Unbroken(s) && '#' !in s
  {
    forall i | 0 <= i < |s| ensures !IsWhitespace(s[i]) && s[i] != '#' && s[i] != '\n' && s[i] != '\r' {
      PlainIsInk(s[i]);
    }
  }

  // ---- Words ----

  lemma {:induction false} WordAtStart(a: string, b: string)
    requires NoWhitespace(a) && (b != [] ==> IsWhitespace(b[0]))
    ensures WordLength(a + b) == |a|
  {
    if a == [] {
      assert a + b == b;
    } else {
      assert (a + b)[0] == a[0] && (a + b)[1..] == a[1..] + b;
      WordAtStart(a[1..], b);
    }
  }

  lemma WordsStep(a: string, b: string)
    requires a != [] && NoWhitespace(a) && (b != [] ==> IsWhitespace(b[0]))
    ensures Words(a + b) == [a] + Words(b)
  {
    assert (a + b)[0] == a[0];
    assert TrimStart(a + b) == a + b;
    WordAtStart(a, b);
    CutConcat(a, b);
  }

  lemma WordsSkip(b: string)
    ensures Words(" " + b) == Words(b)
  {
    AsciiWhitespace(' ');
    TrimStartSkips(" ", b);
  }

  lemma TwoWords(a: string, b: string)
    requires a != [] && b != [] && NoWhitespace(a) && NoWhitespace(b)
    ensures Words(a + " " + b) == [a, b]
  {
    AsciiWhitespace(' ');
    Reassociate(a, " ", b);
    WordsStep(a, " " + b);
    WordsSkip(b);
    OneWord(b);
  }

  lemma OneWord(b: string)
    requires b != [] && NoWhitespace(b)
    ensures Words(b) == [b]
  {
    Unit(b);
    WordsStep(b, []);
  }

  // ---- One line ----

  /** Address and hostname, as printed. */
  function Core(entry: Entry): string {
    entry.address + " " + entry.hostname
  }

  lemma HostnamePlain(hostname: string)
    requires ValidHostname(hostname)
    ensures Plain(hostname)
  {}

  lemma CoreIsBare(entry: Entry)
    requires Plain(entry.address) && Plain(entry.hostname)
    ensures Core(entry) != [] && Bare(Core(entry)) && '#' !in Core(entry)
    ensures Core(entry)[0] == entry.address[0]
  {
    PlainText(entry.address);
    PlainText(entry.hostname);
  }

  lemma CoreWords(entry: Entry)
    requires Plain(entry.address) && Plain(entry.hostname)
    ensures Words(Core(entry)) == [entry.address, entry.hostname]
  {
    PlainText(entry.address);
    PlainText(entry.hostname);
    TwoWords(entry.address, entry.hostname);
  }

  lemma TrimEndKeeps(p: string, s: string)
    requires p != [] && !IsWhitespace(p[|p| - 1])
    ensures TrimEnd(p + s) == p + TrimEnd(s)
  {
    var b := TrimEndParts(s);
    Reassociate(p, TrimEnd(s), b);
    LastOf(p, TrimEnd(s));
    TrimEndSkips(p + TrimEnd(s), b);
    TrimEndStays(p + TrimEnd(s));
  }

  lemma LastOf(p: string, m: string)
    requires p != []
    ensures (p + m)[|p + m| - 1] == if m == [] then p[|p| - 1] else m[|m| - 1]
  {}

  lemma TrimEndStays(s: string)
    requires s != [] && !IsWhitespace(s[|s| - 1])
    ensures TrimEnd(s) == s
  {}

  lemma TrimBareStart(s: string)
    requires s != [] && !IsWhitespace(s[0])
    ensures Trim(s) == TrimEnd(s)
  {}

  lemma TrimOfTrimEnd(s: string)
    ensures Trim(TrimEnd(s)) == Trim(s)
  {
    var b := TrimEndParts(s);
    TrimIgnoresEnd(TrimEnd(s), b);
  }

  lemma TrimIgnoresEnd(m: string, b: string)
    requires AllWhitespace(b)
    ensures Trim(m + b) == Trim(m)
  {
    TrimIgnores("", m, b);
    Empty(m);
  }

  lemma TrimLeadingSpace(s: string)
    ensures Trim(" " + s) == Trim(s)
  {
    AsciiWhitespace(' ');
    TrimIgnores(" ", s, "");
    assert " " + s + "" == " " + s;
  }

  /** What follows the core on a trimmed line. */
  ghost predicate IsTail(tail: string, comment: Option<string>) {
    match comment
    case None => tail == []
    case Some(c) => exists note :: tail == " #" + note && Trim(note) == Trim(c)
  }

  lemma {:induction false} CoreTail(core: string, comment: Option<string>) returns (tail: string)
    requires core != [] && Bare(core)
    ensures IsTail(tail, comment) && TrimEnd(core + CommentText(comment)) == core + tail
  {
    match comment
    case None =>
      tail := [];
      Unit(core);
    case Some(c) =>
      var note := TrimEnd(" " + c);
      tail := " #" + note;
      TrimNote(core, c);
      TrimOfTrimEnd(" " + c);
      TrimLeadingSpace(c);
  }

  lemma TrimNote(core: string, c: string)
    ensures TrimEnd(core + (" # " + c)) == core + (" #" + TrimEnd(" " + c))
  {
    var p := core + " #";
    assert core + (" # " + c) == p + (" " + c);
    AsciiWhitespace('#');
    TrimEndKeeps(p, " " + c);
    assert p + TrimEnd(" " + c) == core + (" #" + TrimEnd(" " + c));
  }

  function Prefix(enabled: bool): string {
    if enabled then "" else DISABLED
  }

  lemma TrimmedEntry(entry: Entry) returns (tail: string)
    requires Plain(entry.address) && Plain(entry.hostname)
    ensures IsTail(tail, entry.comment) && Trim(EntryLine(entry)) == Prefix(entry.enabled) + (Core(entry) + tail)
  {
    var core := Core(entry);
    CoreIsBare(entry);
    tail := CoreTail(core, entry.comment);
    var rest := core + CommentText(entry.comment);
    assert EntryLine(entry) == Prefix(entry.enabled) + rest;
    if entry.enabled {
      Empty(rest);
      Empty(core + tail);
      TrimBareStart(rest);
    } else {
      TrimDisabled(core, CommentText(entry.comment));
    }
  }

  lemma Empty<T>(s: seq<T>)
    ensures [] + s == s
  {}

  lemma TrimDisabled(core: string, c: string)
    requires core != [] && Bare(core)
    ensures Trim(DISABLED + (core + c)) == DISABLED + TrimEnd(core + c)
  {
    var line := DISABLED + (core + c);
    AsciiWhitespace('#');
    assert line[0] == DISABLED[0] == '#';
    TrimBareStart(line);
    TrimKeepsBoth(DISABLED, core, c);
  }

  lemma TrimKeepsBoth(p: string, core: string, c: string)
    requires core != [] && Bare(core)
    ensures TrimEnd(p + (core + c)) == p + TrimEnd(core + c)
  {
    var b := TrimEndParts(c);
    TrimEndKeeps(core, c);
    Join3(p + (core + c), p, core + c, core, c);
    TrimEndKeeps(p + core, c);
    Reassociate(p, core, TrimEnd(c));
  }

  lemma NotPrefix(p: string, s: string, k: nat)
    requires k < |p| && k < |s| && p[k] != s[k]
    ensures !(p <= s)
  {}

  /** The entry a line stands for when read back: comments lose the space around them. */
  function Trimmed(entry: Entry): Entry {
    entry.(comment := match entry.comment case None => None case Some(c) => Some(Trim(c)))
  }

  /** Reading a printed line gives the entry back, whatever its comment holds. */
  lemma LineReadsBack(entry: Entry, isAddress: string -> bool)
    requires ValidEntry(entry) && PlainAddresses(isAddress) && isAddress(entry.address)
    ensures Trim(EntryLine(entry)) != []
    ensures ParseEntry(Trim(EntryLine(entry)), isAddress) == Ok(Trimmed(entry))
  {
    HostnamePlain(entry.hostname);
    CoreIsBare(entry);
    var tail := TrimmedEntry(entry);
    FieldsReadBack(entry, tail, isAddress);
    StartsInk(Core(entry), tail);
    if entry.enabled {
      PlainIsInk(entry.address[0]);
      EnabledReads(Core(entry) + tail, isAddress);
    } else {
      DisabledReads(Core(entry) + tail, isAddress);
    }
  }

  lemma StartsInk(core: string, tail: string)
    requires core != [] && Bare(core)
    ensures core + tail != [] && (core + tail)[0] == core[0] && !IsWhitespace((core + tail)[0])
  {}

  lemma EnabledReads(text: string, isAddress: string -> bool)
    requires text != [] && text[0] != '#'
    ensures ParseEntry("" + text, isAddress) == ParseFields(text, true, isAddress)
  {
    Empty(text);
    NotPrefix(DISABLED, text, 0);
  }

  lemma DisabledReads(text: string, isAddress: string -> bool)
    requires text != [] && !IsWhitespace(text[0])
    ensures DISABLED + text != [] && ParseEntry(DISABLED + text, isAddress) == ParseFields(text, false, isAddress)
  {
    CutConcat(DISABLED, text);
    assert DISABLED <= DISABLED + text;
    assert TrimStart(text) == text;
  }

  lemma FieldsReadBack(entry: Entry, tail: string, isAddress: string -> bool)
    requires Plain(entry.address) && Plain(entry.hostname) && isAddress(entry.address) && IsTail(tail, entry.comment)
    ensures ParseFields(Core(entry) + tail, entry.enabled, isAddress) == Ok(Trimmed(entry))
  {
    CoreIsBare(entry);
    CoreWords(entry);
    match entry.comment
    case None =>
      Unit(Core(entry));
      NoComment(Core(entry), entry.enabled, isAddress);
    case Some(c) =>
      var note :| tail == " #" + note && Trim(note) == Trim(c);
      WithComment(Core(entry), note, entry.enabled, isAddress);
  }

  lemma NoComment(core: string, enabled: bool, isAddress: string -> bool)
    requires '#' !in core
    ensures ParseFields(core, enabled, isAddress) == Parsed(Words(core), None, enabled, isAddress)
  {
    assert Cut(core, '#') == (core, None);
  }

  lemma WithComment(core: string, note: string, enabled: bool, isAddress: string -> bool)
    requires core != [] && Bare(core) && '#' !in core
    ensures ParseFields(core + (" #" + note), enabled, isAddress)
         == Parsed(Words(core), Some(Trim(note)), enabled, isAddress)
  {
    CutAtHash(core, note);
    TrimEndSpace(core);
  }

  lemma CutAtHash(core: string, note: string)
    requires '#' !in core
    ensures Cut(core + (" #" + note), '#') == (core + " ", Some(note))
  {
    var text, before := core + (" #" + note), core + " ";
    assert text == before + ['#'] + note;
    PositionAt(before, '#', note);
    assert text[..|before|] == before && text[|before| + 1..] == note;
  }

  lemma TrimEndSpace(core: string)
    requires core != [] && Bare(core)
    ensures TrimEnd(core + " ") == core
  {
    AsciiWhitespace(' ');
    TrimEndSkips(core, " ");
  }

  // ---- The section's lines ----

  /** Trimmed entry lines never look like a marker: the third character tells them apart. */
  lemma LineIsNoMarker(entry: Entry, marker: string)
    requires Plain(entry.address) && Plain(entry.hostname)
    requires |marker| > 2 && marker[0] == '#' && marker[2] != 'N'
    ensures Trim(EntryLine(entry)) != marker && !(marker <= Trim(EntryLine(entry)))
  {
    var tail := TrimmedEntry(entry);
    CoreIsBare(entry);
    PlainIsInk(entry.address[0]);
    PrintedIsNoMarker(entry.enabled, Core(entry), tail, marker);
  }

  lemma PrintedIsNoMarker(enabled: bool, core: string, tail: string, marker: string)
    requires core != [] && core[0] != '#' && |marker| > 2 && marker[0] == '#' && marker[2] != 'N'
    ensures Prefix(enabled) + (core + tail) != marker && !(marker <= Prefix(enabled) + (core + tail))
  {
    if enabled {
      Empty(core + tail);
      assert (core + tail)[0] == core[0];
      NotPrefix(marker, core + tail, 0);
    } else {
      DisabledIsNoMarker(core + tail, marker);
    }
  }

  lemma DisabledIsNoMarker(text: string, marker: string)
    requires |marker| > 2 && marker[2] != 'N'
    ensures DISABLED + text != marker && !(marker <= DISABLED + text)
  {
    assert (DISABLED + text)[2] == DISABLED[2] == 'N';
    NotPrefix(marker, DISABLED + text, 2);
  }

  lemma MarkerShape(profile: string)
    ensures var b := BeginMarker(profile); |b| > 2 && b[0] == '#' && b[2] == 'B'
    ensures var e := EndMarker(profile); |e| > 2 && e[0] == '#' && e[2] == 'E'
    ensures BeginMarker(profile) != EndMarker(profile)
  {
    assert BeginMarker(profile)[2] == BEGIN[2] && EndMarker(profile)[2] == END[2];
  }

  lemma MarkerBare(profile: string)
    requires ValidProfile(profile)
    ensures Bare(BeginMarker(profile)) && Unbroken(BeginMarker(profile))
    ensures Bare(EndMarker(profile)) && Unbroken(EndMarker(profile))
  {
    PlainText(profile);
    AsciiWhitespace('#');
    Around2(BEGIN, profile);
    Around2(END, profile);
  }

  lemma Around2(p: string, s: string)
    requires p != [] && !IsWhitespace(p[0]) && Unbroken(p) && s != [] && Bare(s) && Unbroken(s)
    ensures Bare(p + s) && Unbroken(p + s)
  {}

  lemma SectionProper(profile: string, entries: seq<Entry>, isAddress: string -> bool)
    requires ValidProfile(profile) && AllValid(entries) && Addressed(entries, isAddress)
    ensures Proper(BeginMarker(profile), EndMarker(profile), EntryLines(entries), IsBegin)
  {
    MarkerShape(profile);
    MarkerBare(profile);
    forall i | 0 <= i < |entries|
      ensures var line := EntryLines(entries)[i];
              Unbroken(line) && Trim(line) != BeginMarker(profile) && Trim(line) != EndMarker(profile)
                  && !IsBegin(Trim(line))
    {
      EntryLinesAt(entries, i);
      LineProper(entries[i], profile);
    }
  }

  lemma SectionReady(profile: string, entries: seq<Entry>, isAddress: string -> bool, nl: string)
    requires ValidProfile(profile) && AllValid(entries) && Addressed(entries, isAddress)
    ensures var section := SectionLines(profile, entries);
            AllClean(section, nl) && section != [] && section[|section| - 1] != []
    ensures BeginMarker(profile) != EndMarker(profile)
  {
    MarkerShape(profile);
    SectionProper(profile, entries, isAddress);
    SectionClean(BeginMarker(profile), EndMarker(profile), EntryLines(entries), IsBegin, nl);
  }

  lemma LineProper(entry: Entry, profile: string)
    requires ValidEntry(entry) && Plain(entry.address)
    ensures var line := EntryLine(entry);
            Unbroken(line) && Trim(line) != BeginMarker(profile) && Trim(line) != EndMarker(profile)
                && !IsBegin(Trim(line))
  {
    HostnamePlain(entry.hostname);
    PlainText(entry.address);
    EntryUnbroken(entry);
    MarkerShape(profile);
    LineIsNoMarker(entry, BeginMarker(profile));
    LineIsNoMarker(entry, EndMarker(profile));
    LineIsNoMarker(entry, BEGIN);
  }

  // ---- Theorems ----

  function TrimComments(entries: seq<Entry>): seq<Entry> {
    if entries == [] then [] else [Trimmed(entries[0])] + TrimComments(entries[1..])
  }

  lemma {:induction false} LinesReadBack(entries: seq<Entry>, isAddress: string -> bool)
    requires AllValid(entries) && Addressed(entries, isAddress)
    ensures ReadLines(TrimAll(EntryLines(entries)), Reader(isAddress)) == Ok(TrimComments(entries))
  {
    if entries != [] {
      LineReadsBack(entries[0], isAddress);
      LinesReadBack(entries[1..], isAddress);
      TrimAllConcat([EntryLine(entries[0])], EntryLines(entries[1..]));
      TrimAllOne(EntryLine(entries[0]));
      ReadFirst(Trim(EntryLine(entries[0])), TrimAll(EntryLines(entries[1..])), Reader(isAddress));
    }
  }

  lemma ReadFirst<T>(line: string, rest: seq<string>, read: string -> Result<T>)
    requires line != [] && read(line).Ok? && ReadLines(rest, read).Ok?
    ensures ReadLines([line] + rest, read) == Ok([read(line).value] + ReadLines(rest, read).value)
  {}

  /** Whatever the editor wrote, the parser reads: the same entries in order, comments trimmed. */
  lemma RoundTrip(existing: string, profile: string, entries: seq<Entry>, isAddress: string -> bool)
    requires Replace(existing, profile, entries).Ok? && Addressed(entries, isAddress)
    ensures Parse(Replace(existing, profile, entries).value, profile, isAddress) == Ok(TrimComments(entries))
  {
    SectionProper(profile, entries, isAddress);
    LinesReadBack(entries, isAddress);
    EditReadsBack(existing, BeginMarker(profile), EndMarker(profile), EntryLines(entries), IsBegin, Reader(isAddress));
  }

  /** A file without the section keeps all its text as a prefix. */
  lemma AppendKeepsText(existing: string, profile: string, entries: seq<Entry>, isAddress: string -> bool)
    requires Replace(existing, profile, entries).Ok? && Addressed(entries, isAddress)
    requires Count(TrimAll(Lines(existing)), BeginMarker(profile)) == 0
    ensures existing <= Replace(existing, profile, entries).value
  {
    SectionReady(profile, entries, isAddress, Newline(existing));
    var gap := AppendedLines(existing, SectionLines(profile, entries), Newline(existing));
  }

  /** A file with the section keeps every line before and after it. */
  lemma ReplaceKeepsLines(existing: string, profile: string, entries: seq<Entry>, isAddress: string -> bool)
    returns (before: seq<string>, inside: seq<string>, after: seq<string>)
    requires Replace(existing, profile, entries).Ok? && Addressed(entries, isAddress)
    requires Count(TrimAll(Lines(existing)), BeginMarker(profile)) > 0
    ensures Lines(existing) == before + (inside + after)
    ensures TrimAll(inside) == Inside(existing, BeginMarker(profile), EndMarker(profile))
    ensures Lines(Replace(existing, profile, entries).value) == before + (SectionLines(profile, entries) + after)
  {
    SectionReady(profile, entries, isAddress, Newline(existing));
    var start, rest;
    before, after, start, rest := ReplacePlaces(existing, BeginMarker(profile), EndMarker(profile),
        SectionLines(profile, entries), IsBegin);
    inside := Lines(existing)[start..rest];
    SplitThree(Lines(existing), start, rest);
    TrimSlice(Lines(existing), start, rest);
  }

  /** Byte for byte, what lies before and after the section stays as it was exactly when its line breaks
      are all of the file's own kind. */
  lemma ReplaceKeepsBytesIff(existing: string, profile: string, entries: seq<Entry>, isAddress: string -> bool)
    returns (p: string, inside: string, q: string, s: string)
    requires Replace(existing, profile, entries).Ok? && Addressed(entries, isAddress)
    requires Count(TrimAll(Lines(existing)), BeginMarker(profile)) > 0
    ensures existing == p + (inside + q) && Terminated(p) && (q != [] ==> Terminated(inside))
    ensures TrimAll(Lines(inside)) == Inside(existing, BeginMarker(profile), EndMarker(profile))
    ensures s == SectionText(SectionLines(profile, entries), Newline(existing), q != [] || EndsWith(existing, '\n'))
    ensures Lines(s) == SectionLines(profile, entries)
    ensures (Replace(existing, profile, entries).value == p + (s + q))
        <==> Uniform(p, Newline(existing)) && Uniform(q, Newline(existing))
  {
    SectionProper(profile, entries, isAddress);
    SectionBytes.SectionUnbroken(BeginMarker(profile), EndMarker(profile), EntryLines(entries), IsBegin);
    MarkerShape(profile);
    p, inside, q, s := EditKeepsBytesIff(existing, BeginMarker(profile), EndMarker(profile),
        SectionLines(profile, entries), IsBegin);
  }

  /** A file with both kinds of line break, and an empty section at its end. */
  function Mixed(profile: string): string {
    "x" + "\n" + Unlines(SectionLines(profile, []), "\r\n")
  }

  lemma MixedNewline(profile: string)
    requires ValidProfile(profile)
    ensures Newline(Mixed(profile)) == "\r\n"
    ensures Lines(Mixed(profile)) == ["x"] + (SectionLines(profile, []) + [])
  {
    var section, nl := SectionLines(profile, []), "\r\n";
    var rest := Unlines(section, nl);
    SectionReady(profile, [], Plain, nl);
    LinesFirst("x", rest);
    LinesOfUnlines(section, nl, []);
    assert rest + [] == rest && section + Lines([]) == section;
    assert section + [] == section;
    UnlinesAllCrLf(section);
    assert rest == section[0] + nl + Unlines(section[1..], nl);
    assert rest[|section[0]| + 1] == '\n' && rest[|section[0]| + 1] in rest;
    UniformIsNewline(rest, nl);
    CrLfInside("x", rest);
  }

  /** Rewriting the section of such a file changes a line break before it. */
  lemma ReplaceChangesBytes(profile: string)
    requires ValidProfile(profile)
    ensures var t := Replace(Mixed(profile), profile, []);
            t.Ok? && "x\n" <= Mixed(profile) && !("x\n" <= t.value)
  {
    var begin, end := BeginMarker(profile), EndMarker(profile);
    SectionProper(profile, [], Plain);
    MarkerShape(profile);
    MixedNewline(profile);
    TrimBareX();
    SectionHeld(["x"], begin, end, [], [], IsBegin);
    EditHeld(Mixed(profile), ["x"], [], begin, end, [], IsBegin);
    RejoinedFirst("x", Unlines(SectionLines(profile, []), "\r\n"), "\r\n");
    ChangedBreak(Rejoined(Unlines(SectionLines(profile, []), "\r\n"), "\r\n"));
  }

  lemma TrimBareX()
    ensures TrimAll(["x"]) == ["x"]
  {
    AsciiWhitespace('x');
    TrimBare("x");
    TrimAllOne("x");
  }

  lemma ChangedBreak(u: string)
    ensures !("x\n" <= StripCr("x") + "\r\n" + u)
  {
    NotPrefix("x\n", StripCr("x") + "\r\n" + u, 1);
  }

  /** Writing the same entries again succeeds and keeps the line sequence. */
  lemma TwiceKeepsLines(existing: string, profile: string, entries: seq<Entry>, isAddress: string -> bool)
    requires Replace(existing, profile, entries).Ok? && Addressed(entries, isAddress)
    ensures var t := Replace(existing, profile, entries).value;
            var u := Replace(t, profile, entries);
            u.Ok? && Lines(u.value) == Lines(t)
  {
    SectionProper(profile, entries, isAddress);
    EditTwice(existing, BeginMarker(profile), EndMarker(profile), EntryLines(entries), IsBegin);
  }

  /** It keeps the bytes exactly when the section was there before or the line breaks were of one kind. */
  lemma TwiceKeepsBytesIff(existing: string, profile: string, entries: seq<Entry>, isAddress: string -> bool)
    requires Replace(existing, profile, entries).Ok? && Addressed(entries, isAddress)
    ensures var t := Replace(existing, profile, entries).value;
            Replace(t, profile, entries) == Ok(t) <==>
              Count(TrimAll(Lines(existing)), BeginMarker(profile)) > 0 || Steady(existing)
  {
    SectionProper(profile, entries, isAddress);
    EditTwiceSameBytesIff(existing, BeginMarker(profile), EndMarker(profile), EntryLines(entries), IsBegin);
  }

  /** A file that ends in a bare carriage return is one that a second write changes. */
  lemma TwiceChangesBytes()
    ensures var t := Replace("\r", "p", []);
            t.Ok? && Replace(t.value, "p", []) != t
  {
    UnbrokenLines("\r");
    AsciiWhitespace('\r');
    TrimIs("\r", "", "");
    assert "\r" + "" + "" == "\r";
    TrimAllOne("\r");
    var trimmed := TrimAll(Lines("\r"));
    assert trimmed == [""];
    MarkerShape("p");
    CountNone(trimmed, BeginMarker("p"));
    CountNone(trimmed, EndMarker("p"));
    TwiceKeepsBytesIff("\r", "p", [], Plain);
  }

  /** Any other profile reads the same before and after, unless one of its markers stands inside the section. */
  lemma OtherProfilesUnchanged(
      existing: string, profile: string, entries: seq<Entry>, other: string, isAddress: string -> bool)
    requires Replace(existing, profile, entries).Ok? && Addressed(entries, isAddress) && other != profile
    requires var inside := Inside(existing, BeginMarker(profile), EndMarker(profile));
             BeginMarker(other) !in inside && EndMarker(other) !in inside
    ensures Parse(Replace(existing, profile, entries).value, other, isAddress) == Parse(existing, other, isAddress)
  {
    SectionProper(profile, entries, isAddress);
    OtherElsewhere(profile, other, entries, isAddress);
    MarkerUnreadable(profile, isAddress);
    OthersUnseen(existing, BeginMarker(profile), EndMarker(profile), EntryLines(entries), IsBegin,
      BeginMarker(other), EndMarker(other), Reader(isAddress));
  }

  /** Exactly when reading another profile gives the same before and after: the replacement takes away no end
      marker of it, or its markers are unpaired with the lines that go and without them. */
  lemma OtherProfilesUnchangedIff(
      existing: string, profile: string, entries: seq<Entry>, other: string, isAddress: string -> bool)
    requires Replace(existing, profile, entries).Ok? && Addressed(entries, isAddress) && other != profile
    ensures var inside := Inside(existing, BeginMarker(profile), EndMarker(profile));
            Parse(Replace(existing, profile, entries).value, other, isAddress) == Parse(existing, other, isAddress)
            <==> Unaffected(TrimAll(Lines(existing)), inside, BeginMarker(other), EndMarker(other))
  {
    SectionProper(profile, entries, isAddress);
    OtherElsewhere(profile, other, entries, isAddress);
    MarkerUnreadable(profile, isAddress);
    ReaderReadsOnly(isAddress);
    BeginIsForeign(other);
    OthersUnseenIff(existing, BeginMarker(profile), EndMarker(profile), EntryLines(entries), IsBegin,
      BeginMarker(other), EndMarker(other), Reader(isAddress));
  }

  /** Whatever other profile could be read before reads the same afterwards. */
  lemma ReadableProfilesKept(
      existing: string, profile: string, entries: seq<Entry>, other: string, isAddress: string -> bool)
    requires Replace(existing, profile, entries).Ok? && Addressed(entries, isAddress) && other != profile
    requires Parse(existing, other, isAddress).Ok?
    ensures Parse(Replace(existing, profile, entries).value, other, isAddress) == Parse(existing, other, isAddress)
  {
    SectionProper(profile, entries, isAddress);
    OtherElsewhere(profile, other, entries, isAddress);
    MarkerUnreadable(profile, isAddress);
    BeginIsForeign(other);
    ReadableUnseen(existing, BeginMarker(profile), EndMarker(profile), EntryLines(entries), IsBegin,
      BeginMarker(other), EndMarker(other), Reader(isAddress));
  }

  lemma BeginIsForeign(profile: string)
    ensures IsBegin(BeginMarker(profile))
  {}

  lemma ReaderReadsOnly(isAddress: string -> bool)
    ensures ReadsOnly(Reader(isAddress))
  {
    forall line | Reader(isAddress)(line).Err? ensures Reader(isAddress)(line).error != MarkersInvalid {
      if DISABLED <= line {
        FieldErrors(TrimStart(line[|DISABLED|..]), false, isAddress);
      } else {
        FieldErrors(line, true, isAddress);
      }
    }
  }

  lemma FieldErrors(text: string, enabled: bool, isAddress: string -> bool)
    ensures ParseFields(text, enabled, isAddress) != Err(MarkersInvalid)
  {
    match Cut(text, '#')
    case (all, None) => ParsedErrors(Words(all), None, enabled, isAddress);
    case (before, Some(note)) => ParsedErrors(Words(TrimEnd(before)), Some(Trim(note)), enabled, isAddress);
  }

  lemma ParsedErrors(fields: seq<string>, comment: Option<string>, enabled: bool, isAddress: string -> bool)
    ensures Parsed(fields, comment, enabled, isAddress) != Err(MarkersInvalid)
  {}

  /** A file with one section, and the end marker of another profile as its only line. */
  function StrayFile(profile: string, other: string): string {
    Appended("", Section(BeginMarker(profile), [EndMarker(other)], EndMarker(profile)), "\n")
  }

  lemma StrayProper(profile: string, other: string)
    requires ValidProfile(profile) && ValidProfile(other) && profile != other
    ensures Proper(BeginMarker(profile), EndMarker(profile), [EndMarker(other)], IsBegin)
  {
    MarkerShape(profile);
    MarkerShape(other);
    MarkerBare(profile);
    MarkerBare(other);
    SamePrefix(END, profile, other);
    NotPrefix(BEGIN, EndMarker(other), 2);
    OneLineProper(BeginMarker(profile), EndMarker(profile), EndMarker(other), IsBegin);
  }

  lemma OneLineProper(begin: string, end: string, line: string, foreign: string -> bool)
    requires begin != [] && Bare(begin) && Unbroken(begin) && end != [] && Bare(end) && Unbroken(end) && begin != end
    requires Bare(line) && Unbroken(line) && line != begin && line != end && !foreign(line)
    ensures Proper(begin, end, [line], foreign)
  {
    TrimBare(line);
    assert forall i :: 0 <= i < |[line]| ==> [line][i] == line;
  }

  lemma StrayLines(profile: string, other: string) returns (gap: seq<string>)
    requires ValidProfile(profile) && ValidProfile(other) && profile != other
    ensures gap == [] || gap == [""]
    ensures TrimAll(Lines(StrayFile(profile, other)))
         == gap + Section(BeginMarker(profile), [EndMarker(other)], EndMarker(profile))
  {
    StrayProper(profile, other);
    MarkerBare(other);
    gap := OneLineFile(BeginMarker(profile), EndMarker(profile), EndMarker(other), IsBegin);
  }

  lemma OneLineFile(begin: string, end: string, line: string, foreign: string -> bool) returns (gap: seq<string>)
    requires Proper(begin, end, [line], foreign) && Bare(line)
    ensures gap == [] || gap == [""]
    ensures TrimAll(Lines(Appended("", Section(begin, [line], end), "\n"))) == gap + Section(begin, [line], end)
  {
    var section := Section(begin, [line], end);
    SectionClean(begin, end, [line], foreign, "\n");
    gap := AppendedLines("", section, "\n");
    OneLineTrimmed(begin, end, line);
    Empty(gap + section);
  }

  lemma OneLineTrimmed(begin: string, end: string, line: string)
    requires Bare(begin) && Bare(end) && Bare(line)
    ensures TrimAll(Section(begin, [line], end)) == Section(begin, [line], end)
  {
    TrimSection(begin, end, [line]);
    TrimBare(line);
    TrimAllOne(line);
  }

  /** The markers of such a file, by count and place. */
  lemma StrayCounts(trimmed: seq<string>, gap: seq<string>, begin: string, end: string, q: string, r: string)
    requires (gap == [] || gap == [""]) && trimmed == gap + Section(begin, [r], end)
    requires begin != [] && end != [] && begin != end && r != begin && r != end && r != []
    requires q != [] && q != begin && q != end && q != r
    ensures Count(trimmed, q) == 0 && Count(trimmed, r) == 1 && r in Between(trimmed, begin, end)
  {
    CountNone(trimmed, q);
    Unit([end]);
    assert Holds(trimmed, begin, end, gap, [r], []);
    HoldsCounts(trimmed, begin, end, gap, [r], []);
    LineAt(trimmed, |gap|, r);
    StrayOnce(gap, begin, end, r);
  }

  lemma LineAt(trimmed: seq<string>, n: nat, r: string)
    requires n + 2 < |trimmed| && trimmed[n + 1..n + 2] == [r]
    ensures r in trimmed[n..n + 3]
  {
    assert trimmed[n..n + 3][1] == trimmed[n + 1] == trimmed[n + 1..n + 2][0];
  }

  lemma StrayOnce(gap: seq<string>, begin: string, end: string, r: string)
    requires (gap == [] || gap == [""]) && r != begin && r != end && r != []
    ensures Count(gap + Section(begin, [r], end), r) == 1
  {
    assert gap + Section(begin, [r], end) == (gap + [begin]) + ([r] + [end]);
    OneMarker(gap + [begin], r, [end]);
  }

  /** Writing a profile deletes another one's end marker that stands in its section, though nested markers are
      documented to be refused. */
  lemma StrayMarkerIsDeleted(profile: string, other: string, isAddress: string -> bool)
    requires ValidProfile(profile) && ValidProfile(other) && profile != other && PlainAddresses(isAddress)
    ensures var t := Replace(StrayFile(profile, other), profile, []);
            && t.Ok? && Parse(StrayFile(profile, other), other, isAddress) == Err(MarkersInvalid)
            && Parse(t.value, other, isAddress) == Ok([])
  {
    var begin, end := BeginMarker(profile), EndMarker(profile);
    var file := StrayFile(profile, other);
    MarkerShape(profile);
    MarkerShape(other);
    SamePrefix(BEGIN, profile, other);
    SamePrefix(END, profile, other);
    var gap := StrayLines(profile, other);
    StrayCounts(TrimAll(Lines(file)), gap, begin, end, BeginMarker(other), EndMarker(other));
    StrayProper(profile, other);
    EmptyFile(begin, end, Section(begin, [EndMarker(other)], end));
    EditAgain("", begin, end, [EndMarker(other)], SectionLines(profile, []), IsBegin);
    SectionProper(profile, [], isAddress);
    OtherElsewhere(profile, other, [], isAddress);
    StrayIsDeleted(file, begin, end, EntryLines([]), IsBegin, BeginMarker(other), EndMarker(other), Reader(isAddress));
  }

  lemma EmptyFile(begin: string, end: string, section: seq<string>)
    ensures Edit("", begin, end, section, IsBegin) == Ok(Appended("", section, "\n"))
  {
    assert Lines("") == [] && TrimAll([]) == [];
  }

  lemma OtherElsewhere(profile: string, other: string, entries: seq<Entry>, isAddress: string -> bool)
    requires AllValid(entries) && Addressed(entries, isAddress) && other != profile
    ensures Elsewhere(BeginMarker(other), BeginMarker(profile), EndMarker(profile), EntryLines(entries))
    ensures Elsewhere(EndMarker(other), BeginMarker(profile), EndMarker(profile), EntryLines(entries))
  {
    MarkerShape(profile);
    MarkerShape(other);
    SamePrefix(BEGIN, profile, other);
    SamePrefix(END, profile, other);
    NoEntryIs(entries, BeginMarker(other), isAddress);
    NoEntryIs(entries, EndMarker(other), isAddress);
  }

  lemma SamePrefix(p: string, a: string, b: string)
    ensures p + a == p + b ==> a == b
  {
    CutConcat(p, a);
    CutConcat(p, b);
  }

  lemma NoEntryIs(entries: seq<Entry>, marker: string, isAddress: string -> bool)
    requires AllValid(entries) && Addressed(entries, isAddress)
    requires |marker| > 2 && marker[0] == '#' && marker[2] != 'N'
    ensures marker !in TrimAll(EntryLines(entries))
  {
    forall i | 0 <= i < |entries| ensures TrimAll(EntryLines(entries))[i] != marker {
      TrimAllAt(EntryLines(entries), i);
      EntryLinesAt(entries, i);
      HostnamePlain(entries[i].hostname);
      LineIsNoMarker(entries[i], marker);
    }
  }

  lemma MarkerUnreadable(profile: string, isAddress: string -> bool)
    ensures Reader(isAddress)(BeginMarker(profile)).Err?
  {
    MarkerShape(profile);
    var line := BeginMarker(profile);
    NotPrefix(DISABLED, line, 2);
    assert Position(line, '#') == 0;
    assert line[..0] == [];
    assert TrimEnd([]) == [] && Words([]) == [];
  }
}
