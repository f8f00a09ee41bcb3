/** Editing and reading one marked section of a text file, whatever the markers and the lines say.
    Hosts supplies the markers and the entry format. */
module ManagedSection {
  import opened Text

  datatype Error = ProfileInvalid | EntryInvalid | MarkersInvalid | MarkersOutOfOrder | AddressInvalid

  datatype Result<T> = Ok(value: T) | Err(error: Error)

  function TrimAll(lines: seq<string>): (r: seq<string>)
    ensures |r| == |lines|
  {
    if lines == [] then [] else [Trim(lines[0])] + TrimAll(lines[1..])
  }

  lemma {:induction false} TrimAllAt(lines: seq<string>, i: nat)
    requires i < |lines|
    ensures TrimAll(lines)[i] == Trim(lines[i])
  {
    if i > 0 {
      TrimAllAt(lines[1..], i - 1);
    }
  }

  function Count(lines: seq<string>, marker: string): nat {
    if lines == [] then 0 else (if lines[0] == marker then 1 else 0) + Count(lines[1..], marker)
  }

  /** Position of the first line equal to the marker, or the length. */
  function PositionOf(lines: seq<string>, marker: string): (i: nat)
    ensures i <= |lines|
    ensures i < |lines| ==> lines[i] == marker
    ensures forall j :: 0 <= j < i ==> lines[j] != marker
  {
    if lines == [] || lines[0] == marker then 0 else 1 + PositionOf(lines[1..], marker)
  }

  lemma {:induction false} CountedIsFound(lines: seq<string>, marker: string)
    ensures Count(lines, marker) > 0 <==> PositionOf(lines, marker) < |lines|
  {
    if lines != [] {
      CountedIsFound(lines[1..], marker);
    }
  }

  // ---- Editor ----

  function Newline(existing: string): string {
    if HasCrLf(existing) then "\r\n" else "\n"
  }

  predicate IsSuffix(suffix: string, s: string) {
    |suffix| <= |s| && s[|s| - |suffix|..] == suffix
  }

  /** What an append puts between the old text and the section: an unterminated last line is
      terminated, then a blank line is added unless there is one. */
  function Terminator(existing: string, nl: string): string {
    if existing != [] && !EndsWith(existing, '\n') && !EndsWith(existing, '\r') then nl else ""
  }

  function BlankLine(text: string, nl: string): string {
    if text != [] && !IsSuffix(nl + nl, text) then nl else ""
  }

  function Appended(existing: string, section: seq<string>, nl: string): string {
    var text := existing + Terminator(existing, nl);
    text + BlankLine(text, nl) + Unlines(section, nl)
  }

  /** The file with lines start..finish replaced by the section. */
  function Rebuilt(
      lines: seq<string>, start: nat, finish: nat, section: seq<string>, nl: string, terminated: bool): string
    requires start <= finish < |lines|
  {
    Join(lines[..start] + section + lines[finish + 1..], nl) + (if terminated then nl else "")
  }

  predicate Nested(trimmed: seq<string>, start: nat, finish: nat, foreign: string -> bool) {
    exists i :: start < i < finish && i < |trimmed| && foreign(trimmed[i])
  }

  /** `replace_managed_section` once its arguments are valid; `foreign` recognizes the begin marker of any
      section. */
  function Edit(
      existing: string, begin: string, end: string, section: seq<string>, foreign: string -> bool): Result<string>
  {
    var lines := Lines(existing);
    var trimmed := TrimAll(lines);
    var begins, ends := Count(trimmed, begin), Count(trimmed, end);
    if begins > 1 || ends > 1 || begins != ends then Err(MarkersInvalid)
    else if begins == 0 then Ok(Appended(existing, section, Newline(existing)))
    else
      var start, finish := PositionOf(trimmed, begin), PositionOf(trimmed, end);
      CountedIsFound(trimmed, end);
      if finish < start || Nested(trimmed, start, finish, foreign) then Err(MarkersOutOfOrder)
      else Ok(Rebuilt(lines, start, finish, section, Newline(existing), EndsWith(existing, '\n')))
  }

  // ---- Reader ----

  /** Reads the lines in order; blank ones are skipped and the first error ends it. */
  function ReadLines<T>(lines: seq<string>, read: string -> Result<T>): Result<seq<T>> {
    if lines == [] then Ok([])
    else if lines[0] == [] then ReadLines(lines[1..], read)
    else
      var first := read(lines[0]);
      if first.Err? then Err(first.error)
      else
        var rest := ReadLines(lines[1..], read);
        if rest.Err? then rest else Ok([first.value] + rest.value)
  }

  /** `parse_managed_hosts`, on trimmed lines. */
  function ReadSection<T>(trimmed: seq<string>, begin: string, end: string, read: string -> Result<T>): Result<seq<T>> {
    var starts, ends := Count(trimmed, begin), Count(trimmed, end);
    if starts == 0 && ends == 0 then Ok([])
    else if starts != 1 || ends != 1 then Err(MarkersInvalid)
    else
      var start, finish := PositionOf(trimmed, begin), PositionOf(trimmed, end);
      if finish <= start then Err(MarkersOutOfOrder)
      else ReadLines(trimmed[start + 1..finish], read)
  }

  // ---- Lines of rebuilt text ----

  ghost predicate Unbroken(s: string) {
    '\n' !in s && '\r' !in s
  }

  ghost predicate AllUnbroken(lines: seq<string>) {
    forall i :: 0 <= i < |lines| ==> Unbroken(lines[i])
  }

  /** A line that survives being followed by the newline. */
  ghost predicate Clean(line: string, nl: string) {
    '\n' !in line && (nl == "\n" ==> !EndsWith(line, '\r'))
  }

  ghost predicate AllClean(lines: seq<string>, nl: string) {
    forall i :: 0 <= i < |lines| ==> Clean(lines[i], nl)
  }

  lemma LinesOfFirst(line: string, nl: string, rest: string)
    requires IsNewline(nl) && Clean(line, nl)
    ensures Lines(line + nl + rest) == [line] + Lines(rest)
  {
    if nl == "\n" {
      LinesFirst(line, rest);
    } else {
      var l := line + "\r";
      assert line + nl + rest == l + "\n" + rest;
      LinesFirst(l, rest);
      assert StripCr(l) == line;
    }
  }

  lemma {:induction false} LinesOfUnlines(lines: seq<string>, nl: string, rest: string)
    requires IsNewline(nl) && AllClean(lines, nl)
    ensures Lines(Unlines(lines, nl) + rest) == lines + Lines(rest)
  {
    if lines == [] {
      assert Unlines(lines, nl) + rest == rest;
    } else {
      var tail := Unlines(lines[1..], nl);
      LinesOfUnlines(lines[1..], nl, rest);
      Regroup(lines[0], nl, tail, rest);
      LinesOfFirst(lines[0], nl, tail + rest);
      HeadTail(lines);
      Join3(Lines(Unlines(lines, nl) + rest), [lines[0]], Lines(tail + rest), lines[1..], Lines(rest));
    }
  }

  lemma {:induction false} JoinTerminated(lines: seq<string>, nl: string)
    requires lines != []
    ensures Join(lines, nl) + nl == Unlines(lines, nl)
  {
    if |lines| == 1 {
      assert lines[1..] == [] && lines[0] + nl + [] == lines[0] + nl;
    } else {
      JoinTerminated(lines[1..], nl);
      Regroup(lines[0], nl, Join(lines[1..], nl), nl);
    }
  }

  lemma {:induction false} JoinLast(lines: seq<string>, last: string, nl: string)
    ensures Join(lines + [last], nl) == Unlines(lines, nl) + last
  {
    if lines == [] {
      assert lines + [last] == [last] && Unlines(lines, nl) + last == last;
    } else {
      assert (lines + [last])[0] == lines[0] && (lines + [last])[1..] == lines[1..] + [last];
      JoinLast(lines[1..], last, nl);
      Regroup(lines[0], nl, Unlines(lines[1..], nl), last);
    }
  }

  /** Terminated or not, joined lines read back as themselves. */
  lemma LinesOfJoin(lines: seq<string>, nl: string, terminated: bool)
    requires IsNewline(nl) && lines != []
    requires terminated ==> AllClean(lines, nl)
    requires !terminated ==> AllClean(lines[..|lines| - 1], nl)
    requires !terminated ==> lines[|lines| - 1] != [] && '\n' !in lines[|lines| - 1]
    ensures Lines(Join(lines, nl) + (if terminated then nl else "")) == lines
  {
    if terminated {
      JoinTerminated(lines, nl);
      LinesOfUnlines(lines, nl, []);
      assert Unlines(lines, nl) + [] == Unlines(lines, nl) && lines + Lines([]) == lines;
    } else {
      var init, last := lines[..|lines| - 1], lines[|lines| - 1];
      assert lines == init + [last];
      JoinLast(init, last, nl);
      LinesOfUnlines(init, nl, last);
      assert Join(lines, nl) + "" == Join(lines, nl);
      UnbrokenLines(last);
    }
  }

  // ---- Lines of existing text ----

  lemma {:induction false} LinesUnbroken(s: string)
    ensures forall i :: 0 <= i < |Lines(s)| ==> '\n' !in Lines(s)[i]
    decreases |s|
  {
    if '\n' in s {
      var first, rest := FirstBreak(s);
      LinesFirst(first, rest);
      LinesUnbroken(rest);
    } else if s != [] {
      UnbrokenLines(s);
    }
  }

  /** Unterminated text ends in a line that is not empty. */
  lemma {:induction false} LastLine(s: string)
    requires s != []
    ensures Lines(s) != []
    ensures !EndsWith(s, '\n') ==> Lines(s)[|Lines(s)| - 1] != []
    decreases |s|
  {
    if '\n' in s {
      var first, rest := FirstBreak(s);
      LinesFirst(first, rest);
      if rest != [] {
        LastLine(rest);
      }
    } else {
      UnbrokenLines(s);
    }
  }

  lemma CrLfInside(first: string, rest: string)
    ensures HasCrLf(rest) ==> HasCrLf(first + "\n" + rest)
    ensures EndsWith(first, '\r') ==> HasCrLf(first + "\n" + rest)
  {
    var s := first + "\n" + rest;
    if HasCrLf(rest) {
      var i :| 0 <= i < |rest| - 1 && rest[i] == '\r' && rest[i + 1] == '\n';
      var j := |first| + 1 + i;
      assert s[j] == '\r' && s[j + 1] == '\n';
    }
    if EndsWith(first, '\r') {
      var j := |first| - 1;
      assert s[j] == '\r' && s[j + 1] == '\n';
    }
  }

  /** Lines that are followed by a terminator in text without "\r\n" do not end in "\r". */
  lemma {:induction false} LinesNoCr(s: string)
    requires !HasCrLf(s)
    ensures forall i :: 0 <= i < |Lines(s)| - (if s == [] || EndsWith(s, '\n') then 0 else 1) ==>
              !EndsWith(Lines(s)[i], '\r')
    decreases |s|
  {
    if '\n' in s {
      var first, rest := FirstBreak(s);
      CrLfInside(first, rest);
      LinesFirst(first, rest);
      LinesNoCr(rest);
    } else if s != [] {
      UnbrokenLines(s);
    }
  }
}
