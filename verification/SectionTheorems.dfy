/** What editing a section does to the lines of the file, and what reading them gives back. */
module SectionTheorems {
  import opened Text
  import opened ManagedSection

  // ---- Trimmed lines and counting ----

  lemma {:induction false} TrimAllConcat(a: seq<string>, b: seq<string>)
    ensures TrimAll(a + b) == TrimAll(a) + TrimAll(b)
  {
    if a == [] {
      assert a + b == b;
    } else {
      assert (a + b)[0] == a[0] && (a + b)[1..] == a[1..] + b;
      TrimAllConcat(a[1..], b);
      Join3(TrimAll(a + b), [Trim(a[0])], TrimAll(a[1..] + b), TrimAll(a[1..]), TrimAll(b));
    }
  }

  lemma TrimAllOne(line: string)
    ensures TrimAll([line]) == [Trim(line)]
  {}

  lemma {:induction false} CountConcat(a: seq<string>, b: seq<string>, marker: string)
    ensures Count(a + b, marker) == Count(a, marker) + Count(b, marker)
  {
    if a == [] {
      assert a + b == b;
    } else {
      assert (a + b)[0] == a[0] && (a + b)[1..] == a[1..] + b;
      CountConcat(a[1..], b, marker);
    }
  }

  lemma {:induction false} CountNone(lines: seq<string>, marker: string)
    ensures Count(lines, marker) == 0 <==> marker !in lines
  {
    if lines != [] {
      HeadTail(lines);
      CountNone(lines[1..], marker);
    }
  }

  lemma {:induction false} PositionAfter(a: seq<string>, marker: string, b: seq<string>)
    requires marker !in a
    ensures PositionOf(a + ([marker] + b), marker) == |a|
  {
    var s := a + ([marker] + b);
    assert s[|a|] == marker;
    assert forall j :: 0 <= j < |a| ==> s[j] == a[j] && a[j] in a;
  }

  /** A marker that occurs once cuts the lines in two parts without it. */
  lemma CutAtMarker(lines: seq<string>, marker: string) returns (a: seq<string>, b: seq<string>)
    requires Count(lines, marker) == 1
    ensures lines == a + ([marker] + b) && marker !in a && marker !in b
    ensures PositionOf(lines, marker) == |a| && a == lines[..|a|] && b == lines[|a| + 1..]
  {
    var n := PositionOf(lines, marker);
    CountedIsFound(lines, marker);
    a, b := lines[..n], lines[n + 1..];
    assert lines == a + ([marker] + b);
    assert marker !in a;
    CountNone(a, marker);
    CountConcat(a, [marker] + b, marker);
    CountConcat([marker], b, marker);
    assert Count([marker], marker) == 1 + Count([], marker);
    CountNone(b, marker);
  }

  /** Lines that hold one section: what precedes it, its body and what follows. */
  ghost predicate Holds(
      trimmed: seq<string>, begin: string, end: string, a: seq<string>, body: seq<string>, b: seq<string>)
  {
    && trimmed == a + ([begin] + (body + ([end] + b)))
    && begin !in a && begin !in body && begin !in b
    && end !in a && end !in body && end !in b
    && begin != end
  }

  lemma HoldsCounts(trimmed: seq<string>, begin: string, end: string, a: seq<string>, body: seq<string>, b: seq<string>)
    requires Holds(trimmed, begin, end, a, body, b)
    ensures Count(trimmed, begin) == 1 && PositionOf(trimmed, begin) == |a|
    ensures Count(trimmed, end) == 1 && PositionOf(trimmed, end) == |a| + 1 + |body|
    ensures trimmed[|a| + 1..|a| + 1 + |body|] == body
  {
    var tail := body + ([end] + b);
    assert begin !in tail;
    PositionAfter(a, begin, tail);
    OneMarker(a, begin, tail);
    var head := a + ([begin] + body);
    assert end !in head;
    assert trimmed == head + ([end] + b);
    PositionAfter(head, end, b);
    OneMarker(head, end, b);
  }

  lemma OneMarker(a: seq<string>, marker: string, b: seq<string>)
    requires marker !in a && marker !in b
    ensures Count(a + ([marker] + b), marker) == 1
  {
    CountConcat(a, [marker] + b, marker);
    CountConcat([marker], b, marker);
    assert Count([marker], marker) == 1 + Count([], marker);
    CountNone(a, marker);
    CountNone(b, marker);
  }

  lemma HoldsReads<T>(
      trimmed: seq<string>, begin: string, end: string, a: seq<string>, body: seq<string>, b: seq<string>,
      read: string -> Result<T>)
    requires Holds(trimmed, begin, end, a, body, b)
    ensures ReadSection(trimmed, begin, end, read) == ReadLines(body, read)
  {
    HoldsCounts(trimmed, begin, end, a, body, b);
  }

  // ---- Appending ----

  /** Terminating the last line changes no trimmed line, and no line at all unless "\n" turns a bare
      "\r" into a terminator. */
  lemma {:induction false} TerminatedLines(s: string, nl: string)
    requires s != [] && !EndsWith(s, '\n') && IsNewline(nl)
    ensures TrimAll(Lines(s + nl)) == TrimAll(Lines(s))
    ensures nl == "\r\n" || !EndsWith(s, '\r') ==> Lines(s + nl) == Lines(s)
    decreases |s|
  {
    if '\n' in s {
      var first, rest := FirstBreak(s);
      Regroup(first, "\n", rest, nl);
      LinesFirst(first, rest);
      LinesFirst(first, rest + nl);
      LastOfRest(first, rest);
      TerminatedLines(rest, nl);
      TrimAllConcat([StripCr(first)], Lines(rest));
      TrimAllConcat([StripCr(first)], Lines(rest + nl));
    } else {
      UnbrokenLines(s);
      TerminatedLine(s, nl);
      TrimAllOne(s);
      TrimAllOne(StripCr(s));
    }
  }

  lemma LastOfRest(first: string, rest: string)
    ensures rest == [] ==> EndsWith(first + "\n" + rest, '\n')
    ensures rest != [] ==> (EndsWith(first + "\n" + rest, '\n') <==> EndsWith(rest, '\n'))
    ensures rest != [] ==> (EndsWith(first + "\n" + rest, '\r') <==> EndsWith(rest, '\r'))
  {}

  lemma TerminatedLine(s: string, nl: string)
    requires '\n' !in s && IsNewline(nl)
    ensures Lines(s + nl) == [if nl == "\n" then StripCr(s) else s]
    ensures Trim(StripCr(s)) == Trim(s)
  {
    assert s + nl + "" == s + nl;
    if nl == "\n" {
      LinesFirst(s, "");
    } else {
      LinesOfFirst(s, nl, "");
    }
    TrimStripped(s);
  }

  lemma TrimStripped(s: string)
    ensures Trim(StripCr(s)) == Trim(s)
  {
    if EndsWith(s, '\r') {
      var t := StripCr(s);
      assert s == "" + t + "\r";
      AsciiWhitespace('\r');
      TrimIgnores("", t, "\r");
    }
  }

  lemma LinesOfAppend(base: string, gap: seq<string>, section: seq<string>, nl: string)
    requires IsNewline(nl) && AllClean(section, nl) && (gap == [] || gap == [""])
    requires base == [] || EndsWith(base, '\n')
    ensures Lines(base + Unlines(gap + section, nl)) == Lines(base) + (gap + section)
  {
    assert AllClean(gap + section, nl);
    LinesConcat(base, Unlines(gap + section, nl));
    LinesOfUnlines(gap + section, nl, []);
    assert Unlines(gap + section, nl) + [] == Unlines(gap + section, nl);
    assert (gap + section) + Lines([]) == gap + section;
  }

  lemma TrimGap(gap: seq<string>)
    requires gap == [] || gap == [""]
    ensures TrimAll(gap) == gap
  {}

  /** The lines of an append: the old ones, perhaps a blank one, then the section. */
  lemma AppendedLines(existing: string, section: seq<string>, nl: string) returns (gap: seq<string>)
    requires IsNewline(nl) && AllClean(section, nl)
    ensures gap == [] || gap == [""]
    ensures TrimAll(Lines(Appended(existing, section, nl))) == TrimAll(Lines(existing)) + (gap + TrimAll(section))
    ensures existing <= Appended(existing, section, nl)
    ensures nl == "\r\n" || !EndsWith(existing, '\r') ==>
              Lines(Appended(existing, section, nl)) == Lines(existing) + (gap + section)
  {
    var text, base;
    text, base, gap := AppendedText(existing, section, nl);
    LinesOfAppend(base, gap, section, nl);
    TrimAllConcat(Lines(base), gap + section);
    TrimAllConcat(gap, section);
    TrimGap(gap);
    if base != existing {
      TerminatedLines(existing, nl);
    }
  }

  /** An append as terminated text followed by terminated lines. */
  lemma AppendedText(
      existing: string, section: seq<string>, nl: string)
    returns (text: string, base: string, gap: seq<string>)
    requires IsNewline(nl)
    ensures text == Appended(existing, section, nl) == base + Unlines(gap + section, nl)
    ensures gap == [] || gap == [""]
    ensures base == existing || (existing != [] && !EndsWith(existing, '\n') && base == existing + nl)
    ensures base == [] || EndsWith(base, '\n')
    ensures existing <= text
  {
    text := Appended(existing, section, nl);
    var terminated := existing + Terminator(existing, nl);
    var blank := BlankLine(terminated, nl);
    if existing == [] || EndsWith(existing, '\n') {
      base, gap := existing, if blank == "" then [] else [""];
      assert terminated == existing;
      GapText(base, blank, gap, section, nl);
    } else if EndsWith(existing, '\r') {
      base, gap := existing + nl, [];
      assert terminated == existing;
      NotDoubled(terminated, nl);
      GapText(base, "", gap, section, nl);
      assert base + "" == base;
    } else {
      base, gap := existing + nl, [""];
      NotTwice(existing, nl);
      GapText(base, nl, gap, section, nl);
    }
  }

  lemma SuffixAt(suffix: string, s: string, k: nat)
    requires k < |suffix|
    ensures IsSuffix(suffix, s) ==> s[|s| - |suffix| + k] == suffix[k]
  {}

  lemma NotDoubled(s: string, nl: string)
    requires IsNewline(nl) && !EndsWith(s, '\n')
    ensures !IsSuffix(nl + nl, s)
  {
    SuffixAt(nl + nl, s, |nl + nl| - 1);
  }

  lemma NotTwice(s: string, nl: string)
    requires IsNewline(nl) && !EndsWith(s, '\n')
    ensures !IsSuffix(nl + nl, s + nl)
  {
    SuffixAt(nl + nl, s + nl, |nl| - 1);
  }

  lemma GapText(base: string, blank: string, gap: seq<string>, section: seq<string>, nl: string)
    requires (blank == "" && gap == []) || (blank == nl && gap == [""])
    ensures base + blank + Unlines(section, nl) == base + Unlines(gap + section, nl)
  {
    if gap == [] {
      assert gap + section == section && base + "" == base;
    } else {
      assert (gap + section)[0] == "" && (gap + section)[1..] == section;
      assert Unlines(gap + section, nl) == "" + nl + Unlines(section, nl);
      assert "" + nl == nl;
      assert base + nl + Unlines(section, nl) == base + (nl + Unlines(section, nl));
    }
  }
}
