/** When writing a section twice gives the same bytes. */
module SectionBytes {
  import opened Text
  import opened ManagedSection
  import opened SectionTheorems
  import opened SectionEdits

  /** Every line break of the text is the newline. */
  ghost predicate Uniform(s: string, nl: string) {
    if nl == "\n" then !HasCrLf(s) else AllCrLf(s)
  }

  ghost predicate AllCrLf(s: string) {
    forall i :: 0 <= i < |s| && s[i] == '\n' ==> i > 0 && s[i - 1] == '\r'
  }

  lemma RejoinedFirst(first: string, rest: string, nl: string)
    requires '\n' !in first
    ensures Rejoined(first + "\n" + rest, nl) == StripCr(first) + nl + Rejoined(rest, nl)
  {
    LinesFirst(first, rest);
    LastOfRest(first, rest);
    var line := StripCr(first);
    if rest == [] {
      assert [line] + Lines(rest) == [line];
      assert line + nl + Rejoined(rest, nl) == line + nl;
    } else {
      LastLine(rest);
      var all := [line] + Lines(rest);
      assert all[1..] == Lines(rest);
      Regroup(line, nl, Join(Lines(rest), nl), if EndsWith(rest, '\n') then nl else "");
    }
  }

  /** Where the first line break is decides whether two texts can agree. */
  lemma SameFirst(first: string, rest: string, nl: string, u: string)
    requires '\n' !in first && IsNewline(nl)
    ensures StripCr(first) + nl + u == first + "\n" + rest <==> (EndsWith(first, '\r') <==> nl == "\r\n") && u == rest
  {
    var line := StripCr(first);
    var p, q := line + nl + u, first + "\n" + rest;
    assert q[|first|] == '\n' && forall i :: 0 <= i < |first| ==> q[i] == first[i] && q[i] != '\n';
    assert p[|line| + |nl| - 1] == '\n';
    if (EndsWith(first, '\r') <==> nl == "\r\n") {
      assert line + nl == first + "\n";
      assert p[|line + nl|..] == u && q[|line + nl|..] == rest;
    } else if EndsWith(first, '\r') {
      assert p[|line|] == '\n' && |line| < |first|;
    } else {
      assert p[|first|] == '\r';
    }
  }

  lemma UniformFirst(first: string, rest: string, nl: string)
    requires '\n' !in first && IsNewline(nl)
    ensures Uniform(first + "\n" + rest, nl) <==> (EndsWith(first, '\r') <==> nl == "\r\n") && Uniform(rest, nl)
  {
    if nl == "\n" {
      CrLfInside(first, rest);
      CrLfOnlyThere(first, rest);
    } else {
      AllCrLfFirst(first, rest);
    }
  }

  lemma CrLfOnlyThere(first: string, rest: string)
    requires '\n' !in first
    ensures HasCrLf(first + "\n" + rest) ==> EndsWith(first, '\r') || HasCrLf(rest)
  {
    var s := first + "\n" + rest;
    if HasCrLf(s) {
      var i :| 0 <= i < |s| - 1 && s[i] == '\r' && s[i + 1] == '\n';
      assert forall k :: 0 <= k < |first| ==> s[k] == first[k] && first[k] in first;
      if i + 1 > |first| {
        var j := i - |first| - 1;
        assert s[i] == rest[j] && s[i + 1] == rest[j + 1];
      }
    }
  }

  lemma AllCrLfFirst(first: string, rest: string)
    requires '\n' !in first
    ensures AllCrLf(first + "\n" + rest) <==> EndsWith(first, '\r') && AllCrLf(rest)
  {
    var s := first + "\n" + rest;
    var n := |first|;
    assert s[n] == '\n' && (n > 0 ==> s[n - 1] == first[n - 1]);
    assert forall j :: 0 <= j < |rest| ==> s[n + 1 + j] == rest[j];
    if AllCrLf(s) {
      forall j | 0 <= j < |rest| && rest[j] == '\n' ensures j > 0 && rest[j - 1] == '\r' {
        assert s[n + 1 + j - 1] == '\r';
      }
    }
    if EndsWith(first, '\r') && AllCrLf(rest) {
      forall i | 0 <= i < |s| && s[i] == '\n' ensures i > 0 && s[i - 1] == '\r' {
        assert forall k :: 0 <= k < n ==> s[k] == first[k] && first[k] in first;
        if i > n {
          assert rest[i - n - 1] == '\n' && s[i - 1] == rest[i - n - 2];
        }
      }
    }
  }

  /** Rewriting the lines gives the text back exactly when its line breaks are uniform. */
  lemma {:induction false} RejoinedIff(s: string, nl: string)
    requires IsNewline(nl)
    ensures Rejoined(s, nl) == s <==> Uniform(s, nl)
    decreases |s|
  {
    if '\n' in s {
      var first, rest := FirstBreak(s);
      RejoinedIff(rest, nl);
      RejoinedFirst(first, rest, nl);
      SameFirst(first, rest, nl, Rejoined(rest, nl));
      UniformFirst(first, rest, nl);
    } else if s != [] {
      UnbrokenLines(s);
      assert s + "" == s;
    }
  }

  // ---- After a replacement ----

  /** A replacement leaves line breaks of one kind, so the next identical edit changes no byte. */
  lemma ReplacedIsUniform(existing: string, start: nat, finish: nat, section: seq<string>)
    requires start <= finish < |Lines(existing)|
    requires AllClean(section, Newline(existing)) && |section| >= 2 && section[|section| - 1] != []
    ensures var t := Rebuilt(Lines(existing), start, finish, section, Newline(existing), EndsWith(existing, '\n'));
            Normalized(t) == t
  {
    var lines, nl, terminated := Lines(existing), Newline(existing), EndsWith(existing, '\n');
    var t := Rebuilt(lines, start, finish, section, nl, terminated);
    var output := lines[..start] + section + lines[finish + 1..];
    RebuiltLines(existing, start, finish, section);
    OutputLast(existing, start, finish, section);
    JoinBroken(output, nl, terminated);
    RejoinedIff(t, nl);
    UniformIsNewline(t, nl);
  }

  lemma OutputLast(existing: string, start: nat, finish: nat, section: seq<string>)
    requires start <= finish < |Lines(existing)| && |section| >= 2
    requires section[|section| - 1] != [] && '\n' !in section[|section| - 1]
    ensures var output := Lines(existing)[..start] + section + Lines(existing)[finish + 1..];
            && |output| >= 2
            && (!EndsWith(existing, '\n') ==> var last := output[|output| - 1]; last != [] && '\n' !in last)
  {
    var lines := Lines(existing);
    var output := lines[..start] + section + lines[finish + 1..];
    LinesUnbroken(existing);
    if !EndsWith(existing, '\n') {
      LastLine(existing);
    }
    assert output[|output| - 1] == if finish + 1 < |lines| then lines[|lines| - 1] else section[|section| - 1];
  }

  /** Joining two or more lines puts a break in the text, and the last line decides how it ends. */
  lemma JoinBroken(lines: seq<string>, nl: string, terminated: bool)
    requires |lines| >= 2 && IsNewline(nl)
    requires !terminated ==> var last := lines[|lines| - 1]; last != [] && '\n' !in last
    ensures var t := Join(lines, nl) + (if terminated then nl else "");
            '\n' in t && (EndsWith(t, '\n') <==> terminated)
  {
    var init, last := lines[..|lines| - 1], lines[|lines| - 1];
    assert lines == init + [last];
    JoinLast(init, last, nl);
    var tail := Unlines(init[1..], nl);
    assert Unlines(init, nl) == init[0] + nl + tail;
    assert nl[|nl| - 1] == '\n' && nl[|nl| - 1] in nl;
    if !terminated {
      assert last[|last| - 1] in last;
    }
  }

  lemma UniformIsNewline(t: string, nl: string)
    requires IsNewline(nl) && '\n' in t && Uniform(t, nl)
    ensures Newline(t) == nl
  {
    if nl == "\r\n" {
      var i :| 0 <= i < |t| && t[i] == '\n';
      assert t[i - 1] == '\r' && t[i - 1 + 1] == '\n';
    }
  }

  // ---- After an append ----

  /** Text an append leaves with line breaks of one kind. */
  ghost predicate Steady(existing: string) {
    if HasCrLf(existing) then AllCrLf(existing) else !EndsWith(existing, '\r')
  }

  lemma AllCrLfConcat(a: string, b: string)
    requires AllCrLf(b)
    ensures AllCrLf(a + b) <==> AllCrLf(a)
  {
    var s := a + b;
    assert forall i :: 0 <= i < |a| ==> s[i] == a[i];
    assert forall i :: 0 <= i < |b| ==> s[|a| + i] == b[i];
    if AllCrLf(a) {
      forall i | 0 <= i < |s| && s[i] == '\n' ensures i > 0 && s[i - 1] == '\r' {
        if i >= |a| {
          assert b[i - |a|] == '\n' && s[i - 1] == b[i - |a| - 1];
        }
      }
    }
  }

  lemma {:induction false} UnlinesAllCrLf(lines: seq<string>)
    requires forall i :: 0 <= i < |lines| ==> '\n' !in lines[i]
    ensures AllCrLf(Unlines(lines, "\r\n"))
  {
    if lines != [] {
      var line := lines[0] + "\r\n";
      UnlinesAllCrLf(lines[1..]);
      assert AllCrLf(line);
      AllCrLfConcat(line, Unlines(lines[1..], "\r\n"));
    }
  }

  lemma {:induction false} UnlinesNoCr(lines: seq<string>)
    requires forall i :: 0 <= i < |lines| ==> '\r' !in lines[i]
    ensures '\r' !in Unlines(lines, "\n")
  {
    if lines != [] {
      UnlinesNoCr(lines[1..]);
    }
  }

  lemma PrefixCrLf(a: string, b: string)
    ensures HasCrLf(a) ==> HasCrLf(a + b)
    ensures '\r' !in b && !EndsWith(a, '\r') ==> (HasCrLf(a + b) <==> HasCrLf(a))
  {
    var s := a + b;
    if HasCrLf(a) {
      var i :| 0 <= i < |a| - 1 && a[i] == '\r' && a[i + 1] == '\n';
      assert s[i] == '\r' && s[i + 1] == '\n';
    }
    if '\r' !in b && !EndsWith(a, '\r') && HasCrLf(s) {
      var i :| 0 <= i < |s| - 1 && s[i] == '\r' && s[i + 1] == '\n';
      assert forall k :: |a| <= k < |s| ==> s[k] == b[k - |a|] && s[k] in b;
      assert a[i] == '\r' && a[i + 1] == '\n';
    }
  }

  /** What an append adds. */
  function Added(existing: string, section: seq<string>, nl: string): string {
    Terminator(existing, nl) + BlankLine(existing + Terminator(existing, nl), nl) + Unlines(section, nl)
  }

  lemma AppendedIsAdded(existing: string, section: seq<string>, nl: string)
    ensures Appended(existing, section, nl) == existing + Added(existing, section, nl)
  {}

  lemma AppendedCrLf(existing: string, section: seq<string>)
    requires HasCrLf(existing) && forall i :: 0 <= i < |section| ==> '\n' !in section[i]
    ensures var t := Appended(existing, section, "\r\n"); HasCrLf(t) && (AllCrLf(t) <==> AllCrLf(existing))
  {
    var nl := "\r\n";
    var added := Added(existing, section, nl);
    AppendedIsAdded(existing, section, nl);
    UnlinesAllCrLf(section);
    var gap := Terminator(existing, nl) + BlankLine(existing + Terminator(existing, nl), nl);
    assert AllCrLf(gap);
    AllCrLfConcat(gap, Unlines(section, nl));
    AllCrLfConcat(existing, added);
    PrefixCrLf(existing, added);
  }

  lemma AppendedLf(existing: string, section: seq<string>)
    requires !HasCrLf(existing) && !EndsWith(existing, '\r') && forall i :: 0 <= i < |section| ==> '\r' !in section[i]
    ensures !HasCrLf(Appended(existing, section, "\n"))
  {
    AppendedIsAdded(existing, section, "\n");
    UnlinesNoCr(section);
    PrefixCrLf(existing, Added(existing, section, "\n"));
  }

  /** A bare "\r" at the end becomes half of a "\r\n" that the section's own breaks do not match. */
  lemma AppendedMixed(existing: string, section: seq<string>)
    requires EndsWith(existing, '\r') && section != [] && section[0] != [] && !EndsWith(section[0], '\r')
    ensures var t := Appended(existing, section, "\n"); HasCrLf(t) && !AllCrLf(t)
  {
    var t := Appended(existing, section, "\n");
    var n, m := |existing|, |section[0]|;
    NotDoubled(existing, "\n");
    AppendedIsAdded(existing, section, "\n");
    assert existing + Terminator(existing, "\n") == existing;
    assert Added(existing, section, "\n") == "\n" + (section[0] + "\n" + Unlines(section[1..], "\n"));
    assert t[n - 1] == '\r' && t[n - 1 + 1] == '\n';
    assert t[n + 1 + m] == '\n' && t[n + m] == section[0][m - 1];
  }

  lemma AppendedIsUniformIff(existing: string, section: seq<string>)
    requires section != [] && section[0] != [] && AllUnbroken(section)
    ensures var t := Appended(existing, section, Newline(existing)); Normalized(t) == t <==> Steady(existing)
  {
    var t := Appended(existing, section, Newline(existing));
    RejoinedIff(t, Newline(t));
    if HasCrLf(existing) {
      AppendedCrLf(existing, section);
    } else if EndsWith(existing, '\r') {
      assert section[0][|section[0]| - 1] in section[0];
      AppendedMixed(existing, section);
    } else {
      AppendedLf(existing, section);
    }
  }

  // ---- Both ----

  lemma ReplacedTwice(existing: string, begin: string, end: string, section: seq<string>, foreign: string -> bool)
    requires AllClean(section, Newline(existing)) && |section| >= 2 && section[|section| - 1] != []
    requires Edit(existing, begin, end, section, foreign).Ok? && Count(TrimAll(Lines(existing)), begin) > 0
    ensures var t := Edit(existing, begin, end, section, foreign).value; Normalized(t) == t
  {
    var trimmed := TrimAll(Lines(existing));
    EditReplaces(existing, begin, end, section, foreign);
    ReplacedIsUniform(existing, PositionOf(trimmed, begin), PositionOf(trimmed, end), section);
  }

  lemma AppendedTwice(existing: string, begin: string, end: string, section: seq<string>, foreign: string -> bool)
    requires section != [] && section[0] != [] && AllUnbroken(section)
    requires Edit(existing, begin, end, section, foreign).Ok? && Count(TrimAll(Lines(existing)), begin) == 0
    ensures var t := Edit(existing, begin, end, section, foreign).value; Normalized(t) == t <==> Steady(existing)
  {
    AppendedIsUniformIff(existing, section);
  }

  lemma SectionUnbroken(begin: string, end: string, body: seq<string>, foreign: string -> bool)
    requires Proper(begin, end, body, foreign)
    ensures AllUnbroken(Section(begin, body, end))
  {}

  /** Repeating an edit gives the same bytes exactly when the first one replaced a section or the text's
      line breaks were of one kind. */
  lemma EditTwiceSameBytesIff(existing: string, begin: string, end: string, body: seq<string>, foreign: string -> bool)
    requires Proper(begin, end, body, foreign)
    requires Edit(existing, begin, end, Section(begin, body, end), foreign).Ok?
    ensures var section := Section(begin, body, end);
            var t := Edit(existing, begin, end, section, foreign).value;
            Edit(t, begin, end, section, foreign) == Ok(t) <==>
              Count(TrimAll(Lines(existing)), begin) > 0 || Steady(existing)
  {
    EditTwice(existing, begin, end, body, foreign);
    if Count(TrimAll(Lines(existing)), begin) > 0 {
      SectionClean(begin, end, body, foreign, Newline(existing));
      ReplacedTwice(existing, begin, end, Section(begin, body, end), foreign);
    } else {
      SectionUnbroken(begin, end, body, foreign);
      AppendedTwice(existing, begin, end, Section(begin, body, end), foreign);
    }
  }

  /** From the second write on, the bytes stay. */
  lemma EditThriceSameBytes(existing: string, begin: string, end: string, body: seq<string>, foreign: string -> bool)
    requires Proper(begin, end, body, foreign)
    requires Edit(existing, begin, end, Section(begin, body, end), foreign).Ok?
    ensures var section := Section(begin, body, end);
            var t := Edit(existing, begin, end, section, foreign).value;
            && Edit(t, begin, end, section, foreign).Ok?
            && var u := Edit(t, begin, end, section, foreign).value;
               Edit(u, begin, end, section, foreign) == Ok(u)
  {
    var t := Edit(existing, begin, end, Section(begin, body, end), foreign).value;
    EditTwice(existing, begin, end, body, foreign);
    var x, y := EditShape(existing, begin, end, body, foreign);
    HoldsCounts(TrimAll(Lines(t)), begin, end, TrimAll(x), TrimAll(body), TrimAll(y));
    EditTwiceSameBytesIff(t, begin, end, body, foreign);
  }
}
