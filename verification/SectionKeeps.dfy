/** When replacing a section leaves every byte outside it alone. */
module SectionKeeps {
  import opened Common
  import opened Text
  import opened ManagedSection
  import opened SectionTheorems
  import opened SectionEdits
  import opened SectionBytes
  import opened SectionOthers

  ghost predicate Terminated(s: string) {
    s == [] || EndsWith(s, '\n')
  }

  /** Terminated text and what follows it have their line breaks apart. */
  lemma {:induction false} UniformConcat(a: string, b: string, nl: string)
    requires Terminated(a) && IsNewline(nl)
    ensures Uniform(a + b, nl) <==> Uniform(a, nl) && Uniform(b, nl)
    decreases |a|
  {
    if a == [] {
      assert a + b == b;
    } else {
      var first, rest := FirstLine(a);
      Regroup(first, "\n", rest, b);
      UniformFirst(first, rest, nl);
      UniformFirst(first, rest + b, nl);
      UniformConcat(rest, b, nl);
    }
  }

  lemma EmptyLines(s: string)
    ensures Lines(s) == [] <==> s == []
  {}

  lemma CutAfter<T>(x: T, s: seq<T>, n: nat)
    requires 0 < n <= |s| + 1
    ensures ([x] + s)[..n] == [x] + s[..n - 1] && ([x] + s)[n..] == s[n - 1..]
  {}

  /** The text of the first n lines and the text of the others. */
  lemma {:induction false} CutLines(s: string, n: nat) returns (a: string, b: string)
    requires n <= |Lines(s)|
    ensures s == a + b && Lines(a) == Lines(s)[..n] && Lines(b) == Lines(s)[n..]
    ensures n < |Lines(s)| ==> Terminated(a)
    decreases |s|
  {
    if n == 0 {
      a, b := [], s;
      assert [] + s == s && Lines(s)[..0] == [] && Lines(s)[0..] == Lines(s);
    } else if '\n' in s {
      var first, rest := FirstBreak(s);
      LinesFirst(first, rest);
      var c;
      c, b := CutLines(rest, n - 1);
      a := first + "\n" + c;
      Regroup(first, "\n", c, b);
      LinesFirst(first, c);
      LastOfRest(first, c);
      CutAfter(StripCr(first), Lines(rest), n);
    } else {
      UnbrokenLines(s);
      a, b := s, [];
      assert s + [] == s && Lines(s)[..n] == Lines(s) && Lines(s)[n..] == [];
    }
  }

  /** The section as text; a file that ended inside it without a newline ends so again. */
  function SectionText(section: seq<string>, nl: string, terminated: bool): string {
    Join(section, nl) + (if terminated then nl else "")
  }

  lemma SectionTextLines(section: seq<string>, nl: string, terminated: bool)
    requires IsNewline(nl) && |section| >= 2 && AllUnbroken(section) && section[|section| - 1] != []
    ensures var s := SectionText(section, nl, terminated);
            s != [] && Lines(s) == section && (EndsWith(s, '\n') <==> terminated) && Uniform(s, nl)
  {
    var s := SectionText(section, nl, terminated);
    UnbrokenIsClean(section, nl);
    LinesOfJoin(section, nl, terminated);
    JoinBroken(section, nl, terminated);
    RejoinedIff(s, nl);
  }

  lemma UnbrokenIsClean(section: seq<string>, nl: string)
    requires AllUnbroken(section) && section != []
    ensures AllClean(section, nl) && AllClean(section[..|section| - 1], nl) && '\n' !in section[|section| - 1]
  {
    forall i | 0 <= i < |section| ensures Clean(section[i], nl) {
      var line := section[i];
      assert forall k :: 0 <= k < |line| ==> line[k] in line;
    }
  }

  lemma TwoParts(a: string, b: string)
    requires Terminated(a)
    ensures Lines(a + b) == Lines(a) + Lines(b)
    ensures EndsWith(a + b, '\n') <==> if b == [] then a != [] else EndsWith(b, '\n')
  {
    LinesConcat(a, b);
  }

  lemma LastParts(a: string, b: string)
    requires a != [] && (b != [] ==> Terminated(a))
    ensures a + b != [] && Lines(a + b) == Lines(a) + Lines(b)
    ensures EndsWith(a + b, '\n') <==> if b == [] then EndsWith(a, '\n') else EndsWith(b, '\n')
  {
    if b == [] {
      Unit(a);
      Unit(Lines(a));
    } else {
      TwoParts(a, b);
    }
  }

  /** The lines and the ending of a text in three parts. */
  lemma ThreeParts(p: string, s: string, q: string)
    requires Terminated(p) && s != [] && (q != [] ==> Terminated(s))
    ensures Lines(p + (s + q)) == Lines(p) + (Lines(s) + Lines(q))
    ensures EndsWith(p + (s + q), '\n') <==> if q == [] then EndsWith(s, '\n') else EndsWith(q, '\n')
  {
    LastParts(s, q);
    TwoParts(p, s + q);
  }

  lemma UniformParts(p: string, s: string, q: string, nl: string)
    requires Terminated(p) && (q != [] ==> Terminated(s)) && IsNewline(nl)
    ensures Uniform(p + (s + q), nl) <==> Uniform(p, nl) && Uniform(s, nl) && Uniform(q, nl)
  {
    UniformConcat(p, s + q, nl);
    if q == [] {
      Unit(s);
    } else {
      UniformConcat(s, q, nl);
    }
  }

  lemma RebuiltParts(x: seq<string>, m: seq<string>, y: seq<string>, section: seq<string>, nl: string, terminated: bool)
    requires m != []
    ensures Rebuilt(x + (m + y), |x|, |x| + |m| - 1, section, nl, terminated)
        == Join(x + (section + y), nl) + (if terminated then nl else "")
  {
    SectionCut(x, m, y);
    Reassociate(x, section, y);
  }

  /** Replacing lines in the middle of a text, against a text with those lines in their place. */
  lemma RebuiltIs(
      lines: seq<string>, x: seq<string>, m: seq<string>, y: seq<string>, start: nat, rest: nat, section: seq<string>,
      nl: string, terminated: bool, w: string)
    requires lines == x + (m + y) && start == |x| && rest == |x| + |m| && start < rest
    requires Lines(w) == x + (section + y) && (EndsWith(w, '\n') <==> terminated)
    ensures rest <= |lines| && Rebuilt(lines, start, rest - 1, section, nl, terminated) == Rejoined(w, nl)
  {
    RebuiltParts(x, m, y, section, nl, terminated);
  }

  /** A file cut into the text before its section, the section and the text after it. */
  lemma CutAtSection(existing: string, start: nat, rest: nat) returns (p: string, inside: string, q: string)
    requires start < rest <= |Lines(existing)|
    ensures existing == p + (inside + q) && Terminated(p) && inside != [] && (q != [] ==> Terminated(inside))
    ensures Lines(p) == Lines(existing)[..start] && Lines(inside) == Lines(existing)[start..rest]
    ensures Lines(q) == Lines(existing)[rest..]
  {
    var b;
    p, b := CutLines(existing, start);
    inside, q := CutLines(b, rest - start);
    EmptyLines(inside);
    EmptyLines(q);
    LaterSlice(Lines(existing), start, rest);
  }

  lemma LaterSlice<T>(s: seq<T>, i: nat, j: nat)
    requires i <= j <= |s|
    ensures s[i..][..j - i] == s[i..j] && s[i..][j - i..] == s[j..]
  {}

  lemma InOrder(trimmed: seq<string>, begin: string, end: string)
    requires Count(trimmed, begin) == 1 && Count(trimmed, end) == 1 && begin != end
    requires PositionOf(trimmed, begin) <= PositionOf(trimmed, end)
    ensures PositionOf(trimmed, begin) < PositionOf(trimmed, end) < |trimmed|
  {
    MarkersCut(trimmed, begin, end);
  }

  /** Where an edit replaces. */
  lemma EditRebuilds(
      existing: string, begin: string, end: string, section: seq<string>, foreign: string -> bool)
    returns (start: nat, rest: nat)
    requires begin != end && Count(TrimAll(Lines(existing)), begin) > 0
    requires Edit(existing, begin, end, section, foreign).Ok?
    ensures start < rest - 1 < |Lines(existing)|
    ensures start == PositionOf(TrimAll(Lines(existing)), begin)
    ensures rest == PositionOf(TrimAll(Lines(existing)), end) + 1
    ensures Edit(existing, begin, end, section, foreign).value
              == Rebuilt(Lines(existing), start, rest - 1, section, Newline(existing), EndsWith(existing, '\n'))
  {
    var trimmed := TrimAll(Lines(existing));
    EditReplaces(existing, begin, end, section, foreign);
    InOrder(trimmed, begin, end);
    start, rest := PositionOf(trimmed, begin), PositionOf(trimmed, end) + 1;
  }

  lemma TrimmedPart(lines: seq<string>, start: nat, rest: nat, part: seq<string>) returns (m: seq<string>)
    requires start <= rest <= |lines| && part == lines[start..rest]
    ensures m == TrimAll(part) && m == TrimAll(lines)[start..rest]
  {
    TrimSlice(lines, start, rest);
    m := TrimAll(part);
  }

  lemma KeepsBytesAt(
      existing: string, start: nat, rest: nat, s: string, section: seq<string>, nl: string)
    returns (p: string, inside: string, q: string)
    requires start < rest <= |Lines(existing)| && s != [] && IsNewline(nl) && Uniform(s, nl) && Lines(s) == section
    requires EndsWith(s, '\n') <==> rest < |Lines(existing)| || EndsWith(existing, '\n')
    ensures existing == p + (inside + q) && Terminated(p) && (q != [] ==> Terminated(inside))
    ensures Lines(p) == Lines(existing)[..start] && Lines(inside) == Lines(existing)[start..rest]
    ensures Lines(q) == Lines(existing)[rest..]
    ensures (Rebuilt(Lines(existing), start, rest - 1, section, nl, EndsWith(existing, '\n')) == p + (s + q))
            <==> Uniform(p, nl) && Uniform(q, nl)
  {
    p, inside, q := CutAtSection(existing, start, rest);
    var x, m, y := Lines(p), Lines(inside), Lines(q);
    CutEndings(existing, p, inside, q, s);
    var w := p + (s + q);
    RebuiltIs(Lines(existing), x, m, y, start, rest, section, nl, EndsWith(existing, '\n'), w);
    SameBytes(w, p, s, q, nl);
  }

  lemma SameBytes(w: string, p: string, s: string, q: string, nl: string)
    requires w == p + (s + q) && Terminated(p) && (q != [] ==> Terminated(s)) && IsNewline(nl) && Uniform(s, nl)
    ensures Rejoined(w, nl) == w <==> Uniform(p, nl) && Uniform(q, nl)
  {
    UniformParts(p, s, q, nl);
    RejoinedIff(w, nl);
  }

  lemma CutEndings(existing: string, p: string, inside: string, q: string, s: string)
    requires existing == p + (inside + q) && Terminated(p) && inside != [] && s != []
    requires q != [] ==> Terminated(inside)
    requires EndsWith(s, '\n') <==> Lines(q) != [] || EndsWith(existing, '\n')
    ensures q != [] ==> Terminated(s)
    ensures Lines(existing) == Lines(p) + (Lines(inside) + Lines(q))
    ensures Lines(p + (s + q)) == Lines(p) + (Lines(s) + Lines(q))
    ensures EndsWith(p + (s + q), '\n') <==> EndsWith(existing, '\n')
  {
    EmptyLines(q);
    ThreeParts(p, inside, q);
    ThreeParts(p, s, q);
  }

  /** A replacement cuts the file at line ends around its section and puts the section's text in between; it
      keeps every byte outside exactly when the line breaks there are all of the file's own kind. */
  lemma EditKeepsBytesIff(existing: string, begin: string, end: string, section: seq<string>, foreign: string -> bool)
    returns (p: string, inside: string, q: string, s: string)
    requires |section| >= 2 && AllUnbroken(section) && section[|section| - 1] != [] && begin != end
    requires Count(TrimAll(Lines(existing)), begin) > 0 && Edit(existing, begin, end, section, foreign).Ok?
    ensures existing == p + (inside + q) && TrimAll(Lines(inside)) == Inside(existing, begin, end)
    ensures Terminated(p) && (q != [] ==> Terminated(inside))
    ensures s == SectionText(section, Newline(existing), q != [] || EndsWith(existing, '\n'))
    ensures Lines(s) == section && Uniform(s, Newline(existing))
    ensures (Edit(existing, begin, end, section, foreign).value == p + (s + q))
        <==> Uniform(p, Newline(existing)) && Uniform(q, Newline(existing))
  {
    var start, rest := EditRebuilds(existing, begin, end, section, foreign);
    var terminated := rest < |Lines(existing)| || EndsWith(existing, '\n');
    s := SectionText(section, Newline(existing), terminated);
    SectionTextLines(section, Newline(existing), terminated);
    p, inside, q := KeepsBytesAt(existing, start, rest, s, section, Newline(existing));
    EmptyLines(q);
    var m := TrimmedPart(Lines(existing), start, rest, Lines(inside));
    BetweenIs(TrimAll(Lines(existing)), begin, end, start, rest, m);
  }

  // ---- There is only one such cut ----

  /** Two beginnings of a text that end at line ends and have as many lines are the same. */
  lemma SameLinesSamePrefix(a: string, b: string, c: string, d: string)
    requires a + b == c + d && (b != [] ==> Terminated(a)) && |Lines(a)| == |Lines(c)| && |a| <= |c|
    ensures a == c && b == d
  {
    var x := Overlap(a, b, c, d);
    if x != [] {
      LinesConcat(a, x);
      EmptyLines(x);
    }
    Unit(a);
  }

  /** The longer beginning goes on with the start of what follows the shorter. */
  lemma Overlap(a: string, b: string, c: string, d: string) returns (x: string)
    requires a + b == c + d && |a| <= |c|
    ensures c == a + x && b == x + d
  {
    x := c[|a|..];
    CutConcat(a, b);
    assert (c + d)[..|a|] == c[..|a|] && (c + d)[|a|..] == x + d;
  }

  lemma SameCut(a: string, b: string, c: string, d: string)
    requires a + b == c + d && |Lines(a)| == |Lines(c)|
    requires (b != [] ==> Terminated(a)) && (d != [] ==> Terminated(c))
    ensures a == c && b == d
  {
    if |a| <= |c| {
      SameLinesSamePrefix(a, b, c, d);
    } else {
      SameLinesSamePrefix(c, d, a, b);
    }
  }

  /** A cut of the file at line ends around its section. */
  ghost predicate CutsAround(existing: string, begin: string, end: string, p: string, inside: string, q: string) {
    && existing == p + (inside + q) && Terminated(p) && (q != [] ==> Terminated(inside))
    && inside != [] && TrimAll(Lines(inside)) == Inside(existing, begin, end)
  }

  /** The part before the section has as many lines as come before its marker. */
  lemma LinesBefore(existing: string, begin: string, end: string, p: string, inside: string, q: string)
    requires CutsAround(existing, begin, end, p, inside, q) && Count(TrimAll(Lines(existing)), begin) == 1
    ensures |Lines(p)| == PositionOf(TrimAll(Lines(existing)), begin)
  {
    ThreeParts(p, inside, q);
    EmptyLines(inside);
    NewNeighbours(Lines(p), Lines(inside), Lines(q));
    FirstInside(TrimAll(Lines(existing)), begin, end, TrimAll(Lines(p)), TrimAll(Lines(inside)), TrimAll(Lines(q)));
  }

  lemma FirstInside(
      trimmed: seq<string>, begin: string, end: string, a: seq<string>, m: seq<string>, c: seq<string>)
    requires trimmed == a + (m + c) && m != [] && m == Between(trimmed, begin, end) && Count(trimmed, begin) == 1
    ensures |a| == PositionOf(trimmed, begin)
  {
    OnceOnly(trimmed, begin);
    assert trimmed[|a|] == m[0] == begin;
  }

  /** All cuts around a section are the same, so the theorem above speaks of the one there is. */
  lemma CutIsUnique(
      existing: string, begin: string, end: string, p: string, inside: string, q: string,
      p': string, inside': string, q': string)
    requires Count(TrimAll(Lines(existing)), begin) == 1
    requires CutsAround(existing, begin, end, p, inside, q) && CutsAround(existing, begin, end, p', inside', q')
    ensures p == p' && inside == inside' && q == q'
  {
    LinesBefore(existing, begin, end, p, inside, q);
    LinesBefore(existing, begin, end, p', inside', q');
    SameCut(p, inside + q, p', inside' + q');
    SameCut(inside, q, inside', q');
  }
}
