/** Character classes and string operations of the Rust standard library that the models use. */
module Text {

  /** The Unicode White_Space property, as ranges. */
  const WHITESPACE: seq<(char, char)> := [
    ('\U{0009}', '\U{000D}'), ('\U{0020}', '\U{0020}'), ('\U{0085}', '\U{0085}'), ('\U{00A0}', '\U{00A0}'),
    ('\U{1680}', '\U{1680}'), ('\U{2000}', '\U{200A}'), ('\U{2028}', '\U{2029}'), ('\U{202F}', '\U{202F}'),
    ('\U{205F}', '\U{205F}'), ('\U{3000}', '\U{3000}')]

  predicate InRanges(c: char, ranges: seq<(char, char)>, k: nat)
    requires k <= |ranges|
    decreases |ranges| - k
  {
    k < |ranges| && (ranges[k].0 <= c <= ranges[k].1 || InRanges(c, ranges, k + 1))
  }

  /** `char::is_whitespace` */
  predicate IsWhitespace(c: char) {
    InRanges(c, WHITESPACE, 0)
  }

  lemma {:induction false} NotBelowRanges(c: char, ranges: seq<(char, char)>, k: nat)
    requires k <= |ranges| && forall i :: k <= i < |ranges| ==> c < ranges[i].0
    ensures !InRanges(c, ranges, k)
    decreases |ranges| - k
  {
    if k < |ranges| {
      NotBelowRanges(c, ranges, k + 1);
    }
  }

  lemma AsciiWhitespace(c: char)
    requires c < '\U{0080}'
    ensures IsWhitespace(c) <==> '\U{0009}' <= c <= '\U{000D}' || c == ' '
  {
    NotBelowRanges(c, WHITESPACE, 2);
    assert InRanges(c, WHITESPACE, 1) <==> c == ' ';
  }

  predicate IsAsciiAlphanumeric(c: char) {
    '0' <= c <= '9' || 'A' <= c <= 'Z' || 'a' <= c <= 'z'
  }

  /** `str::trim_start` */
  function TrimStart(s: string): (r: string)
    ensures |r| <= |s|
    ensures forall i :: 0 <= i < |s| - |r| ==> IsWhitespace(s[i])
    ensures r != [] ==> !IsWhitespace(r[0])
  {
    if s != [] && IsWhitespace(s[0]) then TrimStart(s[1..]) else s
  }

  lemma {:induction false} TrimStartIsSuffix(s: string)
    ensures TrimStart(s) == s[|s| - |TrimStart(s)|..]
  {
    if s != [] && IsWhitespace(s[0]) {
      TrimStartIsSuffix(s[1..]);
    }
  }

  /** `str::trim_end` */
  function TrimEnd(s: string): (r: string)
    ensures |r| <= |s| && (r != [] ==> r[0] == s[0])
    ensures forall i :: |r| <= i < |s| ==> IsWhitespace(s[i])
    ensures r != [] ==> !IsWhitespace(r[|r| - 1])
  {
    if s != [] && IsWhitespace(s[|s| - 1]) then TrimEnd(s[..|s| - 1]) else s
  }

  lemma {:induction false} TrimEndIsPrefix(s: string)
    ensures TrimEnd(s) == s[..|TrimEnd(s)|]
  {
    if s != [] && IsWhitespace(s[|s| - 1]) {
      TrimEndIsPrefix(s[..|s| - 1]);
    }
  }

  /** `str::trim` */
  function Trim(s: string): (r: string)
    ensures r != [] ==> !IsWhitespace(r[0]) && !IsWhitespace(r[|r| - 1])
  {
    TrimEnd(TrimStart(s))
  }

  /** `str.trim().is_empty()` */
  predicate IsBlank(s: string) {
    Trim(s) == []
  }

  ghost predicate AllWhitespace(s: string) {
    forall i :: 0 <= i < |s| ==> IsWhitespace(s[i])
  }

  /** Nothing to trim at either end. */
  ghost predicate Bare(s: string) {
    s != [] ==> !IsWhitespace(s[0]) && !IsWhitespace(s[|s| - 1])
  }

  lemma {:induction false} TrimStartSkips(a: string, s: string)
    requires AllWhitespace(a)
    ensures TrimStart(a + s) == TrimStart(s)
  {
    if a == [] {
      assert a + s == s;
    } else {
      assert (a + s)[1..] == a[1..] + s;
      TrimStartSkips(a[1..], s);
    }
  }

  lemma {:induction false} TrimEndSkips(s: string, b: string)
    requires AllWhitespace(b)
    ensures TrimEnd(s + b) == TrimEnd(s)
    decreases |b|
  {
    if b == [] {
      assert s + b == s;
    } else {
      assert (s + b)[..|s + b| - 1] == s + b[..|b| - 1];
      assert (s + b)[|s + b| - 1] == b[|b| - 1];
      TrimEndSkips(s, b[..|b| - 1]);
    }
  }

  /** Trimming removes exactly the whitespace around a bare middle. */
  lemma TrimIs(a: string, m: string, b: string)
    requires AllWhitespace(a) && Bare(m) && AllWhitespace(b)
    ensures Trim(a + m + b) == m
  {
    assert a + m + b == a + (m + b);
    TrimStartSkips(a, m + b);
    if m == [] {
      assert m + b == b;
      assert b == b + [];
      TrimStartSkips(b, []);
    } else {
      assert TrimStart(m + b) == m + b;
      TrimEndSkips(m, b);
    }
  }

  lemma Join3<T>(s: seq<T>, a: seq<T>, u: seq<T>, m: seq<T>, b: seq<T>)
    requires s == a + u && u == m + b
    ensures s == a + m + b
  {}

  lemma TrimStartParts(s: string) returns (a: string)
    ensures AllWhitespace(a) && s == a + TrimStart(s)
  {
    TrimStartIsSuffix(s);
    a := s[..|s| - |TrimStart(s)|];
  }

  lemma TrimEndParts(s: string) returns (b: string)
    ensures AllWhitespace(b) && s == TrimEnd(s) + b
  {
    TrimEndIsPrefix(s);
    b := s[|TrimEnd(s)|..];
  }

  /** Every string is a bare middle between two stretches of whitespace. */
  lemma TrimParts(s: string) returns (a: string, b: string)
    ensures AllWhitespace(a) && AllWhitespace(b) && Bare(Trim(s)) && s == a + Trim(s) + b
  {
    a := TrimStartParts(s);
    b := TrimEndParts(TrimStart(s));
    Join3(s, a, TrimStart(s), Trim(s), b);
  }

  lemma Around(a: string, c: string, m: string, d: string, b: string)
    ensures a + (c + m + d) + b == (a + c) + m + (d + b)
  {}

  /** Whitespace around a string does not change what trimming gives. */
  lemma TrimIgnores(a: string, s: string, b: string)
    requires AllWhitespace(a) && AllWhitespace(b)
    ensures Trim(a + s + b) == Trim(s)
  {
    var c, d := TrimParts(s);
    var m := Trim(s);
    Around(a, c, m, d, b);
    TrimIs(a + c, m, d + b);
  }

  // ---- Lines ----

  predicate EndsWith(s: string, c: char) {
    s != [] && s[|s| - 1] == c
  }

  /** Position of a character, or the length. */
  function Position(s: string, c: char): (i: nat)
    ensures i <= |s|
    ensures i < |s| ==> s[i] == c
    ensures forall j :: 0 <= j < i ==> s[j] != c
  {
    if s == [] || s[0] == c then 0 else 1 + Position(s[1..], c)
  }

  function StripCr(line: string): string {
    if EndsWith(line, '\r') then line[..|line| - 1] else line
  }

  /** `str::lines`: terminated by "\n" or "\r\n"; a last line without terminator keeps a bare "\r". */
  function Lines(s: string): seq<string>
    decreases |s|
  {
    if s == [] then []
    else
      var n := Position(s, '\n');
      if n == |s| then [s] else [StripCr(s[..n])] + Lines(s[n + 1..])
  }

  /** `str.contains("\r\n")` */
  predicate HasCrLf(s: string) {
    exists i :: 0 <= i < |s| - 1 && s[i] == '\r' && s[i + 1] == '\n'
  }

  predicate IsNewline(nl: string) {
    nl == "\n" || nl == "\r\n"
  }

  /** Every line followed by the newline. */
  function Unlines(lines: seq<string>, nl: string): string {
    if lines == [] then [] else lines[0] + nl + Unlines(lines[1..], nl)
  }

  /** `lines.join(nl)` */
  function Join(lines: seq<string>, nl: string): string {
    if lines == [] then []
    else if |lines| == 1 then lines[0]
    else lines[0] + nl + Join(lines[1..], nl)
  }

  lemma PositionAt(a: string, c: char, b: string)
    requires c !in a
    ensures Position(a + [c] + b, c) == |a|
  {
    var s := a + [c] + b;
    assert s[|a|] == c;
    assert forall j :: 0 <= j < |a| ==> s[j] == a[j] && a[j] in a;
  }

  lemma CutAt(s: string, n: nat)
    requires n < |s|
    ensures s == s[..n] + [s[n]] + s[n + 1..]
  {}

  lemma Regroup(a: string, m: string, b: string, c: string)
    ensures (a + m + b) + c == a + m + (b + c)
  {}

  /** A terminated line followed by anything. */
  lemma LinesFirst(a: string, b: string)
    requires '\n' !in a
    ensures Lines(a + "\n" + b) == [StripCr(a)] + Lines(b)
  {
    var s := a + "\n" + b;
    PositionAt(a, '\n', b);
    assert s[..|a|] == a && s[|a| + 1..] == b;
  }

  lemma HeadTail<T>(s: seq<T>)
    requires s != []
    ensures s == [s[0]] + s[1..]
  {}

  lemma FirstBreak(a: string) returns (first: string, rest: string)
    requires '\n' in a
    ensures a == first + "\n" + rest && '\n' !in first && |rest| < |a|
  {
    var n := Position(a, '\n');
    CutAt(a, n);
    first, rest := a[..n], a[n + 1..];
  }

  lemma UnbrokenLines(s: string)
    requires s != [] && '\n' !in s
    ensures Lines(s) == [s]
  {}

  lemma FirstLine(a: string) returns (first: string, rest: string)
    requires EndsWith(a, '\n')
    ensures a == first + "\n" + rest && '\n' !in first && |rest| < |a|
    ensures rest == [] || EndsWith(rest, '\n')
  {
    var n := Position(a, '\n');
    CutAt(a, n);
    first, rest := a[..n], a[n + 1..];
  }

  /** Terminated text and what follows it have their lines apart. */
  lemma {:induction false} LinesConcat(a: string, b: string)
    requires a == [] || EndsWith(a, '\n')
    ensures Lines(a + b) == Lines(a) + Lines(b)
    decreases |a|
  {
    if a == [] {
      assert a + b == b;
    } else {
      var first, rest := FirstLine(a);
      LinesConcat(rest, b);
      Regroup(first, "\n", rest, b);
      LinesFirst(first, rest + b);
      LinesFirst(first, rest);
      Join3(Lines(a + b), [StripCr(first)], Lines(rest + b), Lines(rest), Lines(b));
    }
  }
}
