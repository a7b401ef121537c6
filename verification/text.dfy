/** The handful of Python `str` operations the booklet script relies on:
    `strip()`, `split(sep)`, `sep.join(...)`, `startswith` and `readlines()`. */
module Text {

  /** The ASCII characters for which Python's `str.isspace()` holds:
      space, tab, line feed, vertical tab, form feed, carriage return and
      the four information separators U+001C..U+001F. */
  predicate IsSpace(c: char) {
    c == ' ' || ('\t' <= c <= '\r') || ('\U{1C}' <= c <= '\U{1F}')
  }

  predicate AllSpace(s: string) {
    forall i :: 0 <= i < |s| ==> IsSpace(s[i])
  }

  /** No whitespace at either end: the shape of anything `strip()` returns. */
  predicate Trimmed(s: string) {
    |s| == 0 || (!IsSpace(s[0]) && !IsSpace(s[|s| - 1]))
  }

  // ---------------------------------------------------------------- strip

  /** Length of the longest all-whitespace prefix. */
  function LeadingSpace(s: string): (n: nat)
    ensures n <= |s|
    ensures AllSpace(s[..n])
    ensures n < |s| ==> !IsSpace(s[n])
  {
    if |s| > 0 && IsSpace(s[0]) then
      var m := LeadingSpace(s[1..]);
      assert forall i :: 1 <= i < 1 + m ==> s[i] == s[1..][..m][i - 1];
      1 + m
    else 0
  }

  /** Start of the longest all-whitespace suffix. */
  function TrailingSpace(s: string): (n: nat)
    ensures n <= |s|
    ensures AllSpace(s[n..])
    ensures 0 < n ==> !IsSpace(s[n - 1])
  {
    if |s| > 0 && IsSpace(s[|s| - 1]) then
      var m := TrailingSpace(s[..|s| - 1]);
      assert forall i :: m <= i < |s| - 1 ==> s[i] == s[..|s| - 1][m..][i - m];
      m
    else |s|
  }

  /** Python's `s.strip()`. */
  function Strip(s: string): (r: string)
    ensures Trimmed(r)
    ensures |r| <= |s|
    ensures r == [] <==> AllSpace(s)
  {
    var a := LeadingSpace(s);
    var rest := s[a..];
    var b := TrailingSpace(rest);
    assert AllSpace(s) ==> AllSpace(rest);
    assert b == 0 ==> AllSpace(s) by {
      if a < |s| {
        assert rest[0] == s[a];
      } else {
        assert s[..a] == s;
      }
    }
    rest[..b]
  }

  /** `Strip` removes exactly a whitespace prefix and a whitespace suffix. */
  lemma StripShape(s: string)
    ensures exists a: nat, b: nat :: a <= b <= |s| && Strip(s) == s[a..b]
                                     && AllSpace(s[..a]) && AllSpace(s[b..])
  {
    var a := LeadingSpace(s);
    var rest := s[a..];
    var b := TrailingSpace(rest);
    assert Strip(s) == s[a..a + b];
    assert forall i :: a + b <= i < |s| ==> s[i] == rest[b..][i - a - b];
    assert AllSpace(s[a + b..]);
  }

  /** Already-trimmed text is left alone. */
  lemma StripTrimmed(s: string)
    requires Trimmed(s)
    ensures Strip(s) == s
  {
    if |s| > 0 {
      assert LeadingSpace(s) == 0;
      assert s[0..] == s;
      assert TrailingSpace(s) == |s|;
    }
  }

  /** One space in front of trimmed text is removed again. */
  lemma StripLeadingBlank(s: string)
    requires Trimmed(s)
    ensures Strip([' '] + s) == s
  {
    var t := [' '] + s;
    if |s| == 0 {
      assert AllSpace(t);
    } else {
      assert t[1..] == s;
      assert LeadingSpace(s) == 0;
      assert LeadingSpace(t) == 1;
      assert TrailingSpace(s) == |s|;
    }
  }

  lemma StripIdempotent(s: string)
    ensures Strip(Strip(s)) == Strip(s)
  {
    StripTrimmed(Strip(s));
  }

  // ---------------------------------------------------------------- split / join

  /** Number of occurrences of `c` in `s`. */
  function Occurrences(s: string, c: char): (n: nat)
    ensures n > 0 <==> c in s
  {
    if s == [] then 0
    else
      assert s == [s[0]] + s[1..];
      (if s[0] == c then 1 else 0) + Occurrences(s[1..], c)
  }

  /** Occurrences add up over a concatenation. */
  lemma {:induction false} OccurrencesAppend(a: string, b: string, c: char)
    ensures Occurrences(a + b, c) == Occurrences(a, c) + Occurrences(b, c)
  {
    if a != [] {
      assert (a + b)[1..] == a[1..] + b;
      OccurrencesAppend(a[1..], b, c);
    } else {
      assert a + b == b;
    }
  }

  /** Python's `s.split(c)` with an explicit one-character separator: the
      pieces between the separators, an empty piece wherever two separators
      touch or the text starts or ends with one, and `[""]` for `""`. */
  function Split(s: string, c: char): (parts: seq<string>)
    ensures |parts| == Occurrences(s, c) + 1
    ensures forall i :: 0 <= i < |parts| ==> c !in parts[i]
  {
    if s == [] then [[]]
    else
      assert s == [s[0]] + s[1..];
      var rest := Split(s[1..], c);
      if s[0] == c then [[]] + rest else [[s[0]] + rest[0]] + rest[1..]
  }

  /** Python's `sep.join(parts)`. */
  function Join(parts: seq<string>, sep: string): string {
    if |parts| == 0 then []
    else if |parts| == 1 then parts[0]
    else parts[0] + sep + Join(parts[1..], sep)
  }

  /** Joining the pieces with the separator gives the text back. */
  lemma {:induction false} JoinSplit(s: string, c: char)
    ensures Join(Split(s, c), [c]) == s
  {
    if s != [] {
      JoinSplit(s[1..], c);
      if s[0] == c {
        JoinSplitSeparator(s, c);
      } else {
        JoinSplitOther(s, c);
      }
    }
  }

  /** The step of `JoinSplit` for text that starts with the separator. */
  lemma JoinSplitSeparator(s: string, c: char)
    requires s != [] && s[0] == c
    requires Join(Split(s[1..], c), [c]) == s[1..]
    ensures Join(Split(s, c), [c]) == s
  {
    var parts := Split(s, c);
    assert parts == [[]] + Split(s[1..], c);
    JoinEmptyFront(Split(s[1..], c), [c]);
    assert s == [c] + s[1..];
  }

  /** The step of `JoinSplit` for text that starts with another character. */
  lemma JoinSplitOther(s: string, c: char)
    requires s != [] && s[0] != c
    requires Join(Split(s[1..], c), [c]) == s[1..]
    ensures Join(Split(s, c), [c]) == s
  {
    var rest := Split(s[1..], c);
    var parts := Split(s, c);
    assert parts == [[s[0]] + rest[0]] + rest[1..];
    JoinGlue([s[0]], rest, [c]);
    assert s == [s[0]] + s[1..];
  }

  /** An empty first piece leaves only its separator. */
  lemma JoinEmptyFront(parts: seq<string>, sep: string)
    requires |parts| >= 1
    ensures Join([[]] + parts, sep) == sep + Join(parts, sep)
  {
    assert ([[]] + parts)[1..] == parts;
  }

  /** Gluing text to the first piece glues it to the front of the join. */
  lemma JoinGlue(p: string, parts: seq<string>, sep: string)
    requires |parts| >= 1
    ensures Join([p + parts[0]] + parts[1..], sep) == p + Join(parts, sep)
  {
    var glued := [p + parts[0]] + parts[1..];
    if |parts| > 1 {
      assert glued[1..] == parts[1..];
      assert Join(glued, sep) == (p + parts[0]) + sep + Join(parts[1..], sep);
      assert Join(parts, sep) == parts[0] + sep + Join(parts[1..], sep);
    }
  }

  /** Splitting text free of the separator yields the text as the only piece. */
  lemma {:induction false} SplitFree(s: string, c: char)
    requires c !in s
    ensures Split(s, c) == [s]
  {
    if s != [] {
      SplitFree(s[1..], c);
      assert s[0] != c;
      assert [s[0]] + s[1..] == s;
    }
  }

  /** A separator-free prefix followed by a separator becomes the first piece. */
  lemma {:induction false} SplitAfter(a: string, c: char, b: string)
    requires c !in a
    ensures Split(a + [c] + b, c) == [a] + Split(b, c)
  {
    if a == [] {
      SplitLeadingSeparator(c, b);
      assert a + [c] + b == [c] + b;
    } else {
      var s := a + [c] + b;
      assert s[0] == a[0] && a[0] != c;
      assert s[1..] == a[1..] + [c] + b;
      SplitAfter(a[1..], c, b);
      ConsFront(a[0], Split(s[1..], c), a[1..], Split(b, c));
      assert [a[0]] + a[1..] == a;
    }
  }

  lemma SplitLeadingSeparator(c: char, b: string)
    ensures Split([c] + b, c) == [[]] + Split(b, c)
  {
    assert ([c] + b)[1..] == b;
  }

  /** One more character in front of a known first piece. */
  lemma ConsFront(x: char, rest: seq<string>, p: string, parts: seq<string>)
    requires rest == [p] + parts
    ensures [[x] + rest[0]] + rest[1..] == [[x] + p] + parts
  {
    assert rest[0] == p && rest[1..] == parts;
  }

  /** A separator-free prefix is glued to the first piece. */
  lemma {:induction false} SplitPrefix(p: string, c: char, b: string)
    requires c !in p
    ensures Split(p + b, c) == [p + Split(b, c)[0]] + Split(b, c)[1..]
  {
    var parts := Split(b, c);
    if p != [] {
      SplitPrefix(p[1..], c, b);
      assert (p + b)[0] == p[0] && p[0] != c;
      assert (p + b)[1..] == p[1..] + b;
      GlueFront(p[0], Split(p[1..] + b, c), p[1..], parts);
      assert [p[0]] + p[1..] == p;
    } else {
      assert p + b == b;
      assert p + parts[0] == parts[0];
      assert parts == [parts[0]] + parts[1..];
    }
  }

  /** One more character glued to the front of the first piece. */
  lemma GlueFront(x: char, rest: seq<string>, p: string, parts: seq<string>)
    requires |parts| >= 1 && rest == [p + parts[0]] + parts[1..]
    ensures [[x] + rest[0]] + rest[1..] == [([x] + p) + parts[0]] + parts[1..]
  {
    assert rest[0] == p + parts[0] && rest[1..] == parts[1..];
    assert [x] + (p + parts[0]) == ([x] + p) + parts[0];
  }

  /** Splitting a join recovers the pieces when none contains the separator. */
  lemma {:induction false} SplitJoin(parts: seq<string>, c: char)
    requires |parts| >= 1
    requires forall i :: 0 <= i < |parts| ==> c !in parts[i]
    ensures Split(Join(parts, [c]), c) == parts
  {
    if |parts| == 1 {
      SplitFree(parts[0], c);
    } else {
      SplitJoin(parts[1..], c);
      SplitAfter(parts[0], c, Join(parts[1..], [c]));
    }
  }

  /** The position of the first `c` in `s`, or `|s|` if there is none. */
  function FirstIndex(s: string, c: char): (i: nat)
    ensures i <= |s|
    ensures c !in s[..i]
    ensures i < |s| ==> s[i] == c
    ensures i == |s| <==> c !in s
  {
    if s == [] || s[0] == c then 0
    else
      var j := FirstIndex(s[1..], c);
      assert s[..1 + j] == [s[0]] + s[1..][..j];
      assert s == [s[0]] + s[1..];
      1 + j
  }

  /** Counting around one occurrence of `c`. */
  lemma OccurrencesAround(s: string, i: nat, c: char)
    requires i < |s| && s[i] == c
    ensures Occurrences(s, c) == Occurrences(s[..i], c) + 1 + Occurrences(s[i + 1..], c)
  {
    var after := [c] + s[i + 1..];
    assert s == s[..i] + after;
    OccurrencesAppend(s[..i], after, c);
    assert after[1..] == s[i + 1..];
  }

  /** Exactly one `c` means two pieces: the text before it and after it. */
  lemma SplitOnce(s: string, c: char)
    requires Occurrences(s, c) == 1
    ensures FirstIndex(s, c) < |s|
    ensures Split(s, c) == [s[..FirstIndex(s, c)], s[FirstIndex(s, c) + 1..]]
  {
    var i := FirstIndex(s, c);
    OccurrencesAround(s, i, c);
    SplitTwo(s[..i], c, s[i + 1..]);
    Around(s, i);
  }

  lemma SplitTwo(a: string, c: char, b: string)
    requires c !in a && c !in b
    ensures Split(a + [c] + b, c) == [a, b]
  {
    SplitAfter(a, c, b);
    SplitFree(b, c);
  }

  lemma Around(s: string, i: nat)
    requires i < |s|
    ensures s[..i] + [s[i]] + s[i + 1..] == s
  {
  }

  predicate StartsWith(s: string, prefix: string) {
    |prefix| <= |s| && s[..|prefix|] == prefix
  }

  // ---------------------------------------------------------------- readlines

  /** Concatenation of a list of strings (`"".join(lines)`). */
  function Concat(lines: seq<string>): string {
    if lines == [] then [] else lines[0] + Concat(lines[1..])
  }

  /** Index just past the first line feed of `s`, or `|s|` if there is none. */
  function LineEnd(s: string): (k: nat)
    requires |s| > 0
    ensures 1 <= k <= |s|
    ensures '\n' !in s[..k - 1]
    ensures k < |s| ==> s[k - 1] == '\n'
  {
    if s[0] == '\n' || |s| == 1 then 1
    else
      var k := LineEnd(s[1..]);
      assert s[..k] == [s[0]] + s[1..][..k - 1];
      1 + k
  }

  /** A line as `readlines()` yields it: non-empty, with a line feed at most
      as its last character. */
  predicate IsLine(l: string) {
    |l| > 0 && '\n' !in l[..|l| - 1]
  }

  /** Python's `fp.readlines()` on text already read with universal newlines:
      every line keeps its terminating line feed, the last line may lack one,
      and empty text has no lines at all. */
  function ReadLines(s: string): (lines: seq<string>)
    ensures Concat(lines) == s
    ensures forall i :: 0 <= i < |lines| ==> IsLine(lines[i])
    ensures forall i :: 0 <= i < |lines| - 1 ==> |lines[i]| > 0 && lines[i][|lines[i]| - 1] == '\n'
    ensures |lines| == 0 <==> s == []
    decreases |s|
  {
    if s == [] then []
    else
      var k := LineEnd(s);
      var rest := ReadLines(s[k..]);
      assert s == s[..k] + s[k..];
      assert ([s[..k]] + rest)[1..] == rest;
      [s[..k]] + rest
  }
}
