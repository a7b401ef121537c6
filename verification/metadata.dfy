/** Parsing one metadata sidecar file: the trailing `key: value, ...` line
    and the optional negative-prompt line. */
module Metadata {
  import opened Outcomes
  import opened Text
  import opened OrderedDict

  /** The exceptions that abort the run while a file is read. */
  datatype Failure =
    | NoLines                              // `contents[-1]` on an empty file
    | BadSegment(segment: string, pieces: nat)  // `dict()` given a piece list whose length is not 2
    | MissingModelHash                     // `settings['Model hash']` raises KeyError
    | UnknownModelHash(hash: string)       // `model_hash_names[...]` raises KeyError
    | NoSecondLine                         // `contents[1]` on a one-line file
    | NegativeWithoutColon(line: string)   // `split(':', 1)[1]` on a marker line without a colon

  // ---------------------------------------------------------------- trailing line

  /** One comma-separated segment: split on every colon, each piece stripped;
      `dict()` accepts the piece list only when it has exactly two elements. */
  function ParseSegment(seg: string): (r: Result<(string, string), Failure>)
    ensures r.Ok? <==> Occurrences(seg, ':') == 1
    ensures r.Ok? ==> var i := FirstIndex(seg, ':');
                      r.value == (Strip(seg[..i]), Strip(seg[i + 1..]))
    ensures r.Err? ==> r.error == BadSegment(seg, Occurrences(seg, ':') + 1)
  {
    var pieces := Split(seg, ':');
    if |pieces| != 2 then Err(BadSegment(seg, |pieces|))
    else
      ColonPieces(seg);
      Ok((Strip(pieces[0]), Strip(pieces[1])))
  }

  /** The two pieces of a segment with one colon: before it and after it. */
  lemma ColonPieces(seg: string)
    requires Occurrences(seg, ':') == 1
    ensures FirstIndex(seg, ':') < |seg|
    ensures Split(seg, ':')[0] == seg[..FirstIndex(seg, ':')]
    ensures Split(seg, ':')[1] == seg[FirstIndex(seg, ':') + 1..]
  {
    SplitOnce(seg, ':');
  }

  /** The segments in order; the first malformed one aborts. */
  function ParseSegments(segs: seq<string>): (r: Result<seq<(string, string)>, Failure>)
    ensures r.Ok? <==> forall i :: 0 <= i < |segs| ==> Occurrences(segs[i], ':') == 1
    ensures r.Ok? ==> |r.value| == |segs|
    ensures r.Ok? ==> forall i :: 0 <= i < |segs| ==> ParseSegment(segs[i]) == Ok(r.value[i])
  {
    Traverse(segs, ParseSegment)
  }

  /** `segs[i]` is the first segment without exactly one colon. */
  predicate FirstBadSegment(segs: seq<string>, i: nat) {
    && i < |segs|
    && (forall j :: 0 <= j < i ==> Occurrences(segs[j], ':') == 1)
    && Occurrences(segs[i], ':') != 1
  }

  /** A failure names the first segment without exactly one colon, and the
      number of pieces its split produced. */
  lemma ParseSegmentsError(segs: seq<string>)
    requires ParseSegments(segs).Err?
    ensures exists i: nat :: FirstBadSegment(segs, i)
                             && ParseSegments(segs).error == BadSegment(segs[i], Occurrences(segs[i], ':') + 1)
  {
    TraverseError(segs, ParseSegment);
    var i: nat :| && i < |segs|
                  && (forall j :: 0 <= j < i ==> ParseSegment(segs[j]).Ok?)
                  && ParseSegment(segs[i]).Err?
                  && ParseSegments(segs).error == ParseSegment(segs[i]).error;
    FailingSegment(segs, i);
  }

  lemma FailingSegment(segs: seq<string>, i: nat)
    requires i < |segs| && ParseSegment(segs[i]).Err?
    requires forall j :: 0 <= j < i ==> ParseSegment(segs[j]).Ok?
    ensures FirstBadSegment(segs, i)
    ensures ParseSegment(segs[i]).error == BadSegment(segs[i], Occurrences(segs[i], ':') + 1)
  {
    forall j | 0 <= j < i
      ensures Occurrences(segs[j], ':') == 1
    {
      assert ParseSegment(segs[j]).Ok?;
    }
  }

  /** The segments of the trailing line. */
  function Segments(line: string): seq<string> {
    Split(Strip(line), ',')
  }

  /** The pairs of the trailing line, before they go into a dict. */
  function SettingsPairs(line: string): Result<seq<(string, string)>, Failure> {
    ParseSegments(Segments(line))
  }

  /** Line 41: the stripped trailing line is cut at every comma, each segment
      at every colon, each piece is stripped, and the two-piece lists are fed
      to `dict()` in order. */
  function ParseSettings(line: string): (r: Result<Dict<string>, Failure>)
    ensures r.Ok? <==> forall i :: 0 <= i < |Segments(line)| ==> Occurrences(Segments(line)[i], ':') == 1
    ensures r.Ok? ==> DistinctKeys(r.value)
    ensures r.Ok? ==> forall e :: e in r.value ==> Trimmed(e.0) && Trimmed(e.1)
  {
    match SettingsPairs(line)
    case Err(e) => Err(e)
    case Ok(ps) =>
      assert forall i :: 0 <= i < |ps| ==> Trimmed(ps[i].0) && Trimmed(ps[i].1) by {
        forall i | 0 <= i < |ps|
          ensures Trimmed(ps[i].0) && Trimmed(ps[i].1)
        {
          assert ParseSegment(Segments(line)[i]) == Ok(ps[i]);
        }
      }
      Ok(FromPairs(ps))
  }

  /** A malformed trailing line fails on its first malformed segment. */
  lemma ParseSettingsError(line: string)
    requires ParseSettings(line).Err?
    ensures exists i: nat :: FirstBadSegment(Segments(line), i)
                             && ParseSettings(line).error == BadSegment(Segments(line)[i], Occurrences(Segments(line)[i], ':') + 1)
  {
    ParseSegmentsError(Segments(line));
  }

  /** A repeated key maps to the value of its last occurrence, and keys keep
      the order of their first occurrence. */
  lemma ParseSettingsLastWins(line: string, k: string)
    requires SettingsPairs(line).Ok?
    ensures ParseSettings(line).Ok?
    ensures Find(ParseSettings(line).value, k) == LastValue(SettingsPairs(line).value, k)
    ensures Keys(ParseSettings(line).value) == FirstOccurrences(Keys(SettingsPairs(line).value))
  {
    FromPairsLastWins(SettingsPairs(line).value, k);
    FromPairsKeyOrder(SettingsPairs(line).value);
  }

  /** An empty or blank trailing line is one empty segment, which has no colon. */
  lemma BlankLineFails(line: string)
    requires AllSpace(line)
    ensures ParseSettings(line) == Err(BadSegment("", 1))
  {
    assert Strip(line) == [];
    assert Split([], ',') == [[]];
    assert Occurrences([], ':') == 0;
  }

  // ---------------------------------------------------------------- round trip

  /** A key or value the writer can emit without breaking the line format. */
  predicate Plain(s: string) {
    Trimmed(s) && ',' !in s && ':' !in s
  }

  function Field(p: (string, string)): string {
    p.0 + ": " + p.1
  }

  /** The writer's side of the trailing line: `k1: v1, k2: v2, ...`. */
  function Serialise(ps: seq<(string, string)>): string {
    if ps == [] then []
    else if |ps| == 1 then Field(ps[0])
    else Field(ps[0]) + ", " + Serialise(ps[1..])
  }

  /** Pairs the writer can put on one line so that its commas still
      separate the pairs: plain keys, non-empty trimmed values without commas. */
  predicate Writable(ps: seq<(string, string)>) {
    && |ps| >= 1
    && forall i :: 0 <= i < |ps| ==> Plain(ps[i].0) && Trimmed(ps[i].1) && ',' !in ps[i].1 && ps[i].1 != []
  }

  /** Writable pairs whose keys are distinct and whose values hold no colon. */
  predicate Serialisable(ps: seq<(string, string)>) {
    Writable(ps) && DistinctKeys(ps) && forall i :: 0 <= i < |ps| ==> ':' !in ps[i].1
  }

  lemma WritableTail(ps: seq<(string, string)>)
    requires Writable(ps) && |ps| > 1
    ensures Writable(ps[1..])
  {
    assert forall i :: 0 <= i < |ps| - 1 ==> ps[1..][i] == ps[i + 1];
  }

  lemma SerialiseCons(ps: seq<(string, string)>)
    requires |ps| > 1
    ensures Serialise(ps) == Field(ps[0]) + [','] + (" " + Serialise(ps[1..]))
  {
    var f, t := Field(ps[0]), Serialise(ps[1..]);
    assert Serialise(ps) == f + ", " + t;
    CommaBlank();
    Regroup(f, [','], " ", t);
  }

  lemma CommaBlank()
    ensures ", " == [','] + " "
  {
  }

  /** Moving the second half of a two-character separator to what follows. */
  lemma Regroup(a: string, b: string, c: string, d: string)
    ensures a + (b + c) + d == a + b + (c + d)
  {
  }

  /** A field is its key, a colon, a blank and its value. */
  lemma FieldShape(p: (string, string), pad: string)
    ensures pad + Field(p) == (pad + p.0) + [':'] + (" " + p.1)
  {
    calc {
      pad + Field(p);
      pad + (p.0 + ": " + p.1);
      { assert ": " == [':'] + " "; }
      pad + (p.0 + ([':'] + " ") + p.1);
      (pad + p.0) + [':'] + (" " + p.1);
    }
  }

  lemma {:induction false} SerialiseTrimmed(ps: seq<(string, string)>)
    requires Writable(ps)
    ensures |Serialise(ps)| > 0
    ensures Trimmed(Serialise(ps))
  {
    var s := Serialise(ps);
    var f := Field(ps[0]);
    assert f[0] == if ps[0].0 == [] then ':' else ps[0].0[0];
    if |ps| == 1 {
      assert s == f;
    } else {
      var t := Serialise(ps[1..]);
      assert |t| > 0 && !IsSpace(t[|t| - 1]) by {
        WritableTail(ps);
        SerialiseTrimmed(ps[1..]);
      }
      assert s == f + ", " + t;
      assert s[|s| - 1] == t[|t| - 1];
    }
  }

  lemma SplitCommaBlank(f: string, t: string)
    requires ',' !in f
    ensures Split(f + [','] + (" " + t), ',')
         == [f] + ([" " + Split(t, ',')[0]] + Split(t, ',')[1..])
  {
    SplitAfter(f, ',', " " + t);
    SplitPrefix(" ", ',', t);
  }

  /** The comma-separated segments of a serialised line: every segment
      after the first starts with the blank that followed its comma. */
  function WrittenSegments(ps: seq<(string, string)>): (segs: seq<string>)
    requires |ps| >= 1
    ensures |segs| == |ps| && segs[0] == Field(ps[0])
  {
    if |ps| == 1 then [Field(ps[0])]
    else
      var rest := WrittenSegments(ps[1..]);
      [Field(ps[0])] + ([" " + rest[0]] + rest[1..])
  }

  lemma {:induction false} WrittenSegmentsPadded(ps: seq<(string, string)>, i: nat)
    requires 1 <= i < |ps|
    ensures WrittenSegments(ps)[i] == " " + Field(ps[i])
  {
    var rest := WrittenSegments(ps[1..]);
    if i > 1 {
      WrittenSegmentsPadded(ps[1..], i - 1);
      assert WrittenSegments(ps)[i] == rest[i - 1];
    }
  }

  /** Splitting the serialised line on commas gives the written segments. */
  lemma {:induction false} SplitSerialise(ps: seq<(string, string)>)
    requires Writable(ps)
    ensures Split(Serialise(ps), ',') == WrittenSegments(ps)
  {
    var f := Field(ps[0]);
    assert ',' !in f;
    if |ps| == 1 {
      SplitFree(f, ',');
    } else {
      WritableTail(ps);
      SplitSerialise(ps[1..]);
      SerialiseCons(ps);
      SplitCommaBlank(f, Serialise(ps[1..]));
    }
  }

  /** A segment the writer produced parses back to its pair. */
  lemma ParseField(p: (string, string), pad: string)
    requires Plain(p.0) && Plain(p.1)
    requires pad == "" || pad == " "
    ensures ParseSegment(pad + Field(p)) == Ok(p)
  {
    var seg := pad + Field(p);
    var pieces := [pad + p.0, " " + p.1];
    assert Split(seg, ':') == pieces by {
      FieldShape(p, pad);
      SplitAfter(pad + p.0, ':', " " + p.1);
      SplitFree(" " + p.1, ':');
    }
    assert Strip(pieces[1]) == p.1 by {
      StripLeadingBlank(p.1);
    }
    assert Strip(pieces[0]) == p.0 by {
      if pad == "" {
        assert pad + p.0 == p.0;
        StripTrimmed(p.0);
      } else {
        StripLeadingBlank(p.0);
      }
    }
  }

  /** The serialised line needs no stripping, so its segments are the written ones. */
  lemma SegmentsOfSerialise(ps: seq<(string, string)>)
    requires Writable(ps)
    ensures Segments(Serialise(ps)) == WrittenSegments(ps)
  {
    SerialiseTrimmed(ps);
    StripTrimmed(Serialise(ps));
    SplitSerialise(ps);
  }

  /** The i-th written segment: its key, a colon, a blank and its value,
      after a blank unless it is the first. */
  lemma WrittenSegmentShape(ps: seq<(string, string)>, i: nat)
    requires |ps| >= 1 && i < |ps|
    ensures WrittenSegments(ps)[i] == ((if i == 0 then "" else " ") + ps[i].0) + [':'] + (" " + ps[i].1)
  {
    var pad := if i == 0 then "" else " ";
    if i == 0 {
      assert pad + Field(ps[0]) == Field(ps[0]);
    } else {
      WrittenSegmentsPadded(ps, i);
    }
    FieldShape(ps[i], pad);
  }

  lemma WrittenSegmentParses(ps: seq<(string, string)>, i: nat)
    requires Serialisable(ps) && i < |ps|
    ensures ParseSegment(WrittenSegments(ps)[i]) == Ok(ps[i])
  {
    if i == 0 {
      assert WrittenSegments(ps)[0] == "" + Field(ps[0]);
      ParseField(ps[0], "");
    } else {
      WrittenSegmentsPadded(ps, i);
      ParseField(ps[i], " ");
    }
  }

  /** Writing pairs as `k: v, ...` and parsing the line gives the pairs back. */
  lemma RoundTrip(ps: seq<(string, string)>)
    requires Serialisable(ps)
    ensures ParseSettings(Serialise(ps)) == Ok(ps)
  {
    var segs := Segments(Serialise(ps));
    SegmentsOfSerialise(ps);
    forall i | 0 <= i < |segs|
      ensures ParseSegment(segs[i]) == Ok(ps[i])
    {
      WrittenSegmentParses(ps, i);
    }
    var r := ParseSegments(segs);
    assert r.Ok?;
    assert r.value == ps;
    FromDistinctPairs(ps);
  }

  /** A value holding a colon (a time of day, say) gives its segment three
      pieces, so the line the writer produced is rejected. */
  lemma ColonInValueFails(ps: seq<(string, string)>, i: nat)
    requires Writable(ps)
    requires i < |ps| && ':' in ps[i].1
    ensures ParseSettings(Serialise(ps)).Err?
  {
    SegmentsOfSerialise(ps);
    WrittenSegmentShape(ps, i);
    ColonsAround((if i == 0 then "" else " ") + ps[i].0, ps[i].1);
  }

  /** A colon inside the value makes at least two in the segment. */
  lemma ColonsAround(key: string, value: string)
    requires ':' in value
    ensures Occurrences(key + [':'] + (" " + value), ':') >= 2
  {
    var after := " " + value;
    assert ':' in after by {
      var k :| 0 <= k < |value| && value[k] == ':';
      assert after[k + 1] == ':';
    }
    OccurrencesAround(key + [':'] + after, |key|, ':');
  }

  // ---------------------------------------------------------------- negative prompt

  const NegativeMarker: string := "Negative prompt"

  /** Line 1 of the file: when it starts with the marker, the text after its
      first colon, stripped (line 48). */
  function NegativePrompt(line: string): (r: Result<Option<string>, Failure>)
    ensures r.Err? <==> StartsWith(line, NegativeMarker) && ':' !in line
    ensures r.Err? ==> r.error == NegativeWithoutColon(line)
    ensures r.Ok? ==> (r.value.Some? <==> StartsWith(line, NegativeMarker))
    ensures r.Ok? && r.value.Some? ==> Trimmed(r.value.value)
  {
    if !StartsWith(line, NegativeMarker) then Ok(None)
    else
      var i := FirstIndex(line, ':');
      if i == |line| then
        assert line[..i] == line;
        Err(NegativeWithoutColon(line))
      else Ok(Some(Strip(line[i + 1..])))
  }

  /** The value is Python's `split(':', 1)[1]`: everything after the first
      colon, later colons included, then stripped. */
  lemma NegativeAfterFirstColon(line: string)
    requires NegativePrompt(line).Ok? && NegativePrompt(line).value.Some?
    ensures NegativePrompt(line).value.value == Strip(Join(Split(line, ':')[1..], [':']))
  {
    var i := FirstIndex(line, ':');
    SplitTail(line, i);
    JoinSplit(line[i + 1..], ':');
  }

  /** Everything after the first colon splits into the pieces after the first. */
  lemma SplitTail(line: string, i: nat)
    requires i < |line| && line[i] == ':' && ':' !in line[..i]
    ensures Split(line, ':')[1..] == Split(line[i + 1..], ':')
  {
    Around(line, i);
    SplitAfter(line[..i], ':', line[i + 1..]);
  }

  /** Whitespace around trimmed text is what `Strip` removes. */
  lemma StripPadded(pre: string, t: string, post: string)
    requires AllSpace(pre) && AllSpace(post) && Trimmed(t)
    ensures Strip(pre + t + post) == t
  {
    var s := pre + t + post;
    if t == [] {
      assert AllSpace(s);
    } else {
      var a := LeadingSpace(s);
      assert s[|pre|] == t[0];
      assert a == |pre|;
      var rest := s[a..];
      assert rest == t + post;
      var b := TrailingSpace(rest);
      assert rest[|t| - 1] == t[|t| - 1];
      assert b == |t|;
      assert rest[..b] == t;
    }
  }

  /** A negative-prompt line as the image generator writes it gives back its text. */
  lemma NegativeRoundTrip(t: string)
    requires Trimmed(t)
    ensures NegativePrompt(NegativeMarker + ": " + t + "\n") == Ok(Some(t))
  {
    var line := NegativeMarker + ": " + t + "\n";
    assert line[..|NegativeMarker|] == NegativeMarker;
    assert ':' !in NegativeMarker;
    assert line[..|NegativeMarker|] == NegativeMarker;
    assert line[|NegativeMarker|] == ':';
    var i := FirstIndex(line, ':');
    assert i == |NegativeMarker| by {
      assert forall j :: 0 <= j < |NegativeMarker| ==> line[j] == NegativeMarker[j] && line[j] != ':';
    }
    assert line[i + 1..] == " " + t + "\n";
    StripPadded(" ", t, "\n");
  }
}
