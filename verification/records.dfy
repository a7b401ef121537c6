/** Turning one metadata file into the settings dict the report is built
    from: the parsed trailing line plus the model name, the prompt, the
    image path, the creation time and the optional negative prompt. */
module Records {
  import opened Outcomes
  import opened Text
  import opened OrderedDict
  import opened ModelTable
  import opened Metadata

  /** A value in a settings dict: text (a path renders as its text), or the
      naive local `datetime` stored under `Created`. A `Stamp` encodes that
      wall-clock reading as a count of microseconds, so comparing stamps
      compares the readings field by field, as Python does for naive
      datetimes (ignoring `fold` in a repeated daylight-saving hour). */
  datatype Value = Str(text: string) | Stamp(time: int)

  type Record = Dict<Value>

  /** The keys lines 42 to 45 of the script assign after parsing. */
  const Annotated: set<string> := {"Model name", "prompt", "img", "Created"}

  /** The negative prompt is not among the keys lines 42 to 45 assign. */
  lemma NegativeNotAnnotated()
    ensures "Negative prompt" !in Annotated && "Negative prompt" != "Model hash"
  {
    var n := "Negative prompt";
    assert n[0] == 'N';
    assert "Model name"[0] == 'M' && "prompt"[0] == 'p' && "img"[0] == 'i' && "Created"[0] == 'C';
    assert "Model hash"[0] == 'M';
  }

  /** Every key the script itself assigns after parsing. */
  const Assigned: set<string> := Annotated + {"Negative prompt"}

  function TextValue(o: Option<string>): Option<Value> {
    match o
    case None => None
    case Some(s) => Some(Str(s))
  }

  /** The parsed settings with every value as text. */
  function AsValues(d: Dict<string>): Record {
    if d == [] then [] else [(d[0].0, Str(d[0].1))] + AsValues(d[1..])
  }

  /** Converting the values keeps the keys, their order and their distinctness. */
  lemma {:induction false} AsValuesKeys(d: Dict<string>)
    ensures Keys(AsValues(d)) == Keys(d)
    ensures DistinctKeys(d) ==> DistinctKeys(AsValues(d))
  {
    if d != [] {
      AsValuesKeys(d[1..]);
      KeysCons((d[0].0, Str(d[0].1)), AsValues(d[1..]));
    }
    DistinctByKeys(AsValues(d), d);
  }

  /** Every key maps to its parsed text. */
  lemma {:induction false} AsValuesFind(d: Dict<string>, k: string)
    ensures Find(AsValues(d), k) == TextValue(Find(d, k))
  {
    if d != [] {
      AsValuesFind(d[1..], k);
      FindCons((d[0].0, Str(d[0].1)), AsValues(d[1..]), k);
      FindCons(d[0], d[1..], k);
      assert d == [d[0]] + d[1..];
    }
  }

  /** The text stored under `k`, or `""` when there is none. */
  function TextAt(r: Record, k: string): string {
    var v := Find(r, k);
    if v.Some? && v.value.Str? then v.value.text else ""
  }

  /** `r['Model hash']`. */
  function HashOf(r: Record): string {
    TextAt(r, "Model hash")
  }

  /** `r['Created']`, or 0 when there is none. */
  function CreatedOf(r: Record): int {
    var v := Find(r, "Created");
    if v.Some? && v.value.Stamp? then v.value.time else 0
  }

  /** What every record that reaches sorting satisfies: distinct keys, a
      known model hash with its name beside it, a creation time, a prompt
      and an image path. */
  predicate Enriched(r: Record) {
    && DistinctKeys(r)
    && Find(r, "Model hash") == Some(Str(HashOf(r)))
    && Known(HashOf(r))
    && Find(r, "Model name") == Some(Str(ModelName(HashOf(r)).value))
    && Find(r, "Created") == Some(Stamp(CreatedOf(r)))
    && Find(r, "prompt").Some? && Find(r, "prompt").value.Str?
    && Find(r, "img").Some? && Find(r, "img").value.Str?
  }

  /** The key order after lines 42 to 45: each of the four keys that is new
      goes to the end, in the order of the assignments. */
  function AnnotatedKeys(keys: seq<string>): seq<string> {
    AddKey(AddKey(AddKey(AddKey(keys, "Model name"), "prompt"), "img"), "Created")
  }

  /** The four assignments of lines 42 to 45, in that order. */
  function Annotate(d: Record, name: string, prompt: string, image: string, created: int): (r: Record)
    requires DistinctKeys(d)
    ensures DistinctKeys(r)
    ensures Find(r, "Model name") == Some(Str(name))
    ensures Find(r, "prompt") == Some(Str(prompt))
    ensures Find(r, "img") == Some(Str(image))
    ensures Find(r, "Created") == Some(Stamp(created))
    ensures forall k :: k != "Model name" && k != "prompt" && k != "img" && k != "Created" ==> Find(r, k) == Find(d, k)
    ensures Keys(r) == AnnotatedKeys(Keys(d))
  {
    var d1 := Set(d, "Model name", Str(name));
    var d2 := Set(d1, "prompt", Str(prompt));
    var d3 := Set(d2, "img", Str(image));
    SetKeys(d, "Model name", Str(name));
    SetKeys(d1, "prompt", Str(prompt));
    SetKeys(d2, "img", Str(image));
    SetKeys(d3, "Created", Stamp(created));
    SetDistinct(d, "Model name", Str(name));
    SetDistinct(d1, "prompt", Str(prompt));
    SetDistinct(d2, "img", Str(image));
    SetDistinct(d3, "Created", Stamp(created));
    Set(d3, "Created", Stamp(created))
  }

  /** Lines 42 to 45 of the script: look the model name up (a missing
      `Model hash` key or an unknown hash aborts), then store the name, the
      verbatim prompt line, the image path and the creation time. */
  function Enrich(settings: Dict<string>, prompt: string, image: string, created: int): (r: Result<Record, Failure>)
    requires DistinctKeys(settings)
    ensures Find(settings, "Model hash").None? ==> r == Err(MissingModelHash)
    ensures Find(settings, "Model hash").Some? && !Known(Find(settings, "Model hash").value)
            ==> r == Err(UnknownModelHash(Find(settings, "Model hash").value))
    ensures r.Ok? <==> Find(settings, "Model hash").Some? && Known(Find(settings, "Model hash").value)
  {
    match Find(settings, "Model hash")
    case None => Err(MissingModelHash)
    case Some(h) =>
      match ModelName(h)
      case None => Err(UnknownModelHash(h))
      case Some(name) =>
        AsValuesKeys(settings);
        Ok(Annotate(AsValues(settings), name, prompt, image, created))
  }

  /** Annotating a record that holds a known hash with that model's name
      yields an enriched record with the same hash. */
  lemma AnnotateEnriched(v: Record, h: string, prompt: string, image: string, created: int)
    requires DistinctKeys(v) && Find(v, "Model hash") == Some(Str(h)) && Known(h)
    ensures var d := Annotate(v, ModelName(h).value, prompt, image, created);
            Enriched(d) && HashOf(d) == h && CreatedOf(d) == created
  {
    var d := Annotate(v, ModelName(h).value, prompt, image, created);
    AnnotateKeepsHash(v, ModelName(h).value, prompt, image, created);
    EnrichedIntro(d, h, ModelName(h).value, prompt, image, created);
  }

  /** The annotations leave the model hash alone. */
  lemma AnnotateKeepsHash(v: Record, name: string, prompt: string, image: string, created: int)
    requires DistinctKeys(v)
    ensures Find(Annotate(v, name, prompt, image, created), "Model hash") == Find(v, "Model hash")
  {
    assert "Model hash" !in Annotated;
  }

  lemma EnrichedIntro(d: Record, h: string, name: string, prompt: string, image: string, created: int)
    requires DistinctKeys(d) && Known(h) && name == ModelName(h).value
    requires Find(d, "Model hash") == Some(Str(h))
    requires Find(d, "Model name") == Some(Str(name))
    requires Find(d, "Created") == Some(Stamp(created))
    requires Find(d, "prompt") == Some(Str(prompt))
    requires Find(d, "img") == Some(Str(image))
    ensures Enriched(d) && HashOf(d) == h && CreatedOf(d) == created
  {
  }

  /** The record `Enrich` accepts carries the parsed hash, that model's name,
      the prompt, the image path and the creation time, and every setting the
      script does not assign keeps its parsed text. */
  lemma EnrichRecord(settings: Dict<string>, prompt: string, image: string, created: int)
    requires DistinctKeys(settings)
    requires Enrich(settings, prompt, image, created).Ok?
    ensures var d := Enrich(settings, prompt, image, created).value;
            && Enriched(d)
            && HashOf(d) == Find(settings, "Model hash").value
            && Find(d, "prompt") == Some(Str(prompt))
            && Find(d, "img") == Some(Str(image))
            && CreatedOf(d) == created
            && forall k :: k !in Annotated ==> Find(d, k) == TextValue(Find(settings, k))
  {
    var h := Find(settings, "Model hash").value;
    var v := AsValues(settings);
    EnrichAccepted(settings, prompt, image, created);
    AnnotateEnriched(v, h, prompt, image, created);
    AnnotateOthers(v, ModelName(h).value, prompt, image, created);
    forall k | k !in Annotated
      ensures Find(v, k) == TextValue(Find(settings, k))
    {
      AsValuesFind(settings, k);
    }
  }

  /** The accepted record keeps the parsed keys in their order and appends
      the assigned keys that are new. */
  lemma EnrichKeys(settings: Dict<string>, prompt: string, image: string, created: int)
    requires DistinctKeys(settings)
    requires Enrich(settings, prompt, image, created).Ok?
    ensures Keys(Enrich(settings, prompt, image, created).value) == AnnotatedKeys(Keys(settings))
  {
    EnrichAccepted(settings, prompt, image, created);
    AsValuesKeys(settings);
  }

  lemma EnrichAccepted(settings: Dict<string>, prompt: string, image: string, created: int)
    requires DistinctKeys(settings)
    requires Enrich(settings, prompt, image, created).Ok?
    ensures DistinctKeys(AsValues(settings))
    ensures var h := Find(settings, "Model hash").value;
            && Find(AsValues(settings), "Model hash") == Some(Str(h))
            && Enrich(settings, prompt, image, created).value
               == Annotate(AsValues(settings), ModelName(h).value, prompt, image, created)
  {
    AsValuesFind(settings, "Model hash");
    AsValuesKeys(settings);
  }

  /** The annotations touch no key outside `Annotated`. */
  lemma AnnotateOthers(v: Record, name: string, prompt: string, image: string, created: int)
    requires DistinctKeys(v)
    ensures forall k :: k !in Annotated ==> Find(Annotate(v, name, prompt, image, created), k) == Find(v, k)
  {
  }

  /** Lines 47 and 48: a second line starting with the marker adds (or
      overwrites) `Negative prompt`; otherwise the record is unchanged. */
  function AddNegative(d: Record, line: string): (r: Result<Record, Failure>)
    requires Enriched(d)
    ensures r.Err? <==> NegativePrompt(line).Err?
    ensures r.Ok? ==> Enriched(r.value) && HashOf(r.value) == HashOf(d) && CreatedOf(r.value) == CreatedOf(d)
    ensures r.Ok? && StartsWith(line, NegativeMarker)
            ==> Find(r.value, "Negative prompt") == Some(Str(NegativePrompt(line).value.value))
    ensures r.Ok? ==> forall k :: k != "Negative prompt" ==> Find(r.value, k) == Find(d, k)
    ensures r.Ok? && !StartsWith(line, NegativeMarker) ==> r.value == d
    ensures r.Ok? && StartsWith(line, NegativeMarker) ==> Keys(r.value) == AddKey(Keys(d), "Negative prompt")
  {
    match NegativePrompt(line)
    case Err(e) => Err(e)
    case Ok(None) => Ok(d)
    case Ok(Some(n)) =>
      NegativeNotAnnotated();
      EnrichedSet(d, "Negative prompt", Str(n));
      SetKeys(d, "Negative prompt", Str(n));
      Ok(Set(d, "Negative prompt", Str(n)))
  }

  /** Assigning a key the annotations do not touch keeps a record enriched. */
  lemma EnrichedSet(d: Record, k: string, v: Value)
    requires Enriched(d) && k !in Annotated && k != "Model hash"
    ensures Enriched(Set(d, k, v))
    ensures HashOf(Set(d, k, v)) == HashOf(d) && CreatedOf(Set(d, k, v)) == CreatedOf(d)
  {
    SetDistinct(d, k, v);
  }

  /** Lines 41 to 48 of the script on the lines of one metadata file. An
      accepted file has at least two lines and a parsable trailing line, and
      yields an enriched record stamped with the file's creation time. */
  function ParseLines(lines: seq<string>, image: string, created: int): (r: Result<Record, Failure>)
    ensures |lines| == 0 ==> r == Err(NoLines)
    ensures r.Ok? ==> && |lines| >= 2
                      && ParseSettings(lines[|lines| - 1]).Ok?
                      && Enriched(r.value)
                      && CreatedOf(r.value) == created
  {
    if |lines| == 0 then Err(NoLines)
    else
      var settings :- ParseSettings(lines[|lines| - 1]);
      var d :- Enrich(settings, lines[0], image, created);
      if |lines| < 2 then Err(NoSecondLine)
      else
        EnrichRecord(settings, lines[0], image, created);
        AddNegative(d, lines[1])
  }

  /** One metadata file, lines 40 to 48 of the script: only empty text has no
      trailing line to parse. */
  function ParseFile(text: string, image: string, created: int): (r: Result<Record, Failure>)
    ensures r == Err(NoLines) <==> text == []
  {
    var lines := ReadLines(text);
    assert lines != [] ==> ParseLines(lines, image, created) != Err(NoLines) by {
      if lines != [] {
        if ParseSettings(lines[|lines| - 1]).Ok? {
          ParseLinesOutcome(lines, image, created);
        } else {
          ParseSettingsError(lines[|lines| - 1]);
        }
      }
    }
    ParseLines(lines, image, created)
  }

  /** A file is accepted exactly when it has a parsable trailing line with a
      known model hash, at least two lines, and no marker line without a
      colon; the errors come in the order the script raises them. */
  lemma ParseLinesOutcome(lines: seq<string>, image: string, created: int)
    requires |lines| > 0
    ensures var last := ParseSettings(lines[|lines| - 1]);
            var r := ParseLines(lines, image, created);
            && (last.Err? ==> r == Err(last.error))
            && (last.Ok? ==>
                  var h := Find(last.value, "Model hash");
                  && (h.None? ==> r == Err(MissingModelHash))
                  && (h.Some? && !Known(h.value) ==> r == Err(UnknownModelHash(h.value)))
                  && (h.Some? && Known(h.value) ==>
                        && (|lines| < 2 ==> r == Err(NoSecondLine))
                        && (|lines| >= 2 ==> (r.Ok? <==> NegativePrompt(lines[1]).Ok?))))
  {
  }

  /** What an accepted file's record holds: the hash of its trailing line and
      that model's name, line 0 verbatim as the prompt, the image path and the
      creation time. */
  lemma ParseLinesRecord(lines: seq<string>, image: string, created: int)
    requires ParseLines(lines, image, created).Ok?
    ensures var d := ParseLines(lines, image, created).value;
            && |lines| >= 2
            && ParseSettings(lines[|lines| - 1]).Ok?
            && Enriched(d)
            && Find(ParseSettings(lines[|lines| - 1]).value, "Model hash") == Some(HashOf(d))
            && Find(d, "Model name") == Some(Str(ModelName(HashOf(d)).value))
            && Find(d, "prompt") == Some(Str(lines[0]))
            && Find(d, "img") == Some(Str(image))
            && CreatedOf(d) == created
  {
    var settings := ParseSettings(lines[|lines| - 1]).value;
    var e := Enrich(settings, lines[0], image, created);
    EnrichRecord(settings, lines[0], image, created);
    assert ParseLines(lines, image, created) == AddNegative(e.value, lines[1]);
  }

  /** The rest of an accepted file's record: the negative prompt exactly when
      line 1 carries the marker, and every other parsed setting unchanged. */
  lemma ParseLinesSettings(lines: seq<string>, image: string, created: int)
    requires ParseLines(lines, image, created).Ok?
    ensures |lines| >= 2 && ParseSettings(lines[|lines| - 1]).Ok?
    ensures var d := ParseLines(lines, image, created).value;
            var settings := ParseSettings(lines[|lines| - 1]).value;
            && (StartsWith(lines[1], NegativeMarker) ==>
                  Find(d, "Negative prompt") == Some(Str(NegativePrompt(lines[1]).value.value)))
            && (!StartsWith(lines[1], NegativeMarker) ==>
                  Find(d, "Negative prompt") == TextValue(Find(settings, "Negative prompt")))
            && forall k :: k !in Assigned ==> Find(d, k) == TextValue(Find(settings, k))
  {
    var settings := ParseSettings(lines[|lines| - 1]).value;
    var e := Enrich(settings, lines[0], image, created);
    EnrichRecord(settings, lines[0], image, created);
    var d := ParseLines(lines, image, created).value;
    assert ParseLines(lines, image, created) == AddNegative(e.value, lines[1]);
    NegativeNotAnnotated();
    forall k | k !in Assigned
      ensures Find(d, k) == TextValue(Find(settings, k))
    {
      assert k !in Annotated && k != "Negative prompt";
    }
  }

  /** The key order of an accepted file's record: the trailing line's keys,
      then those of the four assigned keys that are new, then `Negative
      prompt` when line 1 carries the marker and the key is new. */
  lemma ParseLinesKeys(lines: seq<string>, image: string, created: int)
    requires ParseLines(lines, image, created).Ok?
    ensures |lines| >= 2 && ParseSettings(lines[|lines| - 1]).Ok?
    ensures var d := ParseLines(lines, image, created).value;
            var annotated := AnnotatedKeys(Keys(ParseSettings(lines[|lines| - 1]).value));
            Keys(d) == if StartsWith(lines[1], NegativeMarker) then AddKey(annotated, "Negative prompt") else annotated
  {
    var settings := ParseSettings(lines[|lines| - 1]).value;
    var e := Enrich(settings, lines[0], image, created);
    EnrichRecord(settings, lines[0], image, created);
    EnrichKeys(settings, lines[0], image, created);
    assert ParseLines(lines, image, created) == AddNegative(e.value, lines[1]);
  }

  /** Every record an accepted file yields is enriched. */
  lemma ParseFileEnriched(text: string, image: string, created: int)
    requires ParseFile(text, image, created).Ok?
    ensures Enriched(ParseFile(text, image, created).value)
  {
    ParseLinesRecord(ReadLines(text), image, created);
  }
}
