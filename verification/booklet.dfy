/** The whole data flow of the script: collect one record per metadata file
    whose image exists (lines 32 to 50), sort them (line 52), and lay out
    the table of contents and the grouped entries (lines 84 to 115). */
module Booklet {
  import opened Outcomes
  import opened ModelTable
  import opened Metadata
  import opened Records
  import opened Ordering
  import opened Layout

  /** One `.txt` file the glob found: its text, the path of the `.png` beside
      it relative to the outputs folder, whether that image exists, and the
      file's creation time as the naive local `datetime` of line 45, encoded
      as in `Records.Value`. */
  datatype Input = Input(text: string, image: string, hasImage: bool, created: int)

  /** Lines 39 to 48 on one file. */
  function Parse(x: Input): Result<Record, Failure> {
    ParseFile(x.text, x.image, x.created)
  }

  /** What one parsed file becomes. */
  lemma ParseEnriched(x: Input)
    requires Parse(x).Ok?
    ensures Enriched(Parse(x).value)
  {
    ParseFileEnriched(x.text, x.image, x.created);
  }

  // ---------------------------------------------------------------- collection

  /** The records collected and the images warned about, in input order.
      The warning of line 36 names the image by its full path under the
      outputs folder; `missing` holds the same image relative to that folder,
      the form line 44 stores. */
  datatype Collected<R> = Collected(records: seq<R>, missing: seq<string>)

  /** Lines 33 to 50, for any per-file parser: a missing image is warned
      about and skipped; the first file that fails to parse aborts the run. */
  function Collect<R>(inputs: seq<Input>, parse: Input -> Result<R, Failure>): (r: Result<Collected<R>, Failure>)
    ensures r.Ok? ==> |r.value.records| + |r.value.missing| == |inputs|
  {
    if inputs == [] then Ok(Collected([], []))
    else
      var x := inputs[0];
      if !x.hasImage then
        match Collect(inputs[1..], parse)
        case Err(e) => Err(e)
        case Ok(c) => Ok(Collected(c.records, [x.image] + c.missing))
      else
        match parse(x)
        case Err(e) => Err(e)
        case Ok(d) =>
          match Collect(inputs[1..], parse)
          case Err(e) => Err(e)
          case Ok(c) => Ok(Collected([d] + c.records, c.missing))
  }

  /** The inputs whose image exists, in order. */
  function WithImage(inputs: seq<Input>): seq<Input> {
    if inputs == [] then []
    else (if inputs[0].hasImage then [inputs[0]] else []) + WithImage(inputs[1..])
  }

  /** The images warned about, in order. */
  function MissingImages(inputs: seq<Input>): seq<string> {
    if inputs == [] then []
    else (if inputs[0].hasImage then [] else [inputs[0].image]) + MissingImages(inputs[1..])
  }

  /** `i` is the first of `xs` that does not parse. */
  predicate FirstFailure<R>(xs: seq<Input>, parse: Input -> Result<R, Failure>, i: nat) {
    && i < |xs| && parse(xs[i]).Err?
    && forall j :: 0 <= j < i ==> parse(xs[j]).Ok?
  }

  /** Every one of `xs` parses. */
  predicate AllParse<R>(xs: seq<Input>, parse: Input -> Result<R, Failure>) {
    forall i :: 0 <= i < |xs| ==> parse(xs[i]).Ok?
  }

  /** Collection succeeds exactly when every file with an image parses. */
  lemma {:induction false} CollectSucceeds<R>(inputs: seq<Input>, parse: Input -> Result<R, Failure>)
    ensures Collect(inputs, parse).Ok? <==> AllParse(WithImage(inputs), parse)
  {
    if inputs != [] {
      CollectSucceeds(inputs[1..], parse);
      var x := inputs[0];
      var w := WithImage(inputs);
      var w' := WithImage(inputs[1..]);
      if x.hasImage {
        assert w == [x] + w';
        assert AllParse(w, parse) <==> parse(x).Ok? && AllParse(w', parse) by {
          assert w[0] == x;
          assert forall i :: 0 < i < |w| ==> w[i] == w'[i - 1];
          assert forall i :: 0 <= i < |w'| ==> w'[i] == w[i + 1];
        }
      } else {
        assert w == w';
      }
    }
  }

  /** `records` are the parsed values of `xs`, one for one and in order. */
  ghost predicate ParsedFrom<R>(records: seq<R>, xs: seq<Input>, parse: Input -> Result<R, Failure>) {
    && |records| == |xs|
    && forall i :: 0 <= i < |xs| ==> parse(xs[i]).Ok? && records[i] == parse(xs[i]).value
  }

  lemma ParsedFromCons<R>(d: R, records: seq<R>, x: Input, xs: seq<Input>, parse: Input -> Result<R, Failure>)
    requires ParsedFrom(records, xs, parse) && parse(x) == Ok(d)
    ensures ParsedFrom([d] + records, [x] + xs, parse)
  {
    assert forall i :: 0 < i < |xs| + 1 ==> ([x] + xs)[i] == xs[i - 1] && ([d] + records)[i] == records[i - 1];
  }

  /** A successful collection yields the records of the files with an image,
      in order, and warns about the other files' images, in order. */
  lemma {:induction false} CollectRecords<R>(inputs: seq<Input>, parse: Input -> Result<R, Failure>)
    requires Collect(inputs, parse).Ok?
    ensures Collect(inputs, parse).value.missing == MissingImages(inputs)
    ensures ParsedFrom(Collect(inputs, parse).value.records, WithImage(inputs), parse)
  {
    if inputs != [] {
      CollectRecords(inputs[1..], parse);
      var x := inputs[0];
      var c' := Collect(inputs[1..], parse).value;
      if x.hasImage {
        assert WithImage(inputs) == [x] + WithImage(inputs[1..]);
        assert Collect(inputs, parse).value == Collected([parse(x).value] + c'.records, c'.missing);
        ParsedFromCons(parse(x).value, c'.records, x, WithImage(inputs[1..]), parse);
      } else {
        assert WithImage(inputs) == WithImage(inputs[1..]);
        assert Collect(inputs, parse).value == Collected(c'.records, [x.image] + c'.missing);
      }
    }
  }

  /** A failed collection reports the error of the first file with an image
      that does not parse. */
  lemma {:induction false} CollectErr<R>(inputs: seq<Input>, parse: Input -> Result<R, Failure>)
    requires Collect(inputs, parse).Err?
    ensures exists i: nat :: FirstFailure(WithImage(inputs), parse, i)
                             && Collect(inputs, parse).error == parse(WithImage(inputs)[i]).error
  {
    var x := inputs[0];
    var w := WithImage(inputs);
    var w' := WithImage(inputs[1..]);
    if !x.hasImage {
      assert w == w';
      CollectErr(inputs[1..], parse);
    } else {
      assert w == [x] + w';
      if parse(x).Err? {
        assert FirstFailure(w, parse, 0);
      } else {
        CollectErr(inputs[1..], parse);
        var i: nat :| FirstFailure(w', parse, i) && Collect(inputs[1..], parse).error == parse(w'[i]).error;
        assert FirstFailure(w, parse, i + 1);
      }
    }
  }

  // ---------------------------------------------------------------- the booklet

  /** The generated booklet: the contents items, the grouped entries and the
      images warned about. */
  datatype Document = Document(toc: seq<string>, blocks: seq<Block<Record>>, missing: seq<string>)

  /** Lines 30 to 121 without the file system: collect, sort, lay out. The
      run succeeds exactly when every file with an image parses; otherwise it
      stops with the error of the first one that does not. */
  function Build(inputs: seq<Input>): (r: Result<Document, Failure>)
    ensures r.Ok? <==> AllParse(WithImage(inputs), Parse)
    ensures r.Ok? ==> r.value.toc == Toc() && r.value.missing == MissingImages(inputs)
    ensures r.Err? ==> exists i: nat :: FirstFailure(WithImage(inputs), Parse, i)
                                        && r.error == Parse(WithImage(inputs)[i]).error
  {
    CollectSucceeds(inputs, Parse);
    match Collect(inputs, Parse)
    case Err(e) =>
      CollectErr(inputs, Parse);
      Err(e)
    case Ok(c) =>
      CollectRecords(inputs, Parse);
      var sorted := Sort(c.records, KeyOf);
      Ok(Document(Toc(), Blocks(sorted, HashOf, NameOf, |sorted|), c.missing))
  }

  /** Every collected record is enriched. */
  lemma CollectedEnriched(inputs: seq<Input>)
    requires Collect(inputs, Parse).Ok?
    ensures AllEnriched(Collect(inputs, Parse).value.records)
  {
    CollectRecords(inputs, Parse);
    var w := WithImage(inputs);
    forall i | 0 <= i < |w| ensures Enriched(Parse(w[i]).value) {
      ParseEnriched(w[i]);
    }
  }

  lemma EnrichedKnown(r: Record)
    requires Enriched(r)
    ensures Known(HashOf(r))
  {
  }

  /** A permutation of enriched records has known hashes only. */
  lemma PermutationKnown(s: seq<Record>, t: seq<Record>)
    requires AllEnriched(s) && multiset(t) == multiset(s)
    ensures AllKnown(t)
  {
    forall i | 0 <= i < |t| ensures Known(HashOf(t[i])) {
      assert t[i] in multiset(s);
      var j :| 0 <= j < |s| && s[j] == t[i];
      EnrichedKnown(s[j]);
    }
  }

  /** The entries of a successful build are the collected records, sorted by
      model priority and then by creation time, records with equal keys in
      collection order. */
  lemma BuildEntries(inputs: seq<Input>)
    requires Build(inputs).Ok?
    ensures var e := Entries(Build(inputs).value.blocks);
            var c := Collect(inputs, Parse).value;
            && multiset(e) == multiset(c.records)
            && Sorted(e, KeyOf)
            && forall k :: WithKey(e, KeyOf, k) == WithKey(c.records, KeyOf, k)
  {
    var c := Collect(inputs, Parse).value;
    var sorted := Sort(c.records, KeyOf);
    BlocksEntries(sorted, HashOf, NameOf, |sorted|);
    assert sorted[..|sorted|] == sorted;
    SortSorted(c.records, KeyOf);
    forall k ensures WithKey(sorted, KeyOf, k) == WithKey(c.records, KeyOf, k) {
      SortStable(c.records, KeyOf, k);
    }
  }

  /** The sections of a successful build: one per model that has records, in
      priority order (so never two for the same model), each named after
      its model, and every entry inside the section of its own model. */
  lemma BuildSections(inputs: seq<Input>)
    requires Build(inputs).Ok?
    ensures var bs := Build(inputs).value.blocks;
            var e := Entries(bs);
            && Increasing(SectionHashes(bs), Rank)
            && (forall i :: 0 <= i < |e| ==> HashOf(e[i]) in SectionHashes(bs))
            && (forall h :: h in SectionHashes(bs) ==> exists i :: 0 <= i < |e| && HashOf(e[i]) == h)
            && (forall j :: 0 <= j < |bs| && bs[j].Entry? ==> Current(bs[..j]) == Some(HashOf(bs[j].item)))
  {
    var c := Collect(inputs, Parse).value;
    var sorted := Sort(c.records, KeyOf);
    CollectedEnriched(inputs);
    PermutationKnown(c.records, sorted);
    SortSorted(c.records, KeyOf);
    RecordsRanked(sorted);
    SortedSections(sorted, KeyOf, HashOf, NameOf, Rank);
  }

  /** The sorted records of a successful collection are enriched. */
  lemma SortedEnriched(inputs: seq<Input>)
    requires Collect(inputs, Parse).Ok?
    ensures AllEnriched(Sort(Collect(inputs, Parse).value.records, KeyOf))
  {
    var c := Collect(inputs, Parse).value;
    var sorted := Sort(c.records, KeyOf);
    CollectedEnriched(inputs);
    forall i | 0 <= i < |sorted| ensures Enriched(sorted[i]) {
      assert sorted[i] in multiset(c.records);
    }
  }

  lemma EnrichedNamed(r: Record)
    requires Enriched(r)
    ensures Known(HashOf(r)) && NameOf(r) == ModelName(HashOf(r)).value
  {
  }

  /** A section header over enriched records names a known model by its
      table name. */
  lemma SectionNamed(s: seq<Record>, j: nat)
    requires AllEnriched(s)
    requires j < |Blocks(s, HashOf, NameOf, |s|)| && Blocks(s, HashOf, NameOf, |s|)[j].Section?
    ensures var b := Blocks(s, HashOf, NameOf, |s|)[j];
            Known(b.hash) && b.name == ModelName(b.hash).value
  {
    SectionsFromElements(s, HashOf, NameOf, |s|, j);
    var i :| 0 <= i < |s| && Opens(s, HashOf, i)
             && Blocks(s, HashOf, NameOf, |s|)[j] == Section(HashOf(s[i]), NameOf(s[i]));
    EnrichedNamed(s[i]);
  }

  /** Each section header shows its model's name from the table, and the
      contents item at that model's priority links to it under the same name. */
  lemma BuildHeaders(inputs: seq<Input>, j: nat)
    requires Build(inputs).Ok?
    requires j < |Build(inputs).value.blocks| && Build(inputs).value.blocks[j].Section?
    ensures var b := Build(inputs).value.blocks[j];
            && Known(b.hash)
            && b.name == ModelName(b.hash).value
            && Priority(b.hash) < |Build(inputs).value.toc|
            && Build(inputs).value.toc[Priority(b.hash)]
               == "<li>" + b.name + " <a class='tocitem' data-target-id='#" + SectionId(b.hash) + "'></a></li>"
  {
    var sorted := Sort(Collect(inputs, Parse).value.records, KeyOf);
    SortedEnriched(inputs);
    SectionNamed(sorted, j);
    TocLinksSection(Build(inputs).value.blocks[j].hash);
  }
}
