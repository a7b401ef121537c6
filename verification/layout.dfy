/** The body of the booklet, lines 84 to 115 of the script: the table of
    contents over every known model, a section header wherever the model hash
    changes along the sorted records, and for each record its image, prompt,
    optional negative prompt and a two-row table of the remaining settings. */
module Layout {
  import opened Outcomes
  import opened Text
  import opened OrderedDict
  import opened ModelTable
  import opened Metadata
  import opened Records
  import opened Ordering

  // ---------------------------------------------------------------- sections

  /** What the loop of lines 90 to 115 emits, in order: a section header
      carrying a model's hash and name, or one record's block. The grouping
      is stated for any element type with a hash and a name; `HashOf` and
      `NameOf` are the ones the script reads. */
  datatype Block<T> = Section(hash: string, name: string) | Entry(item: T)

  /** `prompt['Model name']`. */
  function NameOf(r: Record): string {
    TextAt(r, "Model name")
  }

  /** Element `i` starts a new section: it is the first one, or its hash
      differs from the previous one's (the `last_model` test of line 91). */
  predicate Opens<T>(s: seq<T>, hash: T -> string, i: nat)
    requires i < |s|
  {
    i == 0 || hash(s[i - 1]) != hash(s[i])
  }

  /** What one iteration emits for element `i`. */
  function Chunk<T>(s: seq<T>, hash: T -> string, name: T -> string, i: nat): seq<Block<T>>
    requires i < |s|
  {
    (if Opens(s, hash, i) then [Section(hash(s[i]), name(s[i]))] else []) + [Entry(s[i])]
  }

  /** What the first `n` iterations emit. Since `last_model` starts as
      `None`, the output opens with the first element's section, and each
      iteration ends with its element's block. */
  function Blocks<T>(s: seq<T>, hash: T -> string, name: T -> string, n: nat): (bs: seq<Block<T>>)
    requires n <= |s|
    ensures n <= |bs| <= 2 * n
    ensures n > 0 ==> bs[0] == Section(hash(s[0]), name(s[0])) && bs[|bs| - 1] == Entry(s[n - 1])
  {
    if n == 0 then [] else Blocks(s, hash, name, n - 1) + Chunk(s, hash, name, n - 1)
  }

  /** Lines 89 to 95 as written: one pass remembering the last hash seen. */
  method Group<T>(s: seq<T>, hash: T -> string, name: T -> string) returns (blocks: seq<Block<T>>)
    ensures blocks == Blocks(s, hash, name, |s|)
  {
    var last: Option<string> := None;
    blocks := [];
    var i := 0;
    while i < |s|
      invariant i <= |s|
      invariant blocks == Blocks(s, hash, name, i)
      invariant last == if i == 0 then None else Some(hash(s[i - 1]))
    {
      var h := hash(s[i]);
      if last != Some(h) {
        blocks := blocks + [Section(h, name(s[i]))];
        last := Some(h);
      }
      blocks := blocks + [Entry(s[i])];
      i := i + 1;
    }
  }

  /** The elements of the entry blocks, in order. */
  function Entries<T>(bs: seq<Block<T>>): seq<T> {
    if bs == [] then []
    else (if bs[0].Entry? then [bs[0].item] else []) + Entries(bs[1..])
  }

  /** The hashes of the section headers, in order. */
  function SectionHashes<T>(bs: seq<Block<T>>): seq<string> {
    if bs == [] then []
    else (if bs[0].Section? then [bs[0].hash] else []) + SectionHashes(bs[1..])
  }

  /** The hash of the last section header, the one the next entry falls under. */
  function Current<T>(bs: seq<Block<T>>): Option<string> {
    if bs == [] then None
    else if bs[|bs| - 1].Section? then Some(bs[|bs| - 1].hash)
    else Current(bs[..|bs| - 1])
  }

  lemma {:induction false} EntriesAppend<T>(a: seq<Block<T>>, b: seq<Block<T>>)
    ensures Entries(a + b) == Entries(a) + Entries(b)
  {
    if a == [] {
      assert a + b == b;
    } else {
      var head := if a[0].Entry? then [a[0].item] else [];
      assert (a + b)[0] == a[0] && (a + b)[1..] == a[1..] + b;
      EntriesAppend(a[1..], b);
      assert Entries(a + b) == head + (Entries(a[1..]) + Entries(b));
      assert Entries(a) == head + Entries(a[1..]);
    }
  }

  lemma {:induction false} SectionHashesAppend<T>(a: seq<Block<T>>, b: seq<Block<T>>)
    ensures SectionHashes(a + b) == SectionHashes(a) + SectionHashes(b)
  {
    if a == [] {
      assert a + b == b;
    } else {
      var head := if a[0].Section? then [a[0].hash] else [];
      assert (a + b)[0] == a[0] && (a + b)[1..] == a[1..] + b;
      SectionHashesAppend(a[1..], b);
      assert SectionHashes(a + b) == head + (SectionHashes(a[1..]) + SectionHashes(b));
      assert SectionHashes(a) == head + SectionHashes(a[1..]);
    }
  }

  /** Every element appears exactly once as an entry, in input order. */
  lemma {:induction false} BlocksEntries<T>(s: seq<T>, hash: T -> string, name: T -> string, n: nat)
    requires n <= |s|
    ensures Entries(Blocks(s, hash, name, n)) == s[..n]
  {
    if n > 0 {
      BlocksEntries(s, hash, name, n - 1);
      var c := Chunk(s, hash, name, n - 1);
      EntriesAppend(Blocks(s, hash, name, n - 1), c);
      var e: seq<Block<T>> := [Entry(s[n - 1])];
      assert e[1..] == [];
      assert Entries(e) == [s[n - 1]];
      if Opens(s, hash, n - 1) {
        assert c[1..] == e;
      } else {
        assert c == e;
      }
      assert s[..n] == s[..n - 1] + [s[n - 1]];
    }
  }

  /** The hashes of the elements that open a section, in order. */
  function OpeningHashes<T>(s: seq<T>, hash: T -> string, n: nat): seq<string>
    requires n <= |s|
  {
    if n == 0 then []
    else OpeningHashes(s, hash, n - 1) + (if Opens(s, hash, n - 1) then [hash(s[n - 1])] else [])
  }

  /** The section headers are exactly the openings, in order. */
  lemma {:induction false} BlocksSections<T>(s: seq<T>, hash: T -> string, name: T -> string, n: nat)
    requires n <= |s|
    ensures SectionHashes(Blocks(s, hash, name, n)) == OpeningHashes(s, hash, n)
  {
    if n > 0 {
      BlocksSections(s, hash, name, n - 1);
      var c := Chunk(s, hash, name, n - 1);
      SectionHashesAppend(Blocks(s, hash, name, n - 1), c);
      var e: seq<Block<T>> := [Entry(s[n - 1])];
      assert e[1..] == [];
      assert SectionHashes(e) == [];
      if Opens(s, hash, n - 1) {
        assert c[1..] == e;
      } else {
        assert c == e;
      }
    }
  }

  /** After the first `n` elements the current section is that of element `n - 1`. */
  lemma {:induction false} BlocksCurrent<T>(s: seq<T>, hash: T -> string, name: T -> string, n: nat)
    requires 0 < n <= |s|
    ensures Current(Blocks(s, hash, name, n)) == Some(hash(s[n - 1]))
  {
    var bs := Blocks(s, hash, name, n);
    var prefix := Blocks(s, hash, name, n - 1);
    var c := Chunk(s, hash, name, n - 1);
    assert bs[|bs| - 1] == Entry(s[n - 1]);
    assert bs[..|bs| - 1] == prefix + c[..|c| - 1];
    if Opens(s, hash, n - 1) {
      assert bs[..|bs| - 1] == prefix + [Section(hash(s[n - 1]), name(s[n - 1]))];
    } else {
      assert bs[..|bs| - 1] == prefix;
      BlocksCurrent(s, hash, name, n - 1);
    }
  }

  /** Every entry sits in the section of its own hash. */
  lemma {:induction false} EntryInOwnSection<T>(s: seq<T>, hash: T -> string, name: T -> string, n: nat, j: nat)
    requires n <= |s|
    requires j < |Blocks(s, hash, name, n)| && Blocks(s, hash, name, n)[j].Entry?
    ensures Current(Blocks(s, hash, name, n)[..j]) == Some(hash(Blocks(s, hash, name, n)[j].item))
  {
    var bs := Blocks(s, hash, name, n);
    var prefix := Blocks(s, hash, name, n - 1);
    if j < |prefix| {
      EntryInOwnSection(s, hash, name, n - 1, j);
      assert bs[..j] == prefix[..j];
    } else if j == |bs| - 1 {
      assert bs[j] == Entry(s[n - 1]);
      if Opens(s, hash, n - 1) {
        assert bs[..j] == prefix + [Section(hash(s[n - 1]), name(s[n - 1]))];
      } else {
        assert bs[..j] == prefix;
        BlocksCurrent(s, hash, name, n - 1);
      }
    }
  }

  /** Every section header names an element that opens it. */
  lemma {:induction false} SectionsFromElements<T>(s: seq<T>, hash: T -> string, name: T -> string, n: nat, j: nat)
    requires n <= |s|
    requires j < |Blocks(s, hash, name, n)| && Blocks(s, hash, name, n)[j].Section?
    ensures exists i :: 0 <= i < n && Opens(s, hash, i)
                        && Blocks(s, hash, name, n)[j] == Section(hash(s[i]), name(s[i]))
  {
    var prefix := Blocks(s, hash, name, n - 1);
    if j < |prefix| {
      SectionsFromElements(s, hash, name, n - 1, j);
    } else {
      assert Blocks(s, hash, name, n)[j] == Chunk(s, hash, name, n - 1)[j - |prefix|];
    }
  }

  /** Every element's hash has a section header. */
  lemma {:induction false} ElementsOpened<T>(s: seq<T>, hash: T -> string, n: nat)
    requires n <= |s|
    ensures forall i :: 0 <= i < n ==> hash(s[i]) in OpeningHashes(s, hash, n)
  {
    if n > 0 {
      var hs := OpeningHashes(s, hash, n - 1);
      var t := if Opens(s, hash, n - 1) then [hash(s[n - 1])] else [];
      ElementsOpened(s, hash, n - 1);
      forall i | 0 <= i < n
        ensures hash(s[i]) in hs + t
      {
        if i < n - 1 {
          InLeft(hash(s[i]), hs, t);
        } else if Opens(s, hash, n - 1) {
          assert (hs + t)[|hs|] == hash(s[i]);
        } else {
          assert hash(s[i]) == hash(s[n - 2]);
          InLeft(hash(s[n - 2]), hs, t);
        }
      }
    }
  }

  lemma InLeft<X>(x: X, a: seq<X>, b: seq<X>)
    requires x in a
    ensures x in a + b
  {
    var i :| 0 <= i < |a| && a[i] == x;
    assert (a + b)[i] == x;
  }

  /** Every section header's hash is the hash of an element. */
  lemma {:induction false} OpeningsFromElements<T>(s: seq<T>, hash: T -> string, n: nat)
    requires n <= |s|
    ensures forall h :: h in OpeningHashes(s, hash, n) ==> exists i :: 0 <= i < n && hash(s[i]) == h
  {
    if n > 0 {
      OpeningsFromElements(s, hash, n - 1);
    }
  }

  // ---------------------------------------------------------------- sorted input

  /** Hashes listed in strictly increasing rank: in particular no hash is
      listed twice. */
  predicate Increasing(hs: seq<string>, rank: string -> nat) {
    forall a, b :: 0 <= a < b < |hs| ==> rank(hs[a]) < rank(hs[b])
  }

  /** The sort key's first component is the rank of the hash, and within `s`
      different hashes have different ranks. */
  predicate RankedBy<T>(s: seq<T>, key: T -> Key, hash: T -> string, rank: string -> nat) {
    && (forall i :: 0 <= i < |s| ==> key(s[i]).priority == rank(hash(s[i])))
    && (forall i, j :: 0 <= i < |s| && 0 <= j < |s| && rank(hash(s[i])) == rank(hash(s[j])) ==> hash(s[i]) == hash(s[j]))
  }

  /** In sorted input, an element that opens a section has a strictly higher
      rank than every element before it. */
  lemma OpeningRaisesRank<T>(s: seq<T>, key: T -> Key, hash: T -> string, rank: string -> nat, i: nat, j: nat)
    requires Sorted(s, key) && RankedBy(s, key, hash, rank)
    requires i < j < |s| && Opens(s, hash, j)
    ensures rank(hash(s[i])) < rank(hash(s[j]))
  {
    assert KeyLe(key(s[i]), key(s[j - 1])) || i == j - 1;
    assert KeyLe(key(s[j - 1]), key(s[j]));
  }

  /** Sorted input gives one section per hash, in rank order. */
  lemma {:induction false} SectionsIncrease<T>(s: seq<T>, key: T -> Key, hash: T -> string, rank: string -> nat, n: nat)
    requires Sorted(s, key) && RankedBy(s, key, hash, rank) && n <= |s|
    ensures Increasing(OpeningHashes(s, hash, n), rank)
  {
    if n > 0 {
      SectionsIncrease(s, key, hash, rank, n - 1);
      var hs := OpeningHashes(s, hash, n - 1);
      if Opens(s, hash, n - 1) {
        OpeningsFromElements(s, hash, n - 1);
        forall a | 0 <= a < |hs|
          ensures rank(hs[a]) < rank(hash(s[n - 1]))
        {
          assert hs[a] in hs;
          var i :| 0 <= i < n - 1 && hash(s[i]) == hs[a];
          OpeningRaisesRank(s, key, hash, rank, i, n - 1);
        }
      }
    }
  }

  /** Grouping sorted input: its entries are the input, one section per
      hash in rank order, every hash of the input has a section, every
      section a member, and every entry sits in its own hash's section. */
  lemma SortedSections<T>(s: seq<T>, key: T -> Key, hash: T -> string, name: T -> string, rank: string -> nat)
    requires Sorted(s, key) && RankedBy(s, key, hash, rank)
    ensures var bs := Blocks(s, hash, name, |s|);
            && Entries(bs) == s
            && Increasing(SectionHashes(bs), rank)
            && (forall i :: 0 <= i < |s| ==> hash(s[i]) in SectionHashes(bs))
            && (forall h :: h in SectionHashes(bs) ==> exists i :: 0 <= i < |s| && hash(s[i]) == h)
            && (forall j :: 0 <= j < |bs| && bs[j].Entry? ==> Current(bs[..j]) == Some(hash(bs[j].item)))
  {
    var n := |s|;
    var bs := Blocks(s, hash, name, n);
    BlocksEntries(s, hash, name, n);
    assert s[..n] == s;
    BlocksSections(s, hash, name, n);
    SectionsIncrease(s, key, hash, rank, n);
    ElementsOpened(s, hash, n);
    OpeningsFromElements(s, hash, n);
    forall j | 0 <= j < |bs| && bs[j].Entry?
      ensures Current(bs[..j]) == Some(hash(bs[j].item))
    {
      EntryInOwnSection(s, hash, name, n, j);
    }
  }

  /** Collected records rank by the position of their hash in the table. */
  lemma RecordsRanked(s: seq<Record>)
    requires AllKnown(s)
    ensures RankedBy(s, KeyOf, HashOf, Rank)
  {
    forall i, j | 0 <= i < |s| && 0 <= j < |s| && Rank(HashOf(s[i])) == Rank(HashOf(s[j]))
      ensures HashOf(s[i]) == HashOf(s[j])
    {
      PriorityInjective(HashOf(s[i]), HashOf(s[j]));
    }
  }

  // ---------------------------------------------------------------- table of contents

  /** The anchor of a model's section, `id='model{h}'` on line 93. */
  function SectionId(h: string): string {
    "model" + h
  }

  /** Line 85: one table-of-contents item linking to `#model{h}`. */
  function TocItem(e: (string, string)): string {
    "<li>" + e.1 + " <a class='tocitem' data-target-id='#" + SectionId(e.0) + "'></a></li>"
  }

  /** One item per table entry, in table order. */
  function TocOf(table: Dict<string>): (items: seq<string>)
    ensures |items| == |table|
    ensures forall i :: 0 <= i < |table| ==> items[i] == TocItem(table[i])
  {
    if table == [] then [] else [TocItem(table[0])] + TocOf(table[1..])
  }

  /** Lines 84 and 85: every model of `model_hash_names`, present or not. */
  function Toc(): seq<string> {
    TocOf(HashNames)
  }

  /** Every known model has a contents item at the position of its sort
      priority, carrying the name its section header shows and linking to
      that section's anchor. */
  lemma TocLinksSection(h: string)
    requires Known(h)
    ensures Priority(h) < |Toc()|
    ensures Toc()[Priority(h)] == "<li>" + ModelName(h).value + " <a class='tocitem' data-target-id='#" + SectionId(h) + "'></a></li>"
  {
    var i := Priority(h);
    TablesAgree();
    assert Keys(HashNames)[i] == HashNames[i].0;
    ModelNameOfEntry(i);
  }

  // ---------------------------------------------------------------- entries

  /** The keys line 109 leaves out of the attribute table. */
  const Excluded: set<string> := {"Model hash", "Model name", "img", "prompt", "Negative prompt"}

  /** Line 109: the record without the excluded keys. Every other key keeps
      its value and its place in insertion order. */
  function Attributes(r: Record): (a: Record)
    ensures forall k :: Find(a, k) == if k in Excluded then None else Find(r, k)
    ensures Keys(a) == DropKeys(Keys(r), Excluded)
  {
    WithoutKeyOrder(r, Excluded);
    Without(r, Excluded)
  }

  /** Line 113: a time through the `isoformat` formatter, text as it is. */
  function Show(v: Value, fmt: int -> string): string {
    match v
    case Str(t) => t
    case Stamp(t) => fmt(t)
  }

  /** The shown values of a dict, in its order. */
  function Cells(d: Record, fmt: int -> string): (cells: seq<string>)
    ensures |cells| == |d|
    ensures forall i :: 0 <= i < |d| ==> cells[i] == Show(d[i].1, fmt)
  {
    if d == [] then [] else [Show(d[0].1, fmt)] + Cells(d[1..], fmt)
  }

  /** Line 111: the header cells are the attribute keys. */
  function HeaderCells(r: Record): seq<string> {
    Keys(Attributes(r))
  }

  /** Lines 112 to 115: the data cells are the attribute values. */
  function DataCells(r: Record, fmt: int -> string): seq<string> {
    Cells(Attributes(r), fmt)
  }

  /** The rendered record, lines 97 to 115: image path, prompt line, the
      negative prompt when the record has one, and the two table rows. */
  datatype View = View(image: string, prompt: string, negative: Option<string>, header: string, data: string)

  function Render(r: Record, fmt: int -> string): (v: View)
    ensures v.negative.Some? <==> "Negative prompt" in Keys(r)
  {
    var n := Find(r, "Negative prompt");
    View(TextAt(r, "img"), TextAt(r, "prompt"),
         if n.Some? then Some(Show(n.value, fmt)) else None,
         "<tr><th>" + Join(HeaderCells(r), "</th><th>") + "</th></tr>",
         "<tr><td>" + Join(DataCells(r, fmt), "</td><td>") + "</td></tr>")
  }

  /** The header lists exactly the record's keys that are not excluded, in
      insertion order. */
  lemma HeaderKeys(r: Record)
    ensures HeaderCells(r) == DropKeys(Keys(r), Excluded)
    ensures forall k :: k in HeaderCells(r) <==> k in Keys(r) && k !in Excluded
  {
    WithoutKeyOrder(r, Excluded);
    WithoutKeys(r, Excluded);
  }

  /** Header and data cells line up: the i-th data cell shows the value of
      the i-th header key. */
  lemma {:induction false} CellsAligned(r: Record, fmt: int -> string, i: nat)
    requires DistinctKeys(r)
    requires i < |HeaderCells(r)|
    ensures |DataCells(r, fmt)| == |HeaderCells(r)|
    ensures Find(r, HeaderCells(r)[i]).Some?
    ensures DataCells(r, fmt)[i] == Show(Find(r, HeaderCells(r)[i]).value, fmt)
  {
    var a := Attributes(r);
    FindDistinct(a, i);
    assert Find(a, a[i].0) == Find(r, a[i].0);
  }

  /** Every collected record's table has a `Created` column showing its
      formatted creation time. */
  lemma CreatedColumn(r: Record, fmt: int -> string, t: int)
    requires DistinctKeys(r) && Find(r, "Created") == Some(Stamp(t))
    ensures "Created" in HeaderCells(r)
    ensures exists i :: 0 <= i < |HeaderCells(r)| && HeaderCells(r)[i] == "Created"
                        && i < |DataCells(r, fmt)| && DataCells(r, fmt)[i] == fmt(t)
  {
    assert "Created" !in Excluded;
    var a := Attributes(r);
    assert Find(a, "Created") == Some(Stamp(t));
    var i := IndexOf(Keys(a), "Created");
    CellsAligned(r, fmt, i);
  }

  /** The annotation keys: `Created` is the one the table shows. */
  lemma AnnotationKeys()
    ensures "Model name" in Excluded && "prompt" in Excluded && "img" in Excluded && "Negative prompt" in Excluded
    ensures "Created" !in Excluded
    ensures "Created" != "Model name" && "Created" != "prompt" && "Created" != "img"
  {
    var c := "Created";
    assert c[0] == 'C';
    assert "Model hash"[0] == 'M' && "Model name"[0] == 'M' && "img"[0] == 'i' && "prompt"[0] == 'p' && "Negative prompt"[0] == 'N';
  }

  /** Filtering the annotated key list: of the four assigned keys only a new
      `Created` remains, at the end. */
  lemma DropAnnotated(ks: seq<string>)
    ensures DropKeys(AnnotatedKeys(ks), Excluded)
            == DropKeys(ks, Excluded) + (if "Created" in ks then [] else ["Created"])
  {
    var k1 := AddKey(ks, "Model name");
    var k2 := AddKey(k1, "prompt");
    var k3 := AddKey(k2, "img");
    AnnotationKeys();
    DropAddKey(ks, "Model name", Excluded);
    DropAddKey(k1, "prompt", Excluded);
    DropAddKey(k2, "img", Excluded);
    DropAddKey(k3, "Created", Excluded);
    assert "Created" in k3 <==> "Created" in ks;
  }

  /** The header row of a record whose keys are a key list annotated by
      lines 42 to 45, perhaps followed by line 48's key. */
  lemma HeaderOfAnnotated(d: Record, ks: seq<string>, negative: bool)
    requires Keys(d) == if negative then AddKey(AnnotatedKeys(ks), "Negative prompt") else AnnotatedKeys(ks)
    ensures HeaderCells(d) == DropKeys(ks, Excluded) + (if "Created" in ks then [] else ["Created"])
  {
    HeaderKeys(d);
    AnnotationKeys();
    DropAddKey(AnnotatedKeys(ks), "Negative prompt", Excluded);
    DropAnnotated(ks);
  }

  /** Lines 41 to 45 and 109 to 111 together: a file's header row lists the
      keys of its trailing line in the order they first appear there, less
      the excluded ones, then `Created` unless the trailing line set it. */
  lemma FileHeader(lines: seq<string>, image: string, created: int)
    requires ParseLines(lines, image, created).Ok?
    ensures |lines| >= 2 && SettingsPairs(lines[|lines| - 1]).Ok?
    ensures var first := FirstOccurrences(Keys(SettingsPairs(lines[|lines| - 1]).value));
            HeaderCells(ParseLines(lines, image, created).value)
            == DropKeys(first, Excluded) + (if "Created" in first then [] else ["Created"])
  {
    var last := lines[|lines| - 1];
    ParseLinesKeys(lines, image, created);
    ParseSettingsLastWins(last, "Created");
    HeaderOfAnnotated(ParseLines(lines, image, created).value, Keys(ParseSettings(last).value),
                      StartsWith(lines[1], NegativeMarker));
  }
}
