/** The exporter of the literature scraper: turning cached search records into
    BibTeX entries (write_bib), into flat metadata entries with a fixed
    defaulting policy (filter_data), and collecting the cached records of a
    directory walk, each tagged with the query it was cached under
    (read_pickles). */
module DataHandler {
  import opened PyValues
  import opened PyDicts
  import opened Paths

  /** A top-level value of a paper record: a plain value, or a nested dict
      (the "bib" dict of bibliographic fields). */
  datatype Item = Scalar(v: Value) | Nested(fields: Dict<Value>)

  /** One search record, as unpickled from the cache. */
  type Paper = Dict<Item>

  /** The bibliographic fields of a record: "bib_id", "title", "author", ... */
  type Bib = Dict<Value>

  /** The default for a missing field. */
  const NA: Value := Str("N/A")

  /** `paper.get("bib", {})`, to be read with `.get`: a missing "bib" is the
      empty dict, and a "bib" that is not a dict raises AttributeError as soon
      as `.get` is called on it. */
  function BibOf(paper: Paper): (r: Result<Bib>)
    ensures r.Failure? <==> HasKey(paper, "bib") && Get(paper, "bib").value.Scalar?
    ensures !HasKey(paper, "bib") ==> r == Success([])
    ensures r.Success? && HasKey(paper, "bib") ==> ("bib", Nested(r.value)) in paper
  {
    match Get<Item>(paper, "bib")
    case None => Success([])
    case Some(Nested(bib)) => Success(bib)
    case Some(Scalar(_)) => Failure(AttributeError)
  }

  //
  // write_bib
  //

  /** The first line: the entry type and the rendered "bib_id", which is
      `None` when the key is missing. */
  function Header(bib: Bib): string
  {
    "@article{" + Render(GetOr(bib, "bib_id", NoneValue)) + ",\n"
  }

  /** The line a field other than "bib_id" contributes. */
  function FieldLine(key: string, value: Value): string
  {
    "  " + key + " = {" + Render(value) + "},\n"
  }

  /** The field lines of `bib`, in the dict's order. */
  function FieldLines(bib: Bib): string
  {
    ConcatMap(LineOf, bib, |bib|)
  }

  /** What one item adds to the field lines: nothing for "bib_id". */
  function LineOf(item: (string, Value)): string
  {
    if IsField(item) then FieldLine(item.0, item.1) else ""
  }

  /** The BibTeX entry for a bib dict. */
  function BibText(bib: Bib): string
  {
    Header(bib) + FieldLines(bib) + "}\n\n"
  }

  /** What write_bib returns for a paper, or the exception it raises. */
  function BibEntryOf(paper: Paper): Result<string>
  {
    match BibOf(paper)
    case Success(bib) => Success(BibText(bib))
    case Failure(e) => Failure(e)
  }

  /** write_bib: the header, then one line per field in the dict's order,
      then the closing brace and a blank line. */
  method WriteBib(paper: Paper) returns (r: Result<string>)
    ensures r == BibEntryOf(paper)
  {
    var bibEntry: Bib;
    match BibOf(paper) {
      case Failure(e) => return Failure(e);
      case Success(bib) => bibEntry := bib;
    }
    var bibStr := Header(bibEntry);
    for i := 0 to |bibEntry|
      invariant bibStr == Header(bibEntry) + ConcatMap(LineOf, bibEntry, i)
    {
      var (key, value) := bibEntry[i];
      assert Header(bibEntry) + ConcatMap(LineOf, bibEntry, i) + LineOf(bibEntry[i])
        == Header(bibEntry) + (ConcatMap(LineOf, bibEntry, i) + LineOf(bibEntry[i]));
      if key != "bib_id" {
        bibStr := bibStr + FieldLine(key, value);
      } else {
        assert LineOf(bibEntry[i]) == [];
      }
    }
    bibStr := bibStr + "}\n\n";
    return Success(bibStr);
  }

  /** Every entry starts with "@article{", the rendered id and ",\n", and
      ends with "}\n\n"; the id is `None` without a "bib" or a "bib_id". The
      call fails exactly when "bib" holds something other than a dict. */
  lemma BibEntryFrame(paper: Paper)
    ensures BibEntryOf(paper).Failure? <==> Get(paper, "bib").Some? && Get(paper, "bib").value.Scalar?
    ensures BibEntryOf(paper).Success? ==>
      var text := BibEntryOf(paper).value;
      var id := Render(GetOr(BibOf(paper).value, "bib_id", NoneValue));
      && |text| >= 9 + |id| + 2 + 3
      && text[..9 + |id| + 2] == "@article{" + id + ",\n"
      && text[|text| - 3..] == "}\n\n"
    ensures BibEntryOf(paper).Success? && Get(BibOf(paper).value, "bib_id").None? ==>
      BibEntryOf(paper).value[..15] == "@article{None,\n"
  {
  }

  /** With no "bib", or an empty one, the entry is exactly "@article{None,\n}\n\n". */
  lemma EmptyBibEntry(paper: Paper)
    requires Get(paper, "bib") == None || Get(paper, "bib") == Some(Nested([]))
    ensures BibEntryOf(paper) == Success("@article{None,\n}\n\n")
  {
    var empty: Bib := [];
    assert "@article{None,\n" + "" + "}\n\n" == "@article{None,\n}\n\n";
    assert BibOf(paper) == Success(empty);
    assert Render(GetOr(empty, "bib_id", NoneValue)) == "None";
    assert Header(empty) == "@article{None,\n";
    assert FieldLines(empty) == "";
    assert BibText(empty) == "@article{None,\n" + "" + "}\n\n";
    assert BibEntryOf(paper) == Success(BibText(empty));
  }

  /** The bib dict of the worked example. */
  const SmithBib: Bib := [("bib_id", Str("smith2020")), ("title", Str("X")), ("author", Str("Smith"))]

  /** The worked example: "bib_id" goes into the header, the other fields
      follow in the dict's order. */
  lemma SmithEntry()
    ensures BibEntryOf([("bib", Nested(SmithBib))]) == Success(
      "@article{smith2020,\n" +
      "  title = {X},\n" +
      "  author = {Smith},\n" +
      "}\n\n")
  {
    var head, title, author, tail := "@article{smith2020,\n", "  title = {X},\n", "  author = {Smith},\n", "}\n\n";
    assert Get<Item>([("bib", Nested(SmithBib))], "bib") == Some(Nested(SmithBib));
    assert Get(SmithBib, "bib_id") == Some(Str("smith2020"));
    assert Header(SmithBib) == head;
    SmithFieldLines();
    assert head + (title + author) + tail == head + title + author + tail;
  }

  lemma SmithFieldLines()
    ensures FieldLines(SmithBib) == "  title = {X},\n" + "  author = {Smith},\n"
  {
    assert LineOf(SmithBib[1]) == "  title = {X},\n";
    assert LineOf(SmithBib[2]) == "  author = {Smith},\n";
    assert LineOf(SmithBib[0]) == [];
    assert ConcatMap(LineOf, SmithBib, 1) == [];
    assert ConcatMap(LineOf, SmithBib, 2) == "  title = {X},\n";
  }

  /** The field lines of two dicts laid end to end are the lines of the first
      followed by those of the second: each item contributes on its own, in
      order. */
  lemma FieldLinesAppend(a: Bib, b: Bib)
    ensures FieldLines(a + b) == FieldLines(a) + FieldLines(b)
  {
    ConcatMapAppend(LineOf, a, b, |b|);
  }

  /** A single item gives its one line, or nothing when it is "bib_id". */
  lemma FieldLinesSingle(key: string, value: Value)
    ensures FieldLines([(key, value)]) == if key == "bib_id" then "" else "  " + key + " = {" + Render(value) + "},\n"
  {
    assert ConcatMap(LineOf, [(key, value)], 0) == "";
  }

  /** An item that gets a line: every one but "bib_id". */
  predicate IsField(item: (string, Value))
  {
    item.0 != "bib_id"
  }

  /** The items of the first `n` that get a line, in the dict's order. */
  function Fields(bib: Bib, n: nat): (fields: Bib)
    requires n <= |bib|
    ensures forall i :: 0 <= i < |fields| ==> fields[i].0 != "bib_id"
  {
    Filter(IsField, bib, n)
  }

  /** The text write_bib builds is the lines of the fields other than
      "bib_id", each once, in the dict's order. */
  lemma FieldLinesOfFields(bib: Bib)
    ensures FieldLines(bib) == ConcatMap(LineOf, Fields(bib, |bib|), |Fields(bib, |bib|)|)
  {
    ConcatMapFilter(LineOf, IsField, bib, |bib|);
  }

  /** Each key other than "bib_id" has exactly one field: the fields are the
      items of the dict without "bib_id", so there is one fewer when the dict
      has a "bib_id". */
  lemma {:induction false} OneFieldPerKey(bib: Bib, n: nat)
    requires IsDict(bib) && n <= |bib|
    ensures |Fields(bib, n)| == n - (if exists j :: 0 <= j < n && bib[j].0 == "bib_id" then 1 else 0)
    ensures forall item :: item in Fields(bib, n) <==> item in bib[..n] && item.0 != "bib_id"
  {
    FilterMembers(IsField, bib, n);
    if n > 0 {
      OneFieldPerKey(bib, n - 1);
      if bib[n - 1].0 == "bib_id" {
        assert !exists j :: 0 <= j < n - 1 && bib[j].0 == "bib_id";
      }
    }
  }

  /** The width of the field lines: each field other than "bib_id" takes its
      key, its rendered value and nine more characters ("  ", " = {", "},\n"). */
  function FieldWidths(bib: Bib): nat
  {
    if bib == [] then 0
    else (if bib[0].0 != "bib_id" then |bib[0].0| + |Render(bib[0].1)| + 9 else 0) + FieldWidths(bib[1..])
  }

  /** The length of an entry: the header, the field lines, and the three
      closing characters "}\n\n". */
  lemma BibTextLength(bib: Bib)
    ensures |BibText(bib)| == |Header(bib)| + FieldWidths(bib) + 3
    ensures |Header(bib)| == 11 + |Render(GetOr(bib, "bib_id", NoneValue))|
  {
    FieldLinesWidth(bib);
  }

  lemma {:induction false} FieldLinesWidth(bib: Bib)
    ensures |FieldLines(bib)| == FieldWidths(bib)
  {
    if bib != [] {
      var first := [bib[0]];
      assert bib == first + bib[1..];
      FieldLinesAppend(first, bib[1..]);
      FieldLinesWidth(bib[1..]);
      assert ConcatMap(LineOf, first, 0) == "";
    }
  }

  //
  // filter_data
  //

  /** The flat metadata of one paper. The "abstract" field is `abstractText`. */
  datatype Entry = Entry(
    title: Value,
    authors: string,
    year: Value,
    venue: Value,
    abstractText: Value,
    citations: Item,
    url: Item,
    query: Item)

  /** The entry filter_data builds for one paper, or the exception it raises. */
  function Extract(paper: Paper): (r: Result<Entry>)
    ensures r.Failure? <==> HasKey(paper, "bib") && Get(paper, "bib").value.Scalar?
    ensures r.Success? ==>
      && (HasKey(BibOf(paper).value, "title") ==> ("title", r.value.title) in BibOf(paper).value)
      && (!HasKey(BibOf(paper).value, "title") ==> r.value.title == NA)
      && (!HasKey(BibOf(paper).value, "author") ==> r.value.authors == "N/A")
      && (!HasKey(BibOf(paper).value, "pub_year") ==> r.value.year == NA)
      && (!HasKey(BibOf(paper).value, "venue") ==> r.value.venue == NA)
      && (!HasKey(BibOf(paper).value, "abstract") ==> r.value.abstractText == NA)
      && (!HasKey(paper, "num_citations") ==> r.value.citations == Scalar(Int(0)))
      && (!HasKey(paper, "pub_url") ==> r.value.url == Scalar(NA))
      && (HasKey(paper, "query") ==> ("query", r.value.query) in paper)
      && (!HasKey(paper, "query") ==> r.value.query == Scalar(NoneValue))
  {
    match BibOf(paper)
    case Failure(e) => Failure(e)
    case Success(bib) =>
      Success(Entry(
        title := GetOr(bib, "title", NA),
        authors := Render(GetOr(bib, "author", NA)),
        year := GetOr(bib, "pub_year", NA),
        venue := GetOr(bib, "venue", NA),
        abstractText := GetOr(bib, "abstract", NA),
        citations := GetOr(paper, "num_citations", Scalar(Int(0))),
        url := GetOr(paper, "pub_url", Scalar(NA)),
        query := GetOr(paper, "query", Scalar(NoneValue))))
  }

  /** The two parallel lists filter_data returns. */
  datatype Exported = Exported(results: seq<Entry>, bibEntries: seq<string>)

  /** filter_data: one entry and one BibTeX entry per paper, in order; the
      whole call raises when some paper's "bib" is not a dict. */
  method FilterData(papers: seq<Paper>) returns (r: Result<Exported>)
    ensures r.Failure? <==> exists i :: 0 <= i < |papers| && BibOf(papers[i]).Failure?
    ensures r.Success? ==> |r.value.results| == |papers| && |r.value.bibEntries| == |papers|
    ensures r.Success? ==> forall i :: 0 <= i < |papers| ==>
      Extract(papers[i]) == Success(r.value.results[i]) && BibEntryOf(papers[i]) == Success(r.value.bibEntries[i])
  {
    var results: seq<Entry> := [];
    var bibEntries: seq<string> := [];
    for i := 0 to |papers|
      invariant |results| == i && |bibEntries| == i
      invariant forall j :: 0 <= j < i ==> Extract(papers[j]) == Success(results[j])
      invariant forall j :: 0 <= j < i ==> BibEntryOf(papers[j]) == Success(bibEntries[j])
    {
      var paper := papers[i];
      var entry := Extract(paper);
      if entry.Failure? {
        return Failure(entry.error);
      }
      ghost var extracted := results;
      results := results + [entry.value];
      forall j | 0 <= j <= i
        ensures Extract(papers[j]) == Success(results[j])
      {
        if j < i {
          assert results[j] == extracted[j];
        }
      }
      ExtractFailsWithBibEntry(paper);
      var bibEntry := WriteBib(paper);
      ghost var before := bibEntries;
      bibEntries := bibEntries + [bibEntry.value];
      forall j | 0 <= j <= i
        ensures BibEntryOf(papers[j]) == Success(bibEntries[j])
      {
        if j < i {
          assert bibEntries[j] == before[j];
        }
      }
    }
    return Success(Exported(results, bibEntries));
  }

  /** A paper without "bib" gives "N/A" for every bibliographic field. */
  lemma ExtractWithoutBib(paper: Paper)
    requires Get(paper, "bib") == None
    ensures Extract(paper).Success?
    ensures var e := Extract(paper).value;
      && e.title == NA && e.authors == "N/A" && e.year == NA
      && e.venue == NA && e.abstractText == NA
  {
  }

  /** The defaults for the record-level fields: 0 citations, "N/A" for the
      url, and None for a missing query. */
  lemma ExtractDefaults(paper: Paper)
    requires Extract(paper).Success?
    ensures Get(paper, "num_citations") == None ==> Extract(paper).value.citations == Scalar(Int(0))
    ensures Get(paper, "pub_url") == None ==> Extract(paper).value.url == Scalar(NA)
    ensures Get(paper, "query") == None ==> Extract(paper).value.query == Scalar(NoneValue)
  {
  }

  /** Fields that are present are copied unchanged, except the authors, which
      are always the `str()` of the "author" value. */
  lemma ExtractCopies(paper: Paper, bib: Bib)
    requires BibOf(paper) == Success(bib)
    ensures Extract(paper).Success?
    ensures var e := Extract(paper).value;
      && (forall v :: Get(bib, "title") == Some(v) ==> e.title == v)
      && (forall v :: Get(bib, "author") == Some(v) ==> e.authors == Render(v))
      && (Get(bib, "title") == None ==> e.title == NA)
      && (Get(bib, "author") == None ==> e.authors == "N/A")
      && (Get(bib, "pub_year") == None ==> e.year == NA)
      && (Get(bib, "venue") == None ==> e.venue == NA)
      && (Get(bib, "abstract") == None ==> e.abstractText == NA)
      && (forall v :: Get(bib, "pub_year") == Some(v) ==> e.year == v)
      && (forall v :: Get(bib, "venue") == Some(v) ==> e.venue == v)
      && (forall v :: Get(bib, "abstract") == Some(v) ==> e.abstractText == v)
      && (forall x :: Get(paper, "num_citations") == Some(x) ==> e.citations == x)
      && (forall x :: Get(paper, "pub_url") == Some(x) ==> e.url == x)
      && (forall x :: Get(paper, "query") == Some(x) ==> e.query == x)
  {
  }

  /** Extraction and write_bib fail on the same papers. */
  lemma ExtractFailsWithBibEntry(paper: Paper)
    ensures Extract(paper).Failure? <==> BibEntryOf(paper).Failure?
    ensures Extract(paper).Failure? <==> Get(paper, "bib").Some? && Get(paper, "bib").value.Scalar?
  {
  }

  //
  // read_pickles
  //

  /** A file of the cache: its name and, for a pickle file, the record it holds. */
  datatype CachedFile = CachedFile(name: string, content: Paper)

  /** One step of `Path.walk`: a directory and the files directly in it. */
  datatype WalkStep = WalkStep(dirpath: string, files: seq<CachedFile>)

  /** `file.endswith('.pickle')`. */
  predicate IsPickle(name: string)
  {
    EndsWith(name, ".pickle")
  }

  /** The pickle files are those named some base followed by ".pickle";
      "data.pickle.bak" and "pickle" are not among them. */
  lemma PickleNames()
    ensures forall name :: IsPickle(name) <==> exists base :: base + ".pickle" == name
    ensures IsPickle("data.pickle") && !IsPickle("data.pickle.bak") && !IsPickle("pickle")
  {
    forall name ensures IsPickle(name) <==> exists base :: base + ".pickle" == name {
      EndsWithSplit(name, ".pickle");
    }
    assert "data" + ".pickle" == "data.pickle";
  }

  /** The record with its "query" set to the stem of its directory. */
  function Tag(paper: Paper, dirpath: string): (r: Paper)
    ensures Get(r, "query") == Some(Scalar(Str(Stem(dirpath))))
    ensures forall k :: k != "query" ==> Get(r, k) == Get(paper, k)
  {
    Set(paper, "query", Scalar(Str(Stem(dirpath))))
  }

  /** The tagged records of the pickle files among `files`, in order. */
  function LoadDir(dirpath: string, files: seq<CachedFile>): seq<Paper>
  {
    if files == [] then []
    else
      var file := files[|files| - 1];
      LoadDir(dirpath, files[..|files| - 1]) + (if IsPickle(file.name) then [Tag(file.content, dirpath)] else [])
  }

  /** The tagged records of a whole walk, directory after directory. */
  function LoadAll(walk: seq<WalkStep>): seq<Paper>
  {
    if walk == [] then []
    else LoadAll(walk[..|walk| - 1]) + LoadDir(walk[|walk| - 1].dirpath, walk[|walk| - 1].files)
  }

  /** read_pickles over a given walk of the cache directory. */
  method ReadPickles(walk: seq<WalkStep>) returns (papers: seq<Paper>)
    ensures papers == LoadAll(walk)
  {
    papers := [];
    for d := 0 to |walk|
      invariant papers == LoadAll(walk[..d])
    {
      var step := walk[d];
      ghost var before := papers;
      for f := 0 to |step.files|
        invariant papers == before + LoadDir(step.dirpath, step.files[..f])
      {
        var file := step.files[f];
        LoadDirStep(before, papers, step.dirpath, step.files, f);
        if !IsPickle(file.name) {
          continue;
        }
        var paper := Tag(file.content, step.dirpath);
        papers := papers + [paper];
      }
      LoadAllStep(walk, d);
    }
    assert walk[..|walk|] == walk;
  }

  /** One more file of a directory: its tagged record if it is a pickle. */
  lemma LoadDirStep(before: seq<Paper>, papers: seq<Paper>, dirpath: string, files: seq<CachedFile>, f: nat)
    requires f < |files|
    requires papers == before + LoadDir(dirpath, files[..f])
    ensures !IsPickle(files[f].name) ==> papers == before + LoadDir(dirpath, files[..f + 1])
    ensures IsPickle(files[f].name) ==>
      papers + [Tag(files[f].content, dirpath)] == before + LoadDir(dirpath, files[..f + 1])
  {
    assert files[..f + 1][..f] == files[..f];
    var done, added := LoadDir(dirpath, files[..f]), LoadListing([(dirpath, files[f])]);
    LoadDirLast(dirpath, files[..f + 1]);
    assert before + done + added == before + (done + added);
    if IsPickle(files[f].name) {
      assert added == [TagFile((dirpath, files[f]))];
    } else {
      assert added == [];
    }
  }

  /** One more directory of the walk: the reading of all its files. */
  lemma LoadAllStep(walk: seq<WalkStep>, d: nat)
    requires d < |walk|
    ensures LoadAll(walk[..d + 1]) == LoadAll(walk[..d]) + LoadDir(walk[d].dirpath, walk[d].files[..|walk[d].files|])
  {
    assert walk[..d + 1][..d] == walk[..d];
    assert walk[d].files[..|walk[d].files|] == walk[d].files;
  }

  /** A walk as one flat listing of (directory, file) pairs, in walk order. */
  function Listing(walk: seq<WalkStep>): seq<(string, CachedFile)>
  {
    if walk == [] then []
    else Listing(walk[..|walk| - 1]) + InDir(walk[|walk| - 1])
  }

  function InDir(step: WalkStep): seq<(string, CachedFile)>
  {
    seq(|step.files|, i requires 0 <= i < |step.files| => (step.dirpath, step.files[i]))
  }

  /** The pickle files of a listing, in listing order. */
  function PickleFiles(listing: seq<(string, CachedFile)>): seq<(string, CachedFile)>
  {
    if listing == [] then []
    else (if IsPickle(listing[0].1.name) then [listing[0]] else []) + PickleFiles(listing[1..])
  }

  /** The reading of a flat listing: keep the pickle files, then tag each
      record with its directory. */
  function LoadListing(listing: seq<(string, CachedFile)>): seq<Paper>
  {
    Map(TagFile, PickleFiles(listing))
  }

  /** The record of a listed file, tagged with its directory. */
  function TagFile(listed: (string, CachedFile)): Paper
  {
    Tag(listed.1.content, listed.0)
  }

  /** The pickle files of a listing are exactly its files whose name ends
      with ".pickle". */
  lemma {:induction false} PickleFilesMembers(listing: seq<(string, CachedFile)>)
    ensures forall x :: x in PickleFiles(listing) <==> x in listing && IsPickle(x.1.name)
  {
    if listing != [] {
      PickleFilesMembers(listing[1..]);
      assert listing == [listing[0]] + listing[1..];
    }
  }

  lemma {:induction false} PickleFilesAppend(a: seq<(string, CachedFile)>, b: seq<(string, CachedFile)>)
    ensures PickleFiles(a + b) == PickleFiles(a) + PickleFiles(b)
  {
    if a == [] {
      assert a + b == b;
    } else {
      var head := if IsPickle(a[0].1.name) then [a[0]] else [];
      assert (a + b)[0] == a[0];
      assert (a + b)[1..] == a[1..] + b;
      PickleFilesAppend(a[1..], b);
      calc {
        PickleFiles(a + b);
        head + PickleFiles(a[1..] + b);
        head + (PickleFiles(a[1..]) + PickleFiles(b));
        (head + PickleFiles(a[1..])) + PickleFiles(b);
      }
    }
  }

  lemma {:induction false} LoadDirIsListing(step: WalkStep, n: nat)
    requires n <= |step.files|
    ensures LoadDir(step.dirpath, step.files[..n]) == LoadListing(InDir(step)[..n])
  {
    if n > 0 {
      var files := step.files[..n];
      assert files[..n - 1] == step.files[..n - 1];
      LoadDirIsListing(step, n - 1);
      var listing := InDir(step)[..n];
      assert listing == InDir(step)[..n - 1] + [(step.dirpath, step.files[n - 1])];
      LoadDirLast(step.dirpath, files);
      LoadListingAppend(InDir(step)[..n - 1], [(step.dirpath, step.files[n - 1])]);
    }
  }

  /** The last file of a directory adds what a one-file listing reads. */
  lemma LoadDirLast(dirpath: string, files: seq<CachedFile>)
    requires files != []
    ensures LoadDir(dirpath, files) ==
      LoadDir(dirpath, files[..|files| - 1]) + LoadListing([(dirpath, files[|files| - 1])])
  {
    var last := (dirpath, files[|files| - 1]);
    assert PickleFiles([last]) == (if IsPickle(last.1.name) then [last] else []);
    if IsPickle(last.1.name) {
      assert Map(TagFile, [last])[0] == TagFile(last);
    }
  }

  lemma {:induction false} LoadListingAppend(a: seq<(string, CachedFile)>, b: seq<(string, CachedFile)>)
    ensures LoadListing(a + b) == LoadListing(a) + LoadListing(b)
  {
    PickleFilesAppend(a, b);
    MapAppend(TagFile, PickleFiles(a), PickleFiles(b));
  }

  /** The nested loops of read_pickles read the same records, in the same
      order, as filtering the flat listing and tagging what is kept. */
  lemma {:induction false} LoadAllIsLoadListing(walk: seq<WalkStep>)
    ensures LoadAll(walk) == LoadListing(Listing(walk))
  {
    if walk != [] {
      var step := walk[|walk| - 1];
      LoadAllIsLoadListing(walk[..|walk| - 1]);
      LoadDirIsListing(step, |step.files|);
      assert step.files[..|step.files|] == step.files;
      assert InDir(step)[..|step.files|] == InDir(step);
      LoadListingAppend(Listing(walk[..|walk| - 1]), InDir(step));
    }
  }

  /** The listing holds a file under a directory exactly when the walk
      visited that directory and found the file in it. */
  lemma {:induction false} ListingMembers(walk: seq<WalkStep>)
    ensures forall dir, file :: (dir, file) in Listing(walk) <==>
      exists s :: s in walk && s.dirpath == dir && file in s.files
  {
    if walk != [] {
      var init := walk[..|walk| - 1];
      var step := walk[|walk| - 1];
      ListingMembers(init);
      assert walk == init + [step];
      forall dir, file
        ensures (dir, file) in InDir(step) <==> dir == step.dirpath && file in step.files
      {
        if dir == step.dirpath && file in step.files {
          var i :| 0 <= i < |step.files| && step.files[i] == file;
          assert InDir(step)[i] == (dir, file);
        }
      }
    }
  }

  /** read_pickles returns exactly the records of the ".pickle" files, in
      listing order, each tagged with the stem of its directory; every other
      key of a record is unchanged. */
  lemma ReadPicklesTags(walk: seq<WalkStep>)
    ensures var kept := PickleFiles(Listing(walk));
      && |LoadAll(walk)| == |kept|
      && (forall i :: 0 <= i < |kept| ==>
            && IsPickle(kept[i].1.name)
            && (exists s :: s in walk && s.dirpath == kept[i].0 && kept[i].1 in s.files)
            && Get(LoadAll(walk)[i], "query") == Some(Scalar(Str(Stem(kept[i].0))))
            && forall k :: k != "query" ==> Get(LoadAll(walk)[i], k) == Get(kept[i].1.content, k))
  {
    LoadAllIsLoadListing(walk);
    PickleFilesMembers(Listing(walk));
    ListingMembers(walk);
    var kept := PickleFiles(Listing(walk));
    forall i | 0 <= i < |kept|
      ensures exists s :: s in walk && s.dirpath == kept[i].0 && kept[i].1 in s.files
      ensures LoadAll(walk)[i] == Tag(kept[i].1.content, kept[i].0)
    {
      assert kept[i] in kept;
      assert (kept[i].0, kept[i].1) in Listing(walk);
      assert LoadAll(walk)[i] == TagFile(kept[i]);
    }
  }

  /** A file whose name does not end with ".pickle" contributes nothing. */
  lemma NonPickleIgnored(dirpath: string, before: seq<CachedFile>, file: CachedFile, after: seq<CachedFile>)
    requires !IsPickle(file.name)
    ensures LoadDir(dirpath, before + [file] + after) == LoadDir(dirpath, before + after)
  {
    LoadDirAppend(dirpath, before + [file], after);
    LoadDirAppend(dirpath, before, after);
    assert (before + [file])[..|before|] == before;
  }

  lemma {:induction false} LoadDirAppend(dirpath: string, a: seq<CachedFile>, b: seq<CachedFile>)
    ensures LoadDir(dirpath, a + b) == LoadDir(dirpath, a) + LoadDir(dirpath, b)
    decreases |b|
  {
    if b == [] {
      assert a + b == a;
    } else {
      assert (a + b)[..|a + b| - 1] == a + b[..|b| - 1];
      LoadDirAppend(dirpath, a, b[..|b| - 1]);
    }
  }
}
