/** The driver of csv_enricher/main.py (`main`): split the input into chunk
    files of 500 rows, list the scratch directory, sort the chunk files by
    the number before their first dot, then read, enrich and append each
    chunk to output.csv in that order, and finally delete the chunk files. */
module Pipeline {
  import opened Common
  import opened Text
  import opened CsvFunctions
  import opened CsvReading
  import opened Enrichment
  import opened CsvWriting

  /** The chunk size `main` passes to `split_csv_file`. */
  const ChunkSize: nat := 500

  /** The file the enriched rows are appended to. */
  const OutputPath: string := "output.csv"

  // ---------------------------------------------------------------------------
  // Sorting the chunk files

  /** The sort key `int(x.split(".")[0])`, None where `int` raises ValueError. */
  function ChunkKey(name: string): Option<int>
  {
    ParseInt(BeforeDot(name))
  }

  /** The key of a name whose key parses; 0 otherwise (never compared then). */
  function KeyOf(name: string): int
  {
    match ChunkKey(name)
    case Some(k) => k
    case None => 0
  }

  /** `s` is in non-decreasing order of `key`. */
  predicate SortedBy(s: seq<string>, key: string -> int)
  {
    forall i, j :: 0 <= i < j < |s| ==> key(s[i]) <= key(s[j])
  }

  /** Inserts x after every element whose key is not greater than its own,
      so that among equal keys the earlier-listed name stays first. */
  function Insert(x: string, s: seq<string>, key: string -> int): seq<string>
  {
    if s == [] then [x]
    else if key(x) < key(s[0]) then [x] + s
    else [s[0]] + Insert(x, s[1..], key)
  }

  lemma {:induction false} InsertPermutes(x: string, s: seq<string>, key: string -> int)
    ensures multiset(Insert(x, s, key)) == multiset(s) + multiset{x}
  {
    if s != [] && key(x) >= key(s[0]) {
      InsertPermutes(x, s[1..], key);
      assert s == [s[0]] + s[1..];
    }
  }

  /** Inserting into a key-ordered sequence keeps it key-ordered. */
  lemma {:induction false} InsertSorted(x: string, s: seq<string>, key: string -> int)
    requires SortedBy(s, key)
    ensures SortedBy(Insert(x, s, key), key)
  {
    if s != [] && key(x) >= key(s[0]) {
      var rest := Insert(x, s[1..], key);
      InsertSorted(x, s[1..], key);
      InsertPermutes(x, s[1..], key);
      forall i | 0 <= i < |rest| ensures key(s[0]) <= key(rest[i]) {
        assert rest[i] in multiset(rest);
        if rest[i] != x {
          assert rest[i] in s[1..];
        }
      }
    }
  }

  /** Python's `sorted(s, key=key)`: insertion sort, stable like Python's. */
  function SortBy(s: seq<string>, key: string -> int): seq<string>
  {
    if s == [] then [] else Insert(s[|s| - 1], SortBy(s[..|s| - 1], key), key)
  }

  /** The sort returns a key-ordered permutation of its input. */
  lemma {:induction false} SortBySortsAndPermutes(s: seq<string>, key: string -> int)
    ensures SortedBy(SortBy(s, key), key)
    ensures multiset(SortBy(s, key)) == multiset(s)
  {
    if s != [] {
      var init := s[..|s| - 1];
      SortBySortsAndPermutes(init, key);
      InsertSorted(s[|s| - 1], SortBy(init, key), key);
      InsertPermutes(s[|s| - 1], SortBy(init, key), key);
      assert s == init + [s[|s| - 1]];
    }
  }

  /** The index of the first name whose key does not parse. */
  function FirstUnparsable(names: seq<string>): (i: Option<nat>)
    ensures i.None? <==> forall j :: 0 <= j < |names| ==> ChunkKey(names[j]).Some?
    ensures i.Some? ==> i.value < |names| && ChunkKey(names[i.value]).None?
    ensures i.Some? ==> forall j :: 0 <= j < i.value ==> ChunkKey(names[j]).Some?
  {
    if names == [] then None
    else if ChunkKey(names[0]).None? then Some(0)
    else match FirstUnparsable(names[1..])
      case None => None
      case Some(i) => Some(i + 1)
  }

  /** `sorted(files, key=lambda x: int(x.split(".")[0]))`: all keys are
      computed first, in list order, so the first name whose key does not
      parse raises ValueError; otherwise the names in key order. */
  function SortChunkNames(names: seq<string>): (r: Result<seq<string>>)
    ensures r.Ok? <==> forall i :: 0 <= i < |names| ==> ChunkKey(names[i]).Some?
    ensures r.Ok? ==> SortedBy(r.value, KeyOf) && multiset(r.value) == multiset(names)
    ensures r.Err? ==>
      exists i :: 0 <= i < |names| && ChunkKey(names[i]).None? && r.error == ValueError(BeforeDot(names[i]))
                  && forall j :: 0 <= j < i ==> ChunkKey(names[j]).Some?
  {
    match FirstUnparsable(names)
    case Some(i) => Err(ValueError(BeforeDot(names[i])))
    case None =>
      SortBySortsAndPermutes(names, KeyOf);
      Ok(SortBy(names, KeyOf))
  }

  /** A key-sorted permutation of a sequence whose keys strictly increase is
      that very sequence. */
  lemma {:induction false} SortedPermutationUnique(s: seq<string>, t: seq<string>, key: string -> int)
    requires SortedBy(s, key) && multiset(s) == multiset(t)
    requires forall i, j :: 0 <= i < j < |t| ==> key(t[i]) < key(t[j])
    ensures s == t
  {
    assert |s| == |multiset(s)| == |t|;
    if s != [] {
      SameHead(s, t, key);
      TailPermutation(s, t);
      TailOrdered(s, t, key);
      SortedPermutationUnique(s[1..], t[1..], key);
      assert s == [s[0]] + s[1..] && t == [t[0]] + t[1..];
    }
  }

  /** Dropping the same first element from two permutations of each other
      leaves permutations of each other. */
  lemma TailPermutation(s: seq<string>, t: seq<string>)
    requires s != [] && t != [] && s[0] == t[0] && multiset(s) == multiset(t)
    ensures multiset(s[1..]) == multiset(t[1..])
  {
    assert s == [s[0]] + s[1..] && t == [t[0]] + t[1..];
    assert multiset(s[1..]) == multiset(s) - multiset{s[0]};
    assert multiset(t[1..]) == multiset(t) - multiset{t[0]};
  }

  /** The tails keep their orders. */
  lemma TailOrdered(s: seq<string>, t: seq<string>, key: string -> int)
    requires s != [] && t != []
    requires SortedBy(s, key)
    requires forall i, j :: 0 <= i < j < |t| ==> key(t[i]) < key(t[j])
    ensures SortedBy(s[1..], key)
    ensures forall i, j :: 0 <= i < j < |t[1..]| ==> key(t[1..][i]) < key(t[1..][j])
  {
    var s', t' := s[1..], t[1..];
    forall i, j | 0 <= i < j < |s'| ensures key(s'[i]) <= key(s'[j]) {
      assert s'[i] == s[i + 1] && s'[j] == s[j + 1];
    }
    forall i, j | 0 <= i < j < |t'| ensures key(t'[i]) < key(t'[j]) {
      assert t'[i] == t[i + 1] && t'[j] == t[j + 1];
    }
  }

  /** Both sequences start with the element of least key. */
  lemma SameHead(s: seq<string>, t: seq<string>, key: string -> int)
    requires s != [] && |s| == |t|
    requires SortedBy(s, key) && multiset(s) == multiset(t)
    requires forall i, j :: 0 <= i < j < |t| ==> key(t[i]) < key(t[j])
    ensures s[0] == t[0]
  {
    assert s[0] in multiset(t);
    var k :| 0 <= k < |t| && t[k] == s[0];
    assert t[0] in multiset(s);
    var l :| 0 <= l < |s| && s[l] == t[0];
    assert key(s[0]) <= key(s[l]);
  }

  /** The chunk file names in numeric order: 1.csv, 2.csv, ..., n.csv. */
  function Canonical(n: nat): seq<string>
  {
    seq(n, i requires 0 <= i < n => ChunkName(i + 1))
  }

  /** The key of chunk file n is n. */
  lemma ChunkKeyOfName(n: nat)
    ensures ChunkKey(ChunkName(n)) == Some(n)
  {
    ChunkNameParts(n);
    ParseIntNatToString(n);
  }

  /** Every name of the numeric order has a key, and the keys strictly increase. */
  lemma CanonicalStrict(n: nat)
    ensures forall x :: x in Canonical(n) ==> ChunkKey(x).Some?
    ensures forall i, j :: 0 <= i < j < n ==> KeyOf(Canonical(n)[i]) < KeyOf(Canonical(n)[j])
  {
    forall i | 0 <= i < n ensures ChunkKey(Canonical(n)[i]) == Some(i + 1) {
      ChunkKeyOfName(i + 1);
    }
  }

  /** No chunk file is called `.gitkeep`: chunk names start with a digit. */
  lemma ChunkNameNotGitKeep(n: nat)
    ensures ChunkName(n) != GitKeep
  {
    assert ChunkName(n)[0] == NatToString(n)[0];
  }

  /** `.gitkeep` has no suffix, so the clean-up never deletes it. */
  lemma GitKeepNotTemp(entry: Entry)
    ensures !IsTempCsv(GitKeep, entry)
  {
    assert GitKeep[0] == '.';
    assert forall j :: 0 < j < |GitKeep| ==> GitKeep[j] != '.';
    assert LastDot(GitKeep) == 0;
  }

  /** In a sequence without repetitions every element occurs once. */
  lemma DistinctMultiset(s: seq<string>)
    requires forall i, j :: 0 <= i < j < |s| ==> s[i] != s[j]
    ensures forall x :: multiset(s)[x] == if x in s then 1 else 0
  {
    forall x ensures multiset(s)[x] == if x in s then 1 else 0 {
      DistinctCount(s, x);
    }
  }

  // ---------------------------------------------------------------------------
  // The state after each step of `main`

  /** `os.listdir` of `dir` returned `listing`: each entry name exactly once. */
  ghost predicate IsListing(dir: map<string, Entry>, listing: seq<string>)
  {
    && (forall i, j :: 0 <= i < j < |listing| ==> listing[i] != listing[j])
    && (forall name :: name in listing <==> name in dir)
  }

  /** The number of chunk files a split of `input` writes. */
  function ChunkCount(input: seq<Record>): nat
    requires input != []
  {
    (|input| - 1) / ChunkSize + 1
  }

  /** The scratch directory after `split_csv_file` succeeded on `input`. */
  function Split(scratch: map<string, Entry>, input: seq<Record>): map<string, Entry>
    requires input != []
  {
    scratch + ChunkFiles(input[0], Chunks(input[1..], ChunkSize))
  }

  /** One iteration of the loop of `main`: read chunk `name`, enrich its
      rows, append the result to the output file. */
  function ChunkStep(dir: map<string, Entry>, name: string, files: map<string, seq<Record>>,
                     registry: string -> Response, parse: string -> Option<real>, format: real -> string)
    : (map<string, seq<Record>>, Outcome)
  {
    match ReadCsv(dir, name)
    case Err(e) => (files, Fail(e))
    case Ok(read) =>
      match EnrichOutcome(read.0, read.1, registry, parse)
      case Err(e) => (files, Fail(e))
      case Ok(enriched) => Written(files, OutputPath, enriched, format)
  }

  /** The loop of `main` over the chunk files in `order`, stopping at the first exception. */
  function ProcessChunks(dir: map<string, Entry>, order: seq<string>, files: map<string, seq<Record>>,
                         registry: string -> Response, parse: string -> Option<real>, format: real -> string)
    : (map<string, seq<Record>>, Outcome)
  {
    if order == [] then (files, Pass)
    else
      var (done, outcome) := ProcessChunks(dir, order[..|order| - 1], files, registry, parse, format);
      if outcome.Fail? then (done, outcome)
      else ChunkStep(dir, order[|order| - 1], done, registry, parse, format)
  }

  /** What `main` leaves behind (scratch directory, other files, completion)
      when the scratch directory's listing comes out as `listing`. An
      exception stops it where it is raised: nothing is rolled back and the
      chunk files stay. */
  function MainResult(scratch: map<string, Entry>, files: map<string, seq<Record>>, input: string, listing: seq<string>,
                      registry: string -> Response, parse: string -> Option<real>, format: real -> string)
    : (map<string, Entry>, map<string, seq<Record>>, Outcome)
  {
    if input !in files then (scratch, files, Fail(FileNotFoundError(input)))
    else if files[input] == [] then (scratch, files, Fail(StopAsyncIteration))
    else
      var split := Split(scratch, files[input]);
      match SortChunkNames(GetFilesInDirectory(listing))
      case Err(e) => (split, files, Fail(e))
      case Ok(order) =>
        var (files', outcome) := ProcessChunks(split, order, files, registry, parse, format);
        (if outcome.Pass? then Cleaned(split) else split, files', outcome)
  }

  /** `main`: the scratch directory and the other files are threaded through
      the steps; `listing` is what `os.listdir` returned. */
  method RunPipeline(scratch: map<string, Entry>, files: map<string, seq<Record>>, input: string,
                     registry: string -> Response, parse: string -> Option<real>, format: real -> string)
    returns (scratch': map<string, Entry>, files': map<string, seq<Record>>, outcome: Outcome, ghost listing: seq<string>)
    ensures input in files && files[input] != [] ==> IsListing(Split(scratch, files[input]), listing)
    ensures (scratch', files', outcome) == MainResult(scratch, files, input, listing, registry, parse, format)
  {
    listing := [];
    if input !in files {
      return scratch, files, Fail(FileNotFoundError(input)), listing;
    }
    var split, splitOutcome := SplitCsvFile(scratch, files[input], ChunkSize);
    if splitOutcome.Fail? {
      return scratch, files, splitOutcome, listing;
    }
    var names := ListDir(split);
    listing := names;
    var chunkFiles := GetFilesInDirectory(names);
    var sorted := SortChunkNames(chunkFiles);
    if sorted.Err? {
      return split, files, Fail(sorted.error), listing;
    }
    var processed, processOutcome := RunChunks(split, sorted.value, files, registry, parse, format);
    if processOutcome.Fail? {
      return split, processed, processOutcome, listing;
    }
    scratch' := CleanTempCsvFiles(split);
    files' := processed;
    outcome := Pass;
  }

  /** The loop of `main`: read, enrich and append each chunk file of `order`
      in turn; the first exception ends it. */
  method RunChunks(dir: map<string, Entry>, order: seq<string>, files: map<string, seq<Record>>,
                   registry: string -> Response, parse: string -> Option<real>, format: real -> string)
    returns (files': map<string, seq<Record>>, outcome: Outcome)
    ensures (files', outcome) == ProcessChunks(dir, order, files, registry, parse, format)
  {
    files' := files;
    var k := 0;
    while k < |order|
      invariant 0 <= k <= |order|
      invariant ProcessChunks(dir, order[..k], files, registry, parse, format) == (files', Pass)
    {
      ProcessSnoc(dir, order, k, files, registry, parse, format);
      var written, stepOutcome := ProcessChunk(dir, order[k], files', registry, parse, format);
      files' := written;
      if stepOutcome.Fail? {
        ProcessStops(dir, order, k + 1, files, registry, parse, format);
        return files', stepOutcome;
      }
      k := k + 1;
    }
    assert order[..k] == order;
    outcome := Pass;
  }

  /** One iteration of the loop: `read_csv_async`, `enrich`, `write_data_to_csv`. */
  method ProcessChunk(dir: map<string, Entry>, name: string, files: map<string, seq<Record>>,
                      registry: string -> Response, parse: string -> Option<real>, format: real -> string)
    returns (files': map<string, seq<Record>>, outcome: Outcome)
    ensures (files', outcome) == ChunkStep(dir, name, files, registry, parse, format)
  {
    var read := ReadCsvAsync(dir, name);
    if read.Err? {
      return files, Fail(read.error);
    }
    var enriched := Enrich(read.value.0, read.value.1, registry, parse);
    if enriched.Err? {
      return files, Fail(enriched.error);
    }
    files', outcome := WriteDataToCsv(files, OutputPath, enriched.value, format);
  }

  /** After k chunks without an exception, chunk k+1 is one more step. */
  lemma ProcessSnoc(dir: map<string, Entry>, order: seq<string>, k: nat, files: map<string, seq<Record>>,
                    registry: string -> Response, parse: string -> Option<real>, format: real -> string)
    requires k < |order| && ProcessChunks(dir, order[..k], files, registry, parse, format).1.Pass?
    ensures ProcessChunks(dir, order[..k + 1], files, registry, parse, format)
         == ChunkStep(dir, order[k], ProcessChunks(dir, order[..k], files, registry, parse, format).0, registry, parse, format)
  {
    assert order[..k + 1][..k] == order[..k];
  }

  /** Once the loop has raised at chunk n, the later chunks change nothing. */
  lemma {:induction false} ProcessStops(dir: map<string, Entry>, order: seq<string>, n: nat, files: map<string, seq<Record>>,
                                        registry: string -> Response, parse: string -> Option<real>, format: real -> string)
    requires n <= |order| && ProcessChunks(dir, order[..n], files, registry, parse, format).1.Fail?
    ensures ProcessChunks(dir, order, files, registry, parse, format) == ProcessChunks(dir, order[..n], files, registry, parse, format)
    decreases |order| - n
  {
    if n < |order| {
      assert order[..n + 1][..n] == order[..n];
      ProcessStops(dir, order, n + 1, files, registry, parse, format);
    } else {
      assert order[..n] == order;
    }
  }

  // ---------------------------------------------------------------------------
  // Properties of a run on a fresh scratch directory

  /** A scratch directory that holds nothing but (possibly) `.gitkeep`. */
  ghost predicate Fresh(scratch: map<string, Entry>)
  {
    forall name :: name in scratch ==> name == GitKeep
  }

  /** The names 1.csv .. m.csv, each once. */
  lemma CanonicalMembers(m: nat)
    ensures forall i, j :: 0 <= i < j < m ==> Canonical(m)[i] != Canonical(m)[j]
    ensures forall x :: x in Canonical(m) <==> exists i :: 1 <= i <= m && x == ChunkName(i)
  {
    var canon := Canonical(m);
    forall i, j | 0 <= i < j < m ensures canon[i] != canon[j] {
      if canon[i] == canon[j] {
        ChunkNameInjective(i + 1, j + 1);
      }
    }
    forall x | exists i :: 1 <= i <= m && x == ChunkName(i) ensures x in canon {
      var i :| 1 <= i <= m && x == ChunkName(i);
      assert canon[i - 1] == x;
    }
  }

  /** On a fresh scratch directory the files left after dropping `.gitkeep`
      from the listing are exactly the chunk files, each once. */
  lemma FreshChunkFiles(scratch: map<string, Entry>, input: seq<Record>, listing: seq<string>)
    requires Fresh(scratch) && input != []
    requires IsListing(Split(scratch, input), listing)
    ensures multiset(GetFilesInDirectory(listing)) == multiset(Canonical(ChunkCount(input)))
  {
    var m := ChunkCount(input);
    var chunkFiles := ChunkFiles(input[0], Chunks(input[1..], ChunkSize));
    var canon := Canonical(m);
    SplitFileNames(input[0], input[1..], ChunkSize);
    CanonicalMembers(m);
    var files := GetFilesInDirectory(listing);
    DistinctMultiset(listing);
    DistinctMultiset(canon);
    forall x ensures multiset(files)[x] == multiset(canon)[x] {
      if x == GitKeep {
        if x in canon {
          var i :| 1 <= i <= m && x == ChunkName(i);
          ChunkNameNotGitKeep(i);
        }
      } else {
        assert x in listing <==> x in chunkFiles;
      }
    }
    assert multiset(files) == multiset(canon);
  }

  /** On a fresh scratch directory the chunk files are processed in numeric
      order 1.csv, 2.csv, ..., whatever order the listing came in. */
  lemma FreshChunkOrder(scratch: map<string, Entry>, input: seq<Record>, listing: seq<string>)
    requires Fresh(scratch) && input != []
    requires IsListing(Split(scratch, input), listing)
    ensures SortChunkNames(GetFilesInDirectory(listing)) == Ok(Canonical(ChunkCount(input)))
  {
    var m := ChunkCount(input);
    var canon := Canonical(m);
    var files := GetFilesInDirectory(listing);
    FreshChunkFiles(scratch, input, listing);
    CanonicalStrict(m);
    forall i | 0 <= i < |files| ensures ChunkKey(files[i]).Some? {
      assert files[i] in multiset(files);
      assert files[i] in canon;
    }
    SortBySortsAndPermutes(files, KeyOf);
    SortedPermutationUnique(SortBy(files, KeyOf), canon, KeyOf);
  }

  /** Cleaning up after a split into a fresh scratch directory deletes every
      chunk file and keeps `.gitkeep`. */
  lemma CleanedFreshSplit(scratch: map<string, Entry>, input: seq<Record>)
    requires Fresh(scratch) && input != []
    ensures Cleaned(Split(scratch, input)) == scratch
  {
    var split := Split(scratch, input);
    var chunkFiles := ChunkFiles(input[0], Chunks(input[1..], ChunkSize));
    ChunkFilesTemp(input[0], Chunks(input[1..], ChunkSize));
    var cleaned := Cleaned(split);
    forall name ensures name in cleaned <==> name in scratch {
      if name in scratch && name !in chunkFiles {
        GitKeepNotTemp(scratch[name]);
      }
    }
    assert cleaned == scratch;
  }

  /** Every chunk file is a regular `.csv` file, and none is `.gitkeep`. */
  lemma ChunkFilesTemp(header: Record, cs: seq<seq<Record>>)
    ensures forall name :: name in ChunkFiles(header, cs) ==> IsTempCsv(name, ChunkFiles(header, cs)[name]) && name != GitKeep
  {
    var chunkFiles := ChunkFiles(header, cs);
    ChunkFilesAt(header, cs);
    forall name | name in chunkFiles ensures IsTempCsv(name, chunkFiles[name]) && name != GitKeep {
      var i :| 1 <= i <= |cs| && name == ChunkName(i);
      ChunkNameParts(i);
      ChunkNameNotGitKeep(i);
    }
  }

  /** A successful run on a fresh scratch directory leaves it as it found it. */
  lemma MainRestoresScratch(scratch: map<string, Entry>, files: map<string, seq<Record>>, input: string, listing: seq<string>,
                            registry: string -> Response, parse: string -> Option<real>, format: real -> string)
    requires Fresh(scratch)
    requires MainResult(scratch, files, input, listing, registry, parse, format).2 == Pass
    ensures MainResult(scratch, files, input, listing, registry, parse, format).0 == scratch
  {
    CleanedFreshSplit(scratch, files[input]);
  }

  // ---------------------------------------------------------------------------
  // End to end: rows the registry does not know pass through unchanged

  /** An input table the pipeline can carry through: a header that names
      only output columns and includes `lei`, and one field per header name
      in every non-blank record. */
  ghost predicate WellFormedTable(input: seq<Record>)
  {
    && input != []
    && "lei" in input[0]
    && (forall name :: name in input[0] ==> name in Fieldnames)
    && FullRecords(input[0], input[1..])
  }

  /** The registry answers every lookup with status 200 and no entity. */
  ghost predicate KnowsNoEntity(registry: string -> Response)
  {
    forall filter :: registry(filter) == Response(200, [])
  }

  /** The output records of the rows of `records` read under `header`. */
  function OutputOf(header: Record, records: seq<Record>, format: real -> string): seq<Record>
  {
    Projected(ZipRows(header, NonBlank(records)), format)
  }

  lemma OutputOfAppend(header: Record, a: seq<Record>, b: seq<Record>, format: real -> string)
    ensures OutputOf(header, a + b, format) == OutputOf(header, a, format) + OutputOf(header, b, format)
  {
    NonBlankAppend(a, b);
    var x, y := NonBlank(a), NonBlank(b);
    assert ZipRows(header, x + y) == ZipRows(header, x) + ZipRows(header, y);
    assert Projected(ZipRows(header, x) + ZipRows(header, y), format)
        == Projected(ZipRows(header, x), format) + Projected(ZipRows(header, y), format);
  }

  /** Full records in the whole give full records in every part. */
  lemma {:induction false} FlattenFull(header: Record, parts: seq<seq<Record>>)
    requires FullRecords(header, Flatten(parts))
    ensures forall n :: 0 <= n < |parts| ==> FullRecords(header, parts[n])
  {
    if parts != [] {
      assert forall i :: 0 <= i < |parts[0]| ==> parts[0][i] == Flatten(parts)[i];
      assert forall i :: 0 <= i < |Flatten(parts[1..])| ==> Flatten(parts[1..])[i] == Flatten(parts)[|parts[0]| + i];
      FlattenFull(header, parts[1..]);
      assert forall n :: 1 <= n < |parts| ==> parts[n] == parts[1..][n - 1];
    }
  }

  /** The other files after `records` were appended to the output file
      (after a header row, when it did not exist). */
  function AppendOutput(files: map<string, seq<Record>>, records: seq<Record>): map<string, seq<Record>>
  {
    files[OutputPath := Opened(files, OutputPath) + records]
  }

  /** One chunk of full records under a fitting header, with a registry that
      knows no entity: read, enriched (unchanged) and appended without error. */
  lemma FreshStep(dir: map<string, Entry>, name: string, header: Record, chunk: seq<Record>, files: map<string, seq<Record>>,
                  registry: string -> Response, parse: string -> Option<real>, format: real -> string)
    requires name in dir && dir[name] == File([header] + chunk)
    requires "lei" in header && forall c :: c in header ==> c in Fieldnames
    requires FullRecords(header, chunk)
    requires KnowsNoEntity(registry)
    ensures ChunkStep(dir, name, files, registry, parse, format) == (AppendOutput(files, OutputOf(header, chunk, format)), Pass)
  {
    assert ([header] + chunk)[1..] == chunk;
    var records: seq<Record> := NonBlank(chunk);
    var rows: seq<Row> := ZipRows(header, records);
    assert DictRows([header] + chunk) == rows;
    NonBlankFull(header, chunk);
    forall i | 0 <= i < |rows| ensures "lei" in rows[i] && rows[i]["lei"].Str? && RowFits(rows[i]) {
      ZipRowStr(header, records[i]);
    }
    var read := ReadCsv(dir, name);
    assert read == Ok((rows, seq(|rows|, i requires 0 <= i < |rows| => rows[i]["lei"])));
    assert Lookup(registry, read.value.1).Ok?;
    assert EnrichOutcome(rows, read.value.1, registry, parse) == Ok(rows);
  }

  /** The loop's n-th iteration over chunk files 1..n, after n-1 iterations
      that left `prev` and raised nothing. */
  lemma CanonicalStep(dir: map<string, Entry>, header: Record, chunk: seq<Record>, n: nat, files: map<string, seq<Record>>,
                      prev: map<string, seq<Record>>, registry: string -> Response, parse: string -> Option<real>, format: real -> string)
    requires n > 0 && ProcessChunks(dir, Canonical(n - 1), files, registry, parse, format) == (prev, Pass)
    requires ChunkName(n) in dir && dir[ChunkName(n)] == File([header] + chunk)
    requires "lei" in header && forall c :: c in header ==> c in Fieldnames
    requires FullRecords(header, chunk)
    requires KnowsNoEntity(registry)
    ensures ProcessChunks(dir, Canonical(n), files, registry, parse, format) == (AppendOutput(prev, OutputOf(header, chunk, format)), Pass)
  {
    assert Canonical(n)[..n - 1] == Canonical(n - 1);
    FreshStep(dir, ChunkName(n), header, chunk, prev, registry, parse, format);
  }

  /** Processing chunk files 1..n, where file i holds the header and the i-th
      chunk, appends the output records of chunks 1..n in that order. */
  lemma {:induction false} ProcessCanonical(dir: map<string, Entry>, header: Record, cs: seq<seq<Record>>, n: nat,
                                            files: map<string, seq<Record>>, registry: string -> Response,
                                            parse: string -> Option<real>, format: real -> string)
    requires 0 < n <= |cs|
    requires forall i :: 1 <= i <= |cs| ==> ChunkName(i) in dir && dir[ChunkName(i)] == File([header] + cs[i - 1])
    requires "lei" in header && forall c :: c in header ==> c in Fieldnames
    requires forall i :: 0 <= i < |cs| ==> FullRecords(header, cs[i])
    requires KnowsNoEntity(registry)
    ensures ProcessChunks(dir, Canonical(n), files, registry, parse, format)
         == (AppendOutput(files, OutputOf(header, Flatten(cs[..n]), format)), Pass)
  {
    assert cs[..n] == cs[..n - 1] + [cs[n - 1]];
    FlattenSnoc(cs[..n - 1], cs[n - 1]);
    if n == 1 {
      assert Canonical(0) == [];
      assert Flatten(cs[..1]) == cs[0] by {
        assert Flatten(cs[..0]) == [];
      }
      CanonicalStep(dir, header, cs[0], 1, files, files, registry, parse, format);
    } else {
      ProcessCanonical(dir, header, cs, n - 1, files, registry, parse, format);
      var a := OutputOf(header, Flatten(cs[..n - 1]), format);
      CanonicalStep(dir, header, cs[n - 1], n, files, AppendOutput(files, a), registry, parse, format);
      OutputOfAppend(header, Flatten(cs[..n - 1]), cs[n - 1], format);
      var b := OutputOf(header, cs[n - 1], format);
      AppendTwice(files, OutputPath, a, b);
    }
  }

  /** A run over a fresh scratch directory and a well-formed input, against
      a registry that knows none of the keys, succeeds, leaves the scratch
      directory as it was, and appends to output.csv (after a header row
      when the file is new) exactly the rows the csv reader reads from the
      input, in input order: chunking neither loses, repeats nor reorders a row. */
  lemma MainPassesRowsThrough(scratch: map<string, Entry>, files: map<string, seq<Record>>, input: string, listing: seq<string>,
                              registry: string -> Response, parse: string -> Option<real>, format: real -> string)
    requires Fresh(scratch) && input in files && WellFormedTable(files[input])
    requires IsListing(Split(scratch, files[input]), listing)
    requires KnowsNoEntity(registry)
    ensures MainResult(scratch, files, input, listing, registry, parse, format)
         == (scratch, AppendOutput(files, Projected(DictRows(files[input]), format)), Pass)
  {
    FreshChunkOrder(scratch, files[input], listing);
    FreshSplitProcessed(scratch, files[input], files, registry, parse, format);
    CleanedFreshSplit(scratch, files[input]);
  }

  /** The loop over chunk files 1..m of a split of a well-formed table into a
      fresh scratch directory appends the rows the reader reads from the table. */
  lemma FreshSplitProcessed(scratch: map<string, Entry>, table: seq<Record>, files: map<string, seq<Record>>,
                            registry: string -> Response, parse: string -> Option<real>, format: real -> string)
    requires WellFormedTable(table) && KnowsNoEntity(registry)
    ensures ProcessChunks(Split(scratch, table), Canonical(ChunkCount(table)), files, registry, parse, format)
         == (AppendOutput(files, Projected(DictRows(table), format)), Pass)
  {
    var header, rows := table[0], table[1..];
    var cs := Chunks(rows, ChunkSize);
    ChunksShape(rows, ChunkSize);
    assert |cs| == ChunkCount(table) && Flatten(cs) == rows;
    SplitHoldsChunks(scratch, table);
    ProcessAllChunks(Split(scratch, table), header, cs, files, registry, parse, format);
    assert OutputOf(header, rows, format) == Projected(DictRows(table), format);
  }

  /** Processing the chunk files 1..|cs| in order appends the output of all the chunks' records. */
  lemma ProcessAllChunks(dir: map<string, Entry>, header: Record, cs: seq<seq<Record>>,
                         files: map<string, seq<Record>>, registry: string -> Response,
                         parse: string -> Option<real>, format: real -> string)
    requires cs != []
    requires forall i :: 1 <= i <= |cs| ==> ChunkName(i) in dir && dir[ChunkName(i)] == File([header] + cs[i - 1])
    requires "lei" in header && forall c :: c in header ==> c in Fieldnames
    requires FullRecords(header, Flatten(cs))
    requires KnowsNoEntity(registry)
    ensures ProcessChunks(dir, Canonical(|cs|), files, registry, parse, format)
         == (AppendOutput(files, OutputOf(header, Flatten(cs), format)), Pass)
  {
    FlattenFull(header, cs);
    ProcessCanonical(dir, header, cs, |cs|, files, registry, parse, format);
    assert cs[..|cs|] == cs;
  }

  /** After the split, chunk file i of the scratch directory holds the header and chunk i. */
  lemma SplitHoldsChunks(scratch: map<string, Entry>, table: seq<Record>)
    requires table != []
    ensures var cs := Chunks(table[1..], ChunkSize);
      forall i :: 1 <= i <= |cs| ==>
        ChunkName(i) in Split(scratch, table) && Split(scratch, table)[ChunkName(i)] == File([table[0]] + cs[i - 1])
  {
    var cs := Chunks(table[1..], ChunkSize);
    ChunkFilesAt(table[0], cs);
    var chunkFiles := ChunkFiles(table[0], cs);
    forall i | 1 <= i <= |cs| ensures ChunkName(i) in chunkFiles {
    }
  }
}
