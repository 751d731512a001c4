/** The file helpers of the pipeline (csv_enricher/functions.py): splitting the
    input table into numbered chunk files, listing the scratch directory without
    its `.gitkeep`, and deleting the chunk files afterwards. A directory is a map
    from entry name to entry. */
module CsvFunctions {
  import opened Common
  import opened Text

  const GitKeep: string := ".gitkeep"

  /** `f"{n}.csv"`, the name of the n-th chunk file. */
  function ChunkName(n: nat): string
  {
    NatToString(n) + ".csv"
  }

  /** A chunk file name has suffix `.csv`, and its part before the first dot
      is the chunk number's decimal digits. */
  lemma ChunkNameParts(n: nat)
    ensures Suffix(ChunkName(n)) == ".csv"
    ensures BeforeDot(ChunkName(n)) == NatToString(n)
  {
    SuffixOfDotless(NatToString(n), "csv");
    assert NatToString(n) + "." + "csv" == ChunkName(n);
  }

  lemma ChunkNameInjective(m: nat, n: nat)
    requires ChunkName(m) == ChunkName(n)
    ensures m == n
  {
    ChunkNameParts(m);
    ChunkNameParts(n);
    NatToStringInjective(m, n);
  }

  // ---------------------------------------------------------------------------
  // Splitting

  /** The data rows of the successive chunks of `rows` for chunk size k: full
      chunks of k rows, then one last chunk with what is left, which is empty
      when k divides the number of rows. */
  function Chunks(rows: seq<Record>, k: nat): seq<seq<Record>>
    requires k >= 1
    decreases |rows|
  {
    if |rows| < k then [rows] else [rows[..k]] + Chunks(rows[k..], k)
  }

  /** Taking the chunks one after another gives back the rows, in order; there
      are |rows| / k + 1 of them; all but the last hold exactly k rows and the
      last holds |rows| % k. */
  lemma ChunksShape(rows: seq<Record>, k: nat)
    requires k >= 1
    ensures Flatten(Chunks(rows, k)) == rows
    ensures |Chunks(rows, k)| == |rows| / k + 1
    ensures forall i :: 0 <= i < |Chunks(rows, k)| - 1 ==> |Chunks(rows, k)[i]| == k
    ensures |Chunks(rows, k)[|Chunks(rows, k)| - 1]| == |rows| % k
  {
    ChunksFlatten(rows, k);
    ChunksSizes(rows, k);
  }

  lemma {:induction false} ChunksFlatten(rows: seq<Record>, k: nat)
    requires k >= 1
    ensures Flatten(Chunks(rows, k)) == rows
    decreases |rows|
  {
    if |rows| >= k {
      var cs, rest := Chunks(rows, k), Chunks(rows[k..], k);
      ChunksFlatten(rows[k..], k);
      assert cs[0] == rows[..k] && cs[1..] == rest;
      calc {
        Flatten(cs);
        rows[..k] + Flatten(rest);
        rows[..k] + rows[k..];
        rows;
      }
    }
  }

  lemma {:induction false} ChunksSizes(rows: seq<Record>, k: nat)
    requires k >= 1
    ensures |Chunks(rows, k)| == |rows| / k + 1
    ensures forall i :: 0 <= i < |Chunks(rows, k)| - 1 ==> |Chunks(rows, k)[i]| == k
    ensures |Chunks(rows, k)[|Chunks(rows, k)| - 1]| == |rows| % k
    decreases |rows|
  {
    var cs := Chunks(rows, k);
    if |rows| < k {
      DivUnique(|rows|, k, 0, |rows|);
    } else {
      var rest := Chunks(rows[k..], k);
      ChunksSizes(rows[k..], k);
      assert cs == [rows[..k]] + rest;
      DivStep(|rows|, k);
      forall i | 0 <= i < |cs| - 1 ensures |cs[i]| == k {
        if i > 0 {
          assert cs[i] == rest[i - 1];
        }
      }
      assert cs[|cs| - 1] == rest[|rest| - 1];
    }
  }

  lemma DivStep(n: nat, k: nat)
    requires n >= k >= 1
    ensures (n - k) / k + 1 == n / k
    ensures (n - k) % k == n % k
  {
    var q, r := (n - k) / k, (n - k) % k;
    assert n == (q + 1) * k + r;
    DivUnique(n, k, q + 1, r);
  }

  lemma DivUnique(n: nat, k: nat, q: int, r: int)
    requires k >= 1 && 0 <= r < k && n == q * k + r
    ensures n / k == q && n % k == r
  {
    var q', r' := n / k, n % k;
    assert n == q' * k + r';
    var d := q - q';
    assert d * k == r' - r by {
      assert q * k - q' * k == (q - q') * k;
    }
    if d > 0 {
      assert d * k >= k by { MulAtLeast(d, k); }
      assert false;
    } else if d < 0 {
      assert (-d) * k >= k by { MulAtLeast(-d, k); }
      assert false;
    }
  }

  lemma MulAtLeast(d: int, k: nat)
    requires d >= 1
    ensures d * k >= k
  {
    assert d * k == (d - 1) * k + k;
    assert (d - 1) * k >= 0;
  }

  /** The chunk files for header `header` and chunk contents `cs`: file i,
      counting from 1, holds the header followed by the i-th chunk. */
  function ChunkFiles(header: Record, cs: seq<seq<Record>>): map<string, Entry>
  {
    if cs == [] then map[]
    else ChunkFiles(header, cs[..|cs| - 1])[ChunkName(|cs|) := File([header] + cs[|cs| - 1])]
  }

  /** The chunk files are exactly the files 1..|cs|, and file i holds the
      header and then the i-th chunk. */
  lemma ChunkFilesAt(header: Record, cs: seq<seq<Record>>)
    ensures forall name :: name in ChunkFiles(header, cs) <==> exists i :: 1 <= i <= |cs| && name == ChunkName(i)
    ensures forall i :: 1 <= i <= |cs| ==> ChunkFiles(header, cs)[ChunkName(i)] == File([header] + cs[i - 1])
  {
    ChunkFilesNames(header, cs);
    ChunkFilesContents(header, cs);
  }

  lemma {:induction false} ChunkFilesNames(header: Record, cs: seq<seq<Record>>)
    ensures forall name :: name in ChunkFiles(header, cs) <==> exists i :: 1 <= i <= |cs| && name == ChunkName(i)
  {
    if cs != [] {
      var init := cs[..|cs| - 1];
      ChunkFilesNames(header, init);
      var files := ChunkFiles(header, cs);
      forall name | name in files ensures exists i :: 1 <= i <= |cs| && name == ChunkName(i) {
        if name != ChunkName(|cs|) {
          assert name in ChunkFiles(header, init);
          var i :| 1 <= i <= |init| && name == ChunkName(i);
          assert 1 <= i <= |cs| && name == ChunkName(i);
        }
      }
      forall name | exists i :: 1 <= i <= |cs| && name == ChunkName(i) ensures name in files {
        var i :| 1 <= i <= |cs| && name == ChunkName(i);
        if i < |cs| {
          assert name in ChunkFiles(header, init);
        }
      }
    }
  }

  lemma {:induction false} ChunkFilesContents(header: Record, cs: seq<seq<Record>>)
    ensures forall i :: 1 <= i <= |cs| ==> ChunkName(i) in ChunkFiles(header, cs)
    ensures forall i :: 1 <= i <= |cs| ==> ChunkFiles(header, cs)[ChunkName(i)] == File([header] + cs[i - 1])
  {
    if cs != [] {
      var init := cs[..|cs| - 1];
      ChunkFilesContents(header, init);
      var files := ChunkFiles(header, cs);
      forall i | 1 <= i <= |cs| ensures ChunkName(i) in files && files[ChunkName(i)] == File([header] + cs[i - 1]) {
        if i < |cs| {
          if ChunkName(i) == ChunkName(|cs|) {
            ChunkNameInjective(i, |cs|);
          }
          assert init[i - 1] == cs[i - 1];
        }
      }
    }
  }

  /** The records of regular file `name` of `dir`, or none if there is no such file. */
  function FileRecords(dir: map<string, Entry>, name: string): seq<Record>
  {
    if name in dir && dir[name].File? then dir[name].records else []
  }

  /** The data rows (all records but the header) of chunk files 1..n, in numeric order. */
  function ChunkData(dir: map<string, Entry>, n: nat): seq<seq<Record>>
  {
    seq(n, i requires 0 <= i < n =>
      var records := FileRecords(dir, ChunkName(i + 1));
      if records == [] then [] else records[1..])
  }

  /** After splitting N = |rows| data rows with chunk size k the chunk files
      are exactly files 1 .. N/k+1. */
  lemma SplitFileNames(header: Record, rows: seq<Record>, k: nat)
    requires k >= 1
    ensures forall name :: name in ChunkFiles(header, Chunks(rows, k)) <==>
      exists i :: 1 <= i <= |rows| / k + 1 && name == ChunkName(i)
  {
    ChunksShape(rows, k);
    ChunkFilesAt(header, Chunks(rows, k));
  }

  /** Each chunk file is a regular file that starts with the input's header
      and holds at most k data rows; every file but the last holds exactly k,
      and the last holds N % k (none when k divides N). */
  lemma SplitFileSizes(header: Record, rows: seq<Record>, k: nat)
    requires k >= 1
    ensures forall i :: 1 <= i <= |rows| / k + 1 ==>
      && ChunkName(i) in ChunkFiles(header, Chunks(rows, k))
      && ChunkFiles(header, Chunks(rows, k))[ChunkName(i)].File?
      && 1 <= |FileRecords(ChunkFiles(header, Chunks(rows, k)), ChunkName(i))| <= k + 1
      && FileRecords(ChunkFiles(header, Chunks(rows, k)), ChunkName(i))[0] == header
    ensures forall i :: 1 <= i < |rows| / k + 1 ==>
      |FileRecords(ChunkFiles(header, Chunks(rows, k)), ChunkName(i))| == k + 1
    ensures |FileRecords(ChunkFiles(header, Chunks(rows, k)), ChunkName(|rows| / k + 1))| == |rows| % k + 1
  {
    var cs := Chunks(rows, k);
    ChunksSizes(rows, k);
    ChunkFileRecords(header, cs);
    assert forall i :: 0 <= i < |cs| ==> |cs[i]| <= k;
  }

  /** File i of the chunk files is a regular file holding the header and then chunk i. */
  lemma ChunkFileRecords(header: Record, cs: seq<seq<Record>>)
    ensures forall i :: 1 <= i <= |cs| ==>
      && ChunkName(i) in ChunkFiles(header, cs) && ChunkFiles(header, cs)[ChunkName(i)].File?
      && FileRecords(ChunkFiles(header, cs), ChunkName(i)) == [header] + cs[i - 1]
  {
    ChunkFilesContents(header, cs);
  }

  /** The data rows of chunk files 1, 2, ..., N/k+1, taken in numeric order,
      are the input's data rows, in order. */
  lemma SplitPreservesRows(header: Record, rows: seq<Record>, k: nat)
    requires k >= 1
    ensures Flatten(ChunkData(ChunkFiles(header, Chunks(rows, k)), |rows| / k + 1)) == rows
  {
    ChunksShape(rows, k);
    ChunkDataOfFiles(header, Chunks(rows, k));
  }

  /** The data rows of the chunk files, in numeric order, are the chunks. */
  lemma ChunkDataOfFiles(header: Record, cs: seq<seq<Record>>)
    ensures ChunkData(ChunkFiles(header, cs), |cs|) == cs
  {
    var data := ChunkData(ChunkFiles(header, cs), |cs|);
    ChunkFileRecords(header, cs);
    forall i | 0 <= i < |cs| ensures data[i] == cs[i] {
      assert ([header] + cs[i])[1..] == cs[i];
    }
  }

  /** One pass of the outer loop of `split_csv_file`, for any chunk size: the
      header, then rows copied from `pos` on until the reader is exhausted or
      `rows_written >= chunk_size`. `full` is the negation of the loop's only
      exit test `rows_written < chunk_size`. A round copies at least one row
      when one is left, so with `chunk_size <= 0` every round is full and the
      split never returns. */
  method SplitRound(header: Record, rows: seq<Record>, pos: nat, chunkSize: int)
    returns (chunk: seq<Record>, next: nat, full: bool)
    requires pos <= |rows|
    ensures pos <= next <= |rows|
    ensures chunk == [header] + rows[pos..next]
    ensures next - pos == Min(|rows| - pos, if chunkSize >= 1 then chunkSize else 1)
    ensures full <==> next - pos >= chunkSize
    ensures !full ==> next == |rows|
    ensures chunkSize <= 0 ==> full
  {
    chunk := [header];
    var rowsWritten := 0;
    next := pos;
    while next < |rows|
      invariant pos <= next <= |rows|
      invariant rowsWritten == next - pos
      invariant rowsWritten < chunkSize || rowsWritten == 0
      invariant chunk == [header] + rows[pos..next]
    {
      chunk := chunk + [rows[next]];
      next := next + 1;
      rowsWritten := rowsWritten + 1;
      if rowsWritten >= chunkSize {
        break;
      }
    }
    full := !(rowsWritten < chunkSize);
  }

  /** `split_csv_file`: the first record is the header; with it missing the
      first read raises before any file is written. Otherwise chunk files 1, 2,
      ... are written (overwriting entries of the same name) as `Chunks`
      describes. The source loops forever for `chunk_size <= 0` (see SplitRound),
      so the size must be positive. */
  method SplitCsvFile(scratch: map<string, Entry>, input: seq<Record>, chunkSize: int)
    returns (scratch': map<string, Entry>, outcome: Outcome)
    requires chunkSize >= 1
    ensures input == [] ==> scratch' == scratch && outcome == Fail(StopAsyncIteration)
    ensures input != [] ==> outcome == Pass && scratch' == scratch + ChunkFiles(input[0], Chunks(input[1..], chunkSize))
  {
    if input == [] {
      return scratch, Fail(StopAsyncIteration);
    }
    var header := input[0];
    var rows := input[1..];
    ghost var all := Chunks(rows, chunkSize);
    ghost var done: seq<seq<Record>> := [];
    scratch' := scratch;
    var fileCount := 1;
    var pos := 0;
    while true
      invariant pos <= |rows|
      invariant fileCount == |done| + 1
      invariant all == done + Chunks(rows[pos..], chunkSize)
      invariant scratch' == scratch + ChunkFiles(header, done)
      decreases |rows| - pos
    {
      var chunk, next, full := SplitRound(header, rows, pos, chunkSize);
      ScratchSnoc(scratch, header, done, rows[pos..next]);
      scratch' := scratch'[ChunkName(fileCount) := File(chunk)];
      ChunksAdvance(all, done, rows, pos, next, chunkSize);
      done := done + [rows[pos..next]];
      if !full {
        return scratch', Pass;
      }
      pos := next;
      fileCount := fileCount + 1;
    }
  }

  /** Writing chunk file |done|+1 extends the directory by one more chunk file. */
  lemma ScratchSnoc(scratch: map<string, Entry>, header: Record, done: seq<seq<Record>>, c: seq<Record>)
    ensures (scratch + ChunkFiles(header, done))[ChunkName(|done| + 1) := File([header] + c)]
         == scratch + ChunkFiles(header, done + [c])
  {
    assert (done + [c])[..|done|] == done;
  }

  /** The chunks written so far followed by the chunks of what is left are
      all the chunks, before and after a round. */
  lemma ChunksAdvance(all: seq<seq<Record>>, done: seq<seq<Record>>, rows: seq<Record>, pos: nat, next: nat, k: nat)
    requires k >= 1 && pos <= next <= |rows|
    requires next - pos == Min(|rows| - pos, k)
    requires all == done + Chunks(rows[pos..], k)
    ensures next - pos < k ==> all == done + [rows[pos..next]]
    ensures next - pos >= k ==> all == (done + [rows[pos..next]]) + Chunks(rows[next..], k)
  {
    ChunksStep(rows, pos, next, k);
  }

  /** The chunk the round copies from `pos` to `next` is the first of the
      chunks of what is left; a round that is not full takes all of it. */
  lemma ChunksStep(rows: seq<Record>, pos: nat, next: nat, k: nat)
    requires k >= 1 && pos <= next <= |rows|
    requires next - pos == Min(|rows| - pos, k)
    ensures next - pos < k ==> Chunks(rows[pos..], k) == [rows[pos..next]]
    ensures next - pos >= k ==> Chunks(rows[pos..], k) == [rows[pos..next]] + Chunks(rows[next..], k)
  {
    if next - pos < k {
      assert rows[pos..next] == rows[pos..];
    } else {
      assert rows[pos..][..k] == rows[pos..next];
      assert rows[pos..][k..] == rows[next..];
    }
  }

  // ---------------------------------------------------------------------------
  // Listing and cleaning the scratch directory

  /** `os.listdir`: every entry name once, in an order the model leaves open. */
  method ListDir(dir: map<string, Entry>) returns (names: seq<string>)
    ensures forall i, j :: 0 <= i < j < |names| ==> names[i] != names[j]
    ensures forall name :: name in names <==> name in dir
  {
    names := [];
    var todo := dir.Keys;
    while todo != {}
      invariant todo <= dir.Keys
      invariant forall name :: name in names <==> name in dir && name !in todo
      invariant forall i, j :: 0 <= i < j < |names| ==> names[i] != names[j]
      decreases todo
    {
      var name :| name in todo;
      names := names + [name];
      todo := todo - {name};
    }
  }

  /** `list.remove(x)`: drops the first occurrence of x. */
  function RemoveFirst(s: seq<string>, x: string): (r: seq<string>)
    ensures x in s ==> |r| == |s| - 1
    ensures x !in s ==> r == s
    ensures multiset(r) == multiset(s) - multiset{x}
  {
    if s == [] then []
    else
      assert s == [s[0]] + s[1..];
      if s[0] == x then s[1..]
      else
        var rest := RemoveFirst(s[1..], x);
        assert x in s ==> x in s[1..];
        [s[0]] + rest
  }

  /** `get_files_in_directory` on the listing `listing`: `.gitkeep` goes, if
      present; every other name stays, as often as it was listed. */
  function GetFilesInDirectory(listing: seq<string>): (files: seq<string>)
    ensures GitKeep in listing ==> |files| == |listing| - 1
    ensures GitKeep !in listing ==> files == listing
    ensures forall name :: name != GitKeep ==> multiset(files)[name] == multiset(listing)[name]
    ensures (forall i, j :: 0 <= i < j < |listing| ==> listing[i] != listing[j]) ==> GitKeep !in files
  {
    DistinctCount(listing, GitKeep);
    RemoveFirst(listing, GitKeep)
  }

  lemma {:induction false} DistinctCount(s: seq<string>, x: string)
    ensures (forall i, j :: 0 <= i < j < |s| ==> s[i] != s[j]) ==> multiset(s)[x] <= 1
  {
    if s != [] && forall i, j :: 0 <= i < j < |s| ==> s[i] != s[j] {
      assert s == [s[0]] + s[1..];
      DistinctCount(s[1..], x);
      assert s[0] !in s[1..];
    }
  }

  /** The entries `clean_temp_csv_files` deletes: regular files whose suffix is `.csv`. */
  predicate IsTempCsv(name: string, entry: Entry)
  {
    entry.File? && Suffix(name) == ".csv"
  }

  /** The directory without its temporary CSV files. */
  function Cleaned(dir: map<string, Entry>): map<string, Entry>
  {
    map name | name in dir && !IsTempCsv(name, dir[name]) :: dir[name]
  }

  /** `clean_temp_csv_files`: visits every entry and removes exactly the
      regular `.csv` files; every other entry stays as it was. */
  method CleanTempCsvFiles(dir: map<string, Entry>) returns (dir': map<string, Entry>)
    ensures forall name :: name in dir' <==> name in dir && !IsTempCsv(name, dir[name])
    ensures forall name :: name in dir' ==> dir'[name] == dir[name]
    ensures dir' == Cleaned(dir)
  {
    dir' := dir;
    var todo := dir.Keys;
    while todo != {}
      invariant todo <= dir.Keys
      invariant forall name :: name in dir' <==> name in dir && (name in todo || !IsTempCsv(name, dir[name]))
      invariant forall name :: name in dir' ==> dir'[name] == dir[name]
      decreases todo
    {
      var item :| item in todo;
      if dir[item].File? && Suffix(item) == ".csv" {
        dir' := dir' - {item};
      }
      todo := todo - {item};
    }
  }
}
