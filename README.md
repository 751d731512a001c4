# csv_enricher in Dafny

csv_enricher enriches a table of transactions. `main` splits the input CSV
into numbered chunk files of 500 data rows under a scratch directory
(`_temp/chunks/`), lists that directory without its `.gitkeep`, sorts the
chunk files by the integer before the first dot of their name, and for each
chunk in turn reads its rows, looks their `lei` keys up in an entity
registry in one batched request, joins the returned entity records onto the
rows (legal name, BIC codes, country-dependent transaction costs) and
appends the rows to `output.csv` under a fixed 11-column header. Finally it
deletes the chunk files.

The model keeps the program's steps and their order, and works on values:

- A directory is a `map<string, Entry>`, where an entry is a regular file
  holding CSV records or a sub-directory. Other files, the input table and
  `output.csv`, are a `map<string, seq<Record>>`. A CSV record is a
  `seq<string>`, and a row dictionary is a `map<string, Value>` whose cells
  are strings, floats (`real`) or None.
- Each operation is a method with the source's loop. It returns the new
  directory or file map and an `Outcome` (`Pass`, or `Fail` with the Python
  exception that escapes). Each method is proved equal to a specification
  function of the old state. The lemmas about those functions state what the
  program promises: chunking preserves the rows, the join means "last
  matching record wins", the header is written once, chunks are taken in
  numeric order, and so on.
- What the program gets from outside is a parameter:
  - the registry's answer for a filter string (`registry: string -> Response`,
    with the entity records already extracted from the JSON);
  - `float(s)` on a string (`parse: string -> Option<real>`);
  - the text the CSV writer puts in a field for a float (`format`);
  - the order in which `os.listdir` lists the scratch directory (a ghost
    out-parameter of `RunPipeline` that the model leaves open).

Modules: `Common` (values, exceptions, `Result`), `Text` (`str(n)`,
`int(s)`, `split(".")[0]`, `PurePath.suffix`, `join`), `CsvFunctions`
(csv_enricher/functions.py), `CsvReading`, `Enrichment` and `CsvWriting`
(the three helpers of csv_enricher/main.py), and `Pipeline` (`main`).

Behaviours of the code that are easy to misread, all of which the model
keeps:

- **Chunk count.** For N data rows and chunk size k the code writes ⌊N/k⌋+1
  chunk files, not ⌈N/k⌉. The last file holds N mod k rows, so it is
  header-only when k divides N, including N = 0. The header-only chunk
  still gets looked up, with the empty filter `""`.
- **NL with rate 0.** The NL cost `|N*(1/R) - N|` has no guard, so R = 0
  raises ZeroDivisionError rather than giving "N/A". The GB branch has no
  division, so it needs no guard.
- **Lookup failure.** `raise_for_status` makes every status outside 200..299
  raise HttpStatusError, and that ends the run. Only a 2xx status other than
  200 gives the empty result `[]`. The code itself has no retry or backoff.
- **Empty lookup result.** Status 200 with no entity returns the rows
  unchanged, not an empty result.
- **Clean-up.** Chunk files are deleted only after a run that raised
  nothing. A run that raises leaves them in place (`MainResult`).

## Model

| member | source | states |
|---|---|---|
| CsvFunctions.SplitCsvFile | csv_enricher/functions.py:26-49 | An input with no header row raises StopAsyncIteration and writes nothing. Otherwise the scratch directory gains exactly the chunk files `ChunkFiles(header, Chunks(rows, k))`: file i holds the header and then the i-th chunk. |
| CsvFunctions.SplitRound | csv_enricher/functions.py:34-47 | One pass of the outer loop: the header, then the next min(left, max(k, 1)) rows in order. The round is "full" (no exit) exactly when it copied at least k rows; one that is not full has used up the input; with k <= 0 every round is full, so the loop never ends. |
| CsvFunctions.ChunksShape | csv_enricher/functions.py:31-49 | Chunking loses, repeats and reorders no row. There are N/k+1 chunks; every chunk but the last holds exactly k rows, and the last holds N mod k. |
| CsvFunctions.SplitFileNames | csv_enricher/functions.py:31-33 | The chunk files written are exactly 1.csv .. (N/k+1).csv. |
| CsvFunctions.SplitFileSizes | csv_enricher/functions.py:36-47 | Every chunk file is a regular file whose first record is the input's header. It holds at most k data rows; all but the last hold exactly k, and the last holds N mod k (header-only when k divides N). |
| CsvFunctions.SplitPreservesRows | csv_enricher/functions.py:31-44 | The data rows of chunk files 1, 2, ..., N/k+1, concatenated in numeric order, are the input's data rows in order. |
| CsvFunctions.ChunkNameParts | csv_enricher/functions.py:33 | The name of chunk n has suffix `.csv` and, before its first dot, the decimal digits of n. |
| CsvFunctions.ChunkNameInjective | csv_enricher/functions.py:33 | Different chunk numbers give different file names, so no chunk overwrites another. |
| CsvFunctions.ChunkFilesAt | csv_enricher/functions.py:33-36 | The chunk files are exactly those numbered 1 to the number of chunks, and file i holds the header followed by chunk i. |
| CsvFunctions.ListDir | csv_enricher/functions.py:11 | The listing names every entry of the directory exactly once, and nothing else. |
| CsvFunctions.RemoveFirst | csv_enricher/functions.py:12 | `list.remove` takes out one occurrence of a present name (the multiset loses exactly that element) and leaves a list without it unchanged. |
| CsvFunctions.GetFilesInDirectory | csv_enricher/functions.py:10-13 | A listing without `.gitkeep` is returned unchanged. With it, the result is one shorter, and every other name keeps its number of occurrences. A listing without repetitions gives a result without `.gitkeep`. |
| CsvFunctions.CleanTempCsvFiles | csv_enricher/functions.py:16-23 | Exactly the regular files whose suffix is `.csv` are removed. Sub-directories and other files stay, with their contents unchanged. |
| Text.ParseIntNatToString | csv_enricher/main.py:88 | `int(str(n)) == n` for every chunk number n. |
| Text.NatToStringInjective | csv_enricher/functions.py:33 | `str` is injective on naturals. |
| Text.BeforeDot | csv_enricher/main.py:88 | `s.split(".")[0]` is the longest dot-free prefix of s: it stops at the first dot, or takes all of s. |
| Text.LastDot | csv_enricher/functions.py:22 | The index of the last dot of the name, or -1 when it has none. |
| Text.SuffixOfDotless | csv_enricher/functions.py:22 | For a dot-free stem and extension, `Path(stem.ext).suffix` is `.ext`, and the text before the first dot is the stem. |
| CsvReading.ZipRow | csv_enricher/main.py:20 | The row DictReader builds has exactly the header names as keys. |
| CsvReading.ZipRowAt | csv_enricher/main.py:20 | A header name that does not occur later in the header maps to the field in its column, or to None past the end of the record. |
| CsvReading.NonBlank | csv_enricher/main.py:20 | DictReader skips exactly the blank records and keeps the others in order: one record is kept unless it is blank, and with `CsvReading.NonBlankAppend` (skipping commutes with concatenation) this fixes the result for every input. The kept records are non-blank, and a sequence without blank records is kept whole. |
| CsvReading.NonBlankAppend | csv_enricher/main.py:20 | Skipping blank records commutes with concatenation, so the records kept from a file are those kept from each of its parts, in order. |
| CsvReading.ReadCsvAsync | csv_enricher/main.py:16-23 | Returns the file's rows in file order and a key list of the same length, where key i is `rows[i]["lei"]`. A row without `lei` raises KeyError. A missing file raises FileNotFoundError, and a directory raises IsADirectoryError. |
| Enrichment.Lookup | csv_enricher/api_client.py:14-26 | The lookup raises TypeError exactly when some key is not a string (a short row's None), in the comma join. Otherwise the registry is asked once, for the joined keys: an answer whose status is outside 200..299 raises HttpStatusError with that status, and any other answer is returned as it came. |
| Enrichment.Cost | csv_enricher/main.py:46-54 | Any country other than GB or NL gives "N/A". For GB and NL the cost is computed exactly when notional and rate both convert to floats and, for NL, the rate is not 0. GB gives N*R - N, and NL gives |N*(1/R) - N|, which is >= 0. ZeroDivisionError is raised exactly for NL with a convertible notional and rate 0. Otherwise the error is the notional's conversion error, or, if notional converts, the rate's. |
| Enrichment.GbCostExample | csv_enricher/main.py:47 | Notional 1000 at rate 0.01 for a GB entity costs -990. |
| Enrichment.EnrichRow | csv_enricher/main.py:43-54 | A matched row gains `legalName` (the record's name), `bic` (its codes joined by ", ") and `transaction_costs` (the cost). Every other key keeps its value, and no other key is added. The row is updated exactly when the cost can be computed; otherwise the cost's exception is raised. |
| Enrichment.LastMatch | csv_enricher/main.py:41-43 | Finds the last record, in response order, whose key equals the row's `lei`, or reports that none does. |
| Enrichment.ApplyRecordAt | csv_enricher/main.py:42-54 | The inner loop over the rows succeeds exactly when no row's step raises. It then keeps the number and order of the rows and puts each row's step result in its place. Otherwise it raises the exception of the first failing row. |
| Enrichment.ApplyRecordsMeaning | csv_enricher/main.py:41-56 | The join raises nothing exactly when no (record, row) step raises. It then returns the rows in the same order and count: a row no record matches is unchanged, and any other row is enriched by the LAST matching record. When the join raises, the exception is that of the first failing step in loop order (records outer, rows inner). |
| Enrichment.MatchRowAfterEnrich | csv_enricher/main.py:43-54 | A later record's step on a row an earlier record already enriched acts as on the original row: `lei`, notional and rate are untouched, and the three written fields are overwritten. |
| Enrichment.Enrich | csv_enricher/main.py:26-56 | The result is `EnrichOutcome`. A 2xx status other than 200 returns [] whatever the rows. A lookup exception propagates. Otherwise the records are joined onto the rows as ApplyRecordsMeaning describes. |
| Enrichment.JoinRecord | csv_enricher/main.py:42-54 | The inner loop joins one entity record onto every row with the same LEI. Rows with another LEI are left as they are. The first failing cost computation ends the loop with its exception. The result is `ApplyRecord`. |
| CsvWriting.FieldnamesDistinct | csv_enricher/main.py:64-76 | The output header is 11 distinct column names. |
| CsvWriting.WriteDataToCsv | csv_enricher/main.py:59-82 | The header row is written exactly when the file did not exist. A row with a key outside the 11 columns raises ValueError, after the header and before any row of the batch. Otherwise every row is appended, in order, as the 11 columns with "NULL" for each one it lacks. Other files are unchanged. |
| CsvWriting.FormatRows | csv_enricher/main.py:82 | `writerows` formats the batch row by row. It succeeds exactly when every row has only column keys, and then yields the projected record of each row in order. |
| CsvWriting.HeaderWrittenOnce | csv_enricher/main.py:59-82 | Two accepted batches written by `write_data_to_csv` one after the other are one write of both batches. The header row is written at most once, only when the file is new, and the two batches follow it in order. |
| CsvWriting.ProjectedNonBlank | csv_enricher/main.py:82 | No written record is blank, so the reader keeps all of them. |
| CsvWriting.WriteReadRoundTrip | csv_enricher/main.py:59-82 | Reading back a new file written from string-valued rows gives one row per row written, in order. Each has the 11 columns as keys, holding the row's value where it had the column and "NULL" where it did not. |
| CsvWriting.WriteReadIdentity | tests/test_main.py:26-52 | String-valued rows with exactly the 11 columns come back unchanged after a write to a new file and a read. |
| Pipeline.FirstUnparsable | csv_enricher/main.py:88 | Finds the first name whose sort key `int(name.split(".")[0])` raises, or reports that every key parses. |
| Pipeline.SortBySortsAndPermutes | csv_enricher/main.py:88 | `sorted` returns a permutation of its input in non-decreasing key order. |
| Pipeline.SortChunkNames | csv_enricher/main.py:88 | The sort succeeds exactly when every key parses, and then gives a permutation of the names in numeric key order. Otherwise it raises ValueError for the first name, in list order, whose key does not parse. |
| Pipeline.SortedPermutationUnique | csv_enricher/main.py:88 | A key-sorted permutation of a sequence with strictly increasing keys is that sequence: the numeric order is unique. |
| Pipeline.ChunkKeyOfName | csv_enricher/main.py:88 | The sort key of chunk file n is n. |
| Pipeline.CanonicalStrict | csv_enricher/main.py:88 | In 1.csv, 2.csv, ..., n.csv every key parses and the keys strictly increase, so 2.csv comes before 10.csv. |
| Pipeline.ChunkNameNotGitKeep | csv_enricher/functions.py:12 | No chunk file is called `.gitkeep`. |
| Pipeline.GitKeepNotTemp | csv_enricher/functions.py:22 | `.gitkeep` has no suffix, so the clean-up never deletes it. |
| Pipeline.RunChunks | csv_enricher/main.py:89-92 | The loop reads, enriches and appends each chunk of the order in turn, as `ProcessChunks` states. The first exception ends the loop. |
| Pipeline.ProcessChunk | csv_enricher/main.py:90-92 | One chunk is read, enriched and appended to the output, as `ChunkStep` states. An exception from reading or enriching is the outcome and leaves the output unchanged. The write step behaves as `Written` states. |
| Pipeline.ProcessStops | csv_enricher/main.py:89-92 | Once the loop has raised at some chunk, the later chunks change nothing. |
| Pipeline.RunPipeline | csv_enricher/main.py:85-94 | `main`'s result is `MainResult`. A missing input raises FileNotFoundError, and an empty one StopAsyncIteration, with nothing written. Otherwise the split is followed by the sorted chunk loop. An exception leaves the chunk files and the output written so far. A successful run deletes the `.csv` files of the scratch directory. |
| Pipeline.FreshChunkFiles | csv_enricher/main.py:86-87 | On a fresh scratch directory, the listing without `.gitkeep` holds exactly the chunk files 1.csv .. m.csv, each once, in any order. |
| Pipeline.FreshChunkOrder | csv_enricher/main.py:86-88 | On a fresh scratch directory, whatever order the listing comes in, the sorted chunk files are exactly 1.csv, 2.csv, ..., m.csv. |
| Pipeline.CleanedFreshSplit | csv_enricher/main.py:94 | Cleaning up after a split into a fresh scratch directory deletes every chunk file and keeps `.gitkeep`. |
| Pipeline.MainRestoresScratch | csv_enricher/main.py:85-94 | A run on a fresh scratch directory that raises nothing leaves that directory as it found it. |
| Pipeline.OutputOfAppend | csv_enricher/main.py:89-92 | The output records of two runs of records, one after the other, are the output records of their concatenation. |
| Pipeline.FreshStep | csv_enricher/main.py:90-92 | Against a registry that knows no entity, a chunk of full records under a header of output columns that includes `lei` is read, passed through unchanged and appended, with no exception. |
| Pipeline.ProcessCanonical | csv_enricher/main.py:89-92 | Under the same conditions, processing chunk files 1..n appends the output records of chunks 1..n, in that order. |
| Pipeline.FreshSplitProcessed | csv_enricher/main.py:86-92 | The loop over the chunk files of a split of a well-formed table appends exactly the rows the reader reads from that table. |
| Pipeline.MainPassesRowsThrough | csv_enricher/main.py:85-94 | A run on a fresh scratch directory and a well-formed table, against a registry that knows no entity, succeeds and leaves the scratch directory as it was. It appends to output.csv (after a header row if the file is new) exactly the input's rows in input order: chunking loses, repeats and reorders nothing. |

## Left out

- The HTTP client (csv_enricher/api_client.py): the configuration file, the URL and the request. The registry is a parameter from the comma-joined filter string to a status and the entity records.
- The JSON navigation of `enrich` (csv_enricher/main.py:33-40) and its KeyErrors on malformed payloads: the model starts from the extracted (lei, name, bic, country) records.
- Logging (csv_enricher/logging_config.py), `async`/`await`, argument parsing and the `__main__` block: the model is sequential and takes the input path as a parameter.
- CSV tokenising, quoting (QUOTE_ALL) and escaping, newline handling and text encoding: files hold already-parsed records.
- DictReader's `restkey`: a record with more fields than the header puts the surplus under the key None. The model drops those fields. The end-to-end lemmas require records no longer than the header.
- Floating point: conversions and the cost arithmetic are over `real`. `float()` on a string and the writer's text for a float are parameters. NaN, infinities and IEEE rounding are not modelled.
- Text.ParseInt: accepts an optional sign and ASCII digits only; the whitespace, underscores and other Unicode digits that Python's `int` also accepts are not modelled.
- CsvFunctions.ListDir: the order of `os.listdir` is left open. The end-to-end lemmas hold for every order.
- Pipeline.SortBySortsAndPermutes: states sortedness and permutation but not stability. Stability only matters for equal keys, which distinct chunk files cannot have.
- CsvFunctions.SplitCsvFile: requires chunk size >= 1, because with a size <= 0 the source never returns. SplitRound shows that every round is then "full", so the model cannot state the non-terminating run as a result.
- CsvFunctions.SplitCsvFile: a sub-directory named like a chunk file is overwritten in the model. The source would raise IsADirectoryError.
- CsvWriting.WriteDataToCsv: the ValueError message is a fixed text, not the one that lists the offending keys. The file is assumed to receive the batch only after every row was formatted, so a rejected batch writes no row.
- The `bic` field of an entity as JSON null or with a non-string element: `", ".join(record["bic"])` (csv_enricher/main.py:45) would raise TypeError. The model's `EntityRecord.bic` is a sequence of strings, so this error path is not modelled.
- Exceptions raised by the HTTP request itself (csv_enricher/api_client.py:24): connection errors and the timeout of the HTTP library's default limit. The registry parameter is total, so it always answers with a status.
- A missing scratch directory: opening the first chunk file (csv_enricher/functions.py:34) would raise FileNotFoundError. The model's scratch directory always exists.
- Removing a file or directory the program did not create, concurrent runs, and crashes between steps are not modelled.

