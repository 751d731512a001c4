/** Reading a chunk file back as row dictionaries (`read_csv_async` in
    csv_enricher/main.py, over the csv module's DictReader). */
module CsvReading {
  import opened Common
  import opened CsvFunctions

  /** Field i of a record, or None when the record is too short (DictReader's restval). */
  function CellAt(record: Record, i: nat): Value
  {
    if i < |record| then Str(record[i]) else NoneValue
  }

  /** The dictionary DictReader builds from one record under `header`: every
      header name is a key; a name that occurs once (or last) in the header
      maps to the field in its column, or to None past the end of the record. */
  function ZipRow(header: Record, record: Record): (row: Row)
    ensures forall name :: name in row <==> name in header
  {
    if header == [] then map[]
    else ZipRow(header[..|header| - 1], record)[header[|header| - 1] := CellAt(record, |header| - 1)]
  }

  /** A header name that does not occur again later in the header maps to the
      field in its own column (None past the end of the record). */
  lemma {:induction false} ZipRowAt(header: Record, record: Record, i: nat)
    requires i < |header| && header[i] !in header[i + 1..]
    ensures ZipRow(header, record)[header[i]] == CellAt(record, i)
  {
    var n := |header|;
    if i < n - 1 {
      var init := header[..n - 1];
      assert header[n - 1] in header[i + 1..];
      assert init[i + 1..] == header[i + 1..n - 1];
      assert init[i] == header[i];
      ZipRowAt(init, record, i);
    }
  }

  /** The records without the blank ones, which DictReader skips. */
  function NonBlank(records: seq<Record>): (kept: seq<Record>)
    ensures |kept| <= |records|
    ensures forall i :: 0 <= i < |kept| ==> kept[i] != []
    ensures (forall i :: 0 <= i < |records| ==> records[i] != []) ==> kept == records
    ensures |records| == 1 ==> kept == (if records[0] == [] then [] else records)
  {
    if records == [] then []
    else if records[0] == [] then NonBlank(records[1..])
    else [records[0]] + NonBlank(records[1..])
  }

  /** A record with a field for every header name gives a string in every column. */
  lemma {:induction false} ZipRowStr(header: Record, record: Record)
    requires |record| >= |header|
    ensures forall name :: name in ZipRow(header, record) ==> ZipRow(header, record)[name].Str?
  {
    if header != [] {
      ZipRowStr(header[..|header| - 1], record);
    }
  }

  /** Every non-blank record of `records` has exactly as many fields as the header. */
  predicate FullRecords(header: Record, records: seq<Record>)
  {
    forall i :: 0 <= i < |records| ==> records[i] == [] || |records[i]| == |header|
  }

  /** Skipping blank records commutes with concatenation. */
  lemma {:induction false} NonBlankAppend(a: seq<Record>, b: seq<Record>)
    ensures NonBlank(a + b) == NonBlank(a) + NonBlank(b)
  {
    if a == [] {
      assert a + b == b;
    } else {
      assert (a + b)[0] == a[0] && (a + b)[1..] == a[1..] + b;
      NonBlankAppend(a[1..], b);
    }
  }

  /** What is left of full records after skipping the blank ones has one
      field per header name. */
  lemma {:induction false} NonBlankFull(header: Record, records: seq<Record>)
    requires FullRecords(header, records)
    ensures forall i :: 0 <= i < |NonBlank(records)| ==> |NonBlank(records)[i]| == |header|
  {
    if records != [] {
      NonBlankFull(header, records[1..]);
    }
  }

  /** Each record zipped with the header, in order. */
  function ZipRows(header: Record, records: seq<Record>): seq<Row>
  {
    seq(|records|, i requires 0 <= i < |records| => ZipRow(header, records[i]))
  }

  /** The rows DictReader yields for a file: the first record is the header,
      every later non-blank record becomes one row. An empty file yields none. */
  function DictRows(records: seq<Record>): seq<Row>
  {
    if records == [] then []
    else ZipRows(records[0], NonBlank(records[1..]))
  }

  /** What `read_csv_async` returns for chunk file `name`: the file's rows in
      order and, beside them, the value each row holds under `lei`; KeyError
      when some row has no such key. */
  function ReadCsv(scratch: map<string, Entry>, name: string): Result<(seq<Row>, seq<Value>)>
  {
    if name !in scratch then Err(FileNotFoundError(name))
    else if scratch[name].Folder? then Err(IsADirectoryError(name))
    else
      var rows := DictRows(scratch[name].records);
      if exists i :: 0 <= i < |rows| && "lei" !in rows[i] then Err(KeyError("lei"))
      else Ok((rows, seq(|rows|, i requires 0 <= i < |rows| => rows[i]["lei"])))
  }

  /** `read_csv_async`: reads the rows one by one, appending each row's `lei`
      value to one list and the row to another. */
  method ReadCsvAsync(scratch: map<string, Entry>, name: string) returns (result: Result<(seq<Row>, seq<Value>)>)
    ensures result == ReadCsv(scratch, name)
    ensures result.Ok? ==> |result.value.0| == |result.value.1|
    ensures result.Ok? ==> forall i :: 0 <= i < |result.value.0| ==> result.value.1[i] == result.value.0[i]["lei"]
    ensures result.Err? && name in scratch && scratch[name].File? ==> result.error == KeyError("lei")
  {
    if name !in scratch {
      return Err(FileNotFoundError(name));
    }
    if scratch[name].Folder? {
      return Err(IsADirectoryError(name));
    }
    var reader := DictRows(scratch[name].records);
    var leiNumbers: seq<Value> := [];
    var rows: seq<Row> := [];
    var i := 0;
    while i < |reader|
      invariant 0 <= i <= |reader|
      invariant rows == reader[..i]
      invariant forall j :: 0 <= j < i ==> "lei" in reader[j]
      invariant |leiNumbers| == i && forall j :: 0 <= j < i ==> leiNumbers[j] == reader[j]["lei"]
    {
      var row := reader[i];
      if "lei" !in row {
        return Err(KeyError("lei"));
      }
      leiNumbers := leiNumbers + [row["lei"]];
      rows := rows + [row];
      i := i + 1;
    }
    assert rows == reader;
    assert leiNumbers == seq(|reader|, j requires 0 <= j < |reader| => reader[j]["lei"]);
    return Ok((rows, leiNumbers));
  }
}
