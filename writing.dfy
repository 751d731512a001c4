/** Appending enriched rows to the output table (`write_data_to_csv` in
    csv_enricher/main.py, over the csv module's DictWriter). Files outside the
    scratch directory are a map from path to the records the file holds. */
module CsvWriting {
  import opened Common
  import opened CsvReading

  /** The columns of the output table, in order. */
  const Fieldnames: Record := [
    "transaction_uti", "isin", "notional", "notional_currency", "transaction_type",
    "transaction_datetime", "rate", "lei", "legalName", "bic", "transaction_costs"
  ]

  /** The field written for a column the row does not have (`restval`). */
  const RestVal: string := "NULL"

  /** The message of the ValueError DictWriter raises for a row with a key
      outside the columns. */
  const ExtraFieldsMessage: string := "dict contains fields not in fieldnames"

  /** The columns are eleven distinct names. */
  lemma FieldnamesDistinct()
    ensures |Fieldnames| == 11
    ensures forall i, j :: 0 <= i < j < |Fieldnames| ==> Fieldnames[i] != Fieldnames[j]
  {
  }

  /** The text the csv writer puts in a field for a cell: a str as it is, a
      float by `format` (Python's `repr`), None as the empty string. */
  function CellText(v: Value, format: real -> string): string
  {
    match v
    case Str(s) => s
    case Float(x) => format(x)
    case NoneValue => ""
  }

  /** The row has no key outside the columns, so DictWriter accepts it. */
  predicate RowFits(row: Row)
  {
    forall key :: key in row ==> key in Fieldnames
  }

  /** The record DictWriter writes for an accepted row: one field per column,
      in column order, `restval` where the row lacks the column. */
  function Project(row: Row, format: real -> string): Record
  {
    seq(|Fieldnames|, i requires 0 <= i < |Fieldnames| =>
      if Fieldnames[i] in row then CellText(row[Fieldnames[i]], format) else RestVal)
  }

  /** The records of a batch of accepted rows, in order. */
  function Projected(data: seq<Row>, format: real -> string): seq<Record>
  {
    seq(|data|, i requires 0 <= i < |data| => Project(data[i], format))
  }

  /** The records of `path` before the call, with the header row added when
      the file did not exist yet. */
  function Opened(files: map<string, seq<Record>>, path: string): seq<Record>
  {
    if path in files then files[path] else [Fieldnames]
  }

  /** The files and the completion after `write_data_to_csv`. */
  function Written(files: map<string, seq<Record>>, path: string, data: seq<Row>, format: real -> string)
    : (map<string, seq<Record>>, Outcome)
  {
    if forall i :: 0 <= i < |data| ==> RowFits(data[i]) then (files[path := Opened(files, path) + Projected(data, format)], Pass)
    else (files[path := Opened(files, path)], Fail(ValueError(ExtraFieldsMessage)))
  }

  /** `write_data_to_csv`: opens `path` for appending (creating it), writes
      the header when the file did not exist before, then writes the batch.
      DictWriter formats the whole batch into a buffer before the file sees
      any of it, so a row with a key outside the columns raises ValueError
      after the header was written but before any row of the batch was. */
  method WriteDataToCsv(files: map<string, seq<Record>>, path: string, data: seq<Row>, format: real -> string)
    returns (files': map<string, seq<Record>>, outcome: Outcome)
    ensures outcome.Pass? <==> forall i :: 0 <= i < |data| ==> RowFits(data[i])
    ensures outcome.Fail? ==> outcome.error == ValueError(ExtraFieldsMessage)
    ensures files' == files[path := Opened(files, path) + (if outcome.Pass? then Projected(data, format) else [])]
    ensures (files', outcome) == Written(files, path, data, format)
  {
    var fileExists := path in files;
    var content := if fileExists then files[path] else [];
    if !fileExists {
      content := content + [Fieldnames];
    }
    assert content == Opened(files, path);
    files' := files[path := content];
    var buffer, ok := FormatRows(data, format);
    if !ok {
      assert content + [] == content;
      return files', Fail(ValueError(ExtraFieldsMessage));
    }
    files' := files'[path := content + buffer];
    outcome := Pass;
  }

  /** DictWriter's `writerows` before the file sees anything: every row is
      formatted in turn, and the first row with a key outside the columns
      stops it. */
  method FormatRows(data: seq<Row>, format: real -> string) returns (buffer: seq<Record>, ok: bool)
    ensures ok <==> forall i :: 0 <= i < |data| ==> RowFits(data[i])
    ensures ok ==> buffer == Projected(data, format)
  {
    buffer := [];
    var i := 0;
    while i < |data|
      invariant 0 <= i <= |data|
      invariant buffer == Projected(data[..i], format)
      invariant forall j :: 0 <= j < i ==> RowFits(data[j])
    {
      if !RowFits(data[i]) {
        return buffer, false;
      }
      ProjectedSnoc(data, i, format);
      buffer := buffer + [Project(data[i], format)];
      i := i + 1;
    }
    assert data[..i] == data;
    ok := true;
  }

  lemma ProjectedSnoc(data: seq<Row>, i: nat, format: real -> string)
    requires i < |data|
    ensures Projected(data[..i + 1], format) == Projected(data[..i], format) + [Project(data[i], format)]
  {
  }

  /** Two accepted batches written to `path` one after the other are one
      write of both: the header row is written at most once, and only when
      the file is new, and the batches follow it in order. */
  lemma HeaderWrittenOnce(files: map<string, seq<Record>>, path: string, d1: seq<Row>, d2: seq<Row>, format: real -> string)
    requires forall i :: 0 <= i < |d1| ==> RowFits(d1[i])
    requires forall i :: 0 <= i < |d2| ==> RowFits(d2[i])
    ensures Written(Written(files, path, d1, format).0, path, d2, format) == Written(files, path, d1 + d2, format)
    ensures path !in files ==>
      Written(Written(files, path, d1, format).0, path, d2, format).0[path] == [Fieldnames] + Projected(d1, format) + Projected(d2, format)
  {
    ProjectedAppend(d1, d2, format);
    AppendTwice(files, path, Projected(d1, format), Projected(d2, format));
  }

  lemma ProjectedAppend(d1: seq<Row>, d2: seq<Row>, format: real -> string)
    requires forall i :: 0 <= i < |d1| ==> RowFits(d1[i])
    requires forall i :: 0 <= i < |d2| ==> RowFits(d2[i])
    ensures forall i :: 0 <= i < |d1 + d2| ==> RowFits((d1 + d2)[i])
    ensures Projected(d1 + d2, format) == Projected(d1, format) + Projected(d2, format)
  {
    var d := d1 + d2;
    forall i | 0 <= i < |d| ensures RowFits(d[i]) {
      if i >= |d1| {
        assert d[i] == d2[i - |d1|];
      }
    }
  }

  /** Appending records a and then b to `path` is appending a + b. */
  lemma AppendTwice(files: map<string, seq<Record>>, path: string, a: seq<Record>, b: seq<Record>)
    ensures var f1 := files[path := Opened(files, path) + a];
      f1[path := Opened(f1, path) + b] == files[path := Opened(files, path) + (a + b)]
  {
    var f1 := files[path := Opened(files, path) + a];
    assert Opened(f1, path) + b == Opened(files, path) + (a + b);
  }

  /** Every record the writer produces has one field per column, so none is
      blank and the reader keeps them all. */
  lemma {:induction false} ProjectedNonBlank(data: seq<Row>, format: real -> string)
    ensures NonBlank(Projected(data, format)) == Projected(data, format)
  {
    var p := Projected(data, format);
    forall i | 0 <= i < |p| ensures p[i] != [] {
      assert |p[i]| == |Fieldnames|;
    }
  }

  /** Reading back a new file written from rows of strings gives one row per
      row written, in order, each with exactly the columns as keys, holding
      the row's value where the row had the column and "NULL" where it did not. */
  lemma WriteReadRoundTrip(data: seq<Row>, format: real -> string)
    requires forall i :: 0 <= i < |data| ==> RowFits(data[i])
    requires forall i, key :: 0 <= i < |data| && key in data[i] ==> data[i][key].Str?
    ensures var back := DictRows([Fieldnames] + Projected(data, format));
      && |back| == |data|
      && (forall i :: 0 <= i < |data| ==> forall key :: (key in back[i] <==> key in Fieldnames))
      && (forall i :: 0 <= i < |data| ==> forall key :: key in Fieldnames ==>
            back[i][key] == if key in data[i] then data[i][key] else Str(RestVal))
  {
    var records := [Fieldnames] + Projected(data, format);
    assert records[1..] == Projected(data, format);
    ProjectedNonBlank(data, format);
    var back := DictRows(records);
    forall i, key | 0 <= i < |data| && key in Fieldnames
      ensures back[i][key] == if key in data[i] then data[i][key] else Str(RestVal)
    {
      FieldnamesDistinct();
      var c :| 0 <= c < |Fieldnames| && Fieldnames[c] == key;
      assert Fieldnames[c] !in Fieldnames[c + 1..];
      ZipRowAt(Fieldnames, Project(data[i], format), c);
    }
  }

  /** The round trip of the project's own test: rows whose keys are exactly
      the columns and whose values are strings come back unchanged. */
  lemma WriteReadIdentity(data: seq<Row>, format: real -> string)
    requires forall i :: 0 <= i < |data| ==> data[i].Keys == set c | c in Fieldnames
    requires forall i, key :: 0 <= i < |data| && key in data[i] ==> data[i][key].Str?
    ensures DictRows([Fieldnames] + Projected(data, format)) == data
  {
    WriteReadRoundTrip(data, format);
    var back := DictRows([Fieldnames] + Projected(data, format));
    forall i | 0 <= i < |data| ensures back[i] == data[i] {
      assert back[i].Keys == data[i].Keys;
    }
  }
}
