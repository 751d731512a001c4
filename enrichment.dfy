/** The enrichment join of csv_enricher/main.py (`enrich`): one batched
    lookup of the chunk's `lei` keys against the entity registry, then every
    returned record is joined onto the rows whose `lei` equals its key, setting
    `legalName`, `bic` and the country-dependent `transaction_costs`. */
module Enrichment {
  import opened Common
  import opened Text

  /** The fields `enrich` takes from one entity of the registry's answer. */
  datatype EntityRecord = EntityRecord(lei: string, name: string, bic: seq<string>, country: string)

  /** The registry's HTTP answer: its status code and, already extracted, its entities. */
  datatype Response = Response(status: int, data: seq<EntityRecord>)

  const LegalName: string := "legalName"
  const Bic: string := "bic"
  const TransactionCosts: string := "transaction_costs"

  // ---------------------------------------------------------------------------
  // The lookup

  /** The client's `",".join(lei)`: TypeError unless every key is a str. */
  function FilterParam(keys: seq<Value>): Result<string>
  {
    if forall i :: 0 <= i < |keys| ==> keys[i].Str? then
      Ok(Join(",", seq(|keys|, i requires 0 <= i < |keys| => keys[i].s)))
    else Err(TypeError)
  }

  /** `get_all_lei_records` with the registry as a function from the filter
      string to its answer: keys that are not all strings raise TypeError, and
      `raise_for_status` turns every status outside 200..299 into
      HttpStatusError. */
  function Lookup(registry: string -> Response, keys: seq<Value>): (r: Result<Response>)
    ensures r.Ok? ==> 200 <= r.value.status < 300
    ensures r.Err? ==> r.error == TypeError || r.error.HttpStatusError?
    ensures (forall i :: 0 <= i < |keys| ==> keys[i].Str?) <==> !(r == Err(TypeError))
    ensures FilterParam(keys).Ok? ==>
      var answer := registry(FilterParam(keys).value);
      r == if 200 <= answer.status < 300 then Ok(answer) else Err(HttpStatusError(answer.status))
  {
    var filter :- FilterParam(keys);
    var response := registry(filter);
    if 200 <= response.status < 300 then Ok(response) else Err(HttpStatusError(response.status))
  }

  // ---------------------------------------------------------------------------
  // Transaction costs

  /** Python's `float(v)`: a str is parsed with `parse` (None: ValueError), a
      float is itself, None raises TypeError. */
  function ToFloat(v: Value, parse: string -> Option<real>): Result<real>
  {
    match v
    case Str(s) => (match parse(s) case Some(x) => Ok(x) case None => Err(ValueError(s)))
    case Float(x) => Ok(x)
    case NoneValue => Err(TypeError)
  }

  /** `float(row[key])`. */
  function Field(row: Row, key: string, parse: string -> Option<real>): Result<real>
  {
    if key !in row then Err(KeyError(key)) else ToFloat(row[key], parse)
  }

  /** Real multiplication, named so that the solver treats a product of
      equal operands as equal without nonlinear reasoning. */
  function Times(a: real, b: real): real
  {
    a * b
  }

  function Abs(x: real): real
  {
    if x < 0.0 then -x else x
  }

  /** The `transaction_costs` of a matched row with notional N and rate R:
      for GB N*R - N, for NL |N*(1/R) - N| (no guard: R = 0 raises
      ZeroDivisionError), for any other country the string "N/A". Notional is
      converted before rate, so its errors come first. */
  function Cost(country: string, row: Row, parse: string -> Option<real>): (r: Result<Value>)
    ensures country != "GB" && country != "NL" ==> r == Ok(Str("N/A"))
    ensures country == "GB" || country == "NL" ==>
      (r.Ok? <==> Field(row, "notional", parse).Ok? && Field(row, "rate", parse).Ok?
                  && (country == "NL" ==> Field(row, "rate", parse).value != 0.0))
    ensures country == "GB" && r.Ok? ==>
      r.value == Float(Times(Field(row, "notional", parse).value, Field(row, "rate", parse).value) - Field(row, "notional", parse).value)
    ensures country == "NL" && r.Ok? ==>
      r.value == Float(Abs(Times(Field(row, "notional", parse).value, 1.0 / Field(row, "rate", parse).value) - Field(row, "notional", parse).value))
    ensures country == "NL" && r.Ok? ==> r.value.Float? && r.value.x >= 0.0
    ensures r == Err(ZeroDivisionError) <==>
      country == "NL" && Field(row, "notional", parse).Ok? && Field(row, "rate", parse) == Ok(0.0)
    ensures r.Err? && r.error != ZeroDivisionError ==>
      if Field(row, "notional", parse).Err? then r.error == Field(row, "notional", parse).error
      else Field(row, "rate", parse).Err? && r.error == Field(row, "rate", parse).error
  {
    if country == "GB" then
      var notional :- Field(row, "notional", parse);
      var rate :- Field(row, "rate", parse);
      Ok(Float(Times(notional, rate) - notional))
    else if country == "NL" then
      var notional :- Field(row, "notional", parse);
      var rate :- Field(row, "rate", parse);
      if rate == 0.0 then Err(ZeroDivisionError)
      else Ok(Float(Abs(Times(notional, 1.0 / rate) - notional)))
    else Ok(Str("N/A"))
  }

  /** The end-to-end example of a GB entity: notional 1000 at rate 0.01 costs -990. */
  lemma GbCostExample(row: Row, parse: string -> Option<real>)
    requires "notional" in row && row["notional"] == Str("1000")
    requires "rate" in row && row["rate"] == Str("0.01")
    requires parse("1000") == Some(1000.0) && parse("0.01") == Some(0.01)
    ensures Cost("GB", row, parse) == Ok(Float(-990.0))
  {
  }

  // ---------------------------------------------------------------------------
  // The join

  /** Row `row` is the one `rec` is joined onto: it has a `lei` equal to the record's. */
  predicate Matches(rec: EntityRecord, row: Row)
  {
    "lei" in row && row["lei"] == Str(rec.lei)
  }

  /** The row after the assignments of a match: `legalName` is the record's
      name, `bic` its codes joined by ", ", `transaction_costs` its cost. */
  function EnrichRow(row: Row, rec: EntityRecord, parse: string -> Option<real>): (r: Result<Row>)
    ensures r.Ok? <==> Cost(rec.country, row, parse).Ok?
    ensures r.Err? ==> r.error == Cost(rec.country, row, parse).error
    ensures r.Ok? ==> forall key :: key in r.value <==> key in row || key in {LegalName, Bic, TransactionCosts}
    ensures r.Ok? ==> forall key :: key in row && key !in {LegalName, Bic, TransactionCosts} ==> r.value[key] == row[key]
    ensures r.Ok? ==> r.value[LegalName] == Str(rec.name) && r.value[Bic] == Str(Join(", ", rec.bic))
    ensures r.Ok? ==> r.value[TransactionCosts] == Cost(rec.country, row, parse).value
  {
    var cost :- Cost(rec.country, row, parse);
    Ok(row[LegalName := Str(rec.name)][Bic := Str(Join(", ", rec.bic))][TransactionCosts := cost])
  }

  /** One step of the inner loop: `row["lei"]` (KeyError when absent), then
      the assignments when it equals the record's key. */
  function MatchRow(rec: EntityRecord, row: Row, parse: string -> Option<real>): Result<Row>
  {
    if "lei" !in row then Err(KeyError("lei"))
    else if Matches(rec, row) then EnrichRow(row, rec, parse)
    else Ok(row)
  }

  /** The inner loop for record `rec`: every row in order, stopping at the first exception. */
  function ApplyRecord(rec: EntityRecord, rows: seq<Row>, parse: string -> Option<real>): Result<seq<Row>>
  {
    if rows == [] then Ok([])
    else
      var done :- ApplyRecord(rec, rows[..|rows| - 1], parse);
      var row :- MatchRow(rec, rows[|rows| - 1], parse);
      Ok(done + [row])
  }

  /** The outer loop: the records in response order, each over all rows as
      the previous records left them. */
  function ApplyRecords(records: seq<EntityRecord>, rows: seq<Row>, parse: string -> Option<real>): Result<seq<Row>>
  {
    if records == [] then Ok(rows)
    else
      var done :- ApplyRecords(records[..|records| - 1], rows, parse);
      ApplyRecord(records[|records| - 1], done, parse)
  }

  /** What `enrich` returns: the lookup's exception, [] for a status other
      than 200, and otherwise the joined rows. */
  function EnrichOutcome(rows: seq<Row>, keys: seq<Value>, registry: string -> Response, parse: string -> Option<real>)
    : Result<seq<Row>>
  {
    var response :- Lookup(registry, keys);
    if response.status != 200 then Ok([]) else ApplyRecords(response.data, rows, parse)
  }

  /** The index of the last record joined onto `row`, if any. */
  function LastMatch(records: seq<EntityRecord>, row: Row): (j: Option<nat>)
    ensures j.Some? ==> j.value < |records| && Matches(records[j.value], row)
    ensures j.Some? ==> forall j' :: j.value < j' < |records| ==> !Matches(records[j'], row)
    ensures j.None? ==> forall j' :: 0 <= j' < |records| ==> !Matches(records[j'], row)
  {
    if records == [] then None
    else if Matches(records[|records| - 1], row) then Some(|records| - 1)
    else LastMatch(records[..|records| - 1], row)
  }

  /** What the join should make of `row`: unchanged when no record matches
      it, otherwise enriched by the last matching record. */
  function Joined(records: seq<EntityRecord>, row: Row, parse: string -> Option<real>): Row
  {
    match LastMatch(records, row)
    case None => row
    case Some(j) => (match EnrichRow(row, records[j], parse) case Ok(r) => r case Err(_) => row)
  }

  // ---------------------------------------------------------------------------
  // Properties of the join

  /** No (record, row) step of the join raises. */
  ghost predicate StepsOk(records: seq<EntityRecord>, rows: seq<Row>, parse: string -> Option<real>)
  {
    forall j, i :: 0 <= j < |records| && 0 <= i < |rows| ==> MatchRow(records[j], rows[i], parse).Ok?
  }

  /** `out` is `rows`, each row joined with `records`. */
  ghost predicate JoinedAll(records: seq<EntityRecord>, rows: seq<Row>, out: seq<Row>, parse: string -> Option<real>)
  {
    |out| == |rows| && forall i :: 0 <= i < |rows| ==> out[i] == Joined(records, rows[i], parse)
  }

  /** Step (j, i) raises e, and no step before it in loop order (records
      outer, rows inner) raises. */
  ghost predicate FirstFailure(records: seq<EntityRecord>, rows: seq<Row>, parse: string -> Option<real>, j: int, i: int, e: Error)
  {
    && 0 <= j < |records| && 0 <= i < |rows|
    && MatchRow(records[j], rows[i], parse) == Err(e)
    && (forall j', i' :: 0 <= j' < j && 0 <= i' < |rows| ==> MatchRow(records[j'], rows[i'], parse).Ok?)
    && (forall i' :: 0 <= i' < i ==> MatchRow(records[j], rows[i'], parse).Ok?)
  }

  /** The inner loop succeeds exactly when every row's step does, keeps the
      number and order of the rows, and puts each row's step result in its
      place; when it raises, it raises the first failing step's exception. */
  lemma {:induction false} ApplyRecordAt(rec: EntityRecord, rows: seq<Row>, parse: string -> Option<real>)
    ensures ApplyRecord(rec, rows, parse).Ok? <==> forall i :: 0 <= i < |rows| ==> MatchRow(rec, rows[i], parse).Ok?
    ensures ApplyRecord(rec, rows, parse).Ok? ==>
      && |ApplyRecord(rec, rows, parse).value| == |rows|
      && forall i :: 0 <= i < |rows| ==> ApplyRecord(rec, rows, parse).value[i] == MatchRow(rec, rows[i], parse).value
    ensures ApplyRecord(rec, rows, parse).Err? ==>
      exists i :: 0 <= i < |rows| && MatchRow(rec, rows[i], parse) == Err(ApplyRecord(rec, rows, parse).error)
                  && forall i' :: 0 <= i' < i ==> MatchRow(rec, rows[i'], parse).Ok?
  {
    if rows != [] {
      var init := rows[..|rows| - 1];
      ApplyRecordAt(rec, init, parse);
      assert forall i :: 0 <= i < |init| ==> init[i] == rows[i];
    }
  }

  /** Joining onto a row that an earlier record already enriched gives what
      joining onto the original row gives: the key, notional and rate are
      untouched, and the three fields written are overwritten. */
  lemma MatchRowAfterEnrich(rec0: EntityRecord, rec: EntityRecord, row: Row, parse: string -> Option<real>)
    requires MatchRow(rec0, row, parse).Ok?
    ensures var row' := MatchRow(rec0, row, parse).value;
      && "lei" in row' && row'["lei"] == row["lei"]
      && MatchRow(rec, row', parse) == if Matches(rec, row) then MatchRow(rec, row, parse) else Ok(row')
  {
    var row' := MatchRow(rec0, row, parse).value;
    if Matches(rec0, row) {
      assert "notional" !in {LegalName, Bic, TransactionCosts};
      assert "rate" !in {LegalName, Bic, TransactionCosts};
      assert "lei" !in {LegalName, Bic, TransactionCosts};
      assert Field(row', "notional", parse) == Field(row, "notional", parse);
      assert Field(row', "rate", parse) == Field(row, "rate", parse);
      CostOfSameFields(rec.country, row', row, parse);
      if Matches(rec, row) && EnrichRow(row, rec, parse).Ok? {
        var a, b := EnrichRow(row', rec, parse).value, EnrichRow(row, rec, parse).value;
        assert a.Keys == b.Keys;
        assert forall key :: key in a ==> a[key] == b[key];
        assert a == b;
      }
    }
  }

  /** The cost depends on the row only through its notional and rate. */
  lemma CostOfSameFields(country: string, row1: Row, row2: Row, parse: string -> Option<real>)
    requires Field(row1, "notional", parse) == Field(row2, "notional", parse)
    requires Field(row1, "rate", parse) == Field(row2, "rate", parse)
    ensures Cost(country, row1, parse) == Cost(country, row2, parse)
  {
  }

  /** Record `rec`'s step on row i, after the records `init` have run without
      raising, raises exactly when its step on the original row does, and
      otherwise leaves the row joined with `init + [rec]`. */
  lemma StepAfterEarlierRecords(init: seq<EntityRecord>, rec: EntityRecord, rows: seq<Row>, out: seq<Row>,
                                parse: string -> Option<real>, i: nat)
    requires StepsOk(init, rows, parse) && JoinedAll(init, rows, out, parse) && i < |rows|
    ensures MatchRow(rec, out[i], parse).Err? ==> MatchRow(rec, out[i], parse) == MatchRow(rec, rows[i], parse)
    ensures MatchRow(rec, rows[i], parse).Err? ==> MatchRow(rec, out[i], parse).Err?
    ensures MatchRow(rec, out[i], parse).Ok? ==> MatchRow(rec, out[i], parse).value == Joined(init + [rec], rows[i], parse)
  {
    var row := rows[i];
    var records := init + [rec];
    assert records[..|records| - 1] == init;
    match LastMatch(init, row)
    case None =>
      assert out[i] == row;
    case Some(j) =>
      assert MatchRow(init[j], row, parse).Ok?;
      assert MatchRow(init[j], row, parse).value == out[i];
      MatchRowAfterEnrich(init[j], rec, row, parse);
  }

  /** The meaning of the join, stated without the loops. It succeeds exactly
      when no (record, row) step raises, and then the rows keep their number
      and order, a row no record matches is unchanged and any other row is
      enriched by the LAST matching record in response order. When it raises,
      the exception is that of the first failing step in loop order. */
  lemma {:induction false} ApplyRecordsMeaning(records: seq<EntityRecord>, rows: seq<Row>, parse: string -> Option<real>)
    ensures ApplyRecords(records, rows, parse).Ok? <==> StepsOk(records, rows, parse)
    ensures ApplyRecords(records, rows, parse).Ok? ==> JoinedAll(records, rows, ApplyRecords(records, rows, parse).value, parse)
    ensures ApplyRecords(records, rows, parse).Err? ==>
      exists j, i :: FirstFailure(records, rows, parse, j, i, ApplyRecords(records, rows, parse).error)
  {
    if records == [] {
      assert JoinedAll(records, rows, rows, parse);
    } else {
      var init, rec := records[..|records| - 1], records[|records| - 1];
      assert records == init + [rec];
      ApplyRecordsMeaning(init, rows, parse);
      var before := ApplyRecords(init, rows, parse);
      if before.Ok? {
        AppendRecord(init, rec, rows, before.value, parse);
      } else {
        var j, i :| FirstFailure(init, rows, parse, j, i, before.error);
        InitFailure(records, rows, parse, j, i, before.error);
      }
    }
  }

  /** The induction step of ApplyRecordsMeaning: one more record's inner
      loop over rows already joined with the earlier records. */
  lemma AppendRecord(init: seq<EntityRecord>, rec: EntityRecord, rows: seq<Row>, out0: seq<Row>, parse: string -> Option<real>)
    requires StepsOk(init, rows, parse) && JoinedAll(init, rows, out0, parse)
    ensures ApplyRecord(rec, out0, parse).Ok? <==> StepsOk(init + [rec], rows, parse)
    ensures ApplyRecord(rec, out0, parse).Ok? ==> JoinedAll(init + [rec], rows, ApplyRecord(rec, out0, parse).value, parse)
    ensures ApplyRecord(rec, out0, parse).Err? ==>
      exists j, i :: FirstFailure(init + [rec], rows, parse, j, i, ApplyRecord(rec, out0, parse).error)
  {
    var records := init + [rec];
    assert records[..|records| - 1] == init;
    InitSteps(records, rows, parse);
    ApplyRecordAt(rec, out0, parse);
    var after := ApplyRecord(rec, out0, parse);
    forall i | 0 <= i < |rows|
      ensures MatchRow(rec, rows[i], parse).Ok? <==> MatchRow(rec, out0[i], parse).Ok?
      ensures MatchRow(rec, out0[i], parse).Err? ==> MatchRow(rec, out0[i], parse) == MatchRow(rec, rows[i], parse)
      ensures MatchRow(rec, out0[i], parse).Ok? ==> MatchRow(rec, out0[i], parse).value == Joined(records, rows[i], parse)
    {
      StepAfterEarlierRecords(init, rec, rows, out0, parse, i);
    }
    if after.Err? {
      var i :| 0 <= i < |out0| && MatchRow(rec, out0[i], parse) == Err(after.error)
               && forall i' :: 0 <= i' < i ==> MatchRow(rec, out0[i'], parse).Ok?;
      assert FirstFailure(records, rows, parse, |init|, i, after.error);
    }
  }

  lemma InitSteps(records: seq<EntityRecord>, rows: seq<Row>, parse: string -> Option<real>)
    requires records != [] && StepsOk(records[..|records| - 1], rows, parse)
    ensures StepsOk(records, rows, parse) <==> forall i :: 0 <= i < |rows| ==> MatchRow(records[|records| - 1], rows[i], parse).Ok?
  {
    var init := records[..|records| - 1];
    assert forall j :: 0 <= j < |init| ==> init[j] == records[j];
  }

  lemma InitFailure(records: seq<EntityRecord>, rows: seq<Row>, parse: string -> Option<real>, j: int, i: int, e: Error)
    requires records != [] && FirstFailure(records[..|records| - 1], rows, parse, j, i, e)
    ensures FirstFailure(records, rows, parse, j, i, e)
  {
    var init := records[..|records| - 1];
    assert forall j' :: 0 <= j' < |init| ==> init[j'] == records[j'];
  }

  /** The prefix of a run that raised makes the whole run raise the same exception. */
  lemma {:induction false} ApplyRecordErrPrefix(rec: EntityRecord, rows: seq<Row>, n: nat, parse: string -> Option<real>)
    requires n <= |rows| && ApplyRecord(rec, rows[..n], parse).Err?
    ensures ApplyRecord(rec, rows, parse) == ApplyRecord(rec, rows[..n], parse)
    decreases |rows| - n
  {
    if n < |rows| {
      assert rows[..n + 1][..n] == rows[..n];
      ApplyRecordErrPrefix(rec, rows, n + 1, parse);
    } else {
      assert rows[..n] == rows;
    }
  }

  lemma {:induction false} ApplyRecordsErrPrefix(records: seq<EntityRecord>, rows: seq<Row>, n: nat, parse: string -> Option<real>)
    requires n <= |records| && ApplyRecords(records[..n], rows, parse).Err?
    ensures ApplyRecords(records, rows, parse) == ApplyRecords(records[..n], rows, parse)
    decreases |records| - n
  {
    if n < |records| {
      assert records[..n + 1][..n] == records[..n];
      ApplyRecordsErrPrefix(records, rows, n + 1, parse);
    } else {
      assert records[..n] == records;
    }
  }

  /** `enrich`: one lookup for the chunk's keys; a status other than 200
      returns [] whatever the rows; otherwise the records of the response
      (outer loop) are joined onto the rows (inner loop, JoinRecord). */
  method Enrich(rows: seq<Row>, leiNumbers: seq<Value>, registry: string -> Response, parse: string -> Option<real>)
    returns (result: Result<seq<Row>>)
    ensures result == EnrichOutcome(rows, leiNumbers, registry, parse)
    ensures Lookup(registry, leiNumbers).Ok? && Lookup(registry, leiNumbers).value.status != 200 ==> result == Ok([])
    ensures Lookup(registry, leiNumbers).Err? ==> result == Err(Lookup(registry, leiNumbers).error)
  {
    var lookup := Lookup(registry, leiNumbers);
    if lookup.Err? {
      return Err(lookup.error);
    }
    var response := lookup.value;
    if response.status != 200 {
      return Ok([]);
    }
    var collection := response.data;
    var current := rows;
    var j := 0;
    while j < |collection|
      invariant 0 <= j <= |collection|
      invariant ApplyRecords(collection[..j], rows, parse) == Ok(current)
    {
      assert collection[..j + 1][..j] == collection[..j];
      var joined := JoinRecord(collection[j], current, parse);
      if joined.Err? {
        ApplyRecordsErrPrefix(collection, rows, j + 1, parse);
        return joined;
      }
      current := joined.value;
      j := j + 1;
    }
    assert collection[..j] == collection;
    return Ok(current);
  }

  /** The inner loop of `enrich` for one record: every row whose `lei`
      equals the record's key is updated in place; a row without `lei`, or
      a cost that cannot be computed, raises. */
  method JoinRecord(record: EntityRecord, rows: seq<Row>, parse: string -> Option<real>) returns (result: Result<seq<Row>>)
    ensures result == ApplyRecord(record, rows, parse)
  {
    var current := rows;
    var i := 0;
    while i < |current|
      invariant 0 <= i <= |current| == |rows|
      invariant ApplyRecord(record, rows[..i], parse) == Ok(current[..i])
      invariant current[i..] == rows[i..]
    {
      var row := current[i];
      assert row == rows[i];
      assert rows[..i + 1][..i] == rows[..i];
      if "lei" !in row {
        ApplyRecordErrPrefix(record, rows, i + 1, parse);
        return Err(KeyError("lei"));
      }
      if row["lei"] == Str(record.lei) {
        var cost := Cost(record.country, row, parse);
        if cost.Err? {
          ApplyRecordErrPrefix(record, rows, i + 1, parse);
          return Err(cost.error);
        }
        current := current[i := row[LegalName := Str(record.name)][Bic := Str(Join(", ", record.bic))][TransactionCosts := cost.value]];
      }
      assert current[..i + 1] == current[..i] + [current[i]];
      i := i + 1;
    }
    assert rows[..i] == rows && current[..i] == current;
    return Ok(current);
  }
}
