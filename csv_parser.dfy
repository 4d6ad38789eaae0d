/** The record validator in the `complete` callback of `parseAndValidateCSV`
    (csvParser.js:18-129), over rows the CSV reader has already split: the
    header check, the per-row checks, the dependency split and the
    dependency-existence pass. */
module CsvParser {
  import opened Wrappers
  import opened JsStrings
  import opened TaskModel

  /** One data row: header name to cell text. A header the row has no cell
      for is absent (JavaScript `undefined`). */
  type Row = map<string, string>

  const IdField := "task_id"
  const DescriptionField := "description"
  const OptimisticField := "optimistic_time"
  const MostLikelyField := "most_likely_time"
  const PessimisticField := "pessimistic_time"
  const DependenciesField := "dependencies"

  /** The six headers the file must have, in the order they are checked. */
  const RequiredHeaders: seq<string> :=
    [IdField, DescriptionField, OptimisticField, MostLikelyField, PessimisticField, DependenciesField]

  /** The three time columns, each checked for a non-negative number. */
  datatype TimeField = Optimistic | MostLikely | Pessimistic

  /** The header of a time column. */
  function ColumnOf(f: TimeField): string
  {
    match f
    case Optimistic => OptimisticField
    case MostLikely => MostLikelyField
    case Pessimistic => PessimisticField
  }

  /** One entry of the `errors` array; row numbers count the header as row 1. */
  datatype CsvError =
    | MissingHeader(header: string)
    | NoRows
    | MissingId(row: int)
    | DuplicateId(row: int, id: string)
    | NotNonNegative(row: int, id: string, field: TimeField, found: Option<string>)
    | OptimisticAboveMostLikely(row: int, id: string, o: real, m: real)
    | MostLikelyAbovePessimistic(row: int, id: string, m: real, p: real)
    | UnknownDependency(id: string, row: int, dependency: string)

  /** The cell of `row` under `name`, if any. */
  function Field(row: Row, name: string): Option<string>
  {
    if name in row then Some(row[name]) else None
  }

  // ---------------------------------------------------------------------
  // Header check (csvParser.js:21-37)
  // ---------------------------------------------------------------------

  /** One `MissingHeader` per required header absent from `headers`, in the
      order of `required`. */
  function MissingHeaders(required: seq<string>, headers: seq<string>): (errs: seq<CsvError>)
    ensures forall e :: e in errs ==> e.MissingHeader? && e.header in required && e.header !in headers
    ensures forall h :: h in required && h !in headers ==> MissingHeader(h) in errs
    ensures errs == [] <==> forall h :: h in required ==> h in headers
  {
    if required == [] then []
    else
      var h := required[|required| - 1];
      var init := required[..|required| - 1];
      assert required == init + [h];
      MissingHeaders(init, headers) + (if h in headers then [] else [MissingHeader(h)])
  }

  // ---------------------------------------------------------------------
  // Per-row checks (csvParser.js:47-106)
  // ---------------------------------------------------------------------

  /** `!task.task_id || String(task.task_id).trim() === ""`. */
  predicate IdBlank(row: Row)
  {
    IdField !in row || Trim(row[IdField]) == ""
  }

  /** The trimmed ID written back into the row. */
  function RowId(row: Row): string
    requires !IdBlank(row)
  {
    Trim(row[IdField])
  }

  /** `parseFloat` of a cell; `parseFloat(undefined)` is NaN. */
  function ParseNumber(parseFloat: string -> Number, cell: Option<string>): Number
  {
    match cell
    case None => NaN
    case Some(s) => parseFloat(s)
  }

  /** The negation of `isNaN(x) || x < 0`. */
  predicate NonNegative(n: Number)
  {
    n.Num? && n.value >= 0.0
  }

  /** `task.description ? String(task.description).trim() : ""`. */
  function Description(row: Row): string
  {
    match Field(row, DescriptionField)
    case None => ""
    case Some(s) => if s == "" then "" else Trim(s)
  }

  /** `.map(dep => dep.trim()).filter(dep => dep !== "")`. */
  function CleanParts(parts: seq<string>): seq<string>
  {
    if parts == [] then []
    else
      var t := Trim(parts[0]);
      (if t == "" then [] else [t]) + CleanParts(parts[1..])
  }

  /** The cleaned parts are trimmed and non-empty, and hold no comma when
      the parts hold none. */
  lemma {:induction false} CleanPartsSpec(parts: seq<string>)
    ensures |CleanParts(parts)| <= |parts|
    ensures forall k :: 0 <= k < |CleanParts(parts)| ==> CleanParts(parts)[k] != "" && IsTrimmed(CleanParts(parts)[k])
    ensures (forall j :: 0 <= j < |parts| ==> ',' !in parts[j]) ==>
      forall k :: 0 <= k < |CleanParts(parts)| ==> ',' !in CleanParts(parts)[k]
  {
    if parts != [] {
      TrimSpec(parts[0]);
      CleanPartsSpec(parts[1..]);
      assert forall j :: 1 <= j < |parts| ==> parts[1..][j - 1] == parts[j];
    }
  }

  /** The dependency cell: absent or blank gives no dependencies, otherwise
      the parts between commas, trimmed, with the empty ones dropped. */
  function ParseDependencies(cell: Option<string>): seq<string>
  {
    var raw := match cell case None => "" case Some(s) => if s == "" then "" else Trim(s);
    if raw == "" then [] else CleanParts(Split(raw, ','))
  }

  /** Every dependency read is trimmed, non-empty and comma-free, and an
      absent or blank cell gives none. */
  lemma ParseDependenciesSpec(cell: Option<string>)
    ensures forall k :: 0 <= k < |ParseDependencies(cell)| ==>
      var d := ParseDependencies(cell)[k]; d != "" && IsTrimmed(d) && ',' !in d
    ensures cell.None? ==> ParseDependencies(cell) == []
    ensures cell.Some? && (forall j :: 0 <= j < |cell.value| ==> IsWhiteSpace(cell.value[j])) ==>
      ParseDependencies(cell) == []
  {
    if cell.Some? && cell.value != "" {
      TrimSpec(cell.value);
      var raw := Trim(cell.value);
      if raw != "" {
        CleanPartsSpec(Split(raw, ','));
      }
    }
  }

  /** Trimming and dropping empties leaves a list of trimmed non-empty parts alone. */
  lemma {:induction false} CleanPartsOfClean(ds: seq<string>)
    requires forall k :: 0 <= k < |ds| ==> ds[k] != "" && IsTrimmed(ds[k])
    ensures CleanParts(ds) == ds
  {
    if ds != [] {
      TrimOfTrimmed(ds[0]);
      CleanPartsOfClean(ds[1..]);
    }
  }

  /** The joined string starts with the first part's first character and
      ends with the last part's last character. */
  lemma {:induction false} JoinEnds(ds: seq<string>, sep: char)
    requires |ds| >= 1 && forall k :: 0 <= k < |ds| ==> ds[k] != ""
    ensures var s := Join(ds, sep);
      |s| >= 1 && s[0] == ds[0][0] && s[|s| - 1] == ds[|ds| - 1][|ds[|ds| - 1]| - 1]
  {
    if |ds| > 1 {
      JoinEnds(ds[1..], sep);
    }
  }

  /** A trimmed non-empty cell is split as it stands. */
  lemma ParseTrimmedCell(s: string)
    requires s != "" && IsTrimmed(s)
    ensures ParseDependencies(Some(s)) == CleanParts(Split(s, ','))
  {
    TrimOfTrimmed(s);
  }

  /** Writing a dependency list back with commas and reading it parses to
      the same list. */
  lemma ParseDependenciesJoin(ds: seq<string>)
    requires forall k :: 0 <= k < |ds| ==> ds[k] != "" && IsTrimmed(ds[k]) && ',' !in ds[k]
    ensures ParseDependencies(Some(Join(ds, ','))) == ds
  {
    if ds != [] {
      JoinEnds(ds, ',');
      ParseTrimmedCell(Join(ds, ','));
      SplitJoin(ds, ',');
      CleanPartsOfClean(ds);
    }
  }

  /** The duplicate-ID check of one row. */
  function DuplicateErrors(rowNum: int, id: string, seen: set<string>): seq<CsvError>
  {
    if id in seen then [DuplicateId(rowNum, id)] else []
  }

  /** `errs` after the non-negativity check of one time field. */
  function WithFieldCheck(errs: seq<CsvError>, rowNum: int, id: string, field: TimeField, cell: Option<string>, n: Number): seq<CsvError>
  {
    if NonNegative(n) then errs else errs + [NotNonNegative(rowNum, id, field, cell)]
  }

  /** The `O <= M <= P` checks, made only when all three times are numbers. */
  function OrderErrors(rowNum: int, id: string, o: Number, m: Number, p: Number): seq<CsvError>
  {
    if o.Num? && m.Num? && p.Num? then
      (if o.value > m.value then [OptimisticAboveMostLikely(rowNum, id, o.value, m.value)] else [])
      + (if m.value > p.value then [MostLikelyAbovePessimistic(rowNum, id, m.value, p.value)] else [])
    else []
  }

  /** The duplicate-ID check and the three non-negativity checks of a row
      with an ID, in order. */
  function FieldChecks(row: Row, rowNum: int, seen: set<string>, parseFloat: string -> Number): seq<CsvError>
    requires !IdBlank(row)
  {
    var id := RowId(row);
    var dup := DuplicateErrors(rowNum, id, seen);
    var withO := WithFieldCheck(dup, rowNum, id, Optimistic, Field(row, OptimisticField),
                                ParseNumber(parseFloat, Field(row, OptimisticField)));
    var withM := WithFieldCheck(withO, rowNum, id, MostLikely, Field(row, MostLikelyField),
                                ParseNumber(parseFloat, Field(row, MostLikelyField)));
    WithFieldCheck(withM, rowNum, id, Pessimistic, Field(row, PessimisticField),
                   ParseNumber(parseFloat, Field(row, PessimisticField)))
  }

  /** The errors `complete` pushes for one row, given the IDs seen in the
      rows before it. */
  function RowErrors(row: Row, rowNum: int, seen: set<string>, parseFloat: string -> Number): seq<CsvError>
  {
    if IdBlank(row) then [MissingId(rowNum)]
    else
      FieldChecks(row, rowNum, seen, parseFloat)
      + OrderErrors(rowNum, RowId(row),
                    ParseNumber(parseFloat, Field(row, OptimisticField)),
                    ParseNumber(parseFloat, Field(row, MostLikelyField)),
                    ParseNumber(parseFloat, Field(row, PessimisticField)))
  }

  /** The record pushed for a row with an ID. */
  function RecordOf(row: Row, rowNum: int, parseFloat: string -> Number): Task
    requires !IdBlank(row)
  {
    Task(RowId(row), Description(row),
         ParseNumber(parseFloat, Field(row, OptimisticField)),
         ParseNumber(parseFloat, Field(row, MostLikelyField)),
         ParseNumber(parseFloat, Field(row, PessimisticField)),
         ParseDependencies(Field(row, DependenciesField)),
         rowNum)
  }

  /** The IDs of the rows of `rows` that have one: `taskIds` after `rows`. */
  function SeenIds(rows: seq<Row>): set<string>
  {
    set i | 0 <= i < |rows| && !IdBlank(rows[i]) :: RowId(rows[i])
  }

  lemma SeenIdsLast(rows: seq<Row>)
    requires rows != []
    ensures var n := |rows| - 1;
      SeenIds(rows) == SeenIds(rows[..n]) + (if IdBlank(rows[n]) then {} else {RowId(rows[n])})
  {
    var n := |rows| - 1;
    assert forall i :: 0 <= i < n ==> rows[..n][i] == rows[i];
  }


  /** The errors the row loop pushes for `rows`, the first of which is file
      row 2: each row's own errors, given the IDs of the rows above it. */
  function RowsErrors(rows: seq<Row>, parseFloat: string -> Number): seq<CsvError>
  {
    if rows == [] then []
    else
      var n := |rows| - 1;
      RowsErrors(rows[..n], parseFloat) + RowErrors(rows[n], n + 2, SeenIds(rows[..n]), parseFloat)
  }

  /** The records the row loop pushes for `rows`: one per row with an ID. */
  function RowsRecords(rows: seq<Row>, parseFloat: string -> Number): seq<Task>
  {
    if rows == [] then []
    else
      var n := |rows| - 1;
      RowsRecords(rows[..n], parseFloat) + (if IdBlank(rows[n]) then [] else [RecordOf(rows[n], n + 2, parseFloat)])
  }

  // ---------------------------------------------------------------------
  // Dependency-existence pass (csvParser.js:113-126)
  // ---------------------------------------------------------------------

  /** The inner loop of the dependency pass: one `UnknownDependency` per
      entry of `deps` outside `ids`, in order. */
  function UnknownDependencies(t: Task, deps: seq<string>, ids: set<string>): seq<CsvError>
  {
    if deps == [] then []
    else
      var d := deps[|deps| - 1];
      UnknownDependencies(t, deps[..|deps| - 1], ids) + (if d in ids then [] else [UnknownDependency(t.id, t.originalRow, d)])
  }

  /** The dependency pass over `records`. */
  function DependencyErrors(records: seq<Task>, ids: set<string>): seq<CsvError>
  {
    if records == [] then []
    else
      var t := records[|records| - 1];
      DependencyErrors(records[..|records| - 1], ids) + UnknownDependencies(t, t.dependencies, ids)
  }

  /** Every error of the inner loop names a dependency of `t` outside `ids`,
      and every such dependency is reported. */
  lemma {:induction false} UnknownDependenciesExact(t: Task, deps: seq<string>, ids: set<string>)
    ensures forall e :: e in UnknownDependencies(t, deps, ids) ==>
      e.UnknownDependency? && e.id == t.id && e.row == t.originalRow && e.dependency in deps && e.dependency !in ids
    ensures forall d :: d in deps && d !in ids ==> UnknownDependency(t.id, t.originalRow, d) in UnknownDependencies(t, deps, ids)
  {
    if deps != [] {
      var init := deps[..|deps| - 1];
      assert deps == init + [deps[|deps| - 1]];
      UnknownDependenciesExact(t, init, ids);
    }
  }

  /** The dependency pass reports nothing exactly when every dependency of
      every record is in `ids`. */
  lemma {:induction false} DependencyErrorsEmpty(records: seq<Task>, ids: set<string>)
    ensures DependencyErrors(records, ids) == [] <==>
      forall i, d :: 0 <= i < |records| && d in records[i].dependencies ==> d in ids
  {
    if records != [] {
      var n := |records| - 1;
      var init := records[..n];
      var t := records[n];
      var own := UnknownDependencies(t, t.dependencies, ids);
      DependencyErrorsEmpty(init, ids);
      UnknownDependenciesExact(t, t.dependencies, ids);
      assert |DependencyErrors(records, ids)| == |DependencyErrors(init, ids)| + |own|;
      assert own == [] <==> forall d :: d in t.dependencies ==> d in ids by {
        if own != [] {
          assert own[0] in own;
        }
      }
      assert forall i :: 0 <= i < n ==> init[i] == records[i];
    }
  }

  // ---------------------------------------------------------------------
  // The whole callback
  // ---------------------------------------------------------------------

  /** What `complete` resolves with, or the errors it rejects with. */
  function Validate(headers: seq<string>, rows: seq<Row>, parseFloat: string -> Number): Result<seq<Task>, seq<CsvError>>
  {
    var headerErrors := MissingHeaders(RequiredHeaders, headers);
    if headerErrors != [] then Err(headerErrors)
    else if rows == [] then Err([NoRows])
    else
      var rowErrors := RowsErrors(rows, parseFloat);
      if rowErrors != [] then Err(rowErrors)
      else
        var records := RowsRecords(rows, parseFloat);
        var depErrors := DependencyErrors(records, IdSet(records));
        if depErrors != [] then Err(depErrors) else Ok(records)
  }

  /** The `O <= M <= P` block of the row loop. */
  method CheckOrder(rowNum: int, id: string, o: Number, m: Number, p: Number) returns (errs: seq<CsvError>)
    ensures errs == OrderErrors(rowNum, id, o, m, p)
  {
    errs := [];
    if o.Num? && m.Num? && p.Num? {
      if o.value > m.value {
        errs := errs + [OptimisticAboveMostLikely(rowNum, id, o.value, m.value)];
      }
      if m.value > p.value {
        errs := errs + [MostLikelyAbovePessimistic(rowNum, id, m.value, p.value)];
      }
    }
  }

  /** One pass of the row loop for a row with an ID: the errors pushed for
      it, the record pushed, and the ID set after it. */
  method CheckRow(row: Row, rowNum: int, seen: set<string>, parseFloat: string -> Number)
    returns (rowErrors: seq<CsvError>, task: Task, seen': set<string>)
    requires !IdBlank(row)
    ensures rowErrors == RowErrors(row, rowNum, seen, parseFloat)
    ensures task == RecordOf(row, rowNum, parseFloat)
    ensures seen' == seen + {RowId(row)}
  {
    var id := Trim(row[IdField]);
    rowErrors := [];
    seen' := seen;
    if id in seen {
      rowErrors := rowErrors + [DuplicateId(rowNum, id)];
    } else {
      seen' := seen + {id};
    }
    assert rowErrors == DuplicateErrors(rowNum, id, seen);
    var o := ParseNumber(parseFloat, Field(row, OptimisticField));
    var m := ParseNumber(parseFloat, Field(row, MostLikelyField));
    var p := ParseNumber(parseFloat, Field(row, PessimisticField));
    ghost var beforeO := rowErrors;
    if !NonNegative(o) {
      rowErrors := rowErrors + [NotNonNegative(rowNum, id, Optimistic, Field(row, OptimisticField))];
    }
    assert rowErrors == WithFieldCheck(beforeO, rowNum, id, Optimistic, Field(row, OptimisticField), o);
    ghost var beforeM := rowErrors;
    if !NonNegative(m) {
      rowErrors := rowErrors + [NotNonNegative(rowNum, id, MostLikely, Field(row, MostLikelyField))];
    }
    assert rowErrors == WithFieldCheck(beforeM, rowNum, id, MostLikely, Field(row, MostLikelyField), m);
    ghost var beforeP := rowErrors;
    if !NonNegative(p) {
      rowErrors := rowErrors + [NotNonNegative(rowNum, id, Pessimistic, Field(row, PessimisticField))];
    }
    assert rowErrors == WithFieldCheck(beforeP, rowNum, id, Pessimistic, Field(row, PessimisticField), p);
    assert rowErrors == FieldChecks(row, rowNum, seen, parseFloat);
    var ordering := CheckOrder(rowNum, id, o, m, p);
    rowErrors := rowErrors + ordering;
    var description := Description(row);
    var dependencies := ParseDependencies(Field(row, DependenciesField));
    task := Task(id, description, o, m, p, dependencies, rowNum);
  }

  /** The header loop. */
  method CheckHeaders(headers: seq<string>) returns (errors: seq<CsvError>)
    ensures errors == MissingHeaders(RequiredHeaders, headers)
  {
    errors := [];
    for h := 0 to |RequiredHeaders|
      invariant errors == MissingHeaders(RequiredHeaders[..h], headers)
    {
      assert RequiredHeaders[..h + 1][..h] == RequiredHeaders[..h];
      if RequiredHeaders[h] !in headers {
        errors := errors + [MissingHeader(RequiredHeaders[h])];
      }
    }
    assert RequiredHeaders[..|RequiredHeaders|] == RequiredHeaders;
  }

  /** The row loop, which pushes errors and records and grows the ID set. */
  method CheckRows(rows: seq<Row>, parseFloat: string -> Number) returns (errors: seq<CsvError>, validated: seq<Task>)
    ensures errors == RowsErrors(rows, parseFloat)
    ensures validated == RowsRecords(rows, parseFloat)
  {
    errors := [];
    validated := [];
    var taskIds: set<string> := {};
    for i := 0 to |rows|
      invariant errors == RowsErrors(rows[..i], parseFloat)
      invariant validated == RowsRecords(rows[..i], parseFloat)
      invariant taskIds == SeenIds(rows[..i])
    {
      assert rows[..i + 1][..i] == rows[..i];
      SeenIdsLast(rows[..i + 1]);
      var row := rows[i];
      var rowNum := i + 2;
      if IdBlank(row) {
        errors := errors + [MissingId(rowNum)];
      } else {
        var rowErrors, task;
        rowErrors, task, taskIds := CheckRow(row, rowNum, taskIds, parseFloat);
        errors := errors + rowErrors;
        validated := validated + [task];
      }
    }
    assert rows[..|rows|] == rows;
  }

  /** The dependency loop over the records, against the set of their IDs. */
  method CheckDependencies(records: seq<Task>, ids: set<string>) returns (errors: seq<CsvError>)
    ensures errors == DependencyErrors(records, ids)
  {
    errors := [];
    for j := 0 to |records|
      invariant errors == DependencyErrors(records[..j], ids)
    {
      assert records[..j + 1][..j] == records[..j];
      var task := records[j];
      var deps := task.dependencies;
      ghost var before := errors;
      for k := 0 to |deps|
        invariant errors == before + UnknownDependencies(task, deps[..k], ids)
      {
        assert deps[..k + 1][..k] == deps[..k];
        if deps[k] !in ids {
          errors := errors + [UnknownDependency(task.id, task.originalRow, deps[k])];
        }
      }
      assert deps[..|deps|] == deps;
    }
    assert records[..|records|] == records;
  }

  /** The body of `complete`: the header check, the empty-file check, the
      row loop and the dependency loop, each rejecting when it found errors. */
  method ParseAndValidate(headers: seq<string>, rows: seq<Row>, parseFloat: string -> Number)
    returns (r: Result<seq<Task>, seq<CsvError>>)
    ensures r == Validate(headers, rows, parseFloat)
  {
    var errors := CheckHeaders(headers);
    if |errors| > 0 {
      return Err(errors);
    }
    if |rows| == 0 {
      return Err([NoRows]);
    }
    var validated;
    errors, validated := CheckRows(rows, parseFloat);
    if |errors| > 0 {
      return Err(errors);
    }
    var allTaskIds := IdSet(validated);
    errors := CheckDependencies(validated, allTaskIds);
    if |errors| > 0 {
      return Err(errors);
    }
    return Ok(validated);
  }
}
