/** What the CSV validator guarantees: which errors each row produces, and
    what a file that passes looks like. */
module CsvProperties {
  import opened Wrappers
  import opened JsStrings
  import opened TaskModel
  import opened CsvParser

  /** The dependency list read from a row. */
  function RowDependencies(row: Row): seq<string>
  {
    ParseDependencies(Field(row, DependenciesField))
  }

  /** Row `i` exists and has no ID. */
  ghost predicate BlankAt(rows: seq<Row>, i: int)
  {
    0 <= i < |rows| && IdBlank(rows[i])
  }

  /** Row `i` exists and has an ID. */
  ghost predicate HasIdAt(rows: seq<Row>, i: int)
  {
    0 <= i < |rows| && !IdBlank(rows[i])
  }

  /** Row `i` has an ID and lists `d` among its dependencies. */
  ghost predicate DependsAt(rows: seq<Row>, i: int, d: string)
  {
    HasIdAt(rows, i) && d in RowDependencies(rows[i])
  }

  /** Row `i` (file row `i + 2`) reports `e`, given the IDs of the rows above it. */
  ghost predicate RowReports(rows: seq<Row>, parseFloat: string -> Number, i: int, e: CsvError)
  {
    0 <= i < |rows| && e in RowErrors(rows[i], i + 2, SeenIds(rows[..i]), parseFloat)
  }

  /** Row `i` has an ID not used above it and valid estimates. */
  ghost predicate RowClean(rows: seq<Row>, parseFloat: string -> Number, i: int)
  {
    && HasIdAt(rows, i)
    && RowId(rows[i]) !in SeenIds(rows[..i])
    && ValidEstimates(RecordOf(rows[i], i + 2, parseFloat))
  }

  ghost predicate NoBlankRows(rows: seq<Row>)
  {
    forall i {:trigger HasIdAt(rows, i)} :: 0 <= i < |rows| ==> HasIdAt(rows, i)
  }

  ghost predicate AllRowsClean(rows: seq<Row>, parseFloat: string -> Number)
  {
    forall i {:trigger RowClean(rows, parseFloat, i)} :: 0 <= i < |rows| ==> RowClean(rows, parseFloat, i)
  }

  ghost predicate HeadersPresent(headers: seq<string>)
  {
    forall h :: h in RequiredHeaders ==> h in headers
  }

  /** An error about the row numbered `rowNum` with ID `id`, other than a missing ID. */
  predicate RowCheckError(e: CsvError, rowNum: int, id: string)
  {
    && (e.DuplicateId? || e.NotNonNegative? || e.OptimisticAboveMostLikely? || e.MostLikelyAbovePessimistic?)
    && e.row == rowNum && e.id == id
  }

  // ---------------------------------------------------------------------
  // One row
  // ---------------------------------------------------------------------

  /** A non-negativity check adds at most its own error, about the given row. */
  lemma WithFieldCheckMembers(errs: seq<CsvError>, rowNum: int, id: string, field: TimeField, cell: Option<string>, n: Number)
    ensures forall e :: e in WithFieldCheck(errs, rowNum, id, field, cell, n) <==>
      e in errs || (!NonNegative(n) && e == NotNonNegative(rowNum, id, field, cell))
    ensures WithFieldCheck(errs, rowNum, id, field, cell, n) == [] <==> errs == [] && NonNegative(n)
  {
  }

  /** The field checks of a row report a duplicate exactly when its ID was
      seen, a bad time exactly when one is not a non-negative number, and
      nothing about any other row. */
  lemma FieldChecksShape(row: Row, rowNum: int, seen: set<string>, parseFloat: string -> Number)
    requires !IdBlank(row)
    ensures forall e :: e in FieldChecks(row, rowNum, seen, parseFloat) ==>
      (e.DuplicateId? || e.NotNonNegative?) && e.row == rowNum && e.id == RowId(row)
    ensures DuplicateId(rowNum, RowId(row)) in FieldChecks(row, rowNum, seen, parseFloat) <==> RowId(row) in seen
    ensures var t := RecordOf(row, rowNum, parseFloat);
      FieldChecks(row, rowNum, seen, parseFloat) == [] <==>
        RowId(row) !in seen && NonNegative(t.optimisticTime) && NonNegative(t.mostLikelyTime) && NonNegative(t.pessimisticTime)
  {
    var id := RowId(row);
    var o := ParseNumber(parseFloat, Field(row, OptimisticField));
    var m := ParseNumber(parseFloat, Field(row, MostLikelyField));
    var p := ParseNumber(parseFloat, Field(row, PessimisticField));
    var dup := DuplicateErrors(rowNum, id, seen);
    var withO := WithFieldCheck(dup, rowNum, id, Optimistic, Field(row, OptimisticField), o);
    var withM := WithFieldCheck(withO, rowNum, id, MostLikely, Field(row, MostLikelyField), m);
    var withP := WithFieldCheck(withM, rowNum, id, Pessimistic, Field(row, PessimisticField), p);
    assert FieldChecks(row, rowNum, seen, parseFloat) == withP;
    WithFieldCheckMembers(dup, rowNum, id, Optimistic, Field(row, OptimisticField), o);
    WithFieldCheckMembers(withO, rowNum, id, MostLikely, Field(row, MostLikelyField), m);
    WithFieldCheckMembers(withM, rowNum, id, Pessimistic, Field(row, PessimisticField), p);
  }

  /** The ordering checks report only about the given row, and each fires
      exactly when all three times are numbers and that order is broken. */
  lemma OrderErrorsShape(rowNum: int, id: string, o: Number, m: Number, p: Number)
    ensures forall e :: e in OrderErrors(rowNum, id, o, m, p) ==>
      (e.OptimisticAboveMostLikely? || e.MostLikelyAbovePessimistic?) && e.row == rowNum && e.id == id
    ensures (exists e :: e in OrderErrors(rowNum, id, o, m, p) && e.OptimisticAboveMostLikely?) <==>
      o.Num? && m.Num? && p.Num? && o.value > m.value
    ensures (exists e :: e in OrderErrors(rowNum, id, o, m, p) && e.MostLikelyAbovePessimistic?) <==>
      o.Num? && m.Num? && p.Num? && m.value > p.value
    ensures OrderErrors(rowNum, id, o, m, p) == [] <==>
      !(o.Num? && m.Num? && p.Num?) || (o.value <= m.value && m.value <= p.value)
  {
    var errs := OrderErrors(rowNum, id, o, m, p);
    if o.Num? && m.Num? && p.Num? && o.value > m.value {
      assert errs[0] == OptimisticAboveMostLikely(rowNum, id, o.value, m.value);
    }
    if o.Num? && m.Num? && p.Num? && m.value > p.value {
      assert errs[|errs| - 1] == MostLikelyAbovePessimistic(rowNum, id, m.value, p.value);
    }
  }

  /** A row without an ID reports that alone; a row with one reports only
      errors about itself, and a duplicate exactly when its ID was seen. */
  lemma RowErrorsShape(row: Row, rowNum: int, seen: set<string>, parseFloat: string -> Number)
    ensures IdBlank(row) ==> RowErrors(row, rowNum, seen, parseFloat) == [MissingId(rowNum)]
    ensures !IdBlank(row) ==>
      forall e :: e in RowErrors(row, rowNum, seen, parseFloat) ==> RowCheckError(e, rowNum, RowId(row))
    ensures !IdBlank(row) ==>
      (DuplicateId(rowNum, RowId(row)) in RowErrors(row, rowNum, seen, parseFloat) <==> RowId(row) in seen)
  {
    if !IdBlank(row) {
      var t := RecordOf(row, rowNum, parseFloat);
      FieldChecksShape(row, rowNum, seen, parseFloat);
      OrderErrorsShape(rowNum, RowId(row), t.optimisticTime, t.mostLikelyTime, t.pessimisticTime);
    }
  }

  /** A row reports nothing exactly when it has a fresh ID and valid estimates. */
  lemma RowErrorsEmpty(row: Row, rowNum: int, seen: set<string>, parseFloat: string -> Number)
    ensures RowErrors(row, rowNum, seen, parseFloat) == [] <==>
      !IdBlank(row) && RowId(row) !in seen && ValidEstimates(RecordOf(row, rowNum, parseFloat))
  {
    if !IdBlank(row) {
      var t := RecordOf(row, rowNum, parseFloat);
      FieldChecksShape(row, rowNum, seen, parseFloat);
      OrderErrorsShape(rowNum, RowId(row), t.optimisticTime, t.mostLikelyTime, t.pessimisticTime);
    }
  }

  /** The ordering checks of a row fire only when all three times are
      numbers, and then exactly when the order is broken. */
  lemma OrderChecks(row: Row, rowNum: int, seen: set<string>, parseFloat: string -> Number)
    requires !IdBlank(row)
    ensures var t := RecordOf(row, rowNum, parseFloat);
      && ((exists e :: e in RowErrors(row, rowNum, seen, parseFloat) && e.OptimisticAboveMostLikely?) <==>
            t.optimisticTime.Num? && t.mostLikelyTime.Num? && t.pessimisticTime.Num?
            && t.optimisticTime.value > t.mostLikelyTime.value)
      && ((exists e :: e in RowErrors(row, rowNum, seen, parseFloat) && e.MostLikelyAbovePessimistic?) <==>
            t.optimisticTime.Num? && t.mostLikelyTime.Num? && t.pessimisticTime.Num?
            && t.mostLikelyTime.value > t.pessimisticTime.value)
  {
    var t := RecordOf(row, rowNum, parseFloat);
    FieldChecksShape(row, rowNum, seen, parseFloat);
    OrderErrorsShape(rowNum, RowId(row), t.optimisticTime, t.mostLikelyTime, t.pessimisticTime);
  }

  // ---------------------------------------------------------------------
  // The row loop
  // ---------------------------------------------------------------------

  /** The ID set is the set of IDs of the rows that have one. */
  lemma SeenIdsMember(rows: seq<Row>, x: string)
    ensures x in SeenIds(rows) <==> exists i {:trigger HasIdAt(rows, i)} :: HasIdAt(rows, i) && RowId(rows[i]) == x
  {
    if x in SeenIds(rows) {
      var i :| 0 <= i < |rows| && !IdBlank(rows[i]) && RowId(rows[i]) == x;
      assert HasIdAt(rows, i);
    }
  }

  /** Whether row `i` reports `e` does not depend on the rows below it. */
  lemma RowReportsPrefix(rows: seq<Row>, parseFloat: string -> Number, n: nat, i: int, e: CsvError)
    requires 0 <= i < n <= |rows|
    ensures RowReports(rows[..n], parseFloat, i, e) <==> RowReports(rows, parseFloat, i, e)
  {
    assert rows[..n][i] == rows[i] && rows[..n][..i] == rows[..i];
  }

  /** Every error of the loop is reported by some row. */
  lemma {:induction false} RowsErrorsSound(rows: seq<Row>, parseFloat: string -> Number, e: CsvError)
    requires e in RowsErrors(rows, parseFloat)
    ensures exists i {:trigger RowReports(rows, parseFloat, i, e)} :: RowReports(rows, parseFloat, i, e)
  {
    var n := |rows| - 1;
    var init := rows[..n];
    var own := RowErrors(rows[n], n + 2, SeenIds(init), parseFloat);
    assert RowsErrors(rows, parseFloat) == RowsErrors(init, parseFloat) + own;
    if e in own {
      assert RowReports(rows, parseFloat, n, e);
    } else {
      RowsErrorsSound(init, parseFloat, e);
      var i :| RowReports(init, parseFloat, i, e);
      RowReportsPrefix(rows, parseFloat, n, i, e);
    }
  }

  /** The loop's errors are those of the rows above the last one, then the last row's. */
  lemma RowsErrorsSplit(rows: seq<Row>, parseFloat: string -> Number)
    requires |rows| > 0
    ensures var n := |rows| - 1;
      RowsErrors(rows, parseFloat) == RowsErrors(rows[..n], parseFloat) + RowErrors(rows[n], n + 2, SeenIds(rows[..n]), parseFloat)
  {
  }

  /** Every error a row reports is among the loop's errors. */
  lemma {:induction false} RowsErrorsComplete(rows: seq<Row>, parseFloat: string -> Number, i: int, e: CsvError)
    requires RowReports(rows, parseFloat, i, e)
    ensures e in RowsErrors(rows, parseFloat)
  {
    var n := |rows| - 1;
    RowsErrorsSplit(rows, parseFloat);
    if i < n {
      RowReportsPrefix(rows, parseFloat, n, i, e);
      RowsErrorsComplete(rows[..n], parseFloat, i, e);
    }
  }

  /** `e` is among the loop's errors exactly when some row reports it,
      given the IDs of the rows above it. */
  lemma RowsErrorsMember(rows: seq<Row>, parseFloat: string -> Number, e: CsvError)
    ensures e in RowsErrors(rows, parseFloat) <==>
      exists i {:trigger RowReports(rows, parseFloat, i, e)} :: RowReports(rows, parseFloat, i, e)
  {
    if e in RowsErrors(rows, parseFloat) {
      RowsErrorsSound(rows, parseFloat, e);
    }
    if exists i {:trigger RowReports(rows, parseFloat, i, e)} :: RowReports(rows, parseFloat, i, e) {
      var i :| RowReports(rows, parseFloat, i, e);
      RowsErrorsComplete(rows, parseFloat, i, e);
    }
  }

  lemma NoBlankRowsPrefix(rows: seq<Row>, n: nat)
    requires NoBlankRows(rows) && n <= |rows|
    ensures NoBlankRows(rows[..n])
  {
    forall i | 0 <= i < n
      ensures HasIdAt(rows[..n], i)
    {
      assert rows[..n][i] == rows[i];
      assert HasIdAt(rows, i);
    }
  }

  lemma {:induction false} RowsRecordsLength(rows: seq<Row>, parseFloat: string -> Number)
    requires NoBlankRows(rows)
    ensures |RowsRecords(rows, parseFloat)| == |rows|
  {
    if rows != [] {
      var n := |rows| - 1;
      NoBlankRowsPrefix(rows, n);
      RowsRecordsLength(rows[..n], parseFloat);
      assert HasIdAt(rows, n);
    }
  }

  lemma {:induction false} RowsRecordAt(rows: seq<Row>, parseFloat: string -> Number, i: int)
    requires NoBlankRows(rows) && HasIdAt(rows, i)
    ensures |RowsRecords(rows, parseFloat)| == |rows|
    ensures RowsRecords(rows, parseFloat)[i] == RecordOf(rows[i], i + 2, parseFloat)
  {
    RowsRecordsLength(rows, parseFloat);
    var n := |rows| - 1;
    var init := rows[..n];
    NoBlankRowsPrefix(rows, n);
    RowsRecordsLength(init, parseFloat);
    RowsRecordsLastKept(rows, parseFloat);
    if i < n {
      assert init[i] == rows[i];
      assert HasIdAt(init, i);
      RowsRecordAt(init, parseFloat, i);
    }
  }

  /** The last row of a file without blank IDs adds its record. */
  lemma RowsRecordsLastKept(rows: seq<Row>, parseFloat: string -> Number)
    requires NoBlankRows(rows) && |rows| > 0
    ensures var n := |rows| - 1;
      !IdBlank(rows[n]) && RowsRecords(rows, parseFloat) == RowsRecords(rows[..n], parseFloat) + [RecordOf(rows[n], n + 2, parseFloat)]
  {
    assert HasIdAt(rows, |rows| - 1);
  }

  /** When every row has an ID, the loop keeps one record per row, in row
      order and numbered from row 2. */
  lemma RowsRecordsExact(rows: seq<Row>, parseFloat: string -> Number)
    requires NoBlankRows(rows)
    ensures |RowsRecords(rows, parseFloat)| == |rows|
    ensures forall i {:trigger HasIdAt(rows, i)} :: HasIdAt(rows, i) ==>
      RowsRecords(rows, parseFloat)[i] == RecordOf(rows[i], i + 2, parseFloat)
  {
    RowsRecordsLength(rows, parseFloat);
    forall i | HasIdAt(rows, i)
      ensures RowsRecords(rows, parseFloat)[i] == RecordOf(rows[i], i + 2, parseFloat)
    {
      RowsRecordAt(rows, parseFloat, i);
    }
  }

  /** A missing ID is reported for file row `n` exactly when that row has none. */
  lemma MissingIdReported(rows: seq<Row>, parseFloat: string -> Number, n: int)
    ensures MissingId(n) in RowsErrors(rows, parseFloat) <==>
      exists i {:trigger BlankAt(rows, i)} :: BlankAt(rows, i) && n == i + 2
  {
    var e := MissingId(n);
    RowsErrorsMember(rows, parseFloat, e);
    if e in RowsErrors(rows, parseFloat) {
      var i :| RowReports(rows, parseFloat, i, e);
      RowErrorsShape(rows[i], i + 2, SeenIds(rows[..i]), parseFloat);
      assert BlankAt(rows, i);
    }
    if exists i {:trigger BlankAt(rows, i)} :: BlankAt(rows, i) && n == i + 2 {
      var i :| BlankAt(rows, i) && n == i + 2;
      RowErrorsShape(rows[i], i + 2, SeenIds(rows[..i]), parseFloat);
      assert RowReports(rows, parseFloat, i, e);
    }
  }

  /** Only row `j` can report a duplicate numbered `j + 2`, and it does so
      exactly when its ID is among the IDs above it. */
  lemma DuplicateSeenAbove(rows: seq<Row>, parseFloat: string -> Number, j: int)
    requires HasIdAt(rows, j)
    ensures DuplicateId(j + 2, RowId(rows[j])) in RowsErrors(rows, parseFloat) <==> RowId(rows[j]) in SeenIds(rows[..j])
  {
    var e := DuplicateId(j + 2, RowId(rows[j]));
    RowsErrorsMember(rows, parseFloat, e);
    RowErrorsShape(rows[j], j + 2, SeenIds(rows[..j]), parseFloat);
    if e in RowsErrors(rows, parseFloat) {
      var k :| RowReports(rows, parseFloat, k, e);
      RowErrorsShape(rows[k], k + 2, SeenIds(rows[..k]), parseFloat);
    } else if RowId(rows[j]) in SeenIds(rows[..j]) {
      assert RowReports(rows, parseFloat, j, e);
    }
  }

  /** A duplicate is reported for file row `j + 2` exactly when an earlier
      row has the same ID. */
  lemma DuplicateReported(rows: seq<Row>, parseFloat: string -> Number, j: int)
    requires HasIdAt(rows, j)
    ensures DuplicateId(j + 2, RowId(rows[j])) in RowsErrors(rows, parseFloat) <==>
      exists i {:trigger HasIdAt(rows, i)} :: i < j && HasIdAt(rows, i) && RowId(rows[i]) == RowId(rows[j])
  {
    var id := RowId(rows[j]);
    var above := rows[..j];
    DuplicateSeenAbove(rows, parseFloat, j);
    SeenIdsMember(above, id);
    if id in SeenIds(above) {
      var i :| HasIdAt(above, i) && RowId(above[i]) == id;
      assert above[i] == rows[i];
      assert HasIdAt(rows, i);
    }
    if exists i {:trigger HasIdAt(rows, i)} :: i < j && HasIdAt(rows, i) && RowId(rows[i]) == id {
      var i :| i < j && HasIdAt(rows, i) && RowId(rows[i]) == id;
      assert above[i] == rows[i];
      assert HasIdAt(above, i);
    }
  }

  /** Clean rows all have IDs. */
  lemma CleanRowsHaveIds(rows: seq<Row>, parseFloat: string -> Number)
    requires AllRowsClean(rows, parseFloat)
    ensures NoBlankRows(rows)
  {
    forall i | 0 <= i < |rows|
      ensures HasIdAt(rows, i)
    {
      assert RowClean(rows, parseFloat, i);
    }
  }

  lemma CleanRowsPrefix(rows: seq<Row>, parseFloat: string -> Number, n: nat)
    requires AllRowsClean(rows, parseFloat) && n <= |rows|
    ensures AllRowsClean(rows[..n], parseFloat)
  {
    forall i | 0 <= i < n
      ensures RowClean(rows[..n], parseFloat, i)
    {
      assert rows[..n][i] == rows[i] && rows[..n][..i] == rows[..i];
      assert RowClean(rows, parseFloat, i);
    }
  }

  /** Clean rows give no errors. */
  lemma {:induction false} CleanRowsNoErrors(rows: seq<Row>, parseFloat: string -> Number)
    requires AllRowsClean(rows, parseFloat)
    ensures RowsErrors(rows, parseFloat) == []
  {
    if rows != [] {
      var n := |rows| - 1;
      var init := rows[..n];
      CleanRowsPrefix(rows, parseFloat, n);
      CleanRowsNoErrors(init, parseFloat);
      assert RowClean(rows, parseFloat, n);
      RowErrorsEmpty(rows[n], n + 2, SeenIds(init), parseFloat);
      assert RowsErrors(rows, parseFloat) == RowsErrors(init, parseFloat) + RowErrors(rows[n], n + 2, SeenIds(init), parseFloat);
    }
  }

  /** Clean rows give records with distinct IDs. */
  lemma CleanRecordsDistinct(rows: seq<Row>, parseFloat: string -> Number)
    requires AllRowsClean(rows, parseFloat)
    ensures DistinctIds(RowsRecords(rows, parseFloat))
  {
    CleanRowsHaveIds(rows, parseFloat);
    RowsRecordsExact(rows, parseFloat);
    var ts := RowsRecords(rows, parseFloat);
    forall i, j | 0 <= i < j < |ts|
      ensures ts[i].id != ts[j].id
    {
      assert RowClean(rows, parseFloat, j);
      assert HasIdAt(rows, i);
      var above := rows[..j];
      assert above[i] == rows[i];
      assert HasIdAt(above, i);
      SeenIdsMember(above, RowId(rows[i]));
    }
  }

  /** The records' IDs are the rows' IDs. */
  lemma CleanRecordIds(rows: seq<Row>, parseFloat: string -> Number)
    requires AllRowsClean(rows, parseFloat)
    ensures IdSet(RowsRecords(rows, parseFloat)) == SeenIds(rows)
  {
    CleanRowsHaveIds(rows, parseFloat);
    RowsRecordsExact(rows, parseFloat);
    var ts := RowsRecords(rows, parseFloat);
    forall x | x in SeenIds(rows)
      ensures x in IdSet(ts)
    {
      SeenIdsMember(rows, x);
      var i :| HasIdAt(rows, i) && RowId(rows[i]) == x;
      assert ts[i].id == x;
    }
    forall x | x in IdSet(ts)
      ensures x in SeenIds(rows)
    {
      var i :| 0 <= i < |ts| && ts[i].id == x;
      assert HasIdAt(rows, i);
      SeenIdsMember(rows, x);
    }
  }

  // ---------------------------------------------------------------------
  // The dependency loop
  // ---------------------------------------------------------------------

  /** The dependency pass reports exactly what each record's inner loop reports. */
  lemma {:induction false} DependencyErrorsMember(records: seq<Task>, ids: set<string>, e: CsvError)
    ensures e in DependencyErrors(records, ids) <==>
      exists i :: 0 <= i < |records| && e in UnknownDependencies(records[i], records[i].dependencies, ids)
  {
    if records != [] {
      var n := |records| - 1;
      DependencyErrorsMember(records[..n], ids, e);
      assert forall i :: 0 <= i < n ==> records[..n][i] == records[i];
    }
  }

  // ---------------------------------------------------------------------
  // The whole callback
  // ---------------------------------------------------------------------

  /** A missing header rejects the file before any row is looked at, with
      one error per missing header and nothing else. */
  lemma HeadersCheckedFirst(headers: seq<string>, rows: seq<Row>, parseFloat: string -> Number)
    requires !HeadersPresent(headers)
    ensures Validate(headers, rows, parseFloat) == Validate(headers, [], parseFloat)
    ensures var r := Validate(headers, rows, parseFloat);
      && r.Err?
      && (forall e :: e in r.error ==> e.MissingHeader? && e.header in RequiredHeaders && e.header !in headers)
      && (forall h :: h in RequiredHeaders && h !in headers ==> MissingHeader(h) in r.error)
  {
  }

  /** A file with all headers and no rows is rejected as empty. */
  lemma EmptyFileRejected(headers: seq<string>, parseFloat: string -> Number)
    requires HeadersPresent(headers)
    ensures Validate(headers, [], parseFloat) == Err([NoRows])
  {
  }

  /** A file with a bad row is rejected with exactly the row errors. */
  lemma RowErrorsRejected(headers: seq<string>, rows: seq<Row>, parseFloat: string -> Number)
    requires HeadersPresent(headers) && rows != []
    requires !AllRowsClean(rows, parseFloat)
    ensures Validate(headers, rows, parseFloat) == Err(RowsErrors(rows, parseFloat))
    ensures forall e :: e in RowsErrors(rows, parseFloat) <==>
      exists i {:trigger RowReports(rows, parseFloat, i, e)} :: RowReports(rows, parseFloat, i, e)
  {
    var i :| 0 <= i < |rows| && !RowClean(rows, parseFloat, i);
    RowErrorsEmpty(rows[i], i + 2, SeenIds(rows[..i]), parseFloat);
    var errs := RowErrors(rows[i], i + 2, SeenIds(rows[..i]), parseFloat);
    RowsErrorsMember(rows, parseFloat, errs[0]);
    assert RowReports(rows, parseFloat, i, errs[0]);
    forall e {
      RowsErrorsMember(rows, parseFloat, e);
    }
  }

  /** With clean rows the callback reaches the dependency pass, over the
      records and the rows' IDs. */
  lemma ValidateClean(headers: seq<string>, rows: seq<Row>, parseFloat: string -> Number)
    requires HeadersPresent(headers) && rows != []
    requires AllRowsClean(rows, parseFloat)
    ensures var ts := RowsRecords(rows, parseFloat);
      var errs := DependencyErrors(ts, SeenIds(rows));
      Validate(headers, rows, parseFloat) == if errs == [] then Ok(ts) else Err(errs)
  {
    CleanRowsNoErrors(rows, parseFloat);
    CleanRecordIds(rows, parseFloat);
  }

  /** Each dependency error of clean rows names a row, its ID, and one of
      its dependencies that is no row's ID. */
  lemma DependencyErrorSound(rows: seq<Row>, parseFloat: string -> Number, e: CsvError)
    requires AllRowsClean(rows, parseFloat)
    requires e in DependencyErrors(RowsRecords(rows, parseFloat), SeenIds(rows))
    ensures e.UnknownDependency? && e.dependency !in SeenIds(rows)
    ensures exists i {:trigger HasIdAt(rows, i)} ::
      HasIdAt(rows, i) && e.row == i + 2 && e.id == RowId(rows[i]) && e.dependency in RowDependencies(rows[i])
  {
    var ts := RowsRecords(rows, parseFloat);
    var ids := SeenIds(rows);
    CleanRowsHaveIds(rows, parseFloat);
    RowsRecordsLength(rows, parseFloat);
    DependencyErrorsMember(ts, ids, e);
    var i :| 0 <= i < |ts| && e in UnknownDependencies(ts[i], ts[i].dependencies, ids);
    UnknownDependenciesExact(ts[i], ts[i].dependencies, ids);
    assert HasIdAt(rows, i);
    RowsRecordAt(rows, parseFloat, i);
  }

  /** Each dependency of a clean row that is no row's ID is reported. */
  lemma DependencyErrorComplete(rows: seq<Row>, parseFloat: string -> Number, i: int, d: string)
    requires AllRowsClean(rows, parseFloat)
    requires DependsAt(rows, i, d) && d !in SeenIds(rows)
    ensures UnknownDependency(RowId(rows[i]), i + 2, d) in DependencyErrors(RowsRecords(rows, parseFloat), SeenIds(rows))
  {
    var ts := RowsRecords(rows, parseFloat);
    var ids := SeenIds(rows);
    var e := UnknownDependency(RowId(rows[i]), i + 2, d);
    CleanRowsHaveIds(rows, parseFloat);
    RowsRecordAt(rows, parseFloat, i);
    assert e in UnknownDependencies(ts[i], ts[i].dependencies, ids) by {
      assert ts[i].id == RowId(rows[i]) && ts[i].originalRow == i + 2 && d in ts[i].dependencies;
      UnknownDependenciesExact(ts[i], ts[i].dependencies, ids);
    }
    DependencyErrorsMember(ts, ids, e);
  }

  /** The dependency pass over clean rows reports nothing exactly when every
      dependency names a row. */
  lemma DependencyErrorsNone(rows: seq<Row>, parseFloat: string -> Number)
    requires AllRowsClean(rows, parseFloat)
    ensures DependencyErrors(RowsRecords(rows, parseFloat), SeenIds(rows)) == [] <==>
      forall i, d {:trigger DependsAt(rows, i, d)} :: DependsAt(rows, i, d) ==> d in SeenIds(rows)
  {
    var errs := DependencyErrors(RowsRecords(rows, parseFloat), SeenIds(rows));
    if errs != [] {
      DependencyErrorSound(rows, parseFloat, errs[0]);
      var i :| HasIdAt(rows, i) && errs[0].dependency in RowDependencies(rows[i]);
      assert DependsAt(rows, i, errs[0].dependency);
    }
    forall i, d | DependsAt(rows, i, d) && d !in SeenIds(rows)
      ensures errs != []
    {
      DependencyErrorComplete(rows, parseFloat, i, d);
    }
  }

  /** With clean rows, the file is rejected exactly when a dependency names
      no row, with one error per such dependency and nothing else. */
  lemma DependencyErrorsRejected(headers: seq<string>, rows: seq<Row>, parseFloat: string -> Number)
    requires HeadersPresent(headers) && rows != []
    requires AllRowsClean(rows, parseFloat)
    ensures var r := Validate(headers, rows, parseFloat);
      && (r.Ok? <==> forall i, d {:trigger DependsAt(rows, i, d)} :: DependsAt(rows, i, d) ==> d in SeenIds(rows))
      && (r.Err? ==> forall e :: e in r.error ==>
            && e.UnknownDependency? && e.dependency !in SeenIds(rows)
            && exists i {:trigger HasIdAt(rows, i)} :: HasIdAt(rows, i) && e.row == i + 2 && e.id == RowId(rows[i])
                 && e.dependency in RowDependencies(rows[i]))
      && (forall i, d {:trigger DependsAt(rows, i, d)} :: DependsAt(rows, i, d) && d !in SeenIds(rows) ==>
            r.Err? && UnknownDependency(RowId(rows[i]), i + 2, d) in r.error)
  {
    ValidateClean(headers, rows, parseFloat);
    DependencyErrorsNone(rows, parseFloat);
    forall e | e in DependencyErrors(RowsRecords(rows, parseFloat), SeenIds(rows)) {
      DependencyErrorSound(rows, parseFloat, e);
    }
    forall i, d | DependsAt(rows, i, d) && d !in SeenIds(rows) {
      DependencyErrorComplete(rows, parseFloat, i, d);
    }
  }

  /** What a file that passes yields: one record per row, in row order and
      numbered from row 2, with distinct IDs, valid estimates and
      dependencies that name records. */
  lemma ValidateOk(headers: seq<string>, rows: seq<Row>, parseFloat: string -> Number)
    requires Validate(headers, rows, parseFloat).Ok?
    ensures HeadersPresent(headers) && rows != [] && AllRowsClean(rows, parseFloat) && NoBlankRows(rows)
    ensures var ts := Validate(headers, rows, parseFloat).value;
      && |ts| == |rows|
      && (forall i {:trigger HasIdAt(rows, i)} :: HasIdAt(rows, i) ==> ts[i] == RecordOf(rows[i], i + 2, parseFloat))
      && DistinctIds(ts)
      && (forall i :: 0 <= i < |ts| ==> ValidEstimates(ts[i]))
      && (forall i, d :: 0 <= i < |ts| && d in ts[i].dependencies ==> IsTaskId(ts, d))
  {
    if !AllRowsClean(rows, parseFloat) {
      RowErrorsRejected(headers, rows, parseFloat);
    }
    CleanRowsNoErrors(rows, parseFloat);
    CleanRowsHaveIds(rows, parseFloat);
    RowsRecordsExact(rows, parseFloat);
    CleanRecordsDistinct(rows, parseFloat);
    var ts := RowsRecords(rows, parseFloat);
    DependencyErrorsEmpty(ts, IdSet(ts));
    forall i | 0 <= i < |ts|
      ensures ValidEstimates(ts[i])
    {
      assert RowClean(rows, parseFloat, i);
    }
  }

  /** A file passes exactly when all headers are present, there is a row,
      every row is clean, and every dependency names a row. */
  lemma ValidateOkIff(headers: seq<string>, rows: seq<Row>, parseFloat: string -> Number)
    ensures Validate(headers, rows, parseFloat).Ok? <==>
      && HeadersPresent(headers) && rows != [] && AllRowsClean(rows, parseFloat)
      && forall i, d {:trigger DependsAt(rows, i, d)} :: DependsAt(rows, i, d) ==> d in SeenIds(rows)
  {
    if Validate(headers, rows, parseFloat).Ok? {
      ValidateOk(headers, rows, parseFloat);
      DependencyErrorsRejected(headers, rows, parseFloat);
    }
    if HeadersPresent(headers) && rows != [] && AllRowsClean(rows, parseFloat) {
      DependencyErrorsRejected(headers, rows, parseFloat);
    }
  }
}
