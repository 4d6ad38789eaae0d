/** How the validator's output meets the engine's input: the records a
    successful validation resolves with satisfy everything `calculatePERT`
    checks except acyclicity. */
module Pipeline {
  import TaskModel
  import CsvParser
  import CsvProperties
  import PertCalculator

  /** Records the validator accepts have distinct IDs, numeric estimates and
      dependencies that name records, so the engine can reject them only for
      a dependency cycle. */
  lemma ValidatedRecordsFitEngine(headers: seq<string>, rows: seq<CsvParser.Row>, parseFloat: string -> TaskModel.Number)
    requires CsvParser.Validate(headers, rows, parseFloat).Ok?
    ensures var ts := CsvParser.Validate(headers, rows, parseFloat).value;
      && TaskModel.DistinctIds(ts)
      && !PertCalculator.SomeInvalidEstimate(ts)
      && PertCalculator.AllDependenciesKnown(ts)
  {
    CsvProperties.ValidateOk(headers, rows, parseFloat);
    var ts := CsvParser.Validate(headers, rows, parseFloat).value;
    forall i | 0 <= i < |ts|
      ensures !PertCalculator.HasInvalidEstimate(ts[i])
    {
      assert TaskModel.ValidEstimates(ts[i]);
    }
    forall i, d | 0 <= i < |ts| && d in ts[i].dependencies
      ensures d in TaskModel.IdSet(ts)
    {
      assert TaskModel.IsTaskId(ts, d);
    }
  }
}
