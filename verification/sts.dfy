/** The configuration check of `STS.__init__` (datasets/sts.py). The rest
    of the constructor loads files and builds the three splits with
    `DataSets.NewDataSet`. */
module Sts {
  import opened Wrappers

  datatype Error = NotImplemented

  /** The corpus has fixed train, validation and test files: asking for a
      custom train/validation split or test split, or passing
      `use_defaults=False`, is refused. */
  function CheckOptions<T>(trainValidationSplit: Option<T>, testSplit: Option<T>, useDefaults: bool)
    : (r: Result<(), Error>)
    ensures r.Failure? <==> trainValidationSplit.Some? || testSplit.Some? || !useDefaults
    ensures r.Failure? ==> r.error == NotImplemented
  {
    if trainValidationSplit.Some? || testSplit.Some? || !useDefaults then Failure(NotImplemented)
    else Success(())
  }
}
