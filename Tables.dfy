/** The optional value returned where the source returns `None`. */
module Wrappers {
  datatype Option<+T> = None | Some(value: T)
}

/** What the pipeline sees of a pandas DataFrame: its columns, in order, each
    with a name and the kind of its dtype, and its number of rows. The cell
    values themselves are not modelled. */
module Tables {

  /** The dtype groups that `select_dtypes` picks out: 'float'/'int' (numeric),
      'object'/'string' (categorical), 'datetime' (datetime64); everything else
      (bool, timedelta, category, time-zone-aware datetimes, ...) is Other. */
  datatype ColumnKind = Numeric | Categorical | DateTime | Other

  datatype Column = Column(name: string, kind: ColumnKind)

  datatype Frame = Frame(columns: seq<Column>, rowCount: nat)

  /** `df.empty`: true when either axis has length zero. */
  predicate IsEmpty(f: Frame) {
    f.rowCount == 0 || |f.columns| == 0
  }
}
