/** The chart choice of `app.py`'s `auto_visualize`: from the shape of a
    result table, a bar chart, a line chart or nothing. */
module Charts {
  import opened Tables
  import opened Wrappers

  /** A plotly figure as far as the choice goes: its kind, its axes (column
      names) and its title. */
  datatype Chart = Bar(x: string, y: string, title: string) | Line(x: string, y: string, title: string)

  const TrendTitle: string := "Trend over Time"

  /** `df.select_dtypes(include=...).columns.tolist()`: the names of the
      columns of one kind, in column order. */
  function NamesOfKind(cols: seq<Column>, kind: ColumnKind): (r: seq<string>)
    ensures |r| <= |cols|
    ensures r == [] <==> forall i :: 0 <= i < |cols| ==> cols[i].kind != kind
  {
    if cols == [] then []
    else
      var rest := NamesOfKind(cols[1..], kind);
      assert forall i :: 1 <= i < |cols| ==> cols[i] == cols[1..][i - 1];
      (if cols[0].kind == kind then [cols[0].name] else []) + rest
  }

  /** Column `i` is the leftmost column of `kind`. */
  predicate IsFirstOfKind(cols: seq<Column>, kind: ColumnKind, i: int) {
    0 <= i < |cols| && cols[i].kind == kind && forall j :: 0 <= j < i ==> cols[j].kind != kind
  }

  /** Some column has `kind`. */
  predicate HasKind(cols: seq<Column>, kind: ColumnKind) {
    exists i :: 0 <= i < |cols| && cols[i].kind == kind
  }

  /** The first name of a kind is the name of the leftmost column of that kind. */
  lemma {:induction false} FirstNameOfKind(cols: seq<Column>, kind: ColumnKind, i: int)
    requires IsFirstOfKind(cols, kind, i)
    ensures NamesOfKind(cols, kind) != [] && NamesOfKind(cols, kind)[0] == cols[i].name
    decreases i
  {
    if i > 0 {
      assert IsFirstOfKind(cols[1..], kind, i - 1);
      FirstNameOfKind(cols[1..], kind, i - 1);
    }
  }

  /** `auto_visualize`. */
  function AutoVisualize(f: Frame): Option<Chart>
  {
    if IsEmpty(f) || f.rowCount < 2 then None
    else
      var nums := NamesOfKind(f.columns, Numeric);
      var cats := NamesOfKind(f.columns, Categorical);
      var dates := NamesOfKind(f.columns, DateTime);
      if |cats| >= 1 && |nums| >= 1 then Some(Bar(cats[0], nums[0], nums[0] + " by " + cats[0]))
      else if |dates| >= 1 && |nums| >= 1 then Some(Line(dates[0], nums[0], TrendTitle))
      else None
  }

  /** A table of two or more rows with a categorical and a numeric column
      gets a bar chart of the leftmost numeric column against the leftmost
      categorical one, whatever date columns it also has. */
  lemma BarChoice(f: Frame, cat: int, num: int)
    requires f.rowCount >= 2
    requires IsFirstOfKind(f.columns, Categorical, cat) && IsFirstOfKind(f.columns, Numeric, num)
    ensures var c := f.columns[cat].name; var n := f.columns[num].name;
      AutoVisualize(f) == Some(Bar(c, n, n + " by " + c))
  {
    FirstNameOfKind(f.columns, Categorical, cat);
    FirstNameOfKind(f.columns, Numeric, num);
  }

  /** Without a categorical column, a table of two or more rows with a date
      and a numeric column gets a line chart of the leftmost numeric column
      against the leftmost date column. */
  lemma LineChoice(f: Frame, date: int, num: int)
    requires f.rowCount >= 2 && !HasKind(f.columns, Categorical)
    requires IsFirstOfKind(f.columns, DateTime, date) && IsFirstOfKind(f.columns, Numeric, num)
    ensures AutoVisualize(f) == Some(Line(f.columns[date].name, f.columns[num].name, TrendTitle))
  {
    FirstNameOfKind(f.columns, DateTime, date);
    FirstNameOfKind(f.columns, Numeric, num);
  }

  /** No chart exactly when the table is empty, has fewer than two rows, has
      no numeric column, or has neither a categorical nor a date column. */
  lemma NoChartIff(f: Frame)
    ensures AutoVisualize(f) == None <==>
      || IsEmpty(f) || f.rowCount < 2
      || !HasKind(f.columns, Numeric)
      || (!HasKind(f.columns, Categorical) && !HasKind(f.columns, DateTime))
  {
  }

  /** The kinds of the columns, in order: the only thing the choice looks at
      besides the row count and the names it copies. */
  function Kinds(cols: seq<Column>): (r: seq<ColumnKind>)
    ensures |r| == |cols| && forall i :: 0 <= i < |cols| ==> r[i] == cols[i].kind
  {
    seq(|cols|, i requires 0 <= i < |cols| => cols[i].kind)
  }

  /** Columns with the same kinds in the same order have the same leftmost
      column of every kind, and the same kinds present. */
  lemma SameKindsSameFirsts(cols: seq<Column>, other: seq<Column>, kind: ColumnKind)
    requires Kinds(cols) == Kinds(other)
    ensures (NamesOfKind(cols, kind) == []) == (NamesOfKind(other, kind) == [])
    ensures forall i :: IsFirstOfKind(cols, kind, i) ==> IsFirstOfKind(other, kind, i)
  {
    var ck, ok := Kinds(cols), Kinds(other);
    assert |cols| == |other|;
    assert forall i :: 0 <= i < |cols| ==> cols[i].kind == ck[i] == ok[i] == other[i].kind;
  }

  /** Two tables with the same row count and the same kinds in the same
      order get the same kind of chart, drawn from the same column positions. */
  lemma SameSignatureSameChoice(f: Frame, g: Frame)
    requires f.rowCount == g.rowCount && Kinds(f.columns) == Kinds(g.columns)
    ensures AutoVisualize(f).None? == AutoVisualize(g).None?
    ensures AutoVisualize(f).Some? ==> AutoVisualize(f).value.Bar? == AutoVisualize(g).value.Bar?
    ensures forall kind, i :: IsFirstOfKind(f.columns, kind, i) ==> IsFirstOfKind(g.columns, kind, i)
  {
    assert |f.columns| == |Kinds(f.columns)| == |g.columns|;
    SameKindsSameFirsts(f.columns, g.columns, Numeric);
    SameKindsSameFirsts(f.columns, g.columns, Categorical);
    SameKindsSameFirsts(f.columns, g.columns, DateTime);
    forall kind, i | IsFirstOfKind(f.columns, kind, i)
      ensures IsFirstOfKind(g.columns, kind, i)
    {
      SameKindsSameFirsts(f.columns, g.columns, kind);
    }
  }
}
