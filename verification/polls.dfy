/**
 * The poll table. A parsed poll is one `Row`; the table is the rows in input
 * order. `Columns` is the column-oriented view the program keeps (one list per
 * CSV column); `ToColumns` and `ToRows` translate between the two, and the
 * column view produced from rows is always row-aligned.
 */
module Polls {

  /** One poll: a data line of the CSV after conversion. */
  datatype Row = Row(
    month: string,
    date: int,
    sample: int,
    sampleType: string,
    harris: real,
    trump: real)

  /** Parsed rows, in the order their lines appear in the input. */
  type Table = seq<Row>

  /** The two candidates whose results each row carries. */
  datatype Candidate = Harris | Trump

  /** A row's result for one candidate. */
  function ResultOf(r: Row, c: Candidate): real
  {
    match c
    case Harris => r.harris
    case Trump => r.trump
  }

  /** The sample-type marker of a likely-voter poll. */
  const LikelyVoter: string := "LV"

  /** The six column lists: `month`, `date`, `sample`, `sample type`, `Harris result`, `Trump result`. */
  datatype Columns = Columns(
    month: seq<string>,
    date: seq<int>,
    sample: seq<int>,
    sampleType: seq<string>,
    harris: seq<real>,
    trump: seq<real>)

  /** Every column has the same number of entries, so entry `i` of each describes poll `i`. */
  predicate Aligned(c: Columns)
  {
    var n := |c.month|;
    |c.date| == n && |c.sample| == n && |c.sampleType| == n && |c.harris| == n && |c.trump| == n
  }

  /** No poll at all: six empty lists. */
  const EmptyColumns := Columns([], [], [], [], [], [])

  /** The column view of a table: aligned, one entry per row, entry `i` of each column taken from row `i`. */
  function ToColumns(t: Table): (c: Columns)
    ensures Aligned(c) && |c.month| == |t|
    ensures forall i :: 0 <= i < |t| ==>
      && c.month[i] == t[i].month && c.date[i] == t[i].date && c.sample[i] == t[i].sample
      && c.sampleType[i] == t[i].sampleType && c.harris[i] == t[i].harris && c.trump[i] == t[i].trump
  {
    Columns(
      seq(|t|, i requires 0 <= i < |t| => t[i].month),
      seq(|t|, i requires 0 <= i < |t| => t[i].date),
      seq(|t|, i requires 0 <= i < |t| => t[i].sample),
      seq(|t|, i requires 0 <= i < |t| => t[i].sampleType),
      seq(|t|, i requires 0 <= i < |t| => t[i].harris),
      seq(|t|, i requires 0 <= i < |t| => t[i].trump))
  }

  /** The rows an aligned column view describes. */
  function ToRows(c: Columns): (t: Table)
    requires Aligned(c)
    ensures |t| == |c.month|
  {
    seq(|c.month|, i requires 0 <= i < |c.month| =>
      Row(c.month[i], c.date[i], c.sample[i], c.sampleType[i], c.harris[i], c.trump[i]))
  }

  /** Reading the rows back out of the column view gives the table. */
  lemma RowsOfColumns(t: Table)
    ensures ToRows(ToColumns(t)) == t
  {
  }

  /** An aligned column view is exactly the view of the rows it describes: alignment loses nothing. */
  lemma ColumnsOfRows(c: Columns)
    requires Aligned(c)
    ensures ToColumns(ToRows(c)) == c
  {
  }

  /** Appending a row to the table appends its fields to the end of each column. */
  lemma {:induction false} ToColumnsSnoc(t: Table, r: Row)
    ensures ToColumns(t + [r]) == Columns(
      ToColumns(t).month + [r.month], ToColumns(t).date + [r.date], ToColumns(t).sample + [r.sample],
      ToColumns(t).sampleType + [r.sampleType], ToColumns(t).harris + [r.harris], ToColumns(t).trump + [r.trump])
  {
    var c := ToColumns(t);
    var d := ToColumns(t + [r]);
    assert d.month == c.month + [r.month];
    assert d.date == c.date + [r.date];
    assert d.sample == c.sample + [r.sample];
    assert d.sampleType == c.sampleType + [r.sampleType];
    assert d.harris == c.harris + [r.harris];
    assert d.trump == c.trump + [r.trump];
  }
}
