/**
 * `build_data_dict`: turns the raw lines of the polling CSV into the poll
 * table. Line 0 is the header. Every other line is stripped; a blank line or a
 * line with fewer than five comma-separated fields is skipped; any other line
 * becomes one row, or stops the whole parse when one of its numeric fields does
 * not convert.
 */
module Parser {
  import opened Wrappers
  import Text
  import Numbers
  import opened Polls

  /** The fields whose conversion to a number can fail. */
  datatype Field = Date | SampleSize | HarrisResult | TrumpResult

  /** Why a parse stopped. */
  datatype ParseError =
    | MissingSampleSize           // the sample descriptor holds no token at all
    | NotANumber(field: Field)    // `int()` or `float()` rejected the field

  /** What one input line contributes to the table. */
  datatype LineOutcome = Skip | Keep(row: Row) | Reject(error: ParseError)

  /** A data line has at least this many comma-separated fields: month, date, sample, Harris, Trump. */
  const FieldCount := 5

  /**
   * Line `idx` becomes a row (or an error): it is not the header, it is not
   * blank, and once stripped it contains at least four commas.
   */
  predicate IsDataLine(idx: nat, raw: string)
  {
    idx >= 1 && !Text.AllSpace(raw) && Text.Count(Text.Strip(raw), ',') >= FieldCount - 1
  }

  /** The comma-separated fields of a data line, or `None` for a line that is skipped. */
  function DataFields(idx: nat, raw: string): (r: Option<seq<string>>)
    ensures r.Some? <==> IsDataLine(idx, raw)
    ensures r.Some? ==> |r.value| >= FieldCount && Text.Join(r.value, ',') == Text.Strip(raw)
    ensures r.Some? ==> forall i :: 0 <= i < |r.value| ==> ',' !in r.value[i]
  {
    var line := Text.Strip(raw);
    if line == [] then None
    else if idx == 0 then None
    else
      var parts := Text.SplitOn(line, ',');
      if |parts| < FieldCount then None else Some(parts)
  }

  /**
   * The sample descriptor ("1880 LV") split on whitespace into the size token
   * and the type token. Tokens after the second are ignored; with a single token
   * the type is empty; a descriptor with no token has no size.
   */
  function SplitSample(field: string): (r: Option<(string, string)>)
    ensures r.None? <==> Text.AllSpace(field)
    ensures r.Some? ==> Text.IsWord(r.value.0) && (r.value.1 == [] || Text.IsWord(r.value.1))
  {
    var tokens := Text.Words(field);
    if |tokens| == 0 then None
    else if |tokens| >= 2 then Some((tokens[0], tokens[1]))
    else Some((tokens[0], ""))
  }

  /**
   * A descriptor with two or more tokens, whatever whitespace surrounds and
   * separates them, gives its first token as the size and its second as the
   * type; later tokens are ignored.
   */
  lemma {:induction false} SplitSampleSizeAndType(gaps: seq<string>, ws: seq<string>)
    requires Text.IsLayout(gaps, ws) && |ws| >= 2
    ensures SplitSample(Text.Interleave(gaps, ws)) == Some((ws[0], ws[1]))
  {
    Text.WordsOfLayout(gaps, ws);
  }

  /** A descriptor with a single token, whatever whitespace surrounds it, gives that size and an empty type. */
  lemma {:induction false} SplitSampleSizeOnly(gaps: seq<string>, ws: seq<string>)
    requires Text.IsLayout(gaps, ws) && |ws| == 1
    ensures SplitSample(Text.Interleave(gaps, ws)) == Some((ws[0], ""))
  {
    Text.WordsOfLayout(gaps, ws);
  }

  /**
   * The row built from the fields of a data line. Conversions happen in the
   * program's order: the sample descriptor is split first, then the date, the
   * sample size and the two results are converted; the first that fails decides
   * the error. Fields after the fifth play no part.
   */
  function ConvertFields(parts: seq<string>): (r: Result<Row, ParseError>)
    requires |parts| >= FieldCount
    ensures r.Success? <==>
      && SplitSample(parts[2]).Some?
      && Numbers.ParseInt(parts[1]).Some?
      && Numbers.ParseInt(SplitSample(parts[2]).value.0).Some?
      && Numbers.ParseReal(parts[3]).Some?
      && Numbers.ParseReal(parts[4]).Some?
    ensures r.Success? ==>
      && r.value.month == parts[0]
      && Numbers.ParseInt(parts[1]) == Some(r.value.date)
      && Numbers.ParseInt(SplitSample(parts[2]).value.0) == Some(r.value.sample)
      && SplitSample(parts[2]).value.1 == r.value.sampleType
      && Numbers.ParseReal(parts[3]) == Some(r.value.harris)
      && Numbers.ParseReal(parts[4]) == Some(r.value.trump)
    ensures r == Failure(MissingSampleSize) <==> Text.AllSpace(parts[2])
  {
    match SplitSample(parts[2])
    case None => Failure(MissingSampleSize)
    case Some((sizeText, sampleType)) =>
      match Numbers.ParseInt(parts[1])
      case None => Failure(NotANumber(Date))
      case Some(date) =>
        match Numbers.ParseInt(sizeText)
        case None => Failure(NotANumber(SampleSize))
        case Some(size) =>
          match Numbers.ParseReal(parts[3])
          case None => Failure(NotANumber(HarrisResult))
          case Some(harris) =>
            match Numbers.ParseReal(parts[4])
            case None => Failure(NotANumber(TrumpResult))
            case Some(trump) => Success(Row(parts[0], date, size, sampleType, harris, trump))
  }

  /** What line `idx` contributes: nothing, a row, or the error that stops the parse. */
  function Classify(idx: nat, raw: string): (o: LineOutcome)
    ensures o.Skip? <==> !IsDataLine(idx, raw)
  {
    match DataFields(idx, raw)
    case None => Skip
    case Some(parts) =>
      match ConvertFields(parts)
      case Success(row) => Keep(row)
      case Failure(e) => Reject(e)
  }

  /**
   * The table built from a sequence of line outcomes taken in order: kept rows
   * are appended, skipped lines add nothing, and the first rejected line stops
   * the whole parse with its error.
   */
  function Gather(outs: seq<LineOutcome>): Result<Table, ParseError>
  {
    if outs == [] then Success([])
    else
      match Gather(outs[..|outs| - 1])
      case Failure(e) => Failure(e)
      case Success(t) =>
        match outs[|outs| - 1]
        case Skip => Success(t)
        case Keep(row) => Success(t + [row])
        case Reject(e) => Failure(e)
  }

  /** `f` applied to every line together with its index. */
  function MapLines(f: (nat, string) -> LineOutcome, lines: seq<string>): (outs: seq<LineOutcome>)
    ensures |outs| == |lines|
    ensures forall i :: 0 <= i < |lines| ==> outs[i] == f(i, lines[i])
  {
    seq(|lines|, i requires 0 <= i < |lines| => f(i, lines[i]))
  }

  /** The outcome of every line, the first one being the header. */
  function Outcomes(lines: seq<string>): (outs: seq<LineOutcome>)
    ensures |outs| == |lines|
  {
    MapLines(Classify, lines)
  }

  /** Line `i`'s outcome is what `Classify` makes of it at that position. */
  lemma OutcomeAt(lines: seq<string>, i: nat)
    requires i < |lines|
    ensures Outcomes(lines)[i] == Classify(i, lines[i])
  {
  }


  /** `build_data_dict` as a pure function: the whole input, from an empty table. */
  function Parse(lines: seq<string>): Result<Table, ParseError>
  {
    Gather(Outcomes(lines))
  }

  // ---------------------------------------------------------------------------
  // Gathering line outcomes
  // ---------------------------------------------------------------------------

  /** The positions, in increasing order, of the outcomes that are not skips. */
  function Contributing(outs: seq<LineOutcome>): (ix: seq<nat>)
    ensures forall j :: 0 <= j < |ix| ==> ix[j] < |outs| && !outs[ix[j]].Skip?
    ensures forall j, k :: 0 <= j < k < |ix| ==> ix[j] < ix[k]
    ensures forall i :: 0 <= i < |outs| && !outs[i].Skip? ==> i in ix
  {
    if outs == [] then []
    else
      var ix := Contributing(outs[..|outs| - 1]);
      if outs[|outs| - 1].Skip? then ix else ix + [|outs| - 1]
  }

  /** Gathering succeeds exactly when no outcome is a rejection. */
  lemma {:induction false} GatherSucceeds(outs: seq<LineOutcome>)
    ensures Gather(outs).Success? <==> forall i :: 0 <= i < |outs| ==> !outs[i].Reject?
  {
    if outs != [] {
      var init := outs[..|outs| - 1];
      GatherSucceeds(init);
      assert forall i :: 0 <= i < |init| ==> init[i] == outs[i];
    }
  }

  /** A successful gathering holds the kept rows, one per contributing outcome, in order. */
  lemma {:induction false} GatherRows(outs: seq<LineOutcome>)
    requires Gather(outs).Success?
    ensures var t, ix := Gather(outs).value, Contributing(outs);
      |t| == |ix| && forall j :: 0 <= j < |t| ==> outs[ix[j]] == Keep(t[j])
  {
    if outs != [] {
      var init := outs[..|outs| - 1];
      GatherRows(init);
      assert forall i :: 0 <= i < |init| ==> init[i] == outs[i];
    }
  }

  /** A failed gathering carries the error of the first rejection. */
  lemma {:induction false} GatherFirstReject(outs: seq<LineOutcome>)
    requires Gather(outs).Failure?
    ensures exists i :: 0 <= i < |outs| && outs[i] == Reject(Gather(outs).error)
                        && forall j :: 0 <= j < i ==> !outs[j].Reject?
  {
    var init := outs[..|outs| - 1];
    assert forall i :: 0 <= i < |init| ==> init[i] == outs[i];
    if Gather(init).Failure? {
      GatherFirstReject(init);
    } else {
      GatherSucceeds(init);
      assert outs[|outs| - 1] == Reject(Gather(outs).error);
    }
  }

  /** Once a prefix fails, the whole gathering fails with the same error. */
  lemma {:induction false} GatherStops(outs: seq<LineOutcome>, n: nat)
    requires n <= |outs| && Gather(outs[..n]).Failure?
    ensures Gather(outs) == Gather(outs[..n])
    decreases |outs|
  {
    if n < |outs| {
      var init := outs[..|outs| - 1];
      assert init[..n] == outs[..n];
      GatherStops(init, n);
    } else {
      assert outs[..n] == outs;
    }
  }

  /** One more outcome: a skip keeps the table, a kept row is appended, a rejection fails. */
  lemma GatherNext(outs: seq<LineOutcome>, idx: nat, t: Table)
    requires idx < |outs| && Gather(outs[..idx]) == Success(t)
    ensures outs[idx].Skip? ==> Gather(outs[..idx + 1]) == Success(t)
    ensures outs[idx].Keep? ==> Gather(outs[..idx + 1]) == Success(t + [outs[idx].row])
    ensures outs[idx].Reject? ==> Gather(outs[..idx + 1]) == Failure(outs[idx].error)
  {
    assert outs[..idx + 1][..idx] == outs[..idx];
  }

  /** A skip anywhere can be dropped without changing the gathered result. */
  lemma {:induction false} GatherSkip(a: seq<LineOutcome>, b: seq<LineOutcome>)
    ensures Gather(a + [Skip] + b) == Gather(a + b)
    decreases |b|
  {
    if b == [] {
      assert (a + [Skip] + b)[..|a|] == a;
      assert a + b == a;
    } else {
      var b' := b[..|b| - 1];
      GatherSkip(a, b');
      assert (a + [Skip] + b)[..|a| + |b|] == a + [Skip] + b';
      assert (a + b)[..|a| + |b| - 1] == a + b';
    }
  }

  /** Inserting a skip anywhere leaves the gathered result unchanged. */
  lemma GatherInsertSkip(o1: seq<LineOutcome>, o2: seq<LineOutcome>, k: nat)
    requires k <= |o2| && o1 == o2[..k] + [Skip] + o2[k..]
    ensures Gather(o1) == Gather(o2)
  {
    GatherSkip(o2[..k], o2[k..]);
    assert o2[..k] + o2[k..] == o2;
  }

  // ---------------------------------------------------------------------------
  // Which lines become rows
  // ---------------------------------------------------------------------------

  /** The indices, in increasing order, of the data lines of the input. */
  function DataIndices(lines: seq<string>): (ix: seq<nat>)
    ensures forall j :: 0 <= j < |ix| ==> ix[j] < |lines| && IsDataLine(ix[j], lines[ix[j]])
    ensures forall j, k :: 0 <= j < k < |ix| ==> ix[j] < ix[k]
    ensures forall i :: 0 <= i < |lines| && IsDataLine(i, lines[i]) ==> i in ix
  {
    Contributing(Outcomes(lines))
  }

  /**
   * A successful parse has one row per data line, in input order: row `j` is
   * the conversion of the `j`-th data line. The header, blank lines and short
   * lines contribute nothing.
   */
  lemma {:induction false} ParseRows(lines: seq<string>)
    requires Parse(lines).Success?
    ensures var t, ix := Parse(lines).value, DataIndices(lines);
      |t| == |ix| && forall j :: 0 <= j < |t| ==> Classify(ix[j], lines[ix[j]]) == Keep(t[j])
  {
    GatherRows(Outcomes(lines));
  }

  /** A parse succeeds exactly when no line is rejected. */
  lemma {:induction false} ParseSucceeds(lines: seq<string>)
    ensures Parse(lines).Success? <==> forall i :: 0 <= i < |lines| ==> !Classify(i, lines[i]).Reject?
  {
    GatherSucceeds(Outcomes(lines));
  }

  /** A failed parse reports the error of the first rejected line. */
  lemma {:induction false} ParseFailsAtFirstRejected(lines: seq<string>)
    requires Parse(lines).Failure?
    ensures exists i :: 0 <= i < |lines| && Classify(i, lines[i]) == Reject(Parse(lines).error)
                        && forall j :: 0 <= j < i ==> !Classify(j, lines[j]).Reject?
  {
    GatherFirstReject(Outcomes(lines));
  }

  /**
   * A numeric field that does not convert on any data line makes the parse
   * fail: it is never coerced to a default and never skipped.
   */
  lemma {:induction false} BadFieldFailsParse(lines: seq<string>, i: nat)
    requires i < |lines| && IsDataLine(i, lines[i])
    requires ConvertFields(DataFields(i, lines[i]).value).Failure?
    ensures Parse(lines).Failure?
  {
    ParseSucceeds(lines);
  }

  /** With no line past the header the table is empty: the parse starts from nothing. */
  lemma {:induction false} HeaderOnlyIsEmpty(lines: seq<string>)
    requires |lines| <= 1
    ensures Parse(lines) == Success([])
  {
    var outs := Outcomes(lines);
    assert Parse(lines) == Gather(outs);
    if |lines| == 1 {
      assert outs[0] == Skip;
      assert outs[..0] == [];
      assert Gather(outs[..0]) == Success([]);
    }
  }

  /** The header line's content never matters. */
  lemma {:induction false} HeaderIgnored(h1: string, h2: string, rest: seq<string>)
    ensures Parse([h1] + rest) == Parse([h2] + rest)
  {
    var l1, l2 := [h1] + rest, [h2] + rest;
    forall i | 0 <= i < |l1| ensures Outcomes(l1)[i] == Outcomes(l2)[i] {
      if i == 0 {
        assert Classify(0, h1) == Skip && Classify(0, h2) == Skip;
      } else {
        assert l1[i] == l2[i];
      }
    }
    assert Outcomes(l1) == Outcomes(l2);
  }

  /** Only the index 0 / not 0 distinction reaches a line's outcome. */
  lemma {:induction false} ClassifyPastHeader(i: nat, j: nat, raw: string)
    requires i >= 1 && j >= 1
    ensures Classify(i, raw) == Classify(j, raw)
  {
  }

  /**
   * A blank line or a line with fewer than five fields, anywhere after the
   * header, can be removed without changing the result.
   */
  lemma {:induction false} SkippedLineInvisible(a: seq<string>, x: string, b: seq<string>)
    requires |a| >= 1
    requires Text.AllSpace(x) || Text.Count(Text.Strip(x), ',') < FieldCount - 1
    ensures Parse(a + [x] + b) == Parse(a + b)
  {
    assert Classify(|a|, x) == Skip by {
      assert !IsDataLine(|a|, x);
    }
    SkippedLineOutcomes(a, x, b);
    GatherInsertSkip(Outcomes(a + [x] + b), Outcomes(a + b), |a|);
  }

  /** A skipped line after the header contributes a `Skip` at its position and shifts nothing else. */
  lemma SkippedLineOutcomes(a: seq<string>, x: string, b: seq<string>)
    requires |a| >= 1 && Classify(|a|, x) == Skip
    ensures Outcomes(a + [x] + b) == Outcomes(a + b)[..|a|] + [Skip] + Outcomes(a + b)[|a|..]
  {
    ClassifyIgnoresIndex();
    InsertLine(Classify, a, x, b);
  }

  /** Past the header, a line's outcome does not depend on its position. */
  lemma ClassifyIgnoresIndex()
    ensures forall i: nat, raw: string :: i >= 1 ==> Classify(i, raw) == Classify(1, raw)
  {
    forall i: nat, raw: string | i >= 1 ensures Classify(i, raw) == Classify(1, raw) {
      ClassifyPastHeader(i, 1, raw);
    }
  }

  /**
   * For a line classifier that ignores positions past the header, inserting a
   * skipped line after the header inserts a `Skip` and shifts the rest.
   */
  lemma {:induction false} InsertLine(f: (nat, string) -> LineOutcome, a: seq<string>, x: string, b: seq<string>)
    requires |a| >= 1
    requires f(|a|, x) == Skip
    requires forall i: nat, raw: string :: i >= 1 ==> f(i, raw) == f(1, raw)
    ensures MapLines(f, a + [x] + b) == MapLines(f, a + b)[..|a|] + [Skip] + MapLines(f, a + b)[|a|..]
  {
    var l1, l2 := a + [x] + b, a + b;
    var o1, o2 := MapLines(f, l1), MapLines(f, l2);
    assert l1 == l2[..|a|] + [x] + l2[|a|..] by {
      assert l2[..|a|] == a && l2[|a|..] == b;
    }
    InsertAt(l2, |a|, x);
    InsertAt(o2, |a|, Skip);
    forall i | |a| < i < |o1| ensures o1[i] == o2[i - 1] {
      assert f(i, l1[i]) == f(1, l1[i]) == f(i - 1, l2[i - 1]);
    }
  }

  /** Inserting `v` at position `k` keeps the elements before it and shifts those after it by one. */
  lemma InsertAt<T>(s: seq<T>, k: nat, v: T)
    requires k <= |s|
    ensures var r := s[..k] + [v] + s[k..];
      && |r| == |s| + 1 && r[k] == v
      && (forall i :: 0 <= i < k ==> r[i] == s[i])
      && (forall i :: k < i < |r| ==> r[i] == s[i - 1])
  {
  }

  // ---------------------------------------------------------------------------
  // Worked examples
  // ---------------------------------------------------------------------------

  /**
   * A poll written out the way the data file writes it, integers in decimal
   * and results as two-decimal fractions, converts back to that poll. The
   * descriptor may lay out its size and type tokens with any whitespace.
   */
  lemma ConvertRendered(parts: seq<string>, date: int, size: int, gaps: seq<string>, ws: seq<string>)
    requires |parts| >= FieldCount
    requires Text.IsLayout(gaps, ws) && |ws| >= 2 && ws[0] == Numbers.ShowInt(size)
    requires parts[1] == Numbers.ShowInt(date) && parts[2] == Text.Interleave(gaps, ws)
    requires Numbers.IsHundredths(parts[3]) && Numbers.IsHundredths(parts[4])
    ensures ConvertFields(parts)
         == Success(Row(parts[0], date, size, ws[1], Numbers.HundredthsValue(parts[3]), Numbers.HundredthsValue(parts[4])))
  {
    var sizeText, sampleType := ws[0], ws[1];
    assert SplitSample(parts[2]) == Some((sizeText, sampleType)) by {
      SplitSampleSizeAndType(gaps, ws);
    }
    assert Numbers.ParseInt(parts[1]) == Some(date) by {
      Numbers.ParseIntShowInt(date);
    }
    assert Numbers.ParseInt(sizeText) == Some(size) by {
      Numbers.ParseIntShowInt(size);
    }
    assert Numbers.ParseReal(parts[3]) == Some(Numbers.HundredthsValue(parts[3])) by {
      Numbers.ParseRealTwoDecimals(parts[3]);
    }
    assert Numbers.ParseReal(parts[4]) == Some(Numbers.HundredthsValue(parts[4])) by {
      Numbers.ParseRealTwoDecimals(parts[4]);
    }
    var r := ConvertFields(parts);
    assert r.Success?;
    assert r.value == Row(parts[0], date, size, sampleType, Numbers.HundredthsValue(parts[3]), Numbers.HundredthsValue(parts[4]));
  }

  /**
   * Which error a failing conversion reports follows the program's order: a
   * blank sample descriptor first, then the date, the sample size, Harris's
   * result and Trump's result, each only when everything before it converted.
   */
  lemma ConvertErrorOrder(parts: seq<string>)
    requires |parts| >= FieldCount
    ensures var r := ConvertFields(parts);
      var sample := SplitSample(parts[2]);
      && (r == Failure(NotANumber(Date)) <==> sample.Some? && Numbers.ParseInt(parts[1]).None?)
      && (r == Failure(NotANumber(SampleSize)) <==>
            sample.Some? && Numbers.ParseInt(parts[1]).Some? && Numbers.ParseInt(sample.value.0).None?)
      && (r == Failure(NotANumber(HarrisResult)) <==>
            sample.Some? && Numbers.ParseInt(parts[1]).Some? && Numbers.ParseInt(sample.value.0).Some?
            && Numbers.ParseReal(parts[3]).None?)
      && (r == Failure(NotANumber(TrumpResult)) <==>
            sample.Some? && Numbers.ParseInt(parts[1]).Some? && Numbers.ParseInt(sample.value.0).Some?
            && Numbers.ParseReal(parts[3]).Some? && Numbers.ParseReal(parts[4]).None?)
  {
  }

  // ---------------------------------------------------------------------------
  // The column-building loop
  // ---------------------------------------------------------------------------

  /**
   * The program's loop over the lines, appending each converted row's fields to
   * the six column lists. It produces the column view of `Parse(lines)`, so the
   * columns are aligned and row `i` of every column comes from the same line; a
   * failing line leaves no table at all.
   */
  method BuildDataDict(lines: seq<string>) returns (r: Result<Columns, ParseError>)
    ensures Parse(lines).Success? ==> r == Success(ToColumns(Parse(lines).value))
    ensures Parse(lines).Failure? ==> r == Failure(Parse(lines).error)
    ensures r.Success? ==> Aligned(r.value)
  {
    ghost var outs := Outcomes(lines);
    var cols := EmptyColumns;
    ghost var t: Table := [];
    var idx := 0;
    while idx < |lines|
      invariant 0 <= idx <= |lines|
      invariant Gather(outs[..idx]) == Success(t)
      invariant cols == ToColumns(t)
    {
      var outcome := ReadLine(lines, idx);
      GatherNext(outs, idx, t);
      match outcome {
        case Skip =>
        case Reject(e) =>
          GatherStops(outs, idx + 1);
          return Failure(e);
        case Keep(row) =>
          ToColumnsSnoc(t, row);
          cols := Columns(cols.month + [row.month], cols.date + [row.date], cols.sample + [row.sample],
                          cols.sampleType + [row.sampleType], cols.harris + [row.harris], cols.trump + [row.trump]);
          t := t + [row];
      }
      idx := idx + 1;
    }
    assert outs[..idx] == outs;
    r := Success(cols);
  }

  /** The body of the program's loop for one line: strip it, skip it or split and convert it. */
  method ReadLine(lines: seq<string>, idx: nat) returns (o: LineOutcome)
    requires idx < |lines|
    ensures o == Outcomes(lines)[idx]
  {
    OutcomeAt(lines, idx);
    var raw := lines[idx];
    var line := Text.Strip(raw);
    if line == [] || idx == 0 {
      return Skip;
    }
    var parts := Text.SplitOn(line, ',');
    if |parts| < FieldCount {
      return Skip;
    }
    match ConvertFields(parts) {
      case Failure(e) => o := Reject(e);
      case Success(row) => o := Keep(row);
    }
  }
}
