/** `process_output`: lower-case the column names, expand the range columns,
    reshape to one row per record and weekday, turn the rows into
    dictionaries and keep the square or the double of each. */
module Pipeline {
  import opened Results
  import opened Strings
  import opened Days
  import opened Tables
  import opened Normaliser
  import opened Expander
  import opened Reshaper
  import opened Selector

  /** A column the parser reads integers from: a weekday or a range of
      weekdays. */
  predicate DayColumn(name: string) {
    DayNamed(name).Some? || IsRange(name)
  }

  /** What `process_output` assumes of the frame it is given: the lower-cased
      names are distinct, every column has one cell per record, and after
      range expansion every weekday column, the only columns `** 2` and
      `* 2` read, holds integers. */
  predicate Admissible(t: Table) {
    var u := LowerCaseNames(t);
    WellFormed(u) && NumericDays(ParseDates(u))
  }

  /** The columns the weekday values are copied from hold integers: for each
      weekday, its last writer among the range columns, or else its own
      column when it has one. A column overwritten before it is read may
      hold anything. */
  predicate SourcesNumeric(u: Table) {
    forall d: Weekday ::
      match LastWriter(Names(u), d)
      case Some(c) => HasColumn(u, c) && NumericCells(Get(u, c))
      case None => HasColumn(u, Token(d)) ==> NumericCells(Get(u, Token(d)))
  }

  /** The weekday columns after expansion hold integers exactly when the
      columns they are copied from do. */
  lemma NumericAfterDatesIff(u: Table)
    requires WellFormed(u)
    ensures NumericDays(ParseDates(u)) <==> SourcesNumeric(u)
  {
    var v := ParseDates(u);
    var m := View(u);
    ParseDatesMeetsExpected(u);
    forall d: Weekday
      ensures HasColumn(v, Token(d)) <==> (LastWriter(Names(u), d).Some? || HasColumn(u, Token(d)))
      ensures LastWriter(Names(u), d).Some? ==> Get(v, Token(d)) == m[LastWriter(Names(u), d).value]
      ensures LastWriter(Names(u), d).None? && HasColumn(u, Token(d)) ==> Get(v, Token(d)) == m[Token(d)]
    {
      assert Token(d) in View(v) <==> HasColumn(v, Token(d));
      assert HasColumn(v, Token(d)) ==> Get(v, Token(d)) == View(v)[Token(d)];
      match LastWriter(Names(u), d)
      case Some(c) =>
        ExpectedAtWritten(m, Names(u), d);
      case None =>
        ExpectedAtUnwritten(m, Names(u), Token(d));
        TokenIsNotRange(d);
    }
  }

  /** A weekday or range column of a frame whose weekday and range columns
      all hold integers holds integers. */
  lemma NumericColumn(u: Table, n: string)
    requires WellFormed(u) && HasColumn(u, n) && DayColumn(n)
    requires forall i :: 0 <= i < |u.columns| && DayColumn(u.columns[i].name) ==> NumericCells(u.columns[i].cells)
    ensures NumericCells(Get(u, n))
  {
    var k := IndexOf(Names(u), n);
    assert u.columns[k].name == n;
  }

  /** When every weekday and range column holds integers, so does every
      weekday column after range expansion: it is either an input weekday
      column or a copy of a range column. */
  lemma NumericAfterDates(u: Table)
    requires WellFormed(u)
    requires forall i :: 0 <= i < |u.columns| && DayColumn(u.columns[i].name) ==> NumericCells(u.columns[i].cells)
    ensures WellFormed(ParseDates(u)) && NumericDays(ParseDates(u))
  {
    var v := ParseDates(u);
    var m := View(u);
    ParseDatesMeetsExpected(u);
    forall d: Weekday | HasColumn(v, Token(d))
      ensures NumericCells(Get(v, Token(d)))
    {
      assert Get(v, Token(d)) == View(v)[Token(d)];
      match LastWriter(Names(u), d)
      case Some(c) =>
        ExpectedAtWritten(m, Names(u), d);
        NumericColumn(u, c);
      case None =>
        ExpectedAtUnwritten(m, Names(u), Token(d));
        NumericColumn(u, Token(d));
    }
  }

  /** The column `_parse_df_values` reads the descriptions from is neither a
      weekday nor a range, so range expansion keeps it as it is. */
  lemma DescriptionIsNoDay()
    ensures DayNamed("description").None? && !IsRange("description")
  {
    NoDayLetters("description", 0, 1, 0, 1, 0);
  }

  /** The frame `_parse_df_values` receives: normalised and expanded. */
  function Dated(t: Table): (v: Table)
    requires Admissible(t)
    ensures WellFormed(v) && NumericDays(v) && v.records == t.records
  {
    var u := LowerCaseNames(t);
    ParseDatesMeetsExpected(u);
    ParseDates(u)
  }

  /** Why `process_output` raises: in the reshaping, or in the selection. */
  datatype Failure = ValuesFailure(cause: Reshaper.Error) | SelectionFailure(missing: KeyError)

  /** `process_output(df)`. */
  function ProcessOutput(t: Table): (r: Result<seq<Record>, Failure>)
    requires Admissible(t)
    ensures r.Ok? <==> ParseValues(Dated(t)).Ok?
    ensures r.Err? ==> r == Err(ValuesFailure(ParseValues(Dated(t)).error))
  {
    match ParseValues(Dated(t))
    case Err(e) => Err(ValuesFailure(e))
    case Ok(rows) =>
      KeepSquareOrDoubleOfRows(rows);
      match KeepSquareOrDouble(ToRecords(rows))
      case Err(e) => Err(SelectionFailure(e))
      case Ok(out) => Ok(out)
  }

  /** The output is the reshaped frame row by row, in its order, each row
      reduced to its tagged output row. */
  lemma ProcessOutputRows(t: Table)
    requires Admissible(t) && ProcessOutput(t).Ok?
    ensures ParseValues(Dated(t)).Ok?
    ensures |ProcessOutput(t).value| == |ParseValues(Dated(t)).value|
    ensures forall k :: 0 <= k < |ProcessOutput(t).value| ==>
      ProcessOutput(t).value[k] == OutputRecord(Select(ParseValues(Dated(t)).value[k]))
  {
    KeepSquareOrDoubleOfRows(ParseValues(Dated(t)).value);
  }

  /** The parser fails only in the reshaping: with a missing description
      column exactly when no input column lower-cases to `description`, and
      otherwise exactly when some weekday is present and some record's
      description is not text. */
  lemma ProcessOutputFailures(t: Table)
    requires Admissible(t)
    ensures ProcessOutput(t) == Err(ValuesFailure(MissingDescription)) <==> !HasColumn(Dated(t), "description")
    ensures HasColumn(Dated(t), "description") <==>
      exists i :: 0 <= i < |t.columns| && Lower(t.columns[i].name) == "description"
    ensures HasColumn(Dated(t), "description") ==>
      (ProcessOutput(t).Ok? <==> |PresentDays(Dated(t))| == 0 || TextDescriptions(Dated(t)))
  {
    var u := LowerCaseNames(t);
    DescriptionIsNoDay();
    assert HasColumn(u, "description") <==>
      exists i :: 0 <= i < |t.columns| && Lower(t.columns[i].name) == "description"
    by {
      assert forall i :: 0 <= i < |t.columns| ==> Names(u)[i] == Lower(t.columns[i].name);
    }
    if HasColumn(u, "description") {
      OtherColumnKept(u, "description");
    }
    if HasColumn(Dated(t), "description") {
      NoRangeColumnLeft(u, "description");
    }
    ParseValuesMissingDescription(Dated(t));
    if HasColumn(Dated(t), "description") {
      ParseValuesSucceeds(Dated(t));
    }
  }

  /** The output in closed form: `records * |days|` dictionaries, record-major
      with the present weekdays in canonical order; the one for record `i` on
      weekday `days[k]` holds the day's token, the value, the square on Monday
      to Wednesday or the double on the other days, and the record's
      description followed by one space and that number. */
  lemma ProcessOutputAt(t: Table, days: seq<Weekday>, i: nat, k: nat)
    requires Admissible(t) && ProcessOutput(t).Ok?
    requires days == PresentDays(Dated(t)) && i < t.records && k < |days|
    ensures HasColumn(Dated(t), "description") && |Get(Dated(t), "description")| == t.records
    ensures Get(Dated(t), "description")[i].Str?
    ensures HasColumn(Dated(t), Token(days[k]))
    ensures |ProcessOutput(t).value| == t.records * |days|
    ensures 0 <= i * |days| + k < |ProcessOutput(t).value|
    ensures var v := Value(Dated(t), days[k], i);
      var choice := if SquaresOn(days[k]) then Square(v * v) else Double(2 * v);
      var number := if SquaresOn(days[k]) then v * v else 2 * v;
      ProcessOutput(t).value[i * |days| + k] ==
        OutputRecord(OutputRow(days[k], Get(Dated(t), "description")[i].s + " " + IntToString(number), choice, v))
  {
    var v, j := Dated(t), i * |days| + k;
    ProcessOutputRows(t);
    ParseValuesAt(v, days, i, k);
    assert ProcessOutput(t).value[j] == OutputRecord(Select(ParseValues(v).value[j]));
  }
}
