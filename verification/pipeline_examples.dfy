/** `process_output` end to end on the frame of the reshaping unit test. */
module PipelineExamples {
  import opened Results
  import opened Strings
  import opened Days
  import opened Tables
  import opened Normaliser
  import opened Expander
  import opened Reshaper
  import opened Selector
  import opened Pipeline
  import opened ReshaperExamples

  /** `some_column1` holds an `m`, an `o` and an `n` but never `mon`: the
      search fails at every offset, from the last one back. */
  lemma NoMondayInSomeColumn()
    ensures !Contains("some_column1", "mon")
  {
    var s := "some_column1";
    assert !OccursFrom(s, "mon", 12);
    assert !OccursFrom(s, "mon", 11);
    assert !OccursFrom(s, "mon", 10);
    assert !OccursFrom(s, "mon", 9);
    assert !OccursFrom(s, "mon", 8);
    assert !OccursFrom(s, "mon", 7);
    assert !OccursFrom(s, "mon", 6);
    assert !OccursFrom(s, "mon", 5);
    assert !OccursFrom(s, "mon", 4);
    assert !OccursFrom(s, "mon", 3);
    assert !OccursFrom(s, "mon", 2);
    assert !OccursFrom(s, "mon", 1);
    assert !OccursFrom(s, "mon", 0);
  }

  lemma SomeColumnIsNoDay()
    ensures DayNamed("some_column1").None? && !IsRange("some_column1")
  {
    NoMondayInSomeColumn();
    NoDayLettersButMonday("some_column1", 0, 0, 0, 0);
  }

  /** The test frame's names are lower case. */
  lemma ValuesExampleLowerCase(other: seq<Cell>)
    ensures forall i :: 0 <= i < |ValuesExample(other).columns| ==> IsLowerCase(ValuesExample(other).columns[i].name)
  {
  }

  /** None of the test frame's names is a range. */
  lemma ValuesExampleNoRanges(other: seq<Cell>)
    ensures forall n :: n in Names(ValuesExample(other)) ==> !IsRange(n)
  {
    var names := Names(ValuesExample(other));
    ValuesExampleNames(other);
    forall i | 0 <= i < |names|
      ensures !IsRange(names[i])
    {
      if i < 5 {
        assert names[i] == Token(Week[i]);
        TokenIsNotRange(Week[i]);
      } else if i == 5 {
        SomeColumnIsNoDay();
      } else {
        DescriptionIsNoDay();
      }
    }
  }

  /** Only the five weekday columns of the test frame are read as integers,
      and they hold integers. */
  lemma ValuesExampleDayColumns(other: seq<Cell>)
    ensures forall i :: 0 <= i < |ValuesExample(other).columns| && DayColumn(ValuesExample(other).columns[i].name) ==>
      NumericCells(ValuesExample(other).columns[i].cells)
  {
    var t := ValuesExample(other);
    forall i | 0 <= i < |t.columns| && DayColumn(t.columns[i].name)
      ensures NumericCells(t.columns[i].cells)
    {
      if i == 5 {
        SomeColumnIsNoDay();
      } else if i == 6 {
        DescriptionIsNoDay();
      }
    }
  }

  /** The test frame goes through normalisation and range expansion
      unchanged. */
  lemma ValuesExampleDated(other: seq<Cell>)
    requires |other| == 2
    ensures Admissible(ValuesExample(other))
    ensures Dated(ValuesExample(other)) == ValuesExample(other)
  {
    var t := ValuesExample(other);
    ValuesExampleLowerCase(other);
    LowerCaseNamesOfLowerCase(t);
    ValuesExampleColumns(other);
    ValuesExampleDayColumns(other);
    ValuesExampleNoRanges(other);
    ParseDatesWithoutRanges(t);
  }

  lemma MondayRecord()
    ensures OutputRecord(Select(StackedRow(Mon, "first_desc 9", 9, 6, true, 3))) ==
      map["day" := StrField("mon"), "description" := StrField("first_desc 9"), "square" := IntField(9), "value" := IntField(3)]
  {
    var m := OutputRecord(Select(StackedRow(Mon, "first_desc 9", 9, 6, true, 3)));
    assert m.Keys == {"day", "description", "square", "value"};
  }

  lemma ThursdayRecord()
    ensures OutputRecord(Select(StackedRow(Thu, "first_desc 12", 36, 12, false, 6))) ==
      map["day" := StrField("thu"), "description" := StrField("first_desc 12"), "double" := IntField(12), "value" := IntField(6)]
  {
    var m := OutputRecord(Select(StackedRow(Thu, "first_desc 12", 36, 12, false, 6)));
    assert m.Keys == {"day", "description", "double", "value"};
  }

  /** Outputs 0 and 3, for any admissible frame whose reshaped rows 0 and 3
      are those `test_parse_df_values` expects. */
  lemma TestFrameRecords(t: Table)
    requires Admissible(t) && ParseValues(Dated(t)).Ok? && |ParseValues(Dated(t)).value| == 10
    requires ParseValues(Dated(t)).value[0] == StackedRow(Mon, "first_desc 9", 9, 6, true, 3)
    requires ParseValues(Dated(t)).value[3] == StackedRow(Thu, "first_desc 12", 36, 12, false, 6)
    ensures ProcessOutput(t).Ok? && |ProcessOutput(t).value| == 10
    ensures ProcessOutput(t).value[0] ==
      map["day" := StrField("mon"), "description" := StrField("first_desc 9"), "square" := IntField(9), "value" := IntField(3)]
    ensures ProcessOutput(t).value[3] ==
      map["day" := StrField("thu"), "description" := StrField("first_desc 12"), "double" := IntField(12), "value" := IntField(6)]
  {
    ProcessOutputRows(t);
    MondayRecord();
    ThursdayRecord();
  }

  /** The whole pipeline on the reshaping test's frame: record 0 on Monday
      with value 3 becomes
      `{'day': 'mon', 'description': 'first_desc 9', 'square': 9,
      'value': 3}`, and on Thursday with value 6 becomes
      `{'day': 'thu', 'description': 'first_desc 12', 'double': 12,
      'value': 6}`. */
  lemma ProcessOutputExample(other: seq<Cell>)
    requires |other| == 2
    ensures Admissible(ValuesExample(other))
    ensures ProcessOutput(ValuesExample(other)).Ok?
    ensures |ProcessOutput(ValuesExample(other)).value| == 10
    ensures ProcessOutput(ValuesExample(other)).value[0] ==
      map["day" := StrField("mon"), "description" := StrField("first_desc 9"), "square" := IntField(9), "value" := IntField(3)]
    ensures ProcessOutput(ValuesExample(other)).value[3] ==
      map["day" := StrField("thu"), "description" := StrField("first_desc 12"), "double" := IntField(12), "value" := IntField(6)]
  {
    ValuesExampleDated(other);
    ParseValuesExample(other);
    TestFrameRecords(ValuesExample(other));
  }

  /** A weekday column that a range column overwrites before it is read:
      `{mon: ['x'], mon-tue: [1], description: ['d']}`. */
  function OverwrittenFrame(): Table {
    Table(1, [Column("mon", [Str("x")]), Column("mon-tue", [Num(1)]), Column("description", [Str("d")])])
  }

  /** Among three columns of which only the middle one may be a range, the
      last writer of a weekday is the middle one when it writes the day. */
  lemma MiddleWriter(a: string, b: string, c: string, d: Weekday)
    requires !IsRange(a) && !IsRange(c)
    ensures LastWriter([a, b, c], d) == if Writes(b, d) then Some(b) else None
  {
    var names := [a, b, c];
    assert forall i :: 0 <= i < 3 && i != 1 ==> !Writes(names[i], d);
    if Writes(b, d) {
      OnlyWriter(names, d, 1);
    }
  }

  /** The last range column writing each weekday of that frame. */
  lemma OverwrittenWriters(d: Weekday)
    ensures LastWriter(Names(OverwrittenFrame()), d) == if d in [Mon, Tue] then Some("mon-tue") else None
  {
    assert Names(OverwrittenFrame()) == ["mon", "mon-tue", "description"];
    SpanMonTue();
    TokenIsNotRange(Mon);
    DescriptionIsNoDay();
    MiddleWriter("mon", "mon-tue", "description", d);
  }

  /** The columns the frame's weekday values come from hold integers. */
  lemma OverwrittenSources()
    ensures SourcesNumeric(OverwrittenFrame())
  {
    var t := OverwrittenFrame();
    assert Names(t) == ["mon", "mon-tue", "description"];
    assert Get(t, "mon-tue") == [Num(1)] by {
      assert IndexOf(Names(t), "mon-tue") == 1;
    }
    assert forall d: Weekday :: Token(d) in Names(t) ==> d == Mon;
    forall d: Weekday
      ensures match LastWriter(Names(t), d)
        case Some(c) => HasColumn(t, c) && NumericCells(Get(t, c))
        case None => HasColumn(t, Token(d)) ==> NumericCells(Get(t, Token(d)))
    {
      OverwrittenWriters(d);
    }
  }

  /** The frame's names are lower case and distinct. */
  lemma OverwrittenNormalised()
    ensures WellFormed(OverwrittenFrame())
    ensures LowerCaseNames(OverwrittenFrame()) == OverwrittenFrame()
  {
    LowerCaseNamesOfLowerCase(OverwrittenFrame());
  }

  /** The frame's `mon` column holds text, yet `mon-tue` overwrites it before
      the reshaping reads it, so `process_output` accepts the frame. */
  lemma OverwrittenDayColumn()
    ensures !NumericCells(OverwrittenFrame().columns[0].cells)
    ensures Admissible(OverwrittenFrame())
  {
    assert !OverwrittenFrame().columns[0].cells[0].Num?;
    OverwrittenNormalised();
    OverwrittenSources();
    NumericAfterDatesIff(OverwrittenFrame());
  }
}
