/** `_parse_df_values` on the two-record frame of the parser's unit tests. */
module ReshaperExamples {
  import opened Strings
  import opened Days
  import opened Tables
  import opened Reshaper

  /** A weekday with a column heads the present weekdays from its position. */
  lemma PresentFromStep(t: Table, p: nat)
    requires p < |Week| && HasColumn(t, Token(Week[p]))
    ensures PresentFrom(t, p) == [Week[p]] + PresentFrom(t, p + 1)
  {
  }

  /** Every weekday from position `p` on has a column: the present weekdays
      from `p` are the rest of the week. */
  lemma {:induction false} PresentFromAll(t: Table, p: nat)
    requires forall k :: p <= k < |Week| ==> HasColumn(t, Token(Week[k]))
    requires p <= |Week|
    ensures PresentFrom(t, p) == Week[p..]
    decreases |Week| - p
  {
    if p < |Week| {
      PresentFromStep(t, p);
      PresentFromAll(t, p + 1);
      assert Week[p..] == [Week[p]] + Week[p + 1..];
    }
  }

  /** `{'mon': [3, 4], 'tue': [4, 5], 'wed': [5, 6], 'thu': [6, 7],
      'fri': [6, 7], 'some_column1': other, 'description': ['first_desc',
      'second_desc']}`; the test's `other` is `['data', 'more data']`. */
  function ValuesExample(other: seq<Cell>): Table {
    Table(2, [
      Column("mon", [Num(3), Num(4)]),
      Column("tue", [Num(4), Num(5)]),
      Column("wed", [Num(5), Num(6)]),
      Column("thu", [Num(6), Num(7)]),
      Column("fri", [Num(6), Num(7)]),
      Column("some_column1", other),
      Column("description", [Str("first_desc"), Str("second_desc")])])
  }

  lemma ValuesExampleNames(other: seq<Cell>)
    ensures Names(ValuesExample(other)) == ["mon", "tue", "wed", "thu", "fri", "some_column1", "description"]
  {
  }

  lemma ValuesExampleColumns(other: seq<Cell>)
    requires |other| == 2
    ensures WellFormed(ValuesExample(other))
    ensures forall d :: HasColumn(ValuesExample(other), Token(d))
    ensures HasColumn(ValuesExample(other), "description")
    ensures HasColumn(ValuesExample(other), "mon") && HasColumn(ValuesExample(other), "thu")
    ensures Get(ValuesExample(other), "description") == [Str("first_desc"), Str("second_desc")]
    ensures Get(ValuesExample(other), "mon") == [Num(3), Num(4)]
    ensures Get(ValuesExample(other), "thu") == [Num(6), Num(7)]
  {
    var t := ValuesExample(other);
    ValuesExampleNames(other);
    assert IndexOf(Names(t), "description") == 6;
    assert IndexOf(Names(t), "mon") == 0;
    assert IndexOf(Names(t), "thu") == 3;
  }

  lemma ValuesExampleDay(other: seq<Cell>, d: Weekday)
    ensures HasColumn(ValuesExample(other), Token(d))
    ensures NumericCells(Get(ValuesExample(other), Token(d)))
  {
    var t := ValuesExample(other);
    ValuesExampleNames(other);
    assert Names(t)[Position(d)] == Token(d);
    match d
    case Mon => assert IndexOf(Names(t), "mon") == 0;
    case Tue => assert IndexOf(Names(t), "tue") == 1;
    case Wed => assert IndexOf(Names(t), "wed") == 2;
    case Thu => assert IndexOf(Names(t), "thu") == 3;
    case Fri => assert IndexOf(Names(t), "fri") == 4;
  }

  lemma ValuesExampleNumeric(other: seq<Cell>)
    requires |other| == 2
    ensures WellFormed(ValuesExample(other)) && NumericDays(ValuesExample(other))
  {
    ValuesExampleColumns(other);
    forall d: Weekday
      ensures NumericCells(Get(ValuesExample(other), Token(d)))
    {
      ValuesExampleDay(other, d);
    }
  }

  lemma ValuesExamplePresent(other: seq<Cell>)
    ensures PresentDays(ValuesExample(other)) == Week
  {
    forall k | 0 <= k < |Week|
      ensures HasColumn(ValuesExample(other), Token(Week[k]))
    {
      ValuesExampleDay(other, Week[k]);
    }
    PresentFromAll(ValuesExample(other), 0);
  }

  lemma ValuesExampleText(other: seq<Cell>)
    requires |other| == 2
    ensures HasColumn(ValuesExample(other), "description")
    ensures TextDescriptions(ValuesExample(other))
  {
    ValuesExampleColumns(other);
  }

  lemma ValuesExampleSucceeds(other: seq<Cell>)
    requires |other| == 2
    ensures WellFormed(ValuesExample(other)) && NumericDays(ValuesExample(other))
    ensures PresentDays(ValuesExample(other)) == Week
    ensures ParseValues(ValuesExample(other)).Ok?
  {
    ValuesExampleNumeric(other);
    ValuesExamplePresent(other);
    ValuesExampleText(other);
    ParseValuesSucceeds(ValuesExample(other));
  }

  /** The two numbered descriptions of the test. */
  lemma NumberedDescriptions()
    ensures "first_desc" + " " + IntToString(9) == "first_desc 9"
    ensures "first_desc" + " " + IntToString(12) == "first_desc 12"
  {
    assert IntToString(9) == "9";
    assert IntToString(12) == "12" by {
      assert NatToString(12) == NatToString(1) + [DigitChar(2)];
    }
  }

  /** The frame the test builds, as far as the rows it inspects depend on
      it: two records, all five weekdays, and the first record's
      description and Monday and Thursday values. */
  predicate FirstRecordOfTestFrame(t: Table) {
    && WellFormed(t) && NumericDays(t) && ParseValues(t).Ok?
    && PresentDays(t) == Week && t.records == 2
    && HasColumn(t, "mon") && HasColumn(t, "thu") && HasColumn(t, "description")
    && |Get(t, "mon")| > 0 && |Get(t, "thu")| > 0 && |Get(t, "description")| > 0
    && Get(t, "mon")[0] == Num(3) && Get(t, "thu")[0] == Num(6)
    && Get(t, "description")[0] == Str("first_desc")
  }

  lemma RowCount(t: Table)
    requires FirstRecordOfTestFrame(t)
    ensures |ParseValues(t).value| == 10
  {
    ParseValuesAt(t, Week, 0, 0);
  }

  /** Row `k` of the reshaped frame is the first record on the `k`-th
      weekday, derived by the rule. */
  lemma FirstRecordRow(t: Table, k: nat, d: Weekday, v: int)
    requires FirstRecordOfTestFrame(t) && k < |Week| && Week[k] == d
    requires HasColumn(t, Token(d)) && |Get(t, Token(d))| > 0 && Get(t, Token(d))[0] == Num(v)
    ensures k < |ParseValues(t).value|
    ensures DerivedRow(ParseValues(t).value[k], "first_desc", d, v)
  {
    var r := ParseValues(t).value[k] by {
      RowCount(t);
    }
    assert DerivedRow(r, Get(t, "description")[0].s, Week[k], Value(t, Week[k], 0)) by {
      assert 0 * |Week| + k == k;
      ParseValuesAt(t, Week, 0, k);
    }
    assert Get(t, "description")[0].s == "first_desc" && Value(t, Week[k], 0) == v;
  }

  /** The rule on the first record's Monday value 3. */
  lemma MondayRule(r: StackedRow)
    requires DerivedRow(r, "first_desc", Mon, 3)
    ensures r == StackedRow(Mon, "first_desc 9", 9, 6, true, 3)
  {
    NumberedDescriptions();
    DerivedRowIs(r, "first_desc", Mon, 3, 9, "first_desc 9");
  }

  /** The rule on the first record's Thursday value 6. */
  lemma ThursdayRule(r: StackedRow)
    requires DerivedRow(r, "first_desc", Thu, 6)
    ensures r == StackedRow(Thu, "first_desc 12", 36, 12, false, 6)
  {
    NumberedDescriptions();
    DerivedRowIs(r, "first_desc", Thu, 6, 12, "first_desc 12");
  }

  lemma MondayRow(t: Table)
    requires FirstRecordOfTestFrame(t) && |ParseValues(t).value| == 10
    ensures ParseValues(t).value[0] == StackedRow(Mon, "first_desc 9", 9, 6, true, 3)
  {
    FirstRecordRow(t, 0, Mon, 3);
    MondayRule(ParseValues(t).value[0]);
  }

  lemma ThursdayRow(t: Table)
    requires FirstRecordOfTestFrame(t) && |ParseValues(t).value| == 10
    ensures ParseValues(t).value[3] == StackedRow(Thu, "first_desc 12", 36, 12, false, 6)
  {
    FirstRecordRow(t, 3, Thu, 6);
    ThursdayRule(ParseValues(t).value[3]);
  }

  /** Ten rows; row 0 is `{'day': 'mon', 'description': 'first_desc 9',
      'square': 9, 'double': 6, 'is_square': True, 'value': 3}` and row 3 is
      `{'day': 'thu', 'description': 'first_desc 12', 'square': 36,
      'double': 12, 'is_square': False, 'value': 6}`. */
  lemma ParseValuesExample(other: seq<Cell>)
    requires |other| == 2
    ensures WellFormed(ValuesExample(other)) && NumericDays(ValuesExample(other))
    ensures ParseValues(ValuesExample(other)).Ok?
    ensures |ParseValues(ValuesExample(other)).value| == 10
    ensures ParseValues(ValuesExample(other)).value[0] == StackedRow(Mon, "first_desc 9", 9, 6, true, 3)
    ensures ParseValues(ValuesExample(other)).value[3] == StackedRow(Thu, "first_desc 12", 36, 12, false, 6)
  {
    var t := ValuesExample(other);
    ValuesExampleSucceeds(other);
    ValuesExampleColumns(other);
    RowCount(t);
    MondayRow(t);
    ThursdayRow(t);
  }
}
