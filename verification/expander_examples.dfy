/** The range expander on the column layouts of the parser's own unit tests,
    down to the order of the resulting columns. */
module ExpanderExamples {
  import opened Days
  import opened Tables
  import opened Expander

  /** One new column per day, in the order of `days`, each holding `cells`. */
  function DayColumns(days: seq<Weekday>, cells: seq<Cell>): (r: seq<Column>)
    ensures |r| == |days|
    ensures forall i :: 0 <= i < |days| ==> r[i] == Column(Token(days[i]), cells)
  {
    seq(|days|, i requires 0 <= i < |days| => Column(Token(days[i]), cells))
  }

  /** Appending the first day's column and then the rest's is appending
      them all. */
  lemma DayColumnsStep(columns: seq<Column>, days: seq<Weekday>, cells: seq<Cell>)
    requires |days| > 0
    ensures columns + [Column(Token(days[0]), cells)] + DayColumns(days[1..], cells) == columns + DayColumns(days, cells)
  {
    assert DayColumns(days, cells) == [Column(Token(days[0]), cells)] + DayColumns(days[1..], cells);
  }

  /** After adding the column of `first`, another new day still has no
      column. */
  lemma RestIsNew(t: Table, t': Table, first: Weekday, d: Weekday)
    requires forall n :: HasColumn(t', n) <==> HasColumn(t, n) || n == Token(first)
    requires !HasColumn(t, Token(d)) && d != first
    ensures !HasColumn(t', Token(d))
  {
    if Token(d) == Token(first) {
      TokenInjective(d, first);
    }
  }

  /** Copying to days that have no column yet appends their columns, in the
      order of `days`, after the existing ones. */
  lemma {:induction false} AssignNewDays(t: Table, days: seq<Weekday>, cells: seq<Cell>)
    requires forall i, j :: 0 <= i < j < |days| ==> days[i] != days[j]
    requires forall d :: d in days ==> !HasColumn(t, Token(d))
    ensures AssignDays(t, days, cells) == Table(t.records, t.columns + DayColumns(days, cells))
    decreases |days|
  {
    if |days| > 0 {
      var t' := Assign(t, Token(days[0]), cells);
      assert t' == Table(t.records, t.columns + [Column(Token(days[0]), cells)]) by {
        assert days[0] in days;
      }
      forall d | d in days[1..]
        ensures !HasColumn(t', Token(d))
      {
        assert d in days && d != days[0];
        RestIsNew(t, t', days[0], d);
      }
      AssignNewDays(t', days[1..], cells);
      DayColumnsStep(t.columns, days, cells);
    }
  }

  /** Dropping the column at position `k` when no earlier column shares its
      name. */
  lemma DropAt(t: Table, k: int)
    requires 0 <= k < |t.columns|
    requires forall i :: 0 <= i < k ==> t.columns[i].name != t.columns[k].name
    ensures HasColumn(t, t.columns[k].name)
    ensures Drop(t, t.columns[k].name) == Table(t.records, t.columns[..k] + t.columns[k + 1..])
  {
    assert Names(t)[k] == t.columns[k].name;
    var i := IndexOf(Names(t), t.columns[k].name);
    assert i == k;
  }

  /** Removing an element before the appended tail leaves the tail in place. */
  lemma RemoveBeforeTail(cols: seq<Column>, k: int, tail: seq<Column>)
    requires 0 <= k < |cols|
    ensures (cols + tail)[..k] + (cols + tail)[k + 1..] == cols[..k] + cols[k + 1..] + tail
  {
    assert (cols + tail)[..k] == cols[..k];
    assert (cols + tail)[k + 1..] == cols[k + 1..] + tail;
  }

  /** The columns for a two-day span. */
  lemma NewColumns(d: Weekday, e: Weekday, cells: seq<Cell>)
    ensures DayColumns([d, e], cells) == [Column(Token(d), cells), Column(Token(e), cells)]
  {
  }

  /** One turn of the loop on a range column `c` none of whose span days has
      a column yet: the range column leaves its place and the span's columns
      are appended at the end in canonical weekday order. */
  lemma ExpandNewRange(t: Table, before: seq<Column>, c: Column, after: seq<Column>, span: seq<Weekday>)
    requires t.columns == before + [c] + after && IsRange(c.name) && Span(c.name) == span
    requires forall i :: 0 <= i < |before| ==> before[i].name != c.name
    requires forall d :: d in span ==> !HasColumn(t, Token(d))
    ensures HasColumn(t, c.name)
    ensures ExpandColumn(t, c.name) == Table(t.records, before + after + DayColumns(span, c.cells))
  {
    var k := |before|;
    assert t.columns[k] == c;
    assert forall i :: 0 <= i < k ==> t.columns[i] == before[i];
    DropAt(t, k);
    assert Get(t, c.name) == c.cells by {
      assert Names(t)[k] == c.name;
      assert IndexOf(Names(t), c.name) == k;
    }
    SpanOrdered(c.name);
    AssignNewDays(t, span, c.cells);
    var a := AssignDays(t, span, c.cells);
    assert a.columns[..|t.columns|] == t.columns;
    DropAt(a, k);
    RemoveBeforeTail(t.columns, k, DayColumns(span, c.cells));
    assert t.columns[..k] == before;
    assert t.columns[k + 1..] == after;
  }

  /** The loop, one entry name at a time. */
  lemma ExpandEachStep(t: Table, pending: seq<string>)
    requires |pending| > 0 && Distinct(pending)
    requires forall n :: n in pending && IsRange(n) ==> HasColumn(t, n)
    ensures forall n :: n in pending[1..] && IsRange(n) ==> HasColumn(ExpandColumn(t, pending[0]), n)
    ensures ExpandEach(t, pending) == ExpandEach(ExpandColumn(t, pending[0]), pending[1..])
  {
    assert forall n :: n in pending[1..] ==> n != pending[0];
  }

  /** `{'mon-tue': x, 'wed': y, 'thu-fri': z}`, the layout of the test frame
      `{'mon-tue': [1], 'wed': [2], 'thu-fri': [3]}` with any values. */
  function Example(x: seq<Cell>, y: seq<Cell>, z: seq<Cell>): Table {
    Table(|x|, [Column("mon-tue", x), Column("wed", y), Column("thu-fri", z)])
  }

  /** The frame after the turns for `mon-tue` and `wed`. */
  function ExampleAfterFirst(x: seq<Cell>, y: seq<Cell>, z: seq<Cell>): Table {
    Table(|x|, [Column("wed", y), Column("thu-fri", z)] + [Column("mon", x), Column("tue", x)])
  }

  /** The frame after the turn for `thu-fri`. */
  function ExampleAfterLast(x: seq<Cell>, y: seq<Cell>, z: seq<Cell>): Table {
    Table(|x|, [Column("wed", y)] + [Column("mon", x), Column("tue", x)] + [Column("thu", z), Column("fri", z)])
  }

  /** A turn on the range column `r` of a frame laid out as `before`, `r`,
      `after`, when none of its span days has a column yet. */
  lemma RangeTurn(t: Table, before: seq<Column>, r: string, cells: seq<Cell>, after: seq<Column>, span: seq<Weekday>)
    requires t.columns == before + [Column(r, cells)] + after
    requires IsRange(r) && Span(r) == span
    requires forall i :: 0 <= i < |before| ==> before[i].name != r
    requires forall d, i :: d in span && 0 <= i < |t.columns| ==> t.columns[i].name != Token(d)
    ensures HasColumn(t, r)
    ensures ExpandColumn(t, r) == Table(t.records, before + after + DayColumns(span, cells))
  {
    forall d | d in span
      ensures !HasColumn(t, Token(d))
    {
      forall i | 0 <= i < |Names(t)|
        ensures Names(t)[i] != Token(d)
      {
        assert Names(t)[i] == t.columns[i].name;
      }
    }
    ExpandNewRange(t, before, Column(r, cells), after, span);
  }

  /** The first turn, for a range `r` in the first place that spans Monday
      and Tuesday. */
  lemma FirstTurnOf(t: Table, r: string, x: seq<Cell>, y: seq<Cell>, z: seq<Cell>)
    requires t == Table(|x|, [Column(r, x), Column("wed", y), Column("thu-fri", z)])
    requires IsRange(r) && Span(r) == [Mon, Tue]
    ensures HasColumn(t, r)
    ensures ExpandColumn(t, r) == Table(|x|, [Column("wed", y), Column("thu-fri", z)] + DayColumns([Mon, Tue], x))
  {
    var after := [Column("wed", y), Column("thu-fri", z)];
    RangeIsNotToken(r, Mon);
    RangeIsNotToken(r, Tue);
    assert t.columns == [] + [Column(r, x)] + after;
    RangeTurn(t, [], r, x, after, [Mon, Tue]);
    assert [] + after == after;
  }

  lemma ExampleFirstTurn(x: seq<Cell>, y: seq<Cell>, z: seq<Cell>)
    ensures HasColumn(Example(x, y, z), "mon-tue")
    ensures ExpandColumn(Example(x, y, z), "mon-tue") == ExampleAfterFirst(x, y, z)
  {
    SpanMonTue();
    FirstTurnOf(Example(x, y, z), "mon-tue", x, y, z);
    NewColumns(Mon, Tue, x);
  }

  lemma ExampleMiddleTurn(x: seq<Cell>, y: seq<Cell>, z: seq<Cell>)
    ensures HasColumn(ExampleAfterFirst(x, y, z), "wed")
    ensures ExpandColumn(ExampleAfterFirst(x, y, z), "wed") == ExampleAfterFirst(x, y, z)
  {
    assert Names(ExampleAfterFirst(x, y, z))[0] == "wed";
    TokenIsNotRange(Wed);
  }

  /** The last turn, for a range `r` in the second place that spans Thursday
      and Friday. */
  lemma LastTurnOf(t: Table, r: string, x: seq<Cell>, y: seq<Cell>, z: seq<Cell>)
    requires t == Table(|x|, [Column("wed", y), Column(r, z), Column("mon", x), Column("tue", x)])
    requires IsRange(r) && Span(r) == [Thu, Fri]
    ensures HasColumn(t, r)
    ensures ExpandColumn(t, r) == Table(|x|, [Column("wed", y)] + [Column("mon", x), Column("tue", x)] + DayColumns([Thu, Fri], z))
  {
    var before, after := [Column("wed", y)], [Column("mon", x), Column("tue", x)];
    RangeIsNotToken(r, Wed);
    RangeIsNotToken(r, Thu);
    RangeIsNotToken(r, Fri);
    assert t.columns == before + [Column(r, z)] + after;
    assert forall d, i :: d in [Thu, Fri] && 0 <= i < |t.columns| ==> t.columns[i].name != Token(d) by {
      assert Token(Thu) == "thu" && Token(Fri) == "fri";
    }
    RangeTurn(t, before, r, z, after, [Thu, Fri]);
  }

  lemma ExampleLastTurn(x: seq<Cell>, y: seq<Cell>, z: seq<Cell>)
    ensures HasColumn(ExampleAfterFirst(x, y, z), "thu-fri")
    ensures ExpandColumn(ExampleAfterFirst(x, y, z), "thu-fri") == ExampleAfterLast(x, y, z)
  {
    SpanThuFri();
    LastTurnOf(ExampleAfterFirst(x, y, z), "thu-fri", x, y, z);
    NewColumns(Thu, Fri, z);
  }

  lemma ExampleWellFormed(x: seq<Cell>, y: seq<Cell>, z: seq<Cell>)
    requires |y| == |x| && |z| == |x|
    ensures WellFormed(Example(x, y, z))
  {
  }

  lemma ExampleNames(x: seq<Cell>, y: seq<Cell>, z: seq<Cell>)
    ensures Names(Example(x, y, z)) == ["mon-tue", "wed", "thu-fri"]
    ensures Names(ExampleAfterFirst(x, y, z)) == ["wed", "thu-fri", "mon", "tue"]
    ensures Distinct(["mon-tue", "wed", "thu-fri"])
  {
  }

  /** The loop over three names, after its first turn. */
  lemma FirstOfThree(t: Table, a: string, b: string, c: string, u: Table)
    requires Distinct([a, b, c]) && HasColumn(t, a) && HasColumn(t, b) && HasColumn(t, c)
    requires ExpandColumn(t, a) == u && HasColumn(u, b) && HasColumn(u, c)
    ensures ExpandEach(t, [a, b, c]) == ExpandEach(u, [b, c])
  {
    assert [a, b, c][1..] == [b, c];
    ExpandEachStep(t, [a, b, c]);
  }

  lemma ExampleLoopFirst(x: seq<Cell>, y: seq<Cell>, z: seq<Cell>)
    ensures Names(Example(x, y, z)) == ["mon-tue", "wed", "thu-fri"]
    ensures Names(ExampleAfterFirst(x, y, z)) == ["wed", "thu-fri", "mon", "tue"]
    ensures Distinct(["mon-tue", "wed", "thu-fri"]) && Distinct(["wed", "thu-fri"])
    ensures HasColumn(Example(x, y, z), "mon-tue") && HasColumn(Example(x, y, z), "wed")
    ensures HasColumn(Example(x, y, z), "thu-fri")
    ensures HasColumn(ExampleAfterFirst(x, y, z), "wed") && HasColumn(ExampleAfterFirst(x, y, z), "thu-fri")
    ensures ExpandEach(Example(x, y, z), ["mon-tue", "wed", "thu-fri"]) ==
            ExpandEach(ExampleAfterFirst(x, y, z), ["wed", "thu-fri"])
  {
    ExampleNames(x, y, z);
    ExampleFirstTurn(x, y, z);
    FirstOfThree(Example(x, y, z), "mon-tue", "wed", "thu-fri", ExampleAfterFirst(x, y, z));
  }

  /** The loop over two names that both have a column when visited. */
  lemma TwoTurns(t: Table, a: string, b: string)
    requires a != b && HasColumn(t, a) && HasColumn(t, b) && HasColumn(ExpandColumn(t, a), b)
    ensures Distinct([a, b])
    ensures ExpandEach(t, [a, b]) == ExpandColumn(ExpandColumn(t, a), b)
  {
    var u := ExpandColumn(t, a);
    assert [a, b][1..] == [b];
    assert ExpandEach(t, [a, b]) == ExpandEach(u, [b]);
    assert [b][1..] == [];
    assert ExpandEach(u, [b]) == ExpandEach(ExpandColumn(u, b), []);
  }

  lemma ExampleLoopRest(x: seq<Cell>, y: seq<Cell>, z: seq<Cell>)
    ensures Names(ExampleAfterFirst(x, y, z)) == ["wed", "thu-fri", "mon", "tue"]
    ensures ExpandEach(ExampleAfterFirst(x, y, z), ["wed", "thu-fri"]) == ExampleAfterLast(x, y, z)
  {
    ExampleNames(x, y, z);
    ExampleMiddleTurn(x, y, z);
    ExampleLastTurn(x, y, z);
    TwoTurns(ExampleAfterFirst(x, y, z), "wed", "thu-fri");
  }

  /** Whatever the values: after the loop the frame holds `wed`, then the
      appended `mon`, `tue`, `thu`, `fri`, each with the cells of the range
      column that wrote it. */
  lemma ParseDatesExample(x: seq<Cell>, y: seq<Cell>, z: seq<Cell>)
    requires |y| == |x| && |z| == |x|
    ensures WellFormed(Example(x, y, z))
    ensures ParseDates(Example(x, y, z)) == ExampleAfterLast(x, y, z)
  {
    ExampleWellFormed(x, y, z);
    ExampleNames(x, y, z);
    ExampleLoopFirst(x, y, z);
    ExampleLoopRest(x, y, z);
  }

  // ---------------------------------------------------------------------------
  // The parametrised test: every frame ends up with all five weekdays
  // ---------------------------------------------------------------------------

  /** A weekday gets a column when the frame has its token as a column, or a
      range column whose span holds it. */
  lemma DayCovered(t: Table, d: Weekday, c: string)
    requires WellFormed(t) && HasColumn(t, c)
    requires c == Token(d) || (IsRange(c) && d in Span(c))
    ensures HasColumn(ParseDates(t), Token(d))
  {
    if c == Token(d) {
      TokenIsNotRange(d);
      OtherColumnKept(t, c);
    } else {
      RangeColumnExpanded(t, c);
    }
  }

  /** A frame of three columns of one record each. */
  function ThreeColumns(a: string, b: string, c: string): Table {
    Table(1, [Column(a, [Num(1)]), Column(b, [Num(2)]), Column(c, [Num(3)])])
  }

  lemma ThreeColumnsWellFormed(a: string, b: string, c: string)
    requires a != b && b != c && a != c
    ensures WellFormed(ThreeColumns(a, b, c))
    ensures HasColumn(ThreeColumns(a, b, c), a) && HasColumn(ThreeColumns(a, b, c), b)
    ensures HasColumn(ThreeColumns(a, b, c), c)
  {
    assert Names(ThreeColumns(a, b, c)) == [a, b, c];
  }

  /** `{'mon-tue': [1], 'wed': [2], 'thu-fri': [3]}` and
      `{'montue': [1], 'wed': [2], 'thu-fri': [3]}`: a Monday-Tuesday range,
      Wednesday and a Thursday-Friday range cover the week. */
  lemma TwoRangesCoverWeek(r: string)
    requires IsRange(r) && Span(r) == [Mon, Tue]
    ensures WellFormed(ThreeColumns(r, "wed", "thu-fri"))
    ensures forall d :: HasColumn(ParseDates(ThreeColumns(r, "wed", "thu-fri")), Token(d))
  {
    var t := ThreeColumns(r, "wed", "thu-fri");
    SpanThuFri();
    RangeIsNotToken(r, Wed);
    RangeIsNotToken("thu-fri", Wed);
    assert r != "thu-fri" by {
      assert Span("thu-fri") != Span(r);
    }
    ThreeColumnsWellFormed(r, "wed", "thu-fri");
    forall d
      ensures HasColumn(ParseDates(t), Token(d))
    {
      if d == Mon || d == Tue {
        DayCovered(t, d, r);
      } else if d == Wed {
        DayCovered(t, d, "wed");
      } else {
        DayCovered(t, d, "thu-fri");
      }
    }
  }

  lemma DashedRangesCoverWeek()
    ensures WellFormed(ThreeColumns("mon-tue", "wed", "thu-fri"))
    ensures forall d :: HasColumn(ParseDates(ThreeColumns("mon-tue", "wed", "thu-fri")), Token(d))
  {
    SpanMonTue();
    TwoRangesCoverWeek("mon-tue");
  }

  lemma JoinedRangeCoversWeek()
    ensures WellFormed(ThreeColumns("montue", "wed", "thu-fri"))
    ensures forall d :: HasColumn(ParseDates(ThreeColumns("montue", "wed", "thu-fri")), Token(d))
  {
    SpanMonTue();
    TwoRangesCoverWeek("montue");
  }

  /** `{'montuewed': [1], 'thu': [2], 'fri': [3]}`. */
  lemma ThreeDayRangeCoversWeek()
    ensures WellFormed(ThreeColumns("montuewed", "thu", "fri"))
    ensures forall d :: HasColumn(ParseDates(ThreeColumns("montuewed", "thu", "fri")), Token(d))
  {
    var r := "montuewed";
    var t := ThreeColumns(r, "thu", "fri");
    SpanMonTueWed();
    RangeIsNotToken(r, Thu);
    RangeIsNotToken(r, Fri);
    ThreeColumnsWellFormed(r, "thu", "fri");
    forall d
      ensures HasColumn(ParseDates(t), Token(d))
    {
      if d == Thu {
        DayCovered(t, d, "thu");
      } else if d == Fri {
        DayCovered(t, d, "fri");
      } else {
        DayCovered(t, d, r);
      }
    }
  }

  /** A range column and a Friday column, one record each. */
  function RangeAndFriday(r: string): Table {
    Table(1, [Column(r, [Num(1)]), Column("fri", [Num(3)])])
  }

  /** A Monday-Thursday range and Friday cover the week. */
  lemma MondayToThursdayCoversWeek(r: string)
    requires IsRange(r) && Span(r) == [Mon, Tue, Wed, Thu]
    ensures WellFormed(RangeAndFriday(r))
    ensures forall d :: HasColumn(ParseDates(RangeAndFriday(r)), Token(d))
  {
    var t := RangeAndFriday(r);
    RangeIsNotToken(r, Fri);
    assert Names(t) == [r, "fri"];
    forall d
      ensures HasColumn(ParseDates(t), Token(d))
    {
      if d == Fri {
        DayCovered(t, d, "fri");
      } else {
        DayCovered(t, d, r);
      }
    }
  }

  /** `{'mon-thu': [1], 'fri': [3]}`: the range also fills in Tuesday and
      Wednesday, which its name does not mention. */
  lemma WideRangeCoversWeek()
    ensures WellFormed(RangeAndFriday("mon-thu"))
    ensures forall d :: HasColumn(ParseDates(RangeAndFriday("mon-thu")), Token(d))
  {
    SpanMonThu();
    MondayToThursdayCoversWeek("mon-thu");
  }
}
