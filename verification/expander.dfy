/** Stage two of `process_output`: `parse_df_dates`, which replaces every range
    column (a name containing more than one weekday token) by one column per
    weekday of its canonical span, each a copy of the range column's cells. */
module Expander {
  import opened Results
  import opened Strings
  import opened Days
  import opened Tables

  // ---------------------------------------------------------------------------
  // The loop of `parse_df_dates`
  // ---------------------------------------------------------------------------

  /** `for day in indiv_days: df[day] = cells`, in order. */
  function AssignDays(t: Table, days: seq<Weekday>, cells: seq<Cell>): (r: Table)
    ensures r.records == t.records
    ensures forall n :: HasColumn(t, n) ==> HasColumn(r, n)
    decreases |days|
  {
    if |days| == 0 then t else AssignDays(Assign(t, Token(days[0]), cells), days[1..], cells)
  }

  /** One turn of the loop, for the column that was called `name` on entry:
      a range column is copied to every weekday of its span and then dropped;
      any other column is left alone. */
  function ExpandColumn(t: Table, name: string): (r: Table)
    requires IsRange(name) ==> HasColumn(t, name)
    ensures r.records == t.records
    ensures forall n :: n != name && HasColumn(t, n) ==> HasColumn(r, n)
  {
    if IsRange(name) then Drop(AssignDays(t, Span(name), Get(t, name)), name) else t
  }

  /** The loop over the column names as they were on entry, `pending` being
      the names not yet visited. */
  function ExpandEach(t: Table, pending: seq<string>): (r: Table)
    requires Distinct(pending)
    requires forall n :: n in pending && IsRange(n) ==> HasColumn(t, n)
    ensures r.records == t.records
    decreases |pending|
  {
    if |pending| == 0 then t
    else
      var next := ExpandColumn(t, pending[0]);
      assert forall n :: n in pending[1..] ==> n != pending[0];
      ExpandEach(next, pending[1..])
  }

  /** `parse_df_dates(df)`. */
  function ParseDates(t: Table): (r: Table)
    requires WellFormed(t)
    ensures r.records == t.records
  {
    ExpandEach(t, Names(t))
  }

  // ---------------------------------------------------------------------------
  // A reference description of the result: the last writer wins
  // ---------------------------------------------------------------------------

  /** Column `name` is a range column whose expansion writes weekday `d`. */
  predicate Writes(name: string, d: Weekday) {
    IsRange(name) && d in Span(name)
  }

  /** The last range column in `names` whose expansion writes weekday `d`. */
  function LastWriter(names: seq<string>, d: Weekday): (r: Option<string>)
    ensures r.None? <==> forall j :: 0 <= j < |names| ==> !Writes(names[j], d)
    ensures r.Some? ==> r.value in names && Writes(r.value, d)
    ensures r.Some? ==> exists j :: 0 <= j < |names| && names[j] == r.value
                                    && forall k :: j < k < |names| ==> !Writes(names[k], d)
    decreases |names|
  {
    if |names| == 0 then None
    else match LastWriter(names[1..], d)
      case Some(c) =>
        var j :| 0 <= j < |names[1..]| && names[1..][j] == c
                 && forall k :: j < k < |names[1..]| ==> !Writes(names[1..][k], d);
        assert names[j + 1] == c;
        assert forall k :: j + 1 < k < |names| ==> names[k] == names[1..][k - 1];
        Some(c)
      case None =>
        assert forall j :: 1 <= j < |names| ==> names[j] == names[1..][j - 1];
        if Writes(names[0], d) then Some(names[0]) else None
  }

  /** The last writer of a weekday that only one name writes is that name. */
  lemma OnlyWriter(names: seq<string>, d: Weekday, j: int)
    requires 0 <= j < |names| && Writes(names[j], d)
    requires forall i :: 0 <= i < |names| && i != j ==> !Writes(names[i], d)
    ensures LastWriter(names, d) == Some(names[j])
  {
    var r := LastWriter(names, d);
    var i :| 0 <= i < |names| && names[i] == r.value;
  }

  /** The content `parse_df_dates` should produce from content `m` when it
      visits the column names `names` in order: every column that is not a
      visited range column stays, and every weekday some visited range column
      writes holds the cells of its last writer, whether or not that weekday
      had a column of its own. */
  function Expected(m: map<string, seq<Cell>>, names: seq<string>): map<string, seq<Cell>>
    requires forall n :: n in names && IsRange(n) ==> n in m
  {
    var kept := map n | n in m && !(n in names && IsRange(n)) :: m[n];
    var writtenNames := set d | d in Week && LastWriter(names, d).Some? :: Token(d);
    var written := map n | n in writtenNames :: WriterCells(m, names, DayNamed(n).value);
    kept + written
  }

  /** The cells of the last writer of weekday `d`. */
  function WriterCells(m: map<string, seq<Cell>>, names: seq<string>, d: Weekday): seq<Cell>
    requires forall n :: n in names && IsRange(n) ==> n in m
    requires LastWriter(names, d).Some?
  {
    var c := LastWriter(names, d).value;
    assert c in names && IsRange(c);
    m[c]
  }

  /** `Expected` at a weekday some visited range column writes. */
  lemma ExpectedAtWritten(m: map<string, seq<Cell>>, names: seq<string>, d: Weekday)
    requires forall n :: n in names && IsRange(n) ==> n in m
    requires LastWriter(names, d).Some?
    ensures Token(d) in Expected(m, names)
    ensures Expected(m, names)[Token(d)] == WriterCells(m, names, d)
  {
    var writtenNames := set e | e in Week && LastWriter(names, e).Some? :: Token(e);
    assert d in Week by {
      assert Week[Position(d)] == d;
    }
    assert Token(d) in writtenNames;
    assert DayNamed(Token(d)).value == d;
  }

  /** `Expected` at any other name. */
  lemma ExpectedAtUnwritten(m: map<string, seq<Cell>>, names: seq<string>, n: string)
    requires forall n :: n in names && IsRange(n) ==> n in m
    requires DayNamed(n).None? || LastWriter(names, DayNamed(n).value).None?
    ensures n in Expected(m, names) <==> n in m && !(n in names && IsRange(n))
    ensures n in Expected(m, names) ==> Expected(m, names)[n] == m[n]
  {
  }

  // ---------------------------------------------------------------------------
  // The loop meets the reference
  // ---------------------------------------------------------------------------

  /** The names of the columns of `days`: exactly their tokens. */
  function TokensOf(days: seq<Weekday>): (r: set<string>)
    ensures forall d :: Token(d) in r <==> d in days
    ensures forall n :: n in r ==> DayNamed(n).Some?
    decreases |days|
  {
    if |days| == 0 then {}
    else
      var rest := TokensOf(days[1..]);
      assert forall d :: d in days <==> d == days[0] || d in days[1..];
      {Token(days[0])} + rest
  }

  /** The content of `m` with every weekday of `days` set to `cells`. */
  function WithDays(m: map<string, seq<Cell>>, days: seq<Weekday>, cells: seq<Cell>): map<string, seq<Cell>> {
    m + map n | n in TokensOf(days) :: cells
  }

  lemma {:induction false} AssignDaysView(t: Table, days: seq<Weekday>, cells: seq<Cell>)
    requires WellFormed(t) && |cells| == t.records
    ensures WellFormed(AssignDays(t, days, cells))
    ensures View(AssignDays(t, days, cells)) == WithDays(View(t), days, cells)
    decreases |days|
  {
    if |days| > 0 {
      var next := Assign(t, Token(days[0]), cells);
      AssignView(t, Token(days[0]), cells);
      AssignDaysView(next, days[1..], cells);
      WithDaysStep(View(t), days, cells);
    }
  }

  /** Setting the first day, then the others, sets them all. */
  lemma WithDaysStep(m: map<string, seq<Cell>>, days: seq<Weekday>, cells: seq<Cell>)
    requires |days| > 0
    ensures WithDays(m[Token(days[0]) := cells], days[1..], cells) == WithDays(m, days, cells)
  {
    var first, all, others := Token(days[0]), TokensOf(days), TokensOf(days[1..]);
    assert all == {first} + others;
    var lhs, rhs := WithDays(m[first := cells], days[1..], cells), WithDays(m, days, cells);
    forall n
      ensures n in lhs <==> n in rhs
      ensures n in lhs ==> lhs[n] == rhs[n]
    {
      if n in others {
        assert n in all;
      } else if n != first {
        assert n !in all;
      }
    }
    assert lhs == rhs;
  }

  /** One turn of the loop, seen on the content. */
  lemma ExpandColumnView(t: Table, name: string)
    requires WellFormed(t) && (IsRange(name) ==> HasColumn(t, name))
    ensures WellFormed(ExpandColumn(t, name))
    ensures IsRange(name) ==>
      View(ExpandColumn(t, name)) == WithDays(View(t), Span(name), View(t)[name]) - {name}
    ensures !IsRange(name) ==> ExpandColumn(t, name) == t
  {
    if IsRange(name) {
      var cells := Get(t, name);
      assert cells == View(t)[name];
      var k := IndexOf(Names(t), name);
      assert |cells| == t.records;
      AssignDaysView(t, Span(name), cells);
      DropView(AssignDays(t, Span(name), cells), name);
    }
  }

  /** A range column's name is never a weekday token. */
  lemma RangeIsNoToken(name: string)
    requires IsRange(name)
    ensures DayNamed(name).None?
  {
    if DayNamed(name).Some? {
      TokenIsNotRange(DayNamed(name).value);
    }
  }

  /** The content after visiting column `name`. */
  function Visit(m: map<string, seq<Cell>>, name: string): map<string, seq<Cell>>
    requires IsRange(name) ==> name in m
  {
    if IsRange(name) then WithDays(m, Span(name), m[name]) - {name} else m
  }

  /** `Visit` read name by name. */
  lemma VisitAt(m: map<string, seq<Cell>>, name: string, n: string)
    requires IsRange(name) && name in m
    ensures n in Visit(m, name) <==> (n in m || n in TokensOf(Span(name))) && n != name
    ensures n in Visit(m, name) ==>
      Visit(m, name)[n] == if n in TokensOf(Span(name)) then m[name] else m[n]
  {
  }

  /** Visiting one more column keeps the reference description unchanged at a
      weekday token. */
  lemma ExpectedStepAtToken(m: map<string, seq<Cell>>, names: seq<string>, d: Weekday)
    requires |names| > 0 && names[0] !in names[1..]
    requires forall n :: n in names && IsRange(n) ==> n in m
    requires forall n :: n in names[1..] && IsRange(n) ==> n in Visit(m, names[0])
    ensures Token(d) in Expected(Visit(m, names[0]), names[1..]) <==> Token(d) in Expected(m, names)
    ensures Token(d) in Expected(m, names) ==>
      Expected(Visit(m, names[0]), names[1..])[Token(d)] == Expected(m, names)[Token(d)]
  {
    var name, rest, n := names[0], names[1..], Token(d);
    var m' := Visit(m, name);
    TokenIsNotRange(d);
    var w := LastWriter(rest, d);
    if w.Some? {
      WrittenLaterStep(m, names, d);
    } else if Writes(name, d) {
      WrittenHereStep(m, names, d);
    } else {
      assert LastWriter(names, d).None?;
      ExpectedAtUnwritten(m', rest, n);
      ExpectedAtUnwritten(m, names, n);
      if IsRange(name) {
        RangeIsNoToken(name);
        VisitAt(m, name, n);
        assert n !in TokensOf(Span(name));
      }
    }
  }

  lemma WrittenLaterStep(m: map<string, seq<Cell>>, names: seq<string>, d: Weekday)
    requires |names| > 0 && names[0] !in names[1..]
    requires forall n :: n in names && IsRange(n) ==> n in m
    requires forall n :: n in names[1..] && IsRange(n) ==> n in Visit(m, names[0])
    requires LastWriter(names[1..], d).Some?
    ensures Token(d) in Expected(Visit(m, names[0]), names[1..]) && Token(d) in Expected(m, names)
    ensures Expected(Visit(m, names[0]), names[1..])[Token(d)] == Expected(m, names)[Token(d)]
  {
    var name, rest := names[0], names[1..];
    var m' := Visit(m, name);
    var c := LastWriter(rest, d).value;
    assert c in rest && IsRange(c);
    assert c != name;
    assert LastWriter(names, d) == Some(c);
    ExpectedAtWritten(m', rest, d);
    ExpectedAtWritten(m, names, d);
    if IsRange(name) {
      RangeIsNoToken(c);
      assert c !in TokensOf(Span(name));
      VisitAt(m, name, c);
    }
  }

  lemma WrittenHereStep(m: map<string, seq<Cell>>, names: seq<string>, d: Weekday)
    requires |names| > 0 && names[0] !in names[1..]
    requires forall n :: n in names && IsRange(n) ==> n in m
    requires forall n :: n in names[1..] && IsRange(n) ==> n in Visit(m, names[0])
    requires LastWriter(names[1..], d).None? && Writes(names[0], d)
    ensures Token(d) in Expected(Visit(m, names[0]), names[1..]) && Token(d) in Expected(m, names)
    ensures Expected(Visit(m, names[0]), names[1..])[Token(d)] == Expected(m, names)[Token(d)]
  {
    var name, rest, n := names[0], names[1..], Token(d);
    var m' := Visit(m, name);
    assert LastWriter(names, d) == Some(name);
    TokenIsNotRange(d);
    ExpectedAtUnwritten(m', rest, n);
    ExpectedAtWritten(m, names, d);
    assert n in TokensOf(Span(name));
    RangeIsNoToken(name);
    VisitAt(m, name, n);
  }

  /** Visiting one more column keeps the reference description unchanged at a
      name that is no weekday token. */
  lemma ExpectedStepAtOther(m: map<string, seq<Cell>>, names: seq<string>, n: string)
    requires |names| > 0 && names[0] !in names[1..] && DayNamed(n).None?
    requires forall n :: n in names && IsRange(n) ==> n in m
    requires forall n :: n in names[1..] && IsRange(n) ==> n in Visit(m, names[0])
    ensures n in Expected(Visit(m, names[0]), names[1..]) <==> n in Expected(m, names)
    ensures n in Expected(m, names) ==>
      Expected(Visit(m, names[0]), names[1..])[n] == Expected(m, names)[n]
  {
    var name, rest := names[0], names[1..];
    var m' := Visit(m, name);
    ExpectedAtUnwritten(m', rest, n);
    ExpectedAtUnwritten(m, names, n);
    assert n in names <==> n == name || n in rest;
    if IsRange(name) {
      VisitAt(m, name, n);
      assert n in m' <==> n in m && n != name;
      assert n in m' ==> m'[n] == m[n];
    } else {
      assert m' == m;
    }
  }

  /** Visiting one more column keeps the reference description unchanged. */
  lemma ExpectedStep(m: map<string, seq<Cell>>, names: seq<string>)
    requires |names| > 0 && Distinct(names)
    requires forall n :: n in names && IsRange(n) ==> n in m
    ensures forall n :: n in names[1..] && IsRange(n) ==> n in Visit(m, names[0])
    ensures Expected(Visit(m, names[0]), names[1..]) == Expected(m, names)
  {
    var name, rest := names[0], names[1..];
    assert name !in rest;
    forall n | n in rest && IsRange(n)
      ensures n in Visit(m, name)
    {
      if IsRange(name) {
        RangeIsNoToken(n);
        assert n !in TokensOf(Span(name));
      }
    }
    var lhs, rhs := Expected(Visit(m, name), rest), Expected(m, names);
    forall n | n in lhs || n in rhs
      ensures n in lhs && n in rhs && lhs[n] == rhs[n]
    {
      var day := DayNamed(n);
      DayNamedToken(n);
      if day.Some? {
        ExpectedStepAtToken(m, names, day.value);
      } else {
        ExpectedStepAtOther(m, names, n);
      }
    }
  }

  /** The loop from any point on meets the reference description. */
  lemma {:induction false} ExpandEachMeetsExpected(t: Table, pending: seq<string>)
    requires WellFormed(t) && Distinct(pending)
    requires forall n :: n in pending && IsRange(n) ==> HasColumn(t, n)
    ensures WellFormed(ExpandEach(t, pending))
    ensures forall n :: n in pending && IsRange(n) ==> n in View(t)
    ensures View(ExpandEach(t, pending)) == Expected(View(t), pending)
    decreases |pending|
  {
    forall n | n in pending && IsRange(n)
      ensures n in View(t)
    {
    }
    if |pending| == 0 {
      assert Expected(View(t), pending) == View(t);
    } else {
      var next := ExpandColumn(t, pending[0]);
      ExpandColumnView(t, pending[0]);
      assert forall n :: n in pending[1..] ==> n != pending[0];
      ExpectedStep(View(t), pending);
      ExpandEachMeetsExpected(next, pending[1..]);
    }
  }

  /** `parse_df_dates` produces exactly the reference content: range columns
      gone, every weekday of every span present, the last writer winning. */
  lemma ParseDatesMeetsExpected(t: Table)
    requires WellFormed(t)
    ensures WellFormed(ParseDates(t))
    ensures forall n :: n in Names(t) && IsRange(n) ==> n in View(t)
    ensures View(ParseDates(t)) == Expected(View(t), Names(t))
  {
    assert forall n :: n in Names(t) ==> HasColumn(t, n);
    ExpandEachMeetsExpected(t, Names(t));
  }

  /** The loop leaves a frame alone when none of the names it visits is a
      range column. */
  lemma {:induction false} ExpandEachWithoutRanges(t: Table, pending: seq<string>)
    requires Distinct(pending)
    requires forall n :: n in pending ==> !IsRange(n)
    ensures ExpandEach(t, pending) == t
    decreases |pending|
  {
    if |pending| > 0 {
      assert pending[0] in pending;
      assert forall n :: n in pending[1..] ==> n in pending;
      ExpandEachWithoutRanges(t, pending[1..]);
    }
  }

  /** `parse_df_dates` leaves a frame without range columns alone. */
  lemma ParseDatesWithoutRanges(t: Table)
    requires WellFormed(t)
    requires forall n :: n in Names(t) ==> !IsRange(n)
    ensures ParseDates(t) == t
  {
    ExpandEachWithoutRanges(t, Names(t));
  }

  // ---------------------------------------------------------------------------
  // Consequences for single columns
  // ---------------------------------------------------------------------------

  /** A range column is gone after `parse_df_dates`, every weekday of its span
      is a column, and that column holds the cells of the last range column
      writing the weekday: the range column's own cells unless a later range
      column overlaps it. */
  lemma RangeColumnExpanded(t: Table, c: string)
    requires WellFormed(t) && HasColumn(t, c) && IsRange(c)
    ensures !HasColumn(ParseDates(t), c)
    ensures forall d :: d in Span(c) ==> HasColumn(ParseDates(t), Token(d))
    ensures forall d :: d in Span(c) && LastWriter(Names(t), d) == Some(c) ==>
      Get(ParseDates(t), Token(d)) == Get(t, c)
  {
    ParseDatesMeetsExpected(t);
    var m := View(t);
    RangeIsNoToken(c);
    ExpectedAtUnwritten(m, Names(t), c);
    forall d | d in Span(c)
      ensures HasColumn(ParseDates(t), Token(d))
      ensures LastWriter(Names(t), d) == Some(c) ==> Get(ParseDates(t), Token(d)) == Get(t, c)
    {
      assert Writes(c, d);
      ExpectedAtWritten(m, Names(t), d);
    }
  }

  /** A column with zero or one weekday token is never removed; its cells
      change only when it is a weekday some range column writes, and then the
      last such range column's cells win. */
  lemma OtherColumnKept(t: Table, n: string)
    requires WellFormed(t) && HasColumn(t, n) && !IsRange(n)
    ensures HasColumn(ParseDates(t), n)
    ensures DayNamed(n).None? || LastWriter(Names(t), DayNamed(n).value).None? ==>
      Get(ParseDates(t), n) == Get(t, n)
    ensures DayNamed(n).Some? && LastWriter(Names(t), DayNamed(n).value).Some? ==>
      Get(ParseDates(t), n) == Get(t, LastWriter(Names(t), DayNamed(n).value).value)
  {
    ParseDatesMeetsExpected(t);
    var m := View(t);
    var day := DayNamed(n);
    DayNamedToken(n);
    if day.Some? && LastWriter(Names(t), day.value).Some? {
      ExpectedAtWritten(m, Names(t), day.value);
    } else {
      ExpectedAtUnwritten(m, Names(t), n);
    }
  }

  /** After `parse_df_dates` no range column is left, and every column either
      was in the input or is a weekday some range column of the input writes. */
  lemma NoRangeColumnLeft(t: Table, n: string)
    requires WellFormed(t) && HasColumn(ParseDates(t), n)
    ensures !IsRange(n)
    ensures HasColumn(t, n) || (DayNamed(n).Some? && exists c :: c in Names(t) && Writes(c, DayNamed(n).value))
  {
    ParseDatesMeetsExpected(t);
    var m := View(t);
    var day := DayNamed(n);
    DayNamedToken(n);
    if day.Some? && LastWriter(Names(t), day.value).Some? {
      TokenIsNotRange(day.value);
    } else {
      ExpectedAtUnwritten(m, Names(t), n);
    }
  }
}
