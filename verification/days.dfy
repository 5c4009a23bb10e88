/** The class constant `weekdays` and the range heuristic built on it: which
    weekday tokens a column name contains, whether it is a range column, and
    the canonical span of weekdays a range column stands for. */
module Days {
  import opened Results
  import opened Strings

  datatype Weekday = Mon | Tue | Wed | Thu | Fri

  /** The weekdays in canonical order; the order drives range slicing. */
  const Week: seq<Weekday> := [Mon, Tue, Wed, Thu, Fri]

  /** The days whose description number is the square of the value. */
  const SquareDays: seq<Weekday> := [Mon, Tue, Wed]

  /** The column-name token of a weekday. */
  function Token(d: Weekday): (name: string)
    ensures DayNamed(name) == Some(d)
  {
    match d
    case Mon => "mon"
    case Tue => "tue"
    case Wed => "wed"
    case Thu => "thu"
    case Fri => "fri"
  }

  /** The position of a weekday in `Week`. */
  function Position(d: Weekday): (i: nat)
    ensures i < |Week| && Week[i] == d
  {
    match d
    case Mon => 0
    case Tue => 1
    case Wed => 2
    case Thu => 3
    case Fri => 4
  }

  /** The weekday whose token is exactly `name`, if there is one. */
  function DayNamed(name: string): (r: Option<Weekday>)
    ensures r.Some? <==> name in {"mon", "tue", "wed", "thu", "fri"}
  {
    if name == "mon" then Some(Mon)
    else if name == "tue" then Some(Tue)
    else if name == "wed" then Some(Wed)
    else if name == "thu" then Some(Thu)
    else if name == "fri" then Some(Fri)
    else None
  }

  /** `DayNamed` reads back exactly the tokens. */
  lemma DayNamedToken(name: string)
    ensures DayNamed(name).Some? ==> Token(DayNamed(name).value) == name
    ensures DayNamed(name).None? ==> forall d :: Token(d) != name
  {
  }

  lemma TokenInjective(d: Weekday, e: Weekday)
    requires Token(d) == Token(e)
    ensures d == e
  {
  }

  // ---------------------------------------------------------------------------
  // Which tokens a column name contains
  // ---------------------------------------------------------------------------

  /** For each weekday in canonical order, whether its token occurs in `name`. */
  function Matches(name: string): (flags: seq<bool>)
    ensures |flags| == |Week|
  {
    seq(|Week|, i requires 0 <= i < |Week| => Contains(name, Token(Week[i])))
  }

  function CountTrue(flags: seq<bool>): nat {
    if |flags| == 0 then 0 else (if flags[0] then 1 else 0) + CountTrue(flags[1..])
  }

  /** A column whose name contains more than one weekday token. */
  predicate IsRange(name: string) {
    CountTrue(Matches(name)) > 1
  }

  /** `list.index(True)`: the first position holding true. */
  function FirstTrue(flags: seq<bool>): (i: nat)
    requires true in flags
    ensures i < |flags| && flags[i]
    ensures forall j :: 0 <= j < i ==> !flags[j]
  {
    if flags[0] then 0 else 1 + FirstTrue(flags[1..])
  }

  /** `s[::-1]`. */
  function Reverse<T>(s: seq<T>): seq<T> {
    seq(|s|, i requires 0 <= i < |s| => s[|s| - 1 - i])
  }

  /** The exclusive end of the slice: `len(flags) - flags[::-1].index(True)`. */
  function SliceEnd(flags: seq<bool>): int
    requires true in flags
  {
    var rev := Reverse(flags);
    assert rev[|flags| - 1 - FirstTrue(flags)] == flags[FirstTrue(flags)];
    |flags| - FirstTrue(rev)
  }

  /** If only position `p` can hold true, at most one position does. */
  lemma {:induction false} CountTrueAtMostOne(flags: seq<bool>, p: int)
    requires forall j :: 0 <= j < |flags| && flags[j] ==> j == p
    ensures CountTrue(flags) <= 1
    decreases |flags|
  {
    if |flags| > 0 {
      if flags[0] {
        forall j | 0 <= j < |flags[1..]|
          ensures !flags[1..][j]
        {
          assert flags[j + 1] ==> j + 1 == p;
        }
        CountTrueZero(flags[1..]);
      } else {
        CountTrueAtMostOne(flags[1..], p - 1);
      }
    }
  }

  lemma {:induction false} CountTrueZero(flags: seq<bool>)
    requires forall j :: 0 <= j < |flags| ==> !flags[j]
    ensures CountTrue(flags) == 0
    decreases |flags|
  {
    if |flags| > 0 {
      CountTrueZero(flags[1..]);
    }
  }

  lemma {:induction false} CountTruePositive(flags: seq<bool>)
    requires CountTrue(flags) > 0
    ensures true in flags
    decreases |flags|
  {
    if !flags[0] {
      CountTruePositive(flags[1..]);
    }
  }

  /** `SliceEnd` is one past the last position holding true. */
  lemma SliceEndIsPastLastTrue(flags: seq<bool>)
    requires true in flags
    ensures 0 < SliceEnd(flags) <= |flags| && flags[SliceEnd(flags) - 1]
    ensures forall j :: SliceEnd(flags) <= j < |flags| ==> !flags[j]
  {
    var rev := Reverse(flags);
    assert rev[|flags| - 1 - FirstTrue(flags)] == flags[FirstTrue(flags)];
    var k := FirstTrue(rev);
    assert flags[|flags| - 1 - k] == rev[k];
    forall j | |flags| - k <= j < |flags|
      ensures !flags[j]
    {
      assert rev[|flags| - 1 - j] == flags[j];
    }
  }

  /** The slice `[first, end)` taken for a range column: the first and the last
      true position both lie in it, they are distinct, and nothing true lies
      outside it. */
  lemma SliceBounds(flags: seq<bool>)
    requires CountTrue(flags) > 1
    ensures true in flags
    ensures 0 <= FirstTrue(flags) < SliceEnd(flags) - 1 < |flags|
    ensures flags[FirstTrue(flags)] && flags[SliceEnd(flags) - 1]
    ensures forall j :: 0 <= j < |flags| && flags[j] ==> FirstTrue(flags) <= j < SliceEnd(flags)
  {
    CountTruePositive(flags);
    SliceEndIsPastLastTrue(flags);
    var first, last := FirstTrue(flags), SliceEnd(flags) - 1;
    if first == last {
      CountTrueAtMostOne(flags, last);
    }
  }

  /** `weekdays[first:end]` for a range column: the contiguous canonical span
      from the first matched weekday to the last, inclusive. */
  function Span(name: string): (days: seq<Weekday>)
    requires IsRange(name)
  {
    var flags := Matches(name);
    SliceBounds(flags);
    Week[FirstTrue(flags)..SliceEnd(flags)]
  }

  /** Each weekday occurs in `Week` exactly at its position. */
  lemma PositionOfWeek(i: int)
    requires 0 <= i < |Week|
    ensures Position(Week[i]) == i
  {
  }

  /** A weekday lies in a slice of `Week` exactly when its position does. */
  lemma InWeekSlice(lo: int, hi: int, d: Weekday)
    requires 0 <= lo <= hi <= |Week|
    ensures d in Week[lo..hi] <==> lo <= Position(d) < hi
  {
    if d in Week[lo..hi] {
      var k :| 0 <= k < hi - lo && Week[lo..hi][k] == d;
      PositionOfWeek(lo + k);
    }
    if lo <= Position(d) < hi {
      assert Week[lo..hi][Position(d) - lo] == d;
    }
  }

  /** A span lists its weekdays in strictly increasing canonical order, so
      no weekday occurs in it twice. */
  lemma SpanOrdered(name: string)
    requires IsRange(name)
    ensures forall i, j :: 0 <= i < j < |Span(name)| ==> Position(Span(name)[i]) < Position(Span(name)[j])
    ensures forall i, j :: 0 <= i < j < |Span(name)| ==> Span(name)[i] != Span(name)[j]
  {
    var flags := Matches(name);
    SliceBounds(flags);
    var lo := FirstTrue(flags);
    forall i | 0 <= i < |Span(name)|
      ensures Position(Span(name)[i]) == lo + i
    {
      PositionOfWeek(lo + i);
    }
  }

  /** A weekday belongs to the span of a range column exactly when some matched
      token lies at or before it and some matched token lies at or after it. */
  lemma SpanMembership(name: string, d: Weekday)
    requires IsRange(name)
    ensures d in Span(name) <==>
      exists i, j :: 0 <= i <= Position(d) <= j < |Week| && Matches(name)[i] && Matches(name)[j]
  {
    var flags := Matches(name);
    SliceBounds(flags);
    var lo, hi := FirstTrue(flags), SliceEnd(flags);
    InWeekSlice(lo, hi, d);
    if lo <= Position(d) < hi {
      assert 0 <= lo <= Position(d) <= hi - 1 < |Week| && flags[lo] && flags[hi - 1];
    }
  }

  /** Every weekday whose token a range column's name contains is in its span,
      and the span holds at least two weekdays. */
  lemma SpanCoversMatches(name: string)
    requires IsRange(name)
    ensures |Span(name)| >= 2
    ensures forall d :: Contains(name, Token(d)) ==> d in Span(name)
  {
    SliceBounds(Matches(name));
    forall d | Contains(name, Token(d))
      ensures d in Span(name)
    {
      assert Matches(name)[Position(d)];
      SpanMembership(name, d);
    }
  }

  /** A weekday token contains exactly one weekday token: its own. */
  lemma TokenContainsOnlyItself(d: Weekday, e: Weekday)
    ensures Contains(Token(d), Token(e)) <==> d == e
  {
    match d
    case Mon => assert Contains("mon", "mon") && !Contains("mon", "tue") && !Contains("mon", "wed") && !Contains("mon", "thu") && !Contains("mon", "fri");
    case Tue => assert !Contains("tue", "mon") && Contains("tue", "tue") && !Contains("tue", "wed") && !Contains("tue", "thu") && !Contains("tue", "fri");
    case Wed => assert !Contains("wed", "mon") && !Contains("wed", "tue") && Contains("wed", "wed") && !Contains("wed", "thu") && !Contains("wed", "fri");
    case Thu => assert !Contains("thu", "mon") && !Contains("thu", "tue") && !Contains("thu", "wed") && Contains("thu", "thu") && !Contains("thu", "fri");
    case Fri => assert !Contains("fri", "mon") && !Contains("fri", "tue") && !Contains("fri", "wed") && !Contains("fri", "thu") && Contains("fri", "fri");
  }

  /** A single-day column is never a range column. */
  lemma TokenIsNotRange(d: Weekday)
    ensures CountTrue(Matches(Token(d))) == 1
    ensures !IsRange(Token(d))
  {
    var flags := Matches(Token(d));
    forall j | 0 <= j < |flags| && flags[j]
      ensures j == Position(d)
    {
      TokenContainsOnlyItself(d, Week[j]);
      PositionOfWeek(j);
    }
    CountTrueAtMostOne(flags, Position(d));
    TokenContainsOnlyItself(d, d);
    assert flags[Position(d)];
    if CountTrue(flags) == 0 {
      CountTrueZeroHasNoTrue(flags);
    }
  }

  lemma {:induction false} CountTrueZeroHasNoTrue(flags: seq<bool>)
    requires CountTrue(flags) == 0
    ensures true !in flags
    decreases |flags|
  {
    if |flags| > 0 {
      CountTrueZeroHasNoTrue(flags[1..]);
    }
  }

  /** `Matches` spelled out token by token. */
  lemma MatchesSpelledOut(name: string)
    ensures Matches(name) == [Contains(name, "mon"), Contains(name, "tue"),
                              Contains(name, "wed"), Contains(name, "thu"), Contains(name, "fri")]
  {
  }

  /** A name holding no weekday token is neither a weekday nor a range. */
  lemma NoTokenNoRange(name: string)
    requires !Contains(name, "mon") && !Contains(name, "tue") && !Contains(name, "wed")
    requires !Contains(name, "thu") && !Contains(name, "fri")
    ensures DayNamed(name).None? && !IsRange(name)
  {
    MatchesSpelledOut(name);
    CountTrueZero(Matches(name));
    forall d: Weekday
      ensures name != Token(d)
    {
      TokenContainsOnlyItself(d, d);
    }
  }

  /** A range column's name is no weekday's token. */
  lemma RangeIsNotToken(r: string, d: Weekday)
    requires IsRange(r)
    ensures r != Token(d)
  {
    TokenIsNotRange(d);
  }

  /** `mon-thu` expands to the whole span from Monday to Thursday, including
      the two days its name does not mention. */
  lemma SpanMonThu()
    ensures IsRange("mon-thu") && Span("mon-thu") == [Mon, Tue, Wed, Thu]
  {
    assert Contains("mon-thu", "mon") && !Contains("mon-thu", "tue") && !Contains("mon-thu", "wed");
    assert Contains("mon-thu", "thu") && !Contains("mon-thu", "fri");
    MatchesSpelledOut("mon-thu");
  }

  /** `montuewed` (no separators) expands to Monday, Tuesday and Wednesday. */
  lemma SpanMonTueWed()
    ensures IsRange("montuewed") && Span("montuewed") == [Mon, Tue, Wed]
  {
    ContainsAt("montuewed", "mon", 0);
    ContainsAt("montuewed", "tue", 3);
    ContainsAt("montuewed", "wed", 6);
    MissingCharacter("montuewed", "thu", 1);
    MissingCharacter("montuewed", "fri", 0);
    MatchesSpelledOut("montuewed");
  }

  /** `mon-tue` and `montue` (with and without a separator) both expand to
      Monday and Tuesday. */
  lemma SpanMonTue()
    ensures IsRange("mon-tue") && Span("mon-tue") == [Mon, Tue]
    ensures IsRange("montue") && Span("montue") == [Mon, Tue]
  {
    ContainsAt("mon-tue", "mon", 0);
    ContainsAt("mon-tue", "tue", 4);
    NoLaterThanTuesday("mon-tue");
    MondayTuesdayOnly("mon-tue");
    ContainsAt("montue", "mon", 0);
    ContainsAt("montue", "tue", 3);
    NoLaterThanTuesday("montue");
    MondayTuesdayOnly("montue");
  }

  /** A name without `w`, `h` or `f` holds no token of Wednesday to Friday. */
  lemma NoLaterThanTuesday(name: string)
    requires 'w' !in name && 'h' !in name && 'f' !in name
    ensures !Contains(name, "wed") && !Contains(name, "thu") && !Contains(name, "fri")
  {
    MissingCharacter(name, "wed", 0);
    MissingCharacter(name, "thu", 1);
    MissingCharacter(name, "fri", 0);
  }

  /** A name holding the tokens of Monday and Tuesday and of no later day
      expands to those two days. */
  lemma MondayTuesdayOnly(name: string)
    requires Contains(name, "mon") && Contains(name, "tue") && !Contains(name, "wed")
    requires !Contains(name, "thu") && !Contains(name, "fri")
    ensures IsRange(name) && Span(name) == [Mon, Tue]
  {
    var flags := Matches(name);
    MatchesSpelledOut(name);
    assert flags == [true, true, false, false, false];
    assert FirstTrue(flags) == 0;
    var rev := Reverse(flags);
    assert rev == [false, false, false, true, true];
    assert rev[3] && !rev[0] && !rev[1] && !rev[2];
    assert FirstTrue(rev) == 3;
    assert SliceEnd(flags) == 2;
  }

  lemma SpanThuFri()
    ensures IsRange("thu-fri") && Span("thu-fri") == [Thu, Fri]
  {
    MissingCharacter("thu-fri", "mon", 0);
    MissingCharacter("thu-fri", "tue", 2);
    MissingCharacter("thu-fri", "wed", 0);
    ContainsAt("thu-fri", "thu", 0);
    ContainsAt("thu-fri", "fri", 4);
    MatchesSpelledOut("thu-fri");
  }

  /** A name without `mon` that misses one letter of each other day's token
      names no day and no range; `jt` .. `jf` pick the missing letters. */
  lemma NoDayLettersButMonday(name: string, jt: int, jw: int, jh: int, jf: int)
    requires !Contains(name, "mon")
    requires 0 <= jt < 3 && "tue"[jt] !in name
    requires 0 <= jw < 3 && "wed"[jw] !in name
    requires 0 <= jh < 3 && "thu"[jh] !in name
    requires 0 <= jf < 3 && "fri"[jf] !in name
    ensures DayNamed(name).None? && !IsRange(name)
  {
    MissingCharacter(name, "tue", jt);
    MissingCharacter(name, "wed", jw);
    MissingCharacter(name, "thu", jh);
    MissingCharacter(name, "fri", jf);
    NoTokenNoRange(name);
  }

  /** As above, with a missing letter for `mon` too. */
  lemma NoDayLetters(name: string, jm: int, jt: int, jw: int, jh: int, jf: int)
    requires 0 <= jm < 3 && "mon"[jm] !in name
    requires 0 <= jt < 3 && "tue"[jt] !in name
    requires 0 <= jw < 3 && "wed"[jw] !in name
    requires 0 <= jh < 3 && "thu"[jh] !in name
    requires 0 <= jf < 3 && "fri"[jf] !in name
    ensures DayNamed(name).None? && !IsRange(name)
  {
    MissingCharacter(name, "mon", jm);
    NoDayLettersButMonday(name, jt, jw, jh, jf);
  }
}
