/** Stage three of `process_output`: `_parse_df_values`, which unpivots the
    weekday columns into one row per (record, weekday), joins each row back to
    its record's description by row index, and derives `square`, `double`,
    `is_square` and the numbered description. */
module Reshaper {
  import opened Results
  import opened Strings
  import opened Days
  import opened Tables

  /** Why the stage fails: the frame has no `description` column (a key
      error), or a produced row's description is not text (string
      concatenation with a number). */
  datatype Error = MissingDescription | DescriptionNotText(record: nat)

  /** The column of a weekday holds only integers. */
  predicate NumericCells(cells: seq<Cell>) {
    forall i :: 0 <= i < |cells| ==> cells[i].Num?
  }

  /** Every weekday column of the frame holds only integers. */
  predicate NumericDays(t: Table) {
    forall d: Weekday :: HasColumn(t, Token(d)) ==> NumericCells(Get(t, Token(d)))
  }

  // ---------------------------------------------------------------------------
  // The present weekdays
  // ---------------------------------------------------------------------------

  /** `[day for day in weekdays if day in df.columns]`, from position `p` of
      the canonical order on. */
  function PresentFrom(t: Table, p: nat): (days: seq<Weekday>)
    ensures forall d :: d in days <==> p <= Position(d) && HasColumn(t, Token(d))
    ensures forall i, j :: 0 <= i < j < |days| ==> Position(days[i]) < Position(days[j])
    decreases |Week| - p
  {
    if p >= |Week| then []
    else
      var rest := PresentFrom(t, p + 1);
      if HasColumn(t, Token(Week[p])) then [Week[p]] + rest else rest
  }

  /** The weekday columns of the frame, in canonical order: exactly the
      weekdays that have a column, each once. */
  function PresentDays(t: Table): (days: seq<Weekday>)
    ensures forall d :: d in days <==> HasColumn(t, Token(d))
    ensures forall i, j :: 0 <= i < j < |days| ==> Position(days[i]) < Position(days[j])
  {
    PresentFrom(t, 0)
  }

  // ---------------------------------------------------------------------------
  // `stack()`: one entry per record and weekday, record-major
  // ---------------------------------------------------------------------------

  /** One stacked cell: the record it came from, its weekday and its value. */
  datatype Entry = Entry(record: nat, day: Weekday, value: int)

  /** The frame's well-formed, all given days have integer columns. */
  predicate Stackable(t: Table, days: seq<Weekday>) {
    && WellFormed(t)
    && NumericDays(t)
    && forall k :: 0 <= k < |days| ==> HasColumn(t, Token(days[k]))
  }

  /** The integer in column `d` of record `i`. */
  function Value(t: Table, d: Weekday, i: nat): int
    requires WellFormed(t) && NumericDays(t) && HasColumn(t, Token(d)) && i < t.records
  {
    GetLength(t, Token(d));
    Get(t, Token(d))[i].n
  }

  /** The entries of record `i`, one per day in the order of `days`. */
  function StackRecord(t: Table, days: seq<Weekday>, i: nat): (es: seq<Entry>)
    requires Stackable(t, days) && i < t.records
    ensures |es| == |days|
    ensures forall k :: 0 <= k < |days| ==> es[k] == Entry(i, days[k], Value(t, days[k], i))
  {
    seq(|days|, k requires 0 <= k < |days| => Entry(i, days[k], Value(t, days[k], i)))
  }

  /** The stacked series from record `from` on: each record's entries in
      turn. */
  function Stack(t: Table, days: seq<Weekday>, from: nat): seq<Entry>
    requires Stackable(t, days)
    decreases t.records - from
  {
    if from >= t.records then [] else StackRecord(t, days, from) + Stack(t, days, from + 1)
  }

  // ---------------------------------------------------------------------------
  // `reset_index` and the inner merge on `index`
  // ---------------------------------------------------------------------------

  /** A record of the frame without its weekday columns: its row index and
      its description cell (the other columns are dropped by the final
      projection). */
  datatype MetaRow = MetaRow(index: nat, description: Cell)

  /** The rows of the frame without its weekdays from record `from` on. */
  function MetaFrom(descriptions: seq<Cell>, from: nat): seq<MetaRow>
    decreases |descriptions| - from
  {
    if from >= |descriptions| then [] else [MetaRow(from, descriptions[from])] + MetaFrom(descriptions, from + 1)
  }

  /** A stacked entry joined to its record's description. */
  datatype Joined = Joined(description: Cell, entry: Entry)

  /** The entries of `right` whose record is the index of `l`, in their order,
      joined to `l`. */
  function JoinOne(l: MetaRow, right: seq<Entry>): seq<Joined> {
    if |right| == 0 then []
    else (if right[0].record == l.index then [Joined(l.description, right[0])] else []) + JoinOne(l, right[1..])
  }

  /** `pd.merge(left, right, on='index')`: an inner join that follows the
      order of the left rows, and for each the order of the right rows. */
  function Merge(left: seq<MetaRow>, right: seq<Entry>): seq<Joined> {
    if |left| == 0 then [] else JoinOne(left[0], right) + Merge(left[1..], right)
  }

  // ---------------------------------------------------------------------------
  // The derived columns
  // ---------------------------------------------------------------------------

  /** One row of the reshaped frame, with the columns of the final projection
      `['day', 'description', 'square', 'double', 'is_square', 'value']`. */
  datatype StackedRow = StackedRow(day: Weekday, description: string, square: int, double: int, isSquare: bool, value: int)

  /** The derived columns of one joined row. */
  function Derive(j: Joined): (r: Result<StackedRow, Error>)
    ensures r.Err? <==> j.description.Num?
    ensures r.Ok? ==> r.value.day == j.entry.day && r.value.value == j.entry.value
  {
    if j.description.Num? then Err(DescriptionNotText(j.entry.record))
    else
      var v := j.entry.value;
      var square, double := v * v, v * 2;
      var isSquare := j.entry.day in SquareDays;
      var number := if isSquare then square else double;
      Ok(StackedRow(j.entry.day, j.description.s + " " + IntToString(number), square, double, isSquare, v))
  }

  /** The derived columns of every joined row; the first row that fails
      decides the error. */
  function DeriveAll(js: seq<Joined>): (r: Result<seq<StackedRow>, Error>)
    ensures r.Ok? <==> forall k :: 0 <= k < |js| ==> Derive(js[k]).Ok?
    ensures r.Ok? ==> |r.value| == |js| && forall k :: 0 <= k < |js| ==> r.value[k] == Derive(js[k]).value
    ensures r.Err? ==> exists k :: 0 <= k < |js| && Derive(js[k]) == Err(r.error) &&
                          forall i :: 0 <= i < k ==> Derive(js[i]).Ok?
  {
    if |js| == 0 then Ok([])
    else
      var first :- Derive(js[0]);
      var rest :- DeriveAll(js[1..]);
      assert forall k :: 1 <= k < |js| ==> js[k] == js[1..][k - 1];
      Ok([first] + rest)
  }

  /** The merged frame: the stacked weekday cells joined to the frame
      without its weekdays. */
  function Joins(t: Table): seq<Joined>
    requires WellFormed(t) && NumericDays(t) && HasColumn(t, "description")
  {
    Merge(MetaFrom(Get(t, "description"), 0), Stack(t, PresentDays(t), 0))
  }

  /** `_parse_df_values(df)`. */
  function ParseValues(t: Table): Result<seq<StackedRow>, Error>
    requires WellFormed(t) && NumericDays(t)
  {
    if !HasColumn(t, "description") then Err(MissingDescription) else DeriveAll(Joins(t))
  }

  // ---------------------------------------------------------------------------
  // The stacked series in closed form
  // ---------------------------------------------------------------------------

  /** Record `i`'s entries start at offset `(i - from) * m`, one record's
      worth further than in the series from `from + 1`. */
  lemma RecordOffset(i: int, from: int, m: int, k: int)
    requires from < i && 0 <= k < m
    ensures (i - from) * m + k == m + ((i - (from + 1)) * m + k)
  {
  }

  /** The series length grows by one record's worth per record. */
  lemma LengthStep(n: int, from: int, m: int)
    ensures (n - from) * m == m + (n - (from + 1)) * m
  {
  }

  /** The last record's last entry is the last entry of the series. */
  lemma OffsetBound(i: int, n: int, m: int, k: int)
    requires 0 <= i < n && 0 <= k < m
    ensures 0 <= i * m + k < n * m
  {
    assert i * m <= (n - 1) * m by {
      assert (n - 1) * m - i * m == (n - 1 - i) * m;
    }
  }

  /** The series from record `from` on holds `|days|` entries per record. */
  lemma {:induction false} StackLength(t: Table, days: seq<Weekday>, from: nat)
    requires Stackable(t, days) && from <= t.records
    ensures |Stack(t, days, from)| == (t.records - from) * |days|
    decreases t.records - from
  {
    if from < t.records {
      StackLength(t, days, from + 1);
      LengthStep(t.records, from, |days|);
    }
  }

  /** Record-major order: entry `off = (i - from) * |days| + k` of the
      series from record `from` on is record `i`'s cell on `days[k]`. */
  lemma {:induction false} StackAt(t: Table, days: seq<Weekday>, from: nat, i: nat, k: nat, off: int)
    requires Stackable(t, days) && from <= i < t.records && k < |days|
    requires off == (i - from) * |days| + k
    ensures 0 <= off < |Stack(t, days, from)|
    ensures Stack(t, days, from)[off] == Entry(i, days[k], Value(t, days[k], i))
    decreases t.records - from
  {
    var m := |days|;
    assert 0 <= off < |Stack(t, days, from)| by {
      StackLength(t, days, from);
      OffsetBound(i - from, t.records - from, m, k);
    }
    var head, rest := StackRecord(t, days, from), Stack(t, days, from + 1);
    assert Stack(t, days, from) == head + rest;
    assert |head| == m;
    if i == from {
      assert off == k;
      assert (head + rest)[off] == head[k];
    } else {
      var off' := off - m;
      assert off' == (i - (from + 1)) * m + k by {
        RecordOffset(i, from, m, k);
      }
      StackAt(t, days, from + 1, i, k, off');
      assert (head + rest)[off] == rest[off'];
    }
  }

  /** The whole series, in the terms of record numbers: `records * |days|`
      entries, entry `i * |days| + k` being record `i`'s cell on `days[k]`. */
  lemma StackFromStart(t: Table, days: seq<Weekday>, i: nat, k: nat, j: int)
    requires Stackable(t, days) && i < t.records && k < |days| && j == i * |days| + k
    ensures |Stack(t, days, 0)| == t.records * |days|
    ensures 0 <= j < |Stack(t, days, 0)|
    ensures Stack(t, days, 0)[j] == Entry(i, days[k], Value(t, days[k], i))
  {
    assert |Stack(t, days, 0)| == t.records * |days| by {
      StackLength(t, days, 0);
    }
    assert j == (i - 0) * |days| + k;
    StackAt(t, days, 0, i, k, j);
  }

  /** Every entry of the series from `from` on belongs to a record from
      `from` on. */
  lemma {:induction false} StackRecordsFrom(t: Table, days: seq<Weekday>, from: nat)
    requires Stackable(t, days)
    ensures forall k :: 0 <= k < |Stack(t, days, from)| ==> from <= Stack(t, days, from)[k].record < t.records
    decreases t.records - from
  {
    if from < t.records {
      StackRecordsFrom(t, days, from + 1);
    }
  }

  // ---------------------------------------------------------------------------
  // The merge on a stacked series
  // ---------------------------------------------------------------------------

  /** `es` with every entry joined to the description `c`. */
  function WithDescription(c: Cell, es: seq<Entry>): (js: seq<Joined>)
    ensures |js| == |es| && forall k :: 0 <= k < |es| ==> js[k] == Joined(c, es[k])
  {
    seq(|es|, k requires 0 <= k < |es| => Joined(c, es[k]))
  }

  /** `es` with every entry joined to its own record's description: what the
      merge on the row index is meant to produce. */
  function Annotated(descriptions: seq<Cell>, es: seq<Entry>): (js: seq<Joined>)
    requires forall k :: 0 <= k < |es| ==> es[k].record < |descriptions|
    ensures |js| == |es| && forall k :: 0 <= k < |es| ==> js[k] == Joined(descriptions[es[k].record], es[k])
  {
    seq(|es|, k requires 0 <= k < |es| => Joined(descriptions[es[k].record], es[k]))
  }

  lemma {:induction false} JoinOneAppend(l: MetaRow, a: seq<Entry>, b: seq<Entry>)
    ensures JoinOne(l, a + b) == JoinOne(l, a) + JoinOne(l, b)
  {
    if |a| == 0 {
      assert a + b == b;
    } else {
      assert (a + b)[1..] == a[1..] + b;
      JoinOneAppend(l, a[1..], b);
    }
  }

  /** Joining a row to entries of one record keeps all of them when the
      indices agree and none otherwise. */
  lemma {:induction false} JoinOneSameRecord(l: MetaRow, es: seq<Entry>, record: nat)
    requires forall k :: 0 <= k < |es| ==> es[k].record == record
    ensures JoinOne(l, es) == if l.index == record then WithDescription(l.description, es) else []
  {
    if |es| > 0 {
      JoinOneSameRecord(l, es[1..], record);
    }
  }

  /** Every entry of record `i` names record `i`. */
  lemma StackRecordOf(t: Table, days: seq<Weekday>, i: nat)
    requires Stackable(t, days) && i < t.records
    ensures forall k :: 0 <= k < |StackRecord(t, days, i)| ==> StackRecord(t, days, i)[k].record == i
  {
  }

  /** Joining a row to one record's entries followed by the later records'
      entries: the row keeps its own record's entries, whichever block they
      are in. */
  lemma JoinHeadRest(l: MetaRow, head: seq<Entry>, rest: seq<Entry>, from: nat, n: nat, own: seq<Entry>)
    requires from < n
    requires forall k :: 0 <= k < |head| ==> head[k].record == from
    requires l.index == from ==> own == head
    requires JoinOne(l, rest) == if from + 1 <= l.index < n then WithDescription(l.description, own) else []
    ensures JoinOne(l, head + rest) == if from <= l.index < n then WithDescription(l.description, own) else []
  {
    JoinOneAppend(l, head, rest);
    JoinOneSameRecord(l, head, from);
    if l.index == from {
      assert WithDescription(l.description, head) + [] == WithDescription(l.description, head);
    } else {
      assert [] + JoinOne(l, rest) == JoinOne(l, rest);
    }
  }

  /** Joining one row of the left side to the stacked series picks out exactly
      that record's entries. */
  lemma {:induction false} JoinOneStack(t: Table, days: seq<Weekday>, from: nat, l: MetaRow)
    requires Stackable(t, days)
    ensures JoinOne(l, Stack(t, days, from)) ==
      if from <= l.index < t.records then WithDescription(l.description, StackRecord(t, days, l.index)) else []
    decreases t.records - from
  {
    if from < t.records {
      var head, rest := StackRecord(t, days, from), Stack(t, days, from + 1);
      var own := if from <= l.index < t.records then StackRecord(t, days, l.index) else [];
      assert Stack(t, days, from) == head + rest;
      StackRecordOf(t, days, from);
      JoinOneStack(t, days, from + 1, l);
      JoinHeadRest(l, head, rest, from, t.records, own);
    }
  }

  lemma AnnotatedAppend(descriptions: seq<Cell>, a: seq<Entry>, b: seq<Entry>)
    requires forall k :: 0 <= k < |a| ==> a[k].record < |descriptions|
    requires forall k :: 0 <= k < |b| ==> b[k].record < |descriptions|
    ensures forall k :: 0 <= k < |a + b| ==> (a + b)[k].record < |descriptions|
    ensures Annotated(descriptions, a + b) == Annotated(descriptions, a) + Annotated(descriptions, b)
  {
  }

  /** The merge of the records from `from` on with the whole stacked series is
      the series from `from` on, each entry joined to its record's
      description. */
  lemma {:induction false} MergeStack(t: Table, days: seq<Weekday>, descriptions: seq<Cell>, from: nat)
    requires Stackable(t, days) && |descriptions| == t.records
    ensures forall k :: 0 <= k < |Stack(t, days, from)| ==> Stack(t, days, from)[k].record < |descriptions|
    ensures Merge(MetaFrom(descriptions, from), Stack(t, days, 0)) == Annotated(descriptions, Stack(t, days, from))
    decreases t.records - from
  {
    StackRecordsFrom(t, days, from);
    if from < t.records {
      var l := MetaRow(from, descriptions[from]);
      var head, rest, all := StackRecord(t, days, from), Stack(t, days, from + 1), Stack(t, days, 0);
      assert Stack(t, days, from) == head + rest;
      assert Merge(MetaFrom(descriptions, from), all) == JoinOne(l, all) + Merge(MetaFrom(descriptions, from + 1), all) by {
        assert MetaFrom(descriptions, from)[0] == l;
        assert MetaFrom(descriptions, from)[1..] == MetaFrom(descriptions, from + 1);
      }
      assert JoinOne(l, all) == Annotated(descriptions, head) by {
        JoinOneStack(t, days, 0, l);
      }
      assert Merge(MetaFrom(descriptions, from + 1), all) == Annotated(descriptions, rest) by {
        MergeStack(t, days, descriptions, from + 1);
      }
      StackRecordsFrom(t, days, from + 1);
      AnnotatedAppend(descriptions, head, rest);
    }
  }

  // ---------------------------------------------------------------------------
  // What `_parse_df_values` produces
  // ---------------------------------------------------------------------------

  /** The present weekdays can be stacked. */
  lemma {:induction false} PresentStackable(t: Table)
    requires WellFormed(t) && NumericDays(t)
    ensures Stackable(t, PresentDays(t))
  {
    var days := PresentDays(t);
    forall k | 0 <= k < |days|
      ensures HasColumn(t, Token(days[k]))
    {
      assert days[k] in days;
    }
  }

  /** The merge on the row index joins every stacked entry to its own
      record's description and loses or repeats none. */
  lemma {:induction false} JoinsAnnotated(t: Table)
    requires WellFormed(t) && NumericDays(t) && HasColumn(t, "description")
    ensures Stackable(t, PresentDays(t))
    ensures |Get(t, "description")| == t.records
    ensures forall k :: 0 <= k < |Stack(t, PresentDays(t), 0)| ==> Stack(t, PresentDays(t), 0)[k].record < t.records
    ensures Joins(t) == Annotated(Get(t, "description"), Stack(t, PresentDays(t), 0))
  {
    PresentStackable(t);
    GetLength(t, "description");
    MergeStack(t, PresentDays(t), Get(t, "description"), 0);
  }

  /** One row of the merged frame: the stacked entry at the same position,
      joined to its record's description. */
  lemma {:induction false} JoinsIndex(t: Table, j: nat)
    requires WellFormed(t) && NumericDays(t) && HasColumn(t, "description")
    ensures Stackable(t, PresentDays(t))
    ensures |Joins(t)| == |Stack(t, PresentDays(t), 0)|
    ensures j < |Joins(t)| ==> Stack(t, PresentDays(t), 0)[j].record < |Get(t, "description")|
    ensures j < |Joins(t)| ==>
      Joins(t)[j] ==
      Joined(Get(t, "description")[Stack(t, PresentDays(t), 0)[j].record], Stack(t, PresentDays(t), 0)[j])
  {
    JoinsAnnotated(t);
  }

  /** The merged frame in closed form: row `i * |days| + k` joins record `i`'s
      description to its cell on the `k`-th present weekday. */
  lemma {:induction false} JoinsAt(t: Table, days: seq<Weekday>, i: nat, k: nat, j: int)
    requires WellFormed(t) && NumericDays(t) && HasColumn(t, "description")
    requires days == PresentDays(t) && i < t.records && k < |days| && j == i * |days| + k
    ensures |Get(t, "description")| == t.records && HasColumn(t, Token(days[k]))
    ensures |Joins(t)| == t.records * |days|
    ensures 0 <= j < |Joins(t)|
    ensures Joins(t)[j] == Joined(Get(t, "description")[i], Entry(i, days[k], Value(t, days[k], i)))
  {
    var entry := Entry(i, days[k], Value(t, days[k], i)) by {
      PresentStackable(t);
    }
    GetLength(t, "description");
    assert |Stack(t, days, 0)| == t.records * |days| && j < |Stack(t, days, 0)| && Stack(t, days, 0)[j] == entry by {
      PresentStackable(t);
      StackFromStart(t, days, i, k, j);
    }
    JoinsIndex(t, j);
  }

  /** A position in a block of `n` records of `m` entries each splits into a
      record number and an offset within the record. */
  lemma SplitOffset(j: int, n: int, m: int)
    requires 0 <= n && 0 <= j < n * m
    ensures m > 0 && 0 <= j / m < n && 0 <= j % m < m
    ensures j == (j / m) * m + j % m
  {
    assert m > 0;
    assert (j / m) * m <= j;
    assert (n - j / m) * m > 0;
  }

  /** Entry `j = i * |days| + k` of the whole series belongs to record `i`. */
  lemma StackRecordAt(t: Table, days: seq<Weekday>, j: int, i: nat, k: nat)
    requires Stackable(t, days) && i < t.records && k < |days| && j == i * |days| + k
    ensures 0 <= j < |Stack(t, days, 0)| && Stack(t, days, 0)[j].record == i
  {
    assert j == (i - 0) * |days| + k;
    StackAt(t, days, 0, i, k, j);
  }

  /** Every row of the merged frame is some record's cell on some present
      weekday, at the position record-major order gives it: row `j` is
      record `j / |days|` on day `days[j % |days|]`. */
  lemma {:induction false} JoinsRow(t: Table, days: seq<Weekday>, j: nat)
    requires WellFormed(t) && NumericDays(t) && HasColumn(t, "description")
    requires days == PresentDays(t) && j < |Joins(t)|
    ensures |days| > 0 && j / |days| < t.records && j == (j / |days|) * |days| + j % |days|
    ensures Joins(t)[j] == Joins(t)[(j / |days|) * |days| + j % |days|]
    ensures Joins(t)[j].entry.record == j / |days|
  {
    var m := |days|;
    assert j < t.records * m by {
      PresentStackable(t);
      StackLength(t, days, 0);
      JoinsIndex(t, j);
    }
    SplitOffset(j, t.records, m);
    var i, k := j / m, j % m;
    PresentStackable(t);
    StackRecordAt(t, days, j, i, k);
    JoinsIndex(t, j);
  }

  // ---------------------------------------------------------------------------
  // What `_parse_df_values` produces
  // ---------------------------------------------------------------------------

  /** The description number's day rule: the first three weekdays square. */
  predicate SquaresOn(d: Weekday) {
    d == Mon || d == Tue || d == Wed
  }

  /** The stage fails with a missing description exactly when the frame has
      no `description` column. */
  lemma ParseValuesMissingDescription(t: Table)
    requires WellFormed(t) && NumericDays(t)
    ensures ParseValues(t) == Err(MissingDescription) <==> !HasColumn(t, "description")
  {
    if HasColumn(t, "description") && ParseValues(t).Err? {
      var k :| 0 <= k < |Joins(t)| && Derive(Joins(t)[k]) == Err(ParseValues(t).error);
    }
  }

  /** Every record's description is text. */
  predicate TextDescriptions(t: Table)
    requires HasColumn(t, "description")
  {
    forall i :: 0 <= i < |Get(t, "description")| ==> Get(t, "description")[i].Str?
  }

  /** With a description column, the stage succeeds exactly when there is no
      weekday column or every record's description is text. */
  lemma ParseValuesSucceeds(t: Table)
    requires WellFormed(t) && NumericDays(t) && HasColumn(t, "description")
    ensures ParseValues(t).Ok? <==> |PresentDays(t)| == 0 || TextDescriptions(t)
  {
    var days, descriptions := PresentDays(t), Get(t, "description");
    GetLength(t, "description");
    PresentStackable(t);
    StackLength(t, days, 0);
    JoinsIndex(t, 0);
    if ParseValues(t).Ok? && |days| > 0 {
      forall i | 0 <= i < |descriptions|
        ensures descriptions[i].Str?
      {
        JoinsAt(t, days, i, 0, i * |days| + 0);
        assert Derive(Joins(t)[i * |days| + 0]).Ok?;
      }
    }
    if |days| == 0 || TextDescriptions(t) {
      forall j | 0 <= j < |Joins(t)|
        ensures Derive(Joins(t)[j]).Ok?
      {
        JoinsRow(t, days, j);
        JoinsIndex(t, j);
      }
    }
  }

  /** An earlier record's first row comes before any row of a later record. */
  lemma EarlierRecordFirst(i: int, r: int, m: int, kk: int)
    requires 0 <= i < r && m > 0 && 0 <= kk
    ensures i * m + 0 < r * m + kk
  {
    assert (r - i) * m > 0;
  }

  /** If the rows before row `k = r * |days| + kk` all derive, every record
      before `r` has a text description. */
  lemma EarlierRecordText(t: Table, days: seq<Weekday>, k: int, r: int, kk: int, i: nat)
    requires WellFormed(t) && NumericDays(t) && HasColumn(t, "description") && days == PresentDays(t)
    requires 0 <= kk && k == r * |days| + kk && i < r < t.records && |days| > 0
    requires forall x :: 0 <= x < k && x < |Joins(t)| ==> Derive(Joins(t)[x]).Ok?
    ensures |Get(t, "description")| == t.records && Get(t, "description")[i].Str?
  {
    JoinsAt(t, days, i, 0, i * |days| + 0);
    EarlierRecordFirst(i, r, |days|, kk);
  }

  /** When the stage fails on a description, it names the first record whose
      description is not text. */
  lemma ParseValuesFailure(t: Table)
    requires WellFormed(t) && NumericDays(t) && HasColumn(t, "description")
    requires ParseValues(t).Err?
    ensures |PresentDays(t)| > 0
    ensures ParseValues(t).error.DescriptionNotText?
    ensures ParseValues(t).error.record < |Get(t, "description")|
    ensures Get(t, "description")[ParseValues(t).error.record].Num?
    ensures forall i :: 0 <= i < ParseValues(t).error.record ==> Get(t, "description")[i].Str?
  {
    var days := PresentDays(t);
    var m := |days|;
    GetLength(t, "description");
    var k :| 0 <= k < |Joins(t)| && Derive(Joins(t)[k]) == Err(ParseValues(t).error) &&
             forall i :: 0 <= i < k ==> Derive(Joins(t)[i]).Ok?;
    JoinsRow(t, days, k);
    JoinsIndex(t, k);
    var r := k / m;
    forall i | 0 <= i < r
      ensures Get(t, "description")[i].Str?
    {
      EarlierRecordText(t, days, k, r, k % m, i);
    }
  }

  /** The rule for one derived row of record description `description` on
      weekday `d` with value `v`: `square = value ** 2`, `double = value * 2`,
      `is_square` exactly on Monday to Wednesday, and the description
      followed by one space and the decimal digits of the square or the
      double. */
  predicate DerivedRow(r: StackedRow, description: string, d: Weekday, v: int) {
    && r.day == d && r.value == v
    && r.square == v * v && r.double == 2 * v
    && (r.isSquare <==> SquaresOn(d))
    && r.description == description + " " + IntToString(if r.isSquare then r.square else r.double)
  }

  /** The rule fixes the row, given the number and the text it appends. */
  lemma DerivedRowIs(r: StackedRow, description: string, d: Weekday, v: int, number: int, text: string)
    requires DerivedRow(r, description, d, v)
    requires number == (if SquaresOn(d) then v * v else 2 * v) && text == description + " " + IntToString(number)
    ensures r == StackedRow(d, text, v * v, 2 * v, SquaresOn(d), v)
  {
  }

  /** A row joined to a text description derives by the rule. */
  lemma DeriveRow(c: Cell, e: Entry)
    requires c.Str?
    ensures Derive(Joined(c, e)).Ok?
    ensures DerivedRow(Derive(Joined(c, e)).value, c.s, e.day, e.value)
  {
  }

  /** The reshaped frame has one row per record and present weekday. */
  lemma ParseValuesCount(t: Table, days: seq<Weekday>)
    requires WellFormed(t) && NumericDays(t) && ParseValues(t).Ok? && days == PresentDays(t)
    ensures HasColumn(t, "description") && |Get(t, "description")| == t.records
    ensures |ParseValues(t).value| == t.records * |days|
  {
    assert HasColumn(t, "description") by {
      ParseValuesMissingDescription(t);
    }
    GetLength(t, "description");
    assert |Joins(t)| == |Stack(t, days, 0)| by {
      JoinsIndex(t, 0);
    }
    assert |Stack(t, days, 0)| == t.records * |days| by {
      PresentStackable(t);
      StackLength(t, days, 0);
    }
  }

  /** The reshaped frame, row by row: `records * |days|` rows in record-major
      order with the days in canonical order; row `i * |days| + k` is record
      `i` on the `k`-th present weekday, derived by the rule from the
      record's description and its value on that day. */
  lemma {:induction false} ParseValuesAt(t: Table, days: seq<Weekday>, i: nat, k: nat)
    requires WellFormed(t) && NumericDays(t) && ParseValues(t).Ok?
    requires days == PresentDays(t) && i < t.records && k < |days|
    ensures HasColumn(t, "description") && |Get(t, "description")| == t.records
    ensures HasColumn(t, Token(days[k]))
    ensures |ParseValues(t).value| == t.records * |days|
    ensures 0 <= i * |days| + k < |ParseValues(t).value|
    ensures Get(t, "description")[i].Str?
    ensures DerivedRow(ParseValues(t).value[i * |days| + k], Get(t, "description")[i].s, days[k], Value(t, days[k], i))
  {
    ParseValuesCount(t, days);
    var j := i * |days| + k;
    assert 0 <= j < t.records * |days| by {
      OffsetBound(i, t.records, |days|, k);
    }
    JoinsAt(t, days, i, k, j);
    var c, e := Get(t, "description")[i], Entry(i, days[k], Value(t, days[k], i));
    assert Derive(Joined(c, e)).Ok? && ParseValues(t).value[j] == Derive(Joined(c, e)).value by {
      ParseValuesRow(t, j);
    }
    DeriveRow(c, e);
  }

  /** A successful stage's row `j` is merged row `j`, derived. */
  lemma ParseValuesRow(t: Table, j: nat)
    requires WellFormed(t) && NumericDays(t) && ParseValues(t).Ok? && HasColumn(t, "description")
    requires j < |Joins(t)|
    ensures Derive(Joins(t)[j]).Ok?
    ensures j < |ParseValues(t).value| && ParseValues(t).value[j] == Derive(Joins(t)[j]).value
  {
    assert ParseValues(t) == DeriveAll(Joins(t));
  }
}
