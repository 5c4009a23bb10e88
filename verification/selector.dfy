/** Stage four of `process_output`: the records `to_dict('records')` makes of
    the reshaped frame, and `_keep_square_or_double`, which deletes from each
    record the number it does not use and the `is_square` flag. */
module Selector {
  import opened Results
  import opened Days
  import opened Reshaper

  /** A value held by an output record. */
  datatype Field = IntField(i: int) | StrField(s: string) | BoolField(b: bool)

  /** An output record: a dictionary from column name to value (the order of
      its keys is not modelled). */
  type Record = map<string, Field>

  /** Python's truth value of a record value, as `if row['is_square']`
      reads it. */
  predicate Truthy(f: Field) {
    match f
    case IntField(i) => i != 0
    case StrField(s) => |s| > 0
    case BoolField(b) => b
  }

  /** A `KeyError`: record `record` has no key `key`. */
  datatype KeyError = KeyError(record: nat, key: string)

  /** The number a record keeps: the square when its flag is true, else the
      double. */
  function Kept(row: Record): (key: string)
    requires "is_square" in row
    ensures key == "square" || key == "double"
  {
    if Truthy(row["is_square"]) then "square" else "double"
  }

  /** The number a record loses: the other one. */
  function Discarded(row: Record): (key: string)
    requires "is_square" in row
    ensures key == "square" || key == "double"
    ensures key != Kept(row)
  {
    if Truthy(row["is_square"]) then "double" else "square"
  }

  /** One turn of the loop on record number `index`: read the flag, delete
      the discarded number, delete the flag. */
  function KeepOne(row: Record, index: nat): (r: Result<Record, KeyError>)
    ensures r.Ok? <==> "is_square" in row && Discarded(row) in row
    ensures r.Ok? ==> r.value.Keys == row.Keys - {"is_square", Discarded(row)}
    ensures r.Ok? ==> forall k :: k in r.value ==> r.value[k] == row[k]
    ensures r.Err? ==> r.error.record == index && r.error.key !in row
    ensures r.Err? ==> r.error.key == if "is_square" in row then Discarded(row) else "is_square"
  {
    if "is_square" !in row then Err(KeyError(index, "is_square"))
    else
      var discarded := if Truthy(row["is_square"]) then "double" else "square";
      if discarded !in row then Err(KeyError(index, discarded))
      else Ok(row - {discarded} - {"is_square"})
  }

  /** The loop from record `from` on; the first record that lacks a key
      raises. */
  function KeepFrom(rows: seq<Record>, from: nat): (r: Result<seq<Record>, KeyError>)
    requires from <= |rows|
    ensures r.Ok? <==> forall k :: from <= k < |rows| ==> KeepOne(rows[k], k).Ok?
    ensures r.Ok? ==> |r.value| == |rows| - from
    ensures r.Err? ==> from <= r.error.record < |rows|
    ensures r.Err? ==> KeepOne(rows[r.error.record], r.error.record) == Err(r.error)
    ensures r.Err? ==> forall k :: from <= k < r.error.record ==> KeepOne(rows[k], k).Ok?
    decreases |rows| - from
  {
    if from == |rows| then Ok([])
    else
      match KeepOne(rows[from], from)
      case Err(e) => Err(e)
      case Ok(first) =>
        match KeepFrom(rows, from + 1)
        case Err(e) => Err(e)
        case Ok(rest) => Ok([first] + rest)
  }

  /** On success the loop from `from` on holds record `k`'s result at
      position `k - from`. */
  lemma {:induction false} KeepFromAt(rows: seq<Record>, from: nat, k: nat)
    requires from <= k < |rows| && KeepFrom(rows, from).Ok?
    ensures k - from < |KeepFrom(rows, from).value|
    ensures KeepFrom(rows, from).value[k - from] == KeepOne(rows[k], k).value
    decreases k - from
  {
    var first := KeepOne(rows[from], from).value;
    var rest := KeepFrom(rows, from + 1).value;
    assert KeepFrom(rows, from).value == [first] + rest;
    if k > from {
      KeepFromAt(rows, from + 1, k);
      assert ([first] + rest)[k - from] == rest[k - (from + 1)];
    }
  }

  /** `_keep_square_or_double(output_list)`: every record in turn, in
      place; the first record that lacks a key raises. */
  function KeepSquareOrDouble(rows: seq<Record>): (r: Result<seq<Record>, KeyError>)
    ensures r.Ok? <==> forall k :: 0 <= k < |rows| ==> KeepOne(rows[k], k).Ok?
    ensures r.Ok? ==> |r.value| == |rows| && forall k :: 0 <= k < |rows| ==> r.value[k] == KeepOne(rows[k], k).value
    ensures r.Err? ==> 0 <= r.error.record < |rows| && KeepOne(rows[r.error.record], r.error.record) == Err(r.error)
    ensures r.Err? ==> forall k :: 0 <= k < r.error.record ==> KeepOne(rows[k], k).Ok?
  {
    var r := KeepFrom(rows, 0);
    assert r.Ok? ==> forall k :: 0 <= k < |rows| ==> r.value[k] == KeepOne(rows[k], k).value by {
      if r.Ok? {
        forall k | 0 <= k < |rows|
          ensures r.value[k] == KeepOne(rows[k], k).value
        {
          KeepFromAt(rows, 0, k);
        }
      }
    }
    r
  }

  // ---------------------------------------------------------------------------
  // The same selection as a tagged union
  // ---------------------------------------------------------------------------

  /** `to_dict('records')` on one row of the reshaped frame: its six columns
      as keys. */
  function ToRecord(r: StackedRow): (m: Record)
    ensures m.Keys == {"day", "description", "square", "double", "is_square", "value"}
  {
    map["day" := StrField(Token(r.day)), "description" := StrField(r.description),
        "square" := IntField(r.square), "double" := IntField(r.double),
        "is_square" := BoolField(r.isSquare), "value" := IntField(r.value)]
  }

  /** `to_dict('records')` on the whole reshaped frame, row by row. */
  function ToRecords(rows: seq<StackedRow>): (ms: seq<Record>)
    ensures |ms| == |rows| && forall k :: 0 <= k < |rows| ==> ms[k] == ToRecord(rows[k])
  {
    seq(|rows|, k requires 0 <= k < |rows| => ToRecord(rows[k]))
  }

  /** The number an output row carries, with the name of its key. */
  datatype Choice = Square(square: int) | Double(double: int)

  /** An output row with the kept number as a tagged union instead of a
      deleted key. */
  datatype OutputRow = OutputRow(day: Weekday, description: string, choice: Choice, value: int)

  /** The output row of a reshaped row: the flag picks the number. */
  function Select(r: StackedRow): (o: OutputRow)
    ensures o.day == r.day && o.description == r.description && o.value == r.value
    ensures o.choice == if r.isSquare then Square(r.square) else Double(r.double)
  {
    OutputRow(r.day, r.description, if r.isSquare then Square(r.square) else Double(r.double), r.value)
  }

  /** An output row as the dictionary the parser returns. */
  function OutputRecord(o: OutputRow): (m: Record)
    ensures m.Keys == {"day", "description", "value"} + (if o.choice.Square? then {"square"} else {"double"})
  {
    var base := map["day" := StrField(Token(o.day)), "description" := StrField(o.description), "value" := IntField(o.value)];
    match o.choice
    case Square(n) => base["square" := IntField(n)]
    case Double(n) => base["double" := IntField(n)]
  }

  /** Deleting keys from a reshaped row's record yields the dictionary of
      its tagged output row. */
  lemma KeepOneOfRow(r: StackedRow, index: nat)
    ensures KeepOne(ToRecord(r), index) == Ok(OutputRecord(Select(r)))
  {
    var row, out := ToRecord(r), OutputRecord(Select(r));
    var kept := KeepOne(row, index).value;
    assert kept.Keys == out.Keys;
    forall k | k in kept
      ensures kept[k] == out[k]
    {
    }
    assert kept == out;
  }

  /** On the records of a reshaped frame the selection never raises, keeps
      the order and count of the rows, and leaves each record with `day`,
      `description`, `value` and exactly one of `square` and `double`: the
      square where the flag is set, the double elsewhere. */
  lemma {:induction false} KeepSquareOrDoubleOfRows(rows: seq<StackedRow>)
    ensures KeepSquareOrDouble(ToRecords(rows)).Ok?
    ensures |KeepSquareOrDouble(ToRecords(rows)).value| == |rows|
    ensures forall k :: 0 <= k < |rows| ==>
      KeepSquareOrDouble(ToRecords(rows)).value[k] == OutputRecord(Select(rows[k]))
  {
    var records := ToRecords(rows);
    forall k | 0 <= k < |rows|
      ensures KeepOne(records[k], k) == Ok(OutputRecord(Select(rows[k])))
    {
      KeepOneOfRow(rows[k], k);
    }
  }

  /** The keys of an output record: `day`, `description` and `value`, one of
      `square` and `double`, never both, and never `is_square`. */
  lemma OutputRecordKeys(o: OutputRow)
    ensures "day" in OutputRecord(o) && "description" in OutputRecord(o) && "value" in OutputRecord(o)
    ensures "square" in OutputRecord(o) <==> "double" !in OutputRecord(o)
    ensures "is_square" !in OutputRecord(o)
    ensures |OutputRecord(o).Keys| == 4
  {
  }

  // ---------------------------------------------------------------------------
  // The unit test's records
  // ---------------------------------------------------------------------------

  /** The test's first record, whose numbers are strings and whose flag is set. */
  function WednesdayInput(): Record {
    map["day" := StrField("wed"), "description" := StrField("second_desc 36"), "square" := StrField("36"),
        "double" := StrField("12"), "is_square" := BoolField(true), "value" := IntField(6)]
  }

  /** The test's second record, whose flag is clear. */
  function ThursdayInput(): Record {
    map["day" := StrField("thu"), "description" := StrField("second_desc 14"), "square" := StrField("49"),
        "double" := StrField("14"), "is_square" := BoolField(false), "value" := IntField(7)]
  }

  /** The record the test expects from the first: the square is kept. */
  function WednesdayOutput(): Record {
    map["day" := StrField("wed"), "description" := StrField("second_desc 36"), "square" := StrField("36"),
        "value" := IntField(6)]
  }

  /** The record the test expects from the second: the double is kept. */
  function ThursdayOutput(): Record {
    map["day" := StrField("thu"), "description" := StrField("second_desc 14"), "double" := StrField("14"),
        "value" := IntField(7)]
  }

  lemma KeepWednesdayExample(index: nat)
    ensures KeepOne(WednesdayInput(), index) == Ok(WednesdayOutput())
  {
    var kept := KeepOne(WednesdayInput(), index).value;
    assert kept.Keys == WednesdayOutput().Keys;
    assert kept == WednesdayOutput();
  }

  lemma KeepThursdayExample(index: nat)
    ensures KeepOne(ThursdayInput(), index) == Ok(ThursdayOutput())
  {
    var kept := KeepOne(ThursdayInput(), index).value;
    assert kept.Keys == ThursdayOutput().Keys;
    assert kept == ThursdayOutput();
  }

  /** The unit test of `_keep_square_or_double`: both records come back
      with the right number and no flag. */
  lemma KeepSquareOrDoubleExample()
    ensures KeepSquareOrDouble([WednesdayInput(), ThursdayInput()]) == Ok([WednesdayOutput(), ThursdayOutput()])
  {
    var input := [WednesdayInput(), ThursdayInput()];
    KeepWednesdayExample(0);
    KeepThursdayExample(1);
    var r := KeepSquareOrDouble(input);
    assert r.Ok? && |r.value| == 2;
    assert r.value == [WednesdayOutput(), ThursdayOutput()];
  }
}
