/** The part of a data frame the parser uses: a number of records and an
    ordered list of named columns, each holding one cell per record. */
module Tables {

  /** A cell: an integer (a weekday value) or text (a description or other
      metadata). */
  datatype Cell = Num(n: int) | Str(s: string)

  datatype Column = Column(name: string, cells: seq<Cell>)

  /** A data frame with `records` rows; the column order is the frame's. */
  datatype Table = Table(records: nat, columns: seq<Column>)

  function Names(t: Table): seq<string> {
    seq(|t.columns|, i requires 0 <= i < |t.columns| => t.columns[i].name)
  }

  /** No name occurs twice. */
  predicate Distinct(names: seq<string>) {
    forall i, j :: 0 <= i < j < |names| ==> names[i] != names[j]
  }

  predicate DistinctNames(t: Table) {
    Distinct(Names(t))
  }

  /** Distinct names, stated on the columns. */
  lemma DistinctColumns(t: Table)
    ensures DistinctNames(t) <==> forall i, j :: 0 <= i < j < |t.columns| ==> t.columns[i].name != t.columns[j].name
  {
    assert forall i :: 0 <= i < |t.columns| ==> Names(t)[i] == t.columns[i].name;
  }

  /** Column names are unique and every column has one cell per record. */
  predicate WellFormed(t: Table) {
    && DistinctNames(t)
    && forall i :: 0 <= i < |t.columns| ==> |t.columns[i].cells| == t.records
  }

  /** `name in df.columns`. */
  predicate HasColumn(t: Table, name: string) {
    name in Names(t)
  }

  /** The position of the first occurrence of `name`. */
  function IndexOf(names: seq<string>, name: string): (i: nat)
    requires name in names
    ensures i < |names| && names[i] == name
    ensures forall k :: 0 <= k < i ==> names[k] != name
  {
    if names[0] == name then 0 else 1 + IndexOf(names[1..], name)
  }

  /** `df[name]`: the cells of the column called `name`. */
  function Get(t: Table, name: string): seq<Cell>
    requires HasColumn(t, name)
  {
    t.columns[IndexOf(Names(t), name)].cells
  }

  /** In a well-formed table every column has one cell per record. */
  lemma GetLength(t: Table, name: string)
    requires WellFormed(t) && HasColumn(t, name)
    ensures |Get(t, name)| == t.records
  {
  }

  /** `df[name] = cells`: an existing column is overwritten where it stands; a
      new one is appended as the last column. Either way the frame gains
      exactly the name `name`. */
  function Assign(t: Table, name: string, cells: seq<Cell>): (r: Table)
    ensures r.records == t.records
    ensures forall n :: HasColumn(r, n) <==> HasColumn(t, n) || n == name
  {
    if HasColumn(t, name) then
      var k := IndexOf(Names(t), name);
      var r := Table(t.records, t.columns[k := Column(name, cells)]);
      assert Names(r) == Names(t);
      r
    else
      var r := Table(t.records, t.columns + [Column(name, cells)]);
      assert Names(r) == Names(t) + [name];
      r
  }

  /** `df.drop(name, axis=1)`: the frame without the column called `name`;
      every other name stays. */
  function Drop(t: Table, name: string): (r: Table)
    requires HasColumn(t, name)
    ensures r.records == t.records
    ensures forall n :: n != name ==> (HasColumn(r, n) <==> HasColumn(t, n))
  {
    var k := IndexOf(Names(t), name);
    var r := Table(t.records, t.columns[..k] + t.columns[k + 1..]);
    assert Names(r) == Names(t)[..k] + Names(t)[k + 1..];
    r
  }

  /** The frame's content with the column order forgotten: name to cells. */
  function View(t: Table): map<string, seq<Cell>> {
    map n | n in Names(t) :: Get(t, n)
  }

  /** In a well-formed table a column's name finds exactly that column. */
  lemma ViewAt(t: Table, k: int)
    requires WellFormed(t) && 0 <= k < |t.columns|
    ensures t.columns[k].name in View(t)
    ensures View(t)[t.columns[k].name] == t.columns[k].cells
  {
    assert Names(t)[k] == t.columns[k].name;
    var i := IndexOf(Names(t), t.columns[k].name);
    assert i == k;
  }

  /** Every name of the content is the name of some column. */
  lemma ViewHas(t: Table, n: string)
    requires n in View(t)
    ensures exists k :: 0 <= k < |t.columns| && t.columns[k].name == n
  {
    var k := IndexOf(Names(t), n);
    assert t.columns[k].name == n;
  }

  /** A map that sends every column's name to its cells, and holds no other
      name, is the table's content. */
  lemma ViewUnique(t: Table, m: map<string, seq<Cell>>)
    requires WellFormed(t)
    requires forall k :: 0 <= k < |t.columns| ==> t.columns[k].name in m && m[t.columns[k].name] == t.columns[k].cells
    requires forall n :: n in m ==> HasColumn(t, n)
    ensures View(t) == m
  {
    forall n | n in View(t)
      ensures n in m && View(t)[n] == m[n]
    {
      ViewAt(t, IndexOf(Names(t), n));
    }
    forall n | n in m
      ensures n in View(t)
    {
    }
  }

  /** Assigning a column updates the content at exactly that name and keeps the
      table well-formed. */
  lemma AssignView(t: Table, name: string, cells: seq<Cell>)
    requires WellFormed(t) && |cells| == t.records
    ensures WellFormed(Assign(t, name, cells))
    ensures View(Assign(t, name, cells)) == View(t)[name := cells]
  {
    var r := Assign(t, name, cells);
    var expected := View(t)[name := cells];
    var present := HasColumn(t, name);
    var k := if present then IndexOf(Names(t), name) else |t.columns|;
    assert |r.columns| == if present then |t.columns| else |t.columns| + 1;
    assert r.columns[k] == Column(name, cells);
    assert forall i :: 0 <= i < |r.columns| && i != k ==> r.columns[i] == t.columns[i];
    forall i | 0 <= i < |t.columns| && i != k
      ensures t.columns[i].name != name
    {
      assert Names(t)[i] == t.columns[i].name;
    }
    DistinctColumns(t);
    DistinctColumns(r);
    assert WellFormed(r);
    forall i | 0 <= i < |r.columns|
      ensures r.columns[i].name in expected && expected[r.columns[i].name] == r.columns[i].cells
    {
      if i != k {
        ViewAt(t, i);
      }
    }
    forall n | n in expected
      ensures HasColumn(r, n)
    {
      if n == name {
        assert Names(r)[k] == name;
      } else {
        var i := IndexOf(Names(t), n);
        assert Names(r)[i] == n;
      }
    }
    ViewUnique(r, expected);
  }

  /** Removing position `k` shifts every later element down by one. */
  lemma RemoveAt(cols: seq<Column>, k: int, r: seq<Column>)
    requires 0 <= k < |cols| && r == cols[..k] + cols[k + 1..]
    ensures |r| == |cols| - 1
    ensures forall i :: 0 <= i < k ==> r[i] == cols[i]
    ensures forall i :: k <= i < |r| ==> r[i] == cols[i + 1]
  {
  }

  lemma DropWellFormed(t: Table, name: string)
    requires WellFormed(t) && HasColumn(t, name)
    ensures WellFormed(Drop(t, name))
  {
    var r := Drop(t, name);
    var k := IndexOf(Names(t), name);
    RemoveAt(t.columns, k, r.columns);
    DistinctColumns(t);
    DistinctColumns(r);
    forall i, j | 0 <= i < j < |r.columns|
      ensures r.columns[i].name != r.columns[j].name
    {
      var ti, tj := if i < k then i else i + 1, if j < k then j else j + 1;
      assert r.columns[i] == t.columns[ti] && r.columns[j] == t.columns[tj];
    }
  }

  /** Every column left after the drop keeps its cells in the content. */
  lemma DropKeepsCells(t: Table, name: string, expected: map<string, seq<Cell>>)
    requires WellFormed(t) && HasColumn(t, name) && expected == View(t) - {name}
    ensures forall i :: 0 <= i < |Drop(t, name).columns| ==>
      Drop(t, name).columns[i].name in expected && expected[Drop(t, name).columns[i].name] == Drop(t, name).columns[i].cells
  {
    var r := Drop(t, name);
    var k := IndexOf(Names(t), name);
    RemoveAt(t.columns, k, r.columns);
    forall i | 0 <= i < |r.columns|
      ensures r.columns[i].name in expected && expected[r.columns[i].name] == r.columns[i].cells
    {
      var ti := if i < k then i else i + 1;
      assert r.columns[i] == t.columns[ti];
      ViewAt(t, ti);
      assert t.columns[ti].name != name by {
        assert Names(t)[ti] == t.columns[ti].name;
      }
    }
  }

  /** Every name of the content other than `name` survives the drop. */
  lemma DropKeepsNames(t: Table, name: string, expected: map<string, seq<Cell>>)
    requires WellFormed(t) && HasColumn(t, name) && expected == View(t) - {name}
    ensures forall n :: n in expected ==> HasColumn(Drop(t, name), n)
  {
    forall n | n in expected
      ensures HasColumn(Drop(t, name), n)
    {
    }
  }

  /** Dropping a column removes exactly that name and keeps the table
      well-formed. */
  lemma DropView(t: Table, name: string)
    requires WellFormed(t) && HasColumn(t, name)
    ensures WellFormed(Drop(t, name))
    ensures View(Drop(t, name)) == View(t) - {name}
  {
    DropWellFormed(t, name);
    var expected := View(t) - {name};
    DropKeepsCells(t, name, expected);
    DropKeepsNames(t, name, expected);
    ViewUnique(Drop(t, name), expected);
  }
}
