/** Stage one of `process_output`: `_lower_case_df_col_names`. */
module Normaliser {
  import opened Strings
  import opened Tables

  /** Every column name lower-cased in place; positions and cells untouched. */
  function LowerCaseNames(t: Table): (r: Table)
    ensures r.records == t.records && |r.columns| == |t.columns|
    ensures forall i :: 0 <= i < |t.columns| ==>
      && IsLowerCase(r.columns[i].name)
      && EqualIgnoringCase(t.columns[i].name, r.columns[i].name)
      && r.columns[i].cells == t.columns[i].cells
  {
    Table(t.records, seq(|t.columns|, i requires 0 <= i < |t.columns| =>
      Column(Lower(t.columns[i].name), t.columns[i].cells)))
  }

  /** Normalising a normalised table changes nothing. */
  lemma LowerCaseNamesIdempotent(t: Table)
    ensures LowerCaseNames(LowerCaseNames(t)) == LowerCaseNames(t)
  {
    var once := LowerCaseNames(t);
    var twice := LowerCaseNames(once);
    forall i | 0 <= i < |t.columns|
      ensures twice.columns[i] == once.columns[i]
    {
      LowerUnique(once.columns[i].name, twice.columns[i].name);
      LowerOfLowerCase(once.columns[i].name);
    }
  }

  /** A table whose names are already lower case is left alone. */
  lemma LowerCaseNamesOfLowerCase(t: Table)
    requires forall i :: 0 <= i < |t.columns| ==> IsLowerCase(t.columns[i].name)
    ensures LowerCaseNames(t) == t
  {
    var r := LowerCaseNames(t);
    forall i | 0 <= i < |t.columns|
      ensures r.columns[i] == t.columns[i]
    {
      LowerUnique(t.columns[i].name, r.columns[i].name);
      LowerOfLowerCase(t.columns[i].name);
    }
  }

  /** Tables whose column names differ only in case normalise to the same
      table. */
  lemma LowerCaseNamesIgnoresCase(t: Table, u: Table)
    requires t.records == u.records && |t.columns| == |u.columns|
    requires forall i :: 0 <= i < |t.columns| ==>
      EqualIgnoringCase(t.columns[i].name, u.columns[i].name) && t.columns[i].cells == u.columns[i].cells
    ensures LowerCaseNames(t) == LowerCaseNames(u)
  {
    var rt, ru := LowerCaseNames(t), LowerCaseNames(u);
    forall i | 0 <= i < |t.columns|
      ensures rt.columns[i] == ru.columns[i]
    {
      LowerEqualIffEqualIgnoringCase(t.columns[i].name, u.columns[i].name);
      LowerUnique(t.columns[i].name, rt.columns[i].name);
      LowerUnique(u.columns[i].name, ru.columns[i].name);
    }
  }

  /** The column names of the normaliser's unit test. */
  lemma LowerCaseNamesExample()
    ensures Names(LowerCaseNames(Table(0, [Column("HelLO", []), Column("HeySaiNsBurYz", [])])))
         == ["hello", "heysainsburyz"]
  {
    var r := LowerCaseNames(Table(0, [Column("HelLO", []), Column("HeySaiNsBurYz", [])]));
    LowerUnique("HelLO", r.columns[0].name);
    LowerUnique("HeySaiNsBurYz", r.columns[1].name);
    assert Lower("HelLO") == "hello";
    assert Lower("HeySaiNsBurYz") == "heysainsburyz";
  }
}
