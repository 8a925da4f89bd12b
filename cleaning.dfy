/**
 The cleaning steps of `load_data`: drop repeated header rows, fill
 missing cells with 0, drop the `Rk` column. Each step returns a new table.
 */
module Cleaning {
  import opened Seqs
  import opened Frames

  /** The value `fillna(0)` writes into every missing cell. */
  const FillValue: Cell := Num(0)

  /** `df.drop(df[df.Age == 'Age'].index)`. */
  function DropHeaderRows(t: Table): (r: Table)
    ensures forall i | 0 <= i < |r| :: !IsHeaderRow(r[i])
    ensures IsSubsequence(r, t)
    ensures forall row :: multiset(r)[row] == if IsHeaderRow(row) then 0 else multiset(t)[row]
    ensures forall i | 0 <= i < |t| && !IsHeaderRow(t[i]) :: t[i] in r
  {
    var keep := row => !IsHeaderRow(row);
    var r := Filter(t, keep);
    assert forall row :: multiset(r)[row] == if IsHeaderRow(row) then 0 else multiset(t)[row] by {
      forall row ensures multiset(r)[row] == if IsHeaderRow(row) then 0 else multiset(t)[row] {
        FilterCount(t, keep, row);
      }
    }
    assert forall i | 0 <= i < |t| && !IsHeaderRow(t[i]) :: t[i] in r by {
      forall i | 0 <= i < |t| && !IsHeaderRow(t[i]) ensures t[i] in r {
        assert t[i] in multiset(t);
        assert multiset(r)[t[i]] > 0;
      }
    }
    r
  }

  /** `fillna(0)` on one row. */
  function FillRow(row: Row): (r: Row)
    ensures r.Keys == row.Keys
    ensures HasNoMissing(r)
    ensures forall k | k in row && row[k] == Missing :: r[k] == FillValue
    ensures forall k | k in row && row[k] != Missing :: r[k] == row[k]
  {
    map k | k in row :: if row[k] == Missing then FillValue else row[k]
  }

  /** `raw.fillna(0)`: same rows, same columns, missing cells replaced by 0. */
  function FillMissing(t: Table): (r: Table)
    ensures |r| == |t|
    ensures forall i | 0 <= i < |r| :: HasNoMissing(r[i]) && r[i].Keys == t[i].Keys
    ensures forall i, k | 0 <= i < |t| && k in t[i] && t[i][k] == Missing :: r[i][k] == FillValue
    ensures forall i, k | 0 <= i < |t| && k in t[i] && t[i][k] != Missing :: r[i][k] == t[i][k]
  {
    seq(|t|, i requires 0 <= i < |t| => FillRow(t[i]))
  }

  /** `raw.drop([column], axis=1)`: same rows, that one column gone, every other cell kept. */
  function DropColumn(t: Table, column: string): (r: Table)
    ensures |r| == |t|
    ensures forall i | 0 <= i < |r| :: r[i].Keys == t[i].Keys - {column}
    ensures forall i, k | 0 <= i < |r| && k in r[i] :: r[i][k] == t[i][k]
  {
    seq(|t|, i requires 0 <= i < |t| => t[i] - {column})
  }

  /** What cleaning does to one surviving row. */
  function CleanRow(row: Row): Row
  {
    FillRow(row) - {"Rk"}
  }

  /** `load_data` after the page's first table has been parsed into `raw`. */
  function LoadData(raw: Table): (r: Table)
    ensures IsClean(r)
    ensures |r| == |DropHeaderRows(raw)| <= |raw|
    ensures forall i | 0 <= i < |r| :: r[i] == CleanRow(DropHeaderRows(raw)[i])
  {
    var d := DropHeaderRows(raw);
    var f := FillMissing(d);
    assert forall i | 0 <= i < |f| :: f[i] == FillRow(d[i]);
    DropColumn(f, "Rk")
  }

  /**
   Cleaning keeps exactly the data rows: every raw row that is not a
   repeated header appears, cleaned, in the result, and every row of the
   result is a cleaned raw data row.
   */
  lemma LoadDataRows(raw: Table)
    ensures forall j | 0 <= j < |raw| && !IsHeaderRow(raw[j]) :: CleanRow(raw[j]) in LoadData(raw)
    ensures forall i | 0 <= i < |LoadData(raw)| ::
              exists j :: 0 <= j < |raw| && !IsHeaderRow(raw[j]) && LoadData(raw)[i] == CleanRow(raw[j])
  {
    var d := DropHeaderRows(raw);
    var r := LoadData(raw);
    assert |r| == |d|;
    forall j | 0 <= j < |raw| && !IsHeaderRow(raw[j]) ensures CleanRow(raw[j]) in r {
      assert raw[j] in d;
      var i :| 0 <= i < |d| && d[i] == raw[j];
    }
    forall i | 0 <= i < |r|
      ensures exists j :: 0 <= j < |raw| && !IsHeaderRow(raw[j]) && r[i] == CleanRow(raw[j])
    {
      assert d[i] in multiset(d);
      assert d[i] in multiset(raw);
      var j :| 0 <= j < |raw| && raw[j] == d[i];
      assert !IsHeaderRow(raw[j]);
    }
  }
}
