/**
 `playerstats['Team'] = playerstats['Team'].astype(str)`: the `Team`
 column of the loaded table is overwritten, in place, with its text form.
 How a number is rendered as text is `str` in the source; here it is the
 parameter `show`.
 */
module Coercion {
  import opened Frames

  /** `str(c)` for one cell: text stays as it is, a number is rendered, NaN becomes "nan". */
  function ToText(c: Cell, show: int -> string): (r: Cell)
    ensures r.Text?
    ensures c.Text? ==> r == c
    ensures c.Num? ==> r.s == show(c.n)
    ensures c.Missing? ==> r == Text("nan")
  {
    match c
    case Text(_) => c
    case Num(n) => Text(show(n))
    case Missing => Text("nan")
  }

  /** One row after the `Team` assignment. */
  function CoerceTeamRow(row: Row, show: int -> string): (r: Row)
    ensures r.Keys == row.Keys
    ensures "Team" in r ==> r["Team"].Text?
    ensures "Team" in row ==> r["Team"] == ToText(row["Team"], show)
    ensures forall k | k in row && k != "Team" :: r[k] == row[k]
    ensures "Team" in row && row["Team"].Text? ==> r == row
  {
    if "Team" in row then row["Team" := ToText(row["Team"], show)] else row
  }

  /** The whole table after the `Team` assignment. */
  function CoerceTeam(t: Table, show: int -> string): (r: Table)
    ensures |r| == |t|
    ensures forall i | 0 <= i < |r| :: r[i].Keys == t[i].Keys
    ensures forall i | 0 <= i < |r| && "Team" in r[i] :: r[i]["Team"].Text?
    ensures forall i | 0 <= i < |t| && "Team" in t[i] :: r[i]["Team"] == ToText(t[i]["Team"], show)
    ensures forall i, k | 0 <= i < |t| && k in t[i] && k != "Team" :: r[i][k] == t[i][k]
    ensures forall i | 0 <= i < |t| && "Team" in t[i] && t[i]["Team"].Text? :: r[i] == t[i]
  {
    seq(|t|, i requires 0 <= i < |t| => CoerceTeamRow(t[i], show))
  }

  /** The assignment itself, overwriting the rows of the table object in place. */
  method CoerceTeamColumn(rows: array<Row>, show: int -> string)
    modifies rows
    ensures rows[..] == CoerceTeam(old(rows[..]), show)
  {
    for i := 0 to rows.Length
      invariant forall k | 0 <= k < i :: rows[k] == CoerceTeamRow(old(rows[k]), show)
      invariant forall k | i <= k < rows.Length :: rows[k] == old(rows[k])
    {
      rows[i] := CoerceTeamRow(rows[i], show);
    }
  }

  /**
   The table returned by the cached `load_data` is the same object on
   every rerun of the script, so line 31 is applied to it again and again:
   applying it a second time changes nothing.
   */
  lemma CoerceTeamIdempotent(t: Table, show: int -> string)
    ensures CoerceTeam(CoerceTeam(t, show), show) == CoerceTeam(t, show)
  {
  }

  /** Coercing `Team` keeps a cleaned table clean. */
  lemma CoerceTeamKeepsClean(t: Table, show: int -> string)
    requires IsClean(t)
    ensures IsClean(CoerceTeam(t, show))
  {
  }
}
