/**
 The sidebar's option lists and the row filter they drive: the season
 list, the sorted distinct teams, the five position tags, and the
 `isin` filter on `Team` and `Pos`.
 */
module Sidebar {
  import opened Seqs
  import opened StringOrder
  import opened Frames
  import opened Coercion

  /** The bounds of `range(1950, 2020)`. */
  const FirstSeason: int := 1950
  const EndSeason: int := 2020

  /** `list(reversed(range(1950, 2020)))`: the seasons offered, newest first. */
  function YearOptions(): (ys: seq<int>)
    ensures |ys| == 70 && ys[0] == 2019 && ys[69] == 1950
    ensures forall k | 0 <= k < |ys| :: ys[k] == 2019 - k
    ensures forall i, j | 0 <= i < j < |ys| :: ys[i] > ys[j]
    ensures forall y :: y in ys <==> 1950 <= y <= 2019
  {
    DescendingYears(FirstSeason, EndSeason);
    Reverse(Range(FirstSeason, EndSeason))
  }

  lemma DescendingYears(lo: int, hi: int)
    requires lo <= hi
    ensures forall k | 0 <= k < hi - lo :: Reverse(Range(lo, hi))[k] == hi - 1 - k
    ensures forall y :: y in Reverse(Range(lo, hi)) <==> lo <= y < hi
  {
    var ys := Reverse(Range(lo, hi));
    forall y | lo <= y < hi ensures y in ys {
      assert ys[hi - 1 - y] == y;
    }
  }

  /** The text of every `Team` cell, row by row. */
  function TeamColumn(t: Table): (col: seq<string>)
    ensures forall s :: s in col <==> exists i :: 0 <= i < |t| && "Team" in t[i] && t[i]["Team"] == Text(s)
  {
    if t == [] then []
    else
      var rest := TeamColumn(t[1..]);
      assert forall i | 1 <= i < |t| :: t[i] == t[1..][i - 1];
      if "Team" in t[0] && t[0]["Team"].Text? then [t[0]["Team"].s] + rest else rest
  }

  /** `sorted(playerstats['Team'].unique())`, on a table whose `Team` column line 31 has made text. */
  function TeamOptions(t: Table): (teams: seq<string>)
    requires forall i | 0 <= i < |t| && "Team" in t[i] :: t[i]["Team"].Text?
    ensures StrictlyIncreasing(teams)
    ensures forall i, j | 0 <= i < j < |teams| :: teams[i] != teams[j]
    ensures forall s :: s in teams <==> exists i :: 0 <= i < |t| && "Team" in t[i] && t[i]["Team"] == Text(s)
  {
    SortedUnique(TeamColumn(t))
  }

  /** `unique_pos`, the position tags offered and selected by default. */
  const Positions: seq<string> := ["C", "PF", "SF", "PG", "SG"]

  predicate Selected(row: Row, teams: seq<string>, positions: seq<string>)
  {
    CellIn(row, "Team", teams) && CellIn(row, "Pos", positions)
  }

  /** `playerstats[(Team.isin(selected_team)) & (Pos.isin(selected_pos))]`. */
  function SelectRows(t: Table, teams: seq<string>, positions: seq<string>): (r: Table)
    ensures |r| <= |t|
    ensures IsSubsequence(r, t)
    ensures forall i | 0 <= i < |r| :: Selected(r[i], teams, positions)
    ensures forall row :: multiset(r)[row] == if Selected(row, teams, positions) then multiset(t)[row] else 0
  {
    var keep := row => Selected(row, teams, positions);
    var r := Filter(t, keep);
    assert forall row :: multiset(r)[row] == if keep(row) then multiset(t)[row] else 0 by {
      forall row ensures multiset(r)[row] == if keep(row) then multiset(t)[row] else 0 {
        FilterCount(t, keep, row);
      }
    }
    r
  }

  /**
   With the sidebar's default state (every listed team selected) the team
   condition rejects no row of a table whose `Team` column has been
   coerced: only the position condition decides.
   */
  lemma DefaultTeamsSelectAll(t: Table, show: int -> string, positions: seq<string>)
    requires forall i | 0 <= i < |t| :: "Team" in t[i]
    ensures SelectRows(CoerceTeam(t, show), TeamOptions(CoerceTeam(t, show)), positions)
         == Filter(CoerceTeam(t, show), row => CellIn(row, "Pos", positions))
  {
    var c := CoerceTeam(t, show);
    var teams := TeamOptions(c);
    forall i | 0 <= i < |c| ensures CellIn(c[i], "Team", teams) {
      assert "Team" in c[i] && c[i]["Team"].Text?;
      assert c[i]["Team"] == Text(c[i]["Team"].s);
    }
    FilterCongruence(c, row => Selected(row, teams, positions), row => CellIn(row, "Pos", positions));
  }

  /**
   The sidebar's initial state: every listed team and all five position
   tags selected. A coerced table then keeps exactly its rows whose `Pos`
   is one of `C`, `PF`, `SF`, `PG`, `SG`.
   */
  lemma DefaultSidebarSelection(t: Table, show: int -> string)
    requires forall i | 0 <= i < |t| :: "Team" in t[i]
    ensures SelectRows(CoerceTeam(t, show), TeamOptions(CoerceTeam(t, show)), Positions)
         == Filter(CoerceTeam(t, show), row => CellIn(row, "Pos", Positions))
  {
    DefaultTeamsSelectAll(t, show, Positions);
  }
}
