/**
 The mask handed to the heatmap so that only the lower triangle of the
 n-by-n correlation matrix is drawn: `np.zeros_like(corr)` and then
 `mask[np.triu_indices_from(mask)] = True`.
 */
module Heatmap {

  /** The pairs (i, j), j from `j` up to n - 1: the tail of row i of `np.triu_indices`. */
  function RowPairs(i: nat, j: nat, n: nat): (r: seq<(nat, nat)>)
    decreases n - j
    ensures |r| == if j <= n then n - j else 0
    ensures forall p :: p in r <==> p.0 == i && j <= p.1 < n
  {
    if j >= n then [] else [(i, j)] + RowPairs(i, j + 1, n)
  }

  /** The upper-triangle pairs of rows i .. n - 1, in row-major order. */
  function TriuFrom(i: nat, n: nat): (r: seq<(nat, nat)>)
    decreases n - i
    ensures i <= n ==> 2 * |r| == (n - i) * (n - i + 1)
    ensures forall p :: p in r <==> i <= p.0 <= p.1 < n
  {
    if i >= n then []
    else
      var rest := TriuFrom(i + 1, n);
      assert 2 * |rest| == (n - i - 1) * (n - i);
      RowPairs(i, i, n) + rest
  }

  /** `np.triu_indices(n)`: the pairs (i, j) with i <= j < n, n(n+1)/2 entries in all. */
  function TriuIndices(n: nat): (r: seq<(nat, nat)>)
    ensures 2 * |r| == n * (n + 1)
    ensures forall p :: p in r <==> p.0 <= p.1 < n
  {
    TriuFrom(0, n)
  }

  /** Builds the mask: entry (i, j) is set exactly on and above the diagonal, so only j < i is drawn. */
  method HeatmapMask(n: nat) returns (mask: array2<bool>)
    ensures fresh(mask)
    ensures mask.Length0 == n && mask.Length1 == n
    ensures forall i, j | 0 <= i < n && 0 <= j < n :: mask[i, j] <==> i <= j
  {
    mask := new bool[n, n]((i: nat, j: nat) => false);
    var idx := TriuIndices(n);
    ghost var written: set<(nat, nat)> := {};
    for k := 0 to |idx|
      invariant forall m | 0 <= m < k :: idx[m] in written
      invariant forall p | p in written :: p in idx
      invariant forall i, j | 0 <= i < n && 0 <= j < n :: mask[i, j] <==> (i, j) in written
    {
      var (i, j) := idx[k];
      assert (i, j) in idx;
      mask[i, j] := true;
      written := written + {(i, j)};
    }
    forall i, j | 0 <= i < n && 0 <= j < n && i <= j ensures (i, j) in written {
      var m :| 0 <= m < |idx| && idx[m] == (i, j);
    }
  }
}
