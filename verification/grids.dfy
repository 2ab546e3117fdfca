/** Two-dimensional integer grids (`int[][]` tile arrays) and the facts about
    them that the board needs: per-cell sums, the multiset of values, swapping
    two cells, and the row-major scan for the last zero cell. */
module Grids {

  type Grid = seq<seq<int>>

  /** A contribution of cell (row, column, value) to a sum over the grid. */
  type CellFn = (int, int, int) -> int

  predicate Square(t: Grid)
  {
    forall i :: 0 <= i < |t| ==> |t[i]| == |t|
  }

  predicate InGrid(t: Grid, i: int, j: int)
  {
    0 <= i < |t| && 0 <= j < |t[i]|
  }

  // ---------------------------------------------------------------------
  // Sums over cells, in the nested-loop order rows-then-columns

  /** Sum of f over columns 0..m-1 of row i. */
  function RowSum(t: Grid, f: CellFn, i: nat, m: nat): int
    requires i < |t| && m <= |t[i]|
  {
    if m == 0 then 0 else RowSum(t, f, i, m - 1) + f(i, m - 1, t[i][m - 1])
  }

  /** Sum of f over every cell of rows 0..k-1. */
  function RowsSum(t: Grid, f: CellFn, k: nat): int
    requires k <= |t|
  {
    if k == 0 then 0 else RowsSum(t, f, k - 1) + RowSum(t, f, k - 1, |t[k - 1]|)
  }

  /** Sum of f over every cell of the grid. */
  function CellSum(t: Grid, f: CellFn): int
  {
    RowsSum(t, f, |t|)
  }

  lemma {:induction false} RowSumMono(t: Grid, f: CellFn, g: CellFn, i: nat, m: nat)
    requires i < |t| && m <= |t[i]|
    requires forall j :: 0 <= j < m ==> f(i, j, t[i][j]) <= g(i, j, t[i][j])
    ensures RowSum(t, f, i, m) <= RowSum(t, g, i, m)
  {
    if m > 0 {
      RowSumMono(t, f, g, i, m - 1);
    }
  }

  lemma {:induction false} RowsSumMono(t: Grid, f: CellFn, g: CellFn, k: nat)
    requires k <= |t|
    requires forall i, j :: 0 <= i < k && InGrid(t, i, j) ==> f(i, j, t[i][j]) <= g(i, j, t[i][j])
    ensures RowsSum(t, f, k) <= RowsSum(t, g, k)
  {
    if k > 0 {
      RowsSumMono(t, f, g, k - 1);
      RowSumMono(t, f, g, k - 1, |t[k - 1]|);
    }
  }

  /** A sum of cell-wise smaller contributions is smaller. */
  lemma CellSumMono(t: Grid, f: CellFn, g: CellFn)
    requires forall i, j :: InGrid(t, i, j) ==> f(i, j, t[i][j]) <= g(i, j, t[i][j])
    ensures CellSum(t, f) <= CellSum(t, g)
  {
    RowsSumMono(t, f, g, |t|);
  }

  lemma {:induction false} RowSumZero(t: Grid, f: CellFn, i: nat, m: nat)
    requires i < |t| && m <= |t[i]|
    requires forall j :: 0 <= j < m ==> f(i, j, t[i][j]) >= 0
    ensures RowSum(t, f, i, m) >= 0
    ensures RowSum(t, f, i, m) == 0 <==> forall j :: 0 <= j < m ==> f(i, j, t[i][j]) == 0
  {
    if m > 0 {
      RowSumZero(t, f, i, m - 1);
    }
  }

  lemma {:induction false} RowsSumZero(t: Grid, f: CellFn, k: nat)
    requires k <= |t|
    requires forall i, j :: 0 <= i < k && InGrid(t, i, j) ==> f(i, j, t[i][j]) >= 0
    ensures RowsSum(t, f, k) >= 0
    ensures RowsSum(t, f, k) == 0 <==>
              forall i, j :: 0 <= i < k && InGrid(t, i, j) ==> f(i, j, t[i][j]) == 0
  {
    if k > 0 {
      RowsSumZero(t, f, k - 1);
      RowSumZero(t, f, k - 1, |t[k - 1]|);
    }
  }

  /** A sum of non-negative contributions is non-negative, and it is zero
      exactly when every contribution is zero. */
  lemma CellSumZero(t: Grid, f: CellFn)
    requires forall i, j :: InGrid(t, i, j) ==> f(i, j, t[i][j]) >= 0
    ensures CellSum(t, f) >= 0
    ensures CellSum(t, f) == 0 <==> forall i, j :: InGrid(t, i, j) ==> f(i, j, t[i][j]) == 0
  {
    RowsSumZero(t, f, |t|);
  }

  // ---------------------------------------------------------------------
  // The multiset of values held by a grid

  function Values(t: Grid): multiset<int>
  {
    if |t| == 0 then multiset{} else Values(t[..|t| - 1]) + multiset(t[|t| - 1])
  }

  /** Overwriting one cell trades its old value for the new one. */
  lemma {:induction false} ValuesUpdate(t: Grid, r: nat, c: nat, x: int)
    requires InGrid(t, r, c)
    ensures Values(t[r := t[r][c := x]]) + multiset{t[r][c]} == Values(t) + multiset{x}
    decreases |t|
  {
    var u := t[r := t[r][c := x]];
    var last := |t| - 1;
    assert Values(u) == Values(u[..last]) + multiset(u[last]);
    assert Values(t) == Values(t[..last]) + multiset(t[last]);
    if r < last {
      var t' := t[..last];
      assert u[..last] == t'[r := t'[r][c := x]];
      ValuesUpdate(t', r, c, x);
      assert u[last] == t[last];
      calc {
        Values(u) + multiset{t[r][c]};
        (Values(u[..last]) + multiset{t[r][c]}) + multiset(t[last]);
        (Values(t') + multiset{x}) + multiset(t[last]);
        Values(t) + multiset{x};
      }
    } else {
      assert u[..last] == t[..last];
      RowUpdate(t[r], c, x);
    }
  }

  lemma RowUpdate(row: seq<int>, c: nat, x: int)
    requires c < |row|
    ensures multiset(row[c := x]) + multiset{row[c]} == multiset(row) + multiset{x}
  {
  }

  // ---------------------------------------------------------------------
  // Exchanging two cells

  /** s is t with cells (r1, c1) and (r2, c2) exchanged and nothing else changed. */
  ghost predicate IsSwapOf(s: Grid, t: Grid, r1: int, c1: int, r2: int, c2: int)
    requires InGrid(t, r1, c1) && InGrid(t, r2, c2)
  {
    && |s| == |t|
    && (forall i :: 0 <= i < |t| ==> |s[i]| == |t[i]|)
    && (forall i, j {:trigger s[i][j]} :: InGrid(t, i, j) ==>
          s[i][j] == (if i == r1 && j == c1 then t[r2][c2]
                      else if i == r2 && j == c2 then t[r1][c1]
                      else t[i][j]))
  }

  /** The private `swap` helper of the board, applied to a copy. */
  function Swap(t: Grid, r1: nat, c1: nat, r2: nat, c2: nat): (s: Grid)
    requires InGrid(t, r1, c1) && InGrid(t, r2, c2)
    ensures IsSwapOf(s, t, r1, c1, r2, c2)
  {
    var temp := t[r1][c1];
    var u := t[r1 := t[r1][c1 := t[r2][c2]]];
    u[r2 := u[r2][c2 := temp]]
  }

  /** Swapping keeps the multiset of values: a permutation stays a permutation. */
  lemma SwapValues(t: Grid, r1: nat, c1: nat, r2: nat, c2: nat)
    requires InGrid(t, r1, c1) && InGrid(t, r2, c2)
    ensures Values(Swap(t, r1, c1, r2, c2)) == Values(t)
  {
    var v1, v2 := t[r1][c1], t[r2][c2];
    var u := t[r1 := t[r1][c1 := v2]];
    ValuesUpdate(t, r1, c1, v2);
    ValuesUpdate(u, r2, c2, v1);
    var s := Swap(t, r1, c1, r2, c2);
    assert s == u[r2 := u[r2][c2 := v1]];
    assert u[r2][c2] == v2;
    calc {
      Values(s) + (multiset{v2} + multiset{v1});
      (Values(s) + multiset{v2}) + multiset{v1};
      (Values(u) + multiset{v1}) + multiset{v1};
      (Values(t) + multiset{v2}) + multiset{v1};
      Values(t) + (multiset{v2} + multiset{v1});
    }
    MultisetCancel(Values(s), Values(t), multiset{v2} + multiset{v1});
  }

  lemma MultisetCancel(a: multiset<int>, b: multiset<int>, m: multiset<int>)
    requires a + m == b + m
    ensures a == b
  {
    forall k
      ensures a[k] == b[k]
    {
      assert (a + m)[k] == (b + m)[k];
    }
  }

  /** Which of the two cells is named first does not matter. */
  lemma SwapSymmetric(t: Grid, r1: nat, c1: nat, r2: nat, c2: nat)
    requires InGrid(t, r1, c1) && InGrid(t, r2, c2)
    ensures Swap(t, r1, c1, r2, c2) == Swap(t, r2, c2, r1, c1)
  {
    var s, s' := Swap(t, r1, c1, r2, c2), Swap(t, r2, c2, r1, c1);
    forall i | 0 <= i < |t|
      ensures s[i] == s'[i]
    {
      assert |s[i]| == |s'[i]|;
    }
  }

  /** Swapping the same two cells back gives the grid back. */
  lemma SwapBack(t: Grid, r1: nat, c1: nat, r2: nat, c2: nat)
    requires InGrid(t, r1, c1) && InGrid(t, r2, c2)
    ensures Swap(Swap(t, r1, c1, r2, c2), r2, c2, r1, c1) == t
  {
    var s := Swap(t, r1, c1, r2, c2);
    var s' := Swap(s, r2, c2, r1, c1);
    assert |s'| == |t|;
    forall i | 0 <= i < |t|
      ensures s'[i] == t[i]
    {
      assert |s'[i]| == |t[i]|;
    }
  }

  // ---------------------------------------------------------------------
  // Locating the blank: the last zero cell in row-major order

  /** Cell (i, j) comes after cell (r, c) in row-major order. */
  predicate After(i: int, j: int, r: int, c: int)
  {
    i > r || (i == r && j > c)
  }

  ghost predicate HasZero(t: Grid)
  {
    exists i, j :: InGrid(t, i, j) && t[i][j] == 0
  }

  /** (r, c) holds a zero and no later cell does. */
  ghost predicate IsLastZero(t: Grid, r: int, c: int)
  {
    InGrid(t, r, c) && t[r][c] == 0 &&
    forall i, j :: InGrid(t, i, j) && After(i, j, r, c) ==> t[i][j] != 0
  }

  /** Scans row i from column j on, remembering the last zero seen. */
  function ScanRow(t: Grid, i: nat, j: nat, acc: (nat, nat)): (nat, nat)
    requires i < |t| && j <= |t[i]|
    decreases |t[i]| - j
  {
    if j == |t[i]| then acc
    else ScanRow(t, i, j + 1, if t[i][j] == 0 then (i, j) else acc)
  }

  /** Scanning row i from column j keeps acc when no zero follows, and
      otherwise ends at the row's last zero. */
  lemma {:induction false} ScanRowSpec(t: Grid, i: nat, j: nat, acc: (nat, nat))
    requires i < |t| && j <= |t[i]|
    ensures var p := ScanRow(t, i, j, acc);
            || (p == acc && forall k :: j <= k < |t[i]| ==> t[i][k] != 0)
            || (p.0 == i && j <= p.1 < |t[i]| && t[i][p.1] == 0 &&
                forall k :: p.1 < k < |t[i]| ==> t[i][k] != 0)
    decreases |t[i]| - j
  {
    if j < |t[i]| {
      ScanRowSpec(t, i, j + 1, if t[i][j] == 0 then (i, j) else acc);
    }
  }

  /** Scans rows i.. in order, remembering the last zero seen. */
  function ScanRows(t: Grid, i: nat, acc: (nat, nat)): (nat, nat)
    requires i <= |t|
    decreases |t| - i
  {
    if i == |t| then acc
    else ScanRows(t, i + 1, ScanRow(t, i, 0, acc))
  }

  /** Scanning rows i.. keeps acc when they hold no zero, and otherwise ends
      at their last zero in row-major order. */
  lemma {:induction false} ScanRowsSpec(t: Grid, i: nat, acc: (nat, nat))
    requires i <= |t|
    ensures var p := ScanRows(t, i, acc);
            || (p == acc && forall r, c :: i <= r && InGrid(t, r, c) ==> t[r][c] != 0)
            || (i <= p.0 && InGrid(t, p.0, p.1) && t[p.0][p.1] == 0 &&
                forall r, c :: i <= r && InGrid(t, r, c) && After(r, c, p.0, p.1) ==> t[r][c] != 0)
    decreases |t| - i
  {
    if i < |t| {
      ScanRowSpec(t, i, 0, acc);
      ScanRowsSpec(t, i + 1, ScanRow(t, i, 0, acc));
    }
  }

  /** The blank position recorded by the board constructor: the loop overwrites
      it at every zero, so it ends at the last one; with no zero it keeps the
      fields' initial (0, 0). */
  function LastZero(t: Grid): (nat, nat)
  {
    ScanRows(t, 0, (0, 0))
  }

  /** The recorded position is the last zero cell, or (0, 0) when there is
      no zero. */
  lemma LastZeroSpec(t: Grid)
    ensures HasZero(t) ==> IsLastZero(t, LastZero(t).0, LastZero(t).1)
    ensures !HasZero(t) ==> LastZero(t) == (0, 0)
  {
    ScanRowsSpec(t, 0, (0, 0));
  }

  /** With exactly one zero cell, that cell is the one recorded. */
  lemma LastZeroOfUnique(t: Grid, r: nat, c: nat)
    requires InGrid(t, r, c) && t[r][c] == 0
    requires forall i, j :: InGrid(t, i, j) && t[i][j] == 0 ==> i == r && j == c
    ensures LastZero(t) == (r, c)
  {
    LastZeroSpec(t);
  }

  /** On a non-empty square grid the recorded position is a cell. */
  lemma LastZeroInGrid(t: Grid)
    requires Square(t) && |t| > 0
    ensures InGrid(t, LastZero(t).0, LastZero(t).1)
  {
    LastZeroSpec(t);
  }
}
