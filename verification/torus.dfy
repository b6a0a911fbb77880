/** The toroidal neighbourhood the grid wires into every cell once, at
    construction (game.h:384-409): eight neighbours in a fixed order, the
    edges wrapping round to the opposite edge. */
module Torus {

  /** Row and column offsets of the eight neighbours, in wiring order:
      up-left, left, down-left, up, down, up-right, right, down-right. */
  const RowOffset: seq<int> := [-1, 0, 1, -1, 1, -1, 0, 1]
  const ColOffset: seq<int> := [-1, -1, -1, 0, 0, 1, 1, 1]

  /** The `k`-th neighbour of `(i, j)` as the constructor computes it: one
      step left, right, up or down, replaced by the far edge when it falls
      off the grid. */
  function Neighbour(rows: nat, cols: nat, i: nat, j: nat, k: nat): (p: (nat, nat))
    requires i < rows && j < cols && k < 8
    ensures p.0 < rows && p.1 < cols
    ensures p.0 == (i + RowOffset[k]) % rows
    ensures p.1 == (j + ColOffset[k]) % cols
  {
    var left := if j - 1 == -1 then cols - 1 else j - 1;
    var right := if j + 1 == cols then 0 else j + 1;
    var up := if i - 1 == -1 then rows - 1 else i - 1;
    var down := if i + 1 == rows then 0 else i + 1;
    Wraps(i, rows);
    Wraps(j, cols);
    assert RowOffset[k] == -1 || RowOffset[k] == 0 || RowOffset[k] == 1;
    assert ColOffset[k] == -1 || ColOffset[k] == 0 || ColOffset[k] == 1;
    [(up, left), (i, left), (down, left), (up, j), (down, j), (up, right), (i, right), (down, right)][k]
  }

  /** The constructor's three positions along one axis are steps of -1, 0
      and +1 taken modulo the axis length. */
  lemma Wraps(x: nat, n: nat)
    requires x < n
    ensures (if x - 1 == -1 then n - 1 else x - 1) == (x - 1) % n
    ensures x == x % n
    ensures (if x + 1 == n then 0 else x + 1) == (x + 1) % n
  {
  }

  /** The neighbour list bound to `(i, j)`: eight cells inside the grid, the
      `k`-th one step along the `k`-th offset on the torus. They are eight
      distinct cells other than `(i, j)` itself exactly when the grid has at
      least three rows and three columns. */
  function Neighbours(rows: nat, cols: nat, i: nat, j: nat): (ps: seq<(nat, nat)>)
    requires i < rows && j < cols
    ensures |ps| == 8
    ensures forall k :: 0 <= k < 8 ==>
      ps[k].0 < rows && ps[k].1 < cols &&
      ps[k] == ((i + RowOffset[k]) % rows, (j + ColOffset[k]) % cols)
    ensures (&& (forall k1, k2 :: 0 <= k1 < k2 < 8 ==> ps[k1] != ps[k2])
             && (i, j) !in ps)
            <==> rows >= 3 && cols >= 3
  {
    var ps := seq(8, k requires 0 <= k < 8 => Neighbour(rows, cols, i, j, k));
    SeparatedIffWide(rows, cols, i, j);
    ps
  }

  /** The first neighbour of the top-left cell is the bottom-right cell. */
  lemma CornerWraps(rows: nat, cols: nat)
    requires rows > 0 && cols > 0
    ensures Neighbour(rows, cols, 0, 0, 0) == (rows - 1, cols - 1)
  {
  }

  /** Adjacency is symmetric: the `k`-th neighbour of `(i, j)` has `(i, j)` as
      its `(7 - k)`-th neighbour. */
  lemma NeighbourSymmetric(rows: nat, cols: nat, i: nat, j: nat, k: nat)
    requires i < rows && j < cols && k < 8
    ensures var p := Neighbour(rows, cols, i, j, k);
      Neighbour(rows, cols, p.0, p.1, 7 - k) == (i, j)
  {
  }

  /** The eight neighbours are eight distinct cells other than the cell
      itself. */
  predicate Separated(rows: nat, cols: nat, i: nat, j: nat)
    requires i < rows && j < cols
  {
    && (forall k1, k2 :: 0 <= k1 < k2 < 8 ==> Neighbour(rows, cols, i, j, k1) != Neighbour(rows, cols, i, j, k2))
    && (forall k :: 0 <= k < 8 ==> Neighbour(rows, cols, i, j, k) != (i, j))
  }

  /** The neighbours are eight distinct cells other than the cell itself
      exactly when the grid has at least three rows and three columns; on a
      narrower grid a cell counts some neighbour twice, or itself. */
  lemma SeparatedIffWide(rows: nat, cols: nat, i: nat, j: nat)
    requires i < rows && j < cols
    ensures Separated(rows, cols, i, j) <==> rows >= 3 && cols >= 3
  {
    if rows < 3 {
      assert Neighbour(rows, cols, i, j, 0) == Neighbour(rows, cols, i, j, 2);
    } else if cols < 3 {
      assert Neighbour(rows, cols, i, j, 0) == Neighbour(rows, cols, i, j, 5);
    } else {
      WideSeparated(rows, cols, i, j);
    }
  }

  lemma WideSeparated(rows: nat, cols: nat, i: nat, j: nat)
    requires i < rows && j < cols && rows >= 3 && cols >= 3
    ensures Separated(rows, cols, i, j)
  {
    StepsDistinct(i, rows);
    StepsDistinct(j, cols);
    forall k1, k2 | 0 <= k1 < k2 < 8
      ensures Neighbour(rows, cols, i, j, k1) != Neighbour(rows, cols, i, j, k2)
    {
      assert RowOffset[k1] != RowOffset[k2] || ColOffset[k1] != ColOffset[k2];
    }
  }

  /** On an axis of length at least 3 the steps -1, 0 and +1 land on three
      different positions. */
  lemma StepsDistinct(x: nat, n: nat)
    requires x < n && n >= 3
    ensures (x - 1) % n != x % n && (x + 1) % n != x % n && (x - 1) % n != (x + 1) % n
  {
    Wraps(x, n);
  }
}
