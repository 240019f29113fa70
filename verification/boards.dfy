/**
 * The Python side keeps its grids as lists of lists that it updates in
 * place. They are modelled as two-dimensional arrays; `Contents` reads an
 * array back as a grid value, so that the pure definitions over grids can
 * specify the methods that update the arrays.
 */
module Boards {
  import opened Grids

  /** The current cells of `a`, row by row. */
  function Contents<T>(a: array2<T>): (g: seq<seq<T>>)
    reads a
    ensures Shaped(g, a.Length0, a.Length1)
    ensures forall i, j :: 0 <= i < a.Length0 && 0 <= j < a.Length1 ==> g[i][j] == a[i, j]
  {
    seq(a.Length0, i requires 0 <= i < a.Length0 reads a =>
      seq(a.Length1, j requires 0 <= j < a.Length1 reads a => a[i, j]))
  }

  /** Two grids of the same shape that agree on every cell are equal. */
  lemma GridExt<T>(g: seq<seq<T>>, h: seq<seq<T>>, rows: int, cols: int)
    requires Shaped(g, rows, cols) && Shaped(h, rows, cols)
    requires forall i, j :: 0 <= i < rows && 0 <= j < cols ==> g[i][j] == h[i][j]
    ensures g == h
  {
    assert forall i :: 0 <= i < rows ==> g[i] == h[i];
  }
}
