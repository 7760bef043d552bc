/** Column-major grids, as the game keeps its mine field and mask layer:
    a grid is a sequence of columns, and `g[x][y]` is the cell in column x, row y. */
module Grid {

  /** How many values Python's `range(0, n)` produces: none when n is not positive. */
  function RangeLength(n: int): nat
  {
    if n > 0 then n else 0
  }

  /** g has exactly w columns, each holding exactly h cells. */
  ghost predicate IsRect<T>(g: seq<seq<T>>, w: int, h: int)
  {
    |g| == w && forall x :: 0 <= x < |g| ==> |g[x]| == h
  }

  /** r has the same number of columns as g, and every column the same height. */
  ghost predicate SameShape<T, U>(g: seq<seq<T>>, r: seq<seq<U>>)
  {
    |r| == |g| && forall x :: 0 <= x < |g| ==> |r[x]| == |g[x]|
  }

  predicate InBounds(w: int, h: int, x: int, y: int)
  {
    0 <= x < w && 0 <= y < h
  }

  /** No value occurs twice in s. */
  ghost predicate Distinct<T>(s: seq<T>)
  {
    forall a, b :: 0 <= a < b < |s| ==> s[a] != s[b]
  }

  /** The grid the nested comprehension `[[v for y in range(0, h)] for x in range(0, w)]` builds. */
  function Fill<T>(w: int, h: int, v: T): (g: seq<seq<T>>)
    ensures IsRect(g, RangeLength(w), RangeLength(h))
    ensures forall x, y :: 0 <= x < |g| && 0 <= y < |g[x]| ==> g[x][y] == v
  {
    seq(RangeLength(w), _ => seq(RangeLength(h), _ => v))
  }

  /** The assignment `g[x][y] = v`: that one cell takes v, every other cell and the shape stay. */
  function Update<T>(g: seq<seq<T>>, x: int, y: int, v: T): (r: seq<seq<T>>)
    requires 0 <= x < |g| && 0 <= y < |g[x]|
    ensures SameShape(g, r)
    ensures r[x][y] == v
    ensures forall i, j :: 0 <= i < |g| && 0 <= j < |g[i]| && (i, j) != (x, y) ==> r[i][j] == g[i][j]
  {
    g[x := g[x][y := v]]
  }

  /** Two grids of the same shape that agree on every cell are the same grid. */
  lemma CellwiseEqual<T>(g: seq<seq<T>>, r: seq<seq<T>>)
    requires SameShape(g, r)
    requires forall i, j :: 0 <= i < |g| && 0 <= j < |g[i]| ==> r[i][j] == g[i][j]
    ensures r == g
  {
    forall i | 0 <= i < |g|
      ensures r[i] == g[i]
    {
      assert forall j :: 0 <= j < |g[i]| ==> r[i][j] == g[i][j];
    }
  }
}
