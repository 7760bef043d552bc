/** The cell arithmetic of `place_mine`: mark the cell as a mine, then walk the edge-clamped
    neighbourhood and add one to every neighbouring cell that is not already a mine. */
module Minefield {
  import opened Grid
  import opened Neighbours

  type Loc = (int, int)

  /** The cell value that marks a mine; any other value is the count of adjacent mines. */
  const Mine: int := 9

  /** a is one of the up to eight cells around b: within one step on both axes, and not b itself. */
  predicate Adjacent(a: Loc, b: Loc)
  {
    a != b && b.0 - 1 <= a.0 <= b.0 + 1 && b.1 - 1 <= a.1 <= b.1 + 1
  }

  /** What `place_mine((x, y))` does to a w-by-h field g, cell by cell: after is g with (x, y)
      holding Mine, every adjacent cell that was not a mine one higher, adjacent mines left at Mine,
      and every other cell as it was. */
  ghost predicate IsPlacement(g: seq<seq<int>>, after: seq<seq<int>>, w: int, h: int, x: int, y: int)
    requires IsRect(g, w, h) && InBounds(w, h, x, y)
  {
    && IsRect(after, w, h)
    && after[x][y] == Mine
    && (forall i, j :: InBounds(w, h, i, j) && Adjacent((i, j), (x, y)) && g[i][j] != Mine ==>
          after[i][j] == g[i][j] + 1)
    && (forall i, j :: InBounds(w, h, i, j) && Adjacent((i, j), (x, y)) && g[i][j] == Mine ==>
          after[i][j] == Mine)
    && (forall i, j :: InBounds(w, h, i, j) && (i, j) != (x, y) && !Adjacent((i, j), (x, y)) ==>
          after[i][j] == g[i][j])
  }

  /** The cell-wise description leaves no freedom: at most one field satisfies it. */
  lemma PlacementIsUnique(g: seq<seq<int>>, r1: seq<seq<int>>, r2: seq<seq<int>>, w: int, h: int, x: int, y: int)
    requires IsRect(g, w, h) && InBounds(w, h, x, y)
    requires IsPlacement(g, r1, w, h, x, y) && IsPlacement(g, r2, w, h, x, y)
    ensures r1 == r2
  {
    forall i, j | 0 <= i < |r1| && 0 <= j < |r1[i]|
      ensures r2[i][j] == r1[i][j]
    {
      assert InBounds(w, h, i, j);
    }
    CellwiseEqual(r1, r2);
  }

  /** One run of the inner loop body at (i, j) for a mine at (x, y). */
  function Visit(g: seq<seq<int>>, i: int, j: int, x: int, y: int): (r: seq<seq<int>>)
    requires 0 <= i < |g| && 0 <= j < |g[i]|
    ensures SameShape(g, r)
    ensures r[i][j] == if (i, j) != (x, y) && g[i][j] != Mine then g[i][j] + 1 else g[i][j]
    ensures forall c, d :: 0 <= c < |g| && 0 <= d < |g[c]| && (c, d) != (i, j) ==> r[c][d] == g[c][d]
  {
    if (i, j) != (x, y) && g[i][j] != Mine then Update(g, i, j, g[i][j] + 1) else g
  }

  /** The inner loop `for j in ys`, on column i. Each listed row of column i other than (x, y) that
      is not a mine goes up by one; no other cell changes. */
  function VisitColumn(g: seq<seq<int>>, i: int, ys: seq<int>, x: int, y: int): (r: seq<seq<int>>)
    requires 0 <= i < |g|
    requires forall k :: 0 <= k < |ys| ==> 0 <= ys[k] < |g[i]|
    requires Distinct(ys)
    ensures SameShape(g, r)
    ensures forall c, d {:trigger r[c][d]} :: 0 <= c < |g| && 0 <= d < |g[c]| ==>
      r[c][d] == if c == i && d in ys && (c, d) != (x, y) && g[c][d] != Mine then g[c][d] + 1 else g[c][d]
    decreases |ys|
  {
    if |ys| == 0 then g
    else
      var g' := Visit(g, i, ys[0], x, y);
      var rest := ys[1..];
      assert forall k :: 0 <= k < |rest| ==> rest[k] != ys[0];
      var r := VisitColumn(g', i, rest, x, y);
      assert forall c, d :: 0 <= c < |g| && 0 <= d < |g[c]| ==>
        r[c][d] == if c == i && d in ys && (c, d) != (x, y) && g[c][d] != Mine then g[c][d] + 1 else g[c][d]
      by {
        forall c, d | 0 <= c < |g| && 0 <= d < |g[c]|
          ensures r[c][d] == if c == i && d in ys && (c, d) != (x, y) && g[c][d] != Mine then g[c][d] + 1 else g[c][d]
        {
          assert d in ys <==> d == ys[0] || d in rest;
          if c == i && d == ys[0] {
            assert d !in rest;
          } else {
            assert g'[c][d] == g[c][d];
          }
        }
      }
      r
  }

  /** The nested loops `for i in xs: for j in ys`. Each cell of xs-by-ys other than (x, y) that is
      not a mine goes up by one; no other cell changes. */
  function VisitAll(g: seq<seq<int>>, h: int, xs: seq<int>, ys: seq<int>, x: int, y: int): (r: seq<seq<int>>)
    requires IsRect(g, |g|, h)
    requires forall k :: 0 <= k < |xs| ==> 0 <= xs[k] < |g|
    requires forall k :: 0 <= k < |ys| ==> 0 <= ys[k] < h
    requires Distinct(xs) && Distinct(ys)
    ensures IsRect(r, |g|, h)
    ensures forall c, d {:trigger r[c][d]} :: 0 <= c < |g| && 0 <= d < h ==>
      r[c][d] == if c in xs && d in ys && (c, d) != (x, y) && g[c][d] != Mine then g[c][d] + 1 else g[c][d]
    decreases |xs|
  {
    if |xs| == 0 then g
    else
      var g' := VisitColumn(g, xs[0], ys, x, y);
      var rest := xs[1..];
      assert forall k :: 0 <= k < |rest| ==> rest[k] != xs[0];
      var r := VisitAll(g', h, rest, ys, x, y);
      assert forall c, d :: 0 <= c < |g| && 0 <= d < h ==>
        r[c][d] == if c in xs && d in ys && (c, d) != (x, y) && g[c][d] != Mine then g[c][d] + 1 else g[c][d]
      by {
        forall c, d | 0 <= c < |g| && 0 <= d < h
          ensures r[c][d] == if c in xs && d in ys && (c, d) != (x, y) && g[c][d] != Mine then g[c][d] + 1 else g[c][d]
        {
          assert c in xs <==> c == xs[0] || c in rest;
          if c == xs[0] {
            assert c !in rest;
          } else {
            assert g'[c][d] == g[c][d];
          }
        }
      }
      r
  }

  /** `place_mine((x, y))` on a w-by-h field. `place_mine` needs both sides at least two long: on a
      one-wide axis its neighbour tuple names an index past the end. */
  function PlaceMineOnField(g: seq<seq<int>>, w: int, h: int, x: int, y: int): (r: seq<seq<int>>)
    requires IsRect(g, w, h) && 2 <= w && 2 <= h && InBounds(w, h, x, y)
    ensures IsPlacement(g, r, w, h, x, y)
  {
    var marked := Update(g, x, y, Mine);
    var xs := AxisNeighbours(x, w);
    var ys := AxisNeighbours(y, h);
    AxisNeighboursClamped(x, w);
    AxisNeighboursClamped(y, h);
    VisitAll(marked, h, xs, ys, x, y)
  }
}
