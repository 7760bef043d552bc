/** The invariant the game keeps between its cells and its mines: a mine cell holds Mine, and
    every other cell holds the number of mines among its up to eight neighbours. */
module MineCounts {
  import opened Grid
  import opened Minefield

  /** How many of the listed mines are adjacent to c, counting the list from its last entry. */
  function AdjacentCount(mines: seq<Loc>, c: Loc): (n: nat)
  {
    if |mines| == 0 then 0
    else AdjacentCount(mines[..|mines| - 1], c) + (if Adjacent(mines[|mines| - 1], c) then 1 else 0)
  }

  /** The set of listed mines adjacent to c. */
  ghost function AdjacentMines(mines: seq<Loc>, c: Loc): set<Loc>
  {
    set m | m in mines && Adjacent(m, c)
  }

  /** The eight cells around c. */
  function Ring(c: Loc): set<Loc>
  {
    {(c.0 - 1, c.1 - 1), (c.0 - 1, c.1), (c.0 - 1, c.1 + 1),
     (c.0, c.1 - 1), (c.0, c.1 + 1),
     (c.0 + 1, c.1 - 1), (c.0 + 1, c.1), (c.0 + 1, c.1 + 1)}
  }

  /** A subset is no larger than the set containing it. */
  lemma {:induction false} SubsetSize<T>(a: set<T>, b: set<T>)
    requires a <= b
    ensures |a| <= |b|
    decreases a
  {
    if a != {} {
      var e :| e in a;
      SubsetSize(a - {e}, b - {e});
    }
  }

  /** For a list without repeats, the count is the size of the set of adjacent mines. */
  lemma {:induction false} CountIsSetSize(mines: seq<Loc>, c: Loc)
    requires Distinct(mines)
    ensures AdjacentCount(mines, c) == |AdjacentMines(mines, c)|
    decreases |mines|
  {
    if |mines| > 0 {
      var pre := mines[..|mines| - 1];
      var last := mines[|mines| - 1];
      assert mines == pre + [last];
      assert last !in pre;
      CountIsSetSize(pre, c);
      if Adjacent(last, c) {
        assert AdjacentMines(mines, c) == AdjacentMines(pre, c) + {last};
      } else {
        assert AdjacentMines(mines, c) == AdjacentMines(pre, c);
      }
    }
  }

  /** No cell has more than eight adjacent mines when no mine is listed twice. */
  lemma AtMostEightAdjacent(mines: seq<Loc>, c: Loc)
    requires Distinct(mines)
    ensures AdjacentCount(mines, c) <= 8
  {
    CountIsSetSize(mines, c);
    forall m | m in AdjacentMines(mines, c)
      ensures m in Ring(c)
    {
      assert m == (m.0, m.1);
    }
    SubsetSize(AdjacentMines(mines, c), Ring(c));
  }

  /** g, a w-by-h field, agrees with the mines listed: each lies on the field and its cell holds
      Mine, and every other cell holds its count of adjacent mines. */
  ghost predicate Consistent(g: seq<seq<int>>, w: int, h: int, mines: seq<Loc>)
  {
    && IsRect(g, w, h)
    && (forall k :: 0 <= k < |mines| ==> InBounds(w, h, mines[k].0, mines[k].1))
    && (forall i, j :: InBounds(w, h, i, j) ==>
          g[i][j] == if (i, j) in mines then Mine else AdjacentCount(mines, (i, j)))
  }

  /** Placing a mine on a cell not yet mined keeps the field consistent, with that mine added. */
  lemma {:induction false} PlacementKeepsConsistent(g: seq<seq<int>>, w: int, h: int, mines: seq<Loc>, p: Loc)
    requires 2 <= w && 2 <= h && InBounds(w, h, p.0, p.1)
    requires Consistent(g, w, h, mines) && Distinct(mines) && p !in mines
    ensures Consistent(PlaceMineOnField(g, w, h, p.0, p.1), w, h, mines + [p])
  {
    var r := PlaceMineOnField(g, w, h, p.0, p.1);
    var ms := mines + [p];
    assert ms[..|ms| - 1] == mines;
    forall i, j | InBounds(w, h, i, j)
      ensures r[i][j] == if (i, j) in ms then Mine else AdjacentCount(ms, (i, j))
    {
      if (i, j) == p {
      } else if (i, j) in mines {
        assert g[i][j] == Mine;
      } else {
        AtMostEightAdjacent(mines, (i, j));
        assert AdjacentCount(ms, (i, j)) == AdjacentCount(mines, (i, j)) + if Adjacent(p, (i, j)) then 1 else 0;
      }
    }
  }
}
