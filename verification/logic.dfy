/** The game state object: the field size, the configured mine count, the mine field of cell
    values, the mask layer of uncovered flags, and whether the game loop should keep running. */
module Logic {
  import opened Grid
  import opened Minefield
  import opened MineCounts

  /** Columns by rows, as the `(width, height)` pair the game stores. */
  datatype Size = Size(width: int, height: int)

  datatype State = State(
    fieldSize: Size,
    mineCount: int,
    mineField: seq<seq<int>>,
    maskLayer: seq<seq<bool>>,
    running: bool)

  /** The constructor's default arguments. */
  const DefaultSize: Size := Size(18, 10)
  const DefaultMineCount: int := 35

  /** The mine field has the shape the field size gives it. */
  ghost predicate FieldShaped(s: State)
  {
    IsRect(s.mineField, RangeLength(s.fieldSize.width), RangeLength(s.fieldSize.height))
  }

  /** The mine field and the mask layer both have the shape the field size gives them. */
  ghost predicate Valid(s: State)
  {
    FieldShaped(s) && IsRect(s.maskLayer, RangeLength(s.fieldSize.width), RangeLength(s.fieldSize.height))
  }

  /** `clear_state`: no mines and nothing uncovered. Every cell of the mine field is 0, every cell
      of the mask is false, both have the shape of the field size, and nothing else changes. */
  function ClearState(s: State): (r: State)
    ensures r.fieldSize == s.fieldSize && r.mineCount == s.mineCount && r.running == s.running
    ensures Valid(r)
    ensures forall x, y :: InBounds(RangeLength(s.fieldSize.width), RangeLength(s.fieldSize.height), x, y) ==>
      r.mineField[x][y] == 0 && !r.maskLayer[x][y]
  {
    s.(mineField := Fill(s.fieldSize.width, s.fieldSize.height, 0),
       maskLayer := Fill(s.fieldSize.width, s.fieldSize.height, false))
  }

  /** `Logic(field_size, mine_count)`: the given size and mine count, a cleared board, not running. */
  function New(fieldSize: Size, mineCount: int): (r: State)
    ensures Valid(r)
    ensures r.fieldSize == fieldSize && r.mineCount == mineCount && !r.running
    ensures forall x, y :: InBounds(RangeLength(fieldSize.width), RangeLength(fieldSize.height), x, y) ==>
      r.mineField[x][y] == 0 && !r.maskLayer[x][y]
  {
    ClearState(State(fieldSize, mineCount, [], [], false))
  }

  /** `Logic()` with its default arguments: a cleared 18-by-10 board for 35 mines. */
  function NewDefault(): (r: State)
    ensures Valid(r) && |r.mineField| == 18 && |r.maskLayer| == 18
    ensures forall x :: 0 <= x < 18 ==> |r.mineField[x]| == 10 && |r.maskLayer[x]| == 10
    ensures r.fieldSize == DefaultSize && r.mineCount == 35 && !r.running
    ensures forall x, y :: 0 <= x < 18 && 0 <= y < 10 ==> r.mineField[x][y] == 0 && !r.maskLayer[x][y]
  {
    New(DefaultSize, DefaultMineCount)
  }

  /** The location lies on the board and the board is at least two cells on each side, which the
      neighbour computation of `place_mine` needs to stay in range. */
  predicate CanPlace(s: State, loc: Loc)
  {
    2 <= s.fieldSize.width && 2 <= s.fieldSize.height
    && InBounds(s.fieldSize.width, s.fieldSize.height, loc.0, loc.1)
  }

  /** `place_mine(loc)`: the target cell becomes Mine whatever it held, each adjacent cell that is
      not a mine goes up by one, and nothing else changes: no other cell, not the mask, not the
      size, the mine count or the running flag. */
  function PlaceMine(s: State, loc: Loc): (r: State)
    requires FieldShaped(s) && CanPlace(s, loc)
    ensures FieldShaped(r) && (Valid(s) ==> Valid(r))
    ensures IsPlacement(s.mineField, r.mineField, s.fieldSize.width, s.fieldSize.height, loc.0, loc.1)
    ensures r.maskLayer == s.maskLayer
    ensures r.fieldSize == s.fieldSize && r.mineCount == s.mineCount && r.running == s.running
  {
    s.(mineField := PlaceMineOnField(s.mineField, s.fieldSize.width, s.fieldSize.height, loc.0, loc.1))
  }

  /** `place_mine` called on each location in turn, first to last. */
  function PlaceMines(s: State, locs: seq<Loc>): (r: State)
    requires FieldShaped(s)
    requires forall k :: 0 <= k < |locs| ==> CanPlace(s, locs[k])
    ensures FieldShaped(r) && (Valid(s) ==> Valid(r))
    ensures r.maskLayer == s.maskLayer
    ensures r.fieldSize == s.fieldSize && r.mineCount == s.mineCount && r.running == s.running
    decreases |locs|
  {
    if |locs| == 0 then s
    else
      var before := PlaceMines(s, locs[..|locs| - 1]);
      assert CanPlace(s, locs[|locs| - 1]);
      PlaceMine(before, locs[|locs| - 1])
  }

  /** `get_size`: the stored field size, which describes the mine field's shape. */
  function GetSize(s: State): (r: Size)
    ensures r == s.fieldSize
    ensures FieldShaped(s) ==> |s.mineField| == RangeLength(r.width)
    ensures FieldShaped(s) ==> forall x :: 0 <= x < |s.mineField| ==> |s.mineField[x]| == RangeLength(r.height)
  {
    s.fieldSize
  }

  /** `stop`: the running flag is cleared and nothing else changes. */
  function Stop(s: State): (r: State)
    ensures !r.running
    ensures r.fieldSize == s.fieldSize && r.mineCount == s.mineCount
    ensures r.mineField == s.mineField && r.maskLayer == s.maskLayer
  {
    s.(running := false)
  }

  /** Starting from a cleared board and placing mines on distinct cells, every mine's cell holds
      Mine and every other cell holds the number of adjacent mines, which is between 0 and 8; so
      every cell value is either Mine or a count the renderer has a glyph for. The mask stays all
      false. */
  lemma {:induction false} ClearedBoardCountsMines(s: State, locs: seq<Loc>)
    requires forall k :: 0 <= k < |locs| ==> CanPlace(s, locs[k])
    requires Distinct(locs)
    ensures forall k :: 0 <= k < |locs| ==> CanPlace(ClearState(s), locs[k])
    ensures var r := PlaceMines(ClearState(s), locs);
      && (forall i, j :: InBounds(s.fieldSize.width, s.fieldSize.height, i, j) && (i, j) in locs ==>
            r.mineField[i][j] == Mine)
      && (forall i, j :: InBounds(s.fieldSize.width, s.fieldSize.height, i, j) && (i, j) !in locs ==>
            r.mineField[i][j] == AdjacentCount(locs, (i, j)) && 0 <= r.mineField[i][j] <= 8)
      && (forall i, j :: InBounds(s.fieldSize.width, s.fieldSize.height, i, j) ==> !r.maskLayer[i][j])
  {
    var w, h := s.fieldSize.width, s.fieldSize.height;
    assert forall k :: 0 <= k < |locs| ==> CanPlace(ClearState(s), locs[k]);
    FieldTracksMines(ClearState(s), locs);
    var r := PlaceMines(ClearState(s), locs);
    forall i, j | InBounds(w, h, i, j)
      ensures r.mineField[i][j] == if (i, j) in locs then Mine else AdjacentCount(locs, (i, j))
      ensures (i, j) !in locs ==> 0 <= r.mineField[i][j] <= 8
    {
      assert InBounds(RangeLength(w), RangeLength(h), i, j);
      AtMostEightAdjacent(locs, (i, j));
    }
  }

  /** From an all-zero field, placing distinct mines leaves a field consistent with them. */
  lemma {:induction false} FieldTracksMines(s: State, locs: seq<Loc>)
    requires FieldShaped(s)
    requires forall x, y :: InBounds(s.fieldSize.width, s.fieldSize.height, x, y) ==> s.mineField[x][y] == 0
    requires forall k :: 0 <= k < |locs| ==> CanPlace(s, locs[k])
    requires Distinct(locs)
    ensures Consistent(PlaceMines(s, locs).mineField,
      RangeLength(s.fieldSize.width), RangeLength(s.fieldSize.height), locs)
    decreases |locs|
  {
    var w, h := RangeLength(s.fieldSize.width), RangeLength(s.fieldSize.height);
    if |locs| == 0 {
      assert Consistent(s.mineField, w, h, []);
    } else {
      var pre := locs[..|locs| - 1];
      var p := locs[|locs| - 1];
      assert CanPlace(s, p);
      assert locs == pre + [p];
      assert p !in pre;
      FieldTracksMines(s, pre);
      PlacementKeepsConsistent(PlaceMines(s, pre).mineField, w, h, pre, p);
    }
  }

  /** Clearing forgets every placement: whatever mines were placed, clearing afterwards gives
      the same state as clearing before, and clearing twice is clearing once. */
  lemma ClearForgetsPlacements(s: State, locs: seq<Loc>)
    requires FieldShaped(s)
    requires forall k :: 0 <= k < |locs| ==> CanPlace(s, locs[k])
    ensures ClearState(PlaceMines(s, locs)) == ClearState(s)
    ensures ClearState(ClearState(s)) == ClearState(s)
  {
  }

  /** The size the game reports never changes: not by clearing, placing mines or stopping. */
  lemma SizeIsStable(fieldSize: Size, mineCount: int, locs: seq<Loc>)
    requires forall k :: 0 <= k < |locs| ==> CanPlace(New(fieldSize, mineCount), locs[k])
    ensures var s := New(fieldSize, mineCount);
      && GetSize(s) == fieldSize
      && GetSize(PlaceMines(s, locs)) == fieldSize
      && GetSize(ClearState(PlaceMines(s, locs))) == fieldSize
      && GetSize(Stop(PlaceMines(s, locs))) == fieldSize
  {
  }

  /** Stopping twice is stopping once, and stopping commutes with placing a mine. */
  lemma StopIdempotent(s: State, loc: Loc)
    requires FieldShaped(s) && CanPlace(s, loc)
    ensures Stop(Stop(s)) == Stop(s)
    ensures Stop(PlaceMine(s, loc)) == PlaceMine(Stop(s), loc)
  {
  }

  /** Why the mines must be distinct: placing a mine twice on the same cell of a cleared board
      leaves every neighbour of it holding 2, although only one distinct mine is adjacent to it. */
  lemma RepeatedPlacementOvercounts(s: State, p: Loc, c: Loc)
    requires CanPlace(s, p) && InBounds(s.fieldSize.width, s.fieldSize.height, c.0, c.1)
    requires Adjacent(c, p)
    ensures CanPlace(ClearState(s), p)
    ensures PlaceMine(PlaceMine(ClearState(s), p), p).mineField[c.0][c.1] == 2
    ensures |AdjacentMines([p, p], c)| == 1
  {
    var once := PlaceMine(ClearState(s), p);
    assert once.mineField[c.0][c.1] == 1;
    assert PlaceMine(once, p).mineField[c.0][c.1] == 2;
    OneDistinctMine(p, c);
  }

  /** A mine listed twice is still one adjacent mine. */
  lemma OneDistinctMine(p: Loc, c: Loc)
    requires Adjacent(p, c)
    ensures AdjacentMines([p, p], c) == {p}
  {
  }
}
