/** The edge-clamped neighbour indices `place_mine` computes along one axis. */
module Neighbours {
  import opened Grid

  /** The tuple place_mine builds for coordinate c on an axis of length n: (c-1, c, c+1) away from
      both edges, (c, c+1) when c is below 1, (c-1, c) when c is above n-2. */
  function AxisNeighbours(c: int, n: int): (r: seq<int>)
    ensures c in r
    ensures 2 <= |r| <= 3
    ensures Distinct(r)
    ensures forall k :: 0 < k < |r| ==> r[k] == r[k - 1] + 1
    ensures forall i :: i in r ==> c - 1 <= i <= c + 1
  {
    if !(c < 1 || c > n - 2) then [c - 1, c, c + 1]
    else if c < 1 then [c, c + 1]
    else [c - 1, c]
  }

  function Max(a: int, b: int): int { if a < b then b else a }

  function Min(a: int, b: int): int { if a < b then a else b }

  /** The integers lo, lo+1, ..., hi in increasing order. */
  function Interval(lo: int, hi: int): (r: seq<int>)
    requires lo <= hi + 1
    ensures |r| == hi - lo + 1
    ensures forall k :: 0 <= k < |r| ==> r[k] == lo + k
  {
    seq(hi - lo + 1, k => lo + k)
  }

  /** On an axis at least two long, the tuple for an in-range coordinate is exactly the clamped
      window max(0, c-1) .. min(n-1, c+1): every index it names is in range, and it names every
      in-range index at distance at most one from c. */
  lemma AxisNeighboursClamped(c: int, n: int)
    requires 2 <= n && 0 <= c < n
    ensures AxisNeighbours(c, n) == Interval(Max(0, c - 1), Min(n - 1, c + 1))
    ensures forall i :: i in AxisNeighbours(c, n) <==> 0 <= i < n && c - 1 <= i <= c + 1
  {
  }

  /** For an in-range coordinate, every index of the tuple stays inside the axis exactly when the
      axis is at least two long: on a one-wide axis the tuple for 0 is (0, 1), and 1 is past the end. */
  lemma AxisNeighboursInRangeIff(c: int, n: int)
    requires 0 <= c < n
    ensures (forall i :: i in AxisNeighbours(c, n) ==> 0 <= i < n) <==> 2 <= n
  {
    if n < 2 {
      assert AxisNeighbours(c, n) == [0, 1];
      assert 1 in AxisNeighbours(c, n);
    } else {
      AxisNeighboursClamped(c, n);
    }
  }
}
