/**
 * The neighbour assignment of `Individual::new` (src/lib.rs:97-128): a guarded match over the
 * cell's location against the last column `w = width - 1` and the last row `h = height - 1`.
 */
module Topology {
  import opened Ints
  import opened Wrappers

  /** A lattice coordinate, x (column) then y (row). */
  datatype Point = Point(x: u32, y: u32)

  /** The cell lies on a lattice whose last column is w and last row is h. */
  predicate InGrid(p: Point, w: u32, h: u32)
  {
    p.x <= w && p.y <= h
  }

  function Abs(n: int): nat
  {
    if n < 0 then -n else n
  }

  /** Manhattan distance 1: the two cells share a side. */
  predicate Adjacent(p: Point, q: Point)
  {
    Abs(p.x as int - q.x as int) + Abs(p.y as int - q.y as int) == 1
  }

  predicate IsCorner(p: Point, w: u32, h: u32)
  {
    (p.x == 0 || p.x == w) && (p.y == 0 || p.y == h)
  }

  predicate OnBorder(p: Point, w: u32, h: u32)
  {
    p.x == 0 || p.x == w || p.y == 0 || p.y == h
  }

  predicate NoDuplicates(ps: seq<Point>)
  {
    forall i, j :: 0 <= i < j < |ps| ==> ps[i] != ps[j]
  }

  /** The list is exactly the in-grid cells sharing a side with p, each once. */
  ghost predicate IsNeighborhood(ps: seq<Point>, p: Point, w: u32, h: u32)
  {
    NoDuplicates(ps) && forall q: Point :: q in ps <==> InGrid(q, w, h) && Adjacent(p, q)
  }

  /**
   * The match at src/lib.rs:100-128, arm for arm and in the same order, with the literal 9 and 8
   * of the (0,h) and (w,0) corners. None stands for a u32 subtraction that underflows, which
   * panics: it happens only in the (w,h) arm when exactly one of w and h is 0.
   */
  function NeighborMatch(loc: Point, w: u32, h: u32): Option<seq<Point>>
  {
    var x, y := loc.x, loc.y;
    if x == 0 && y == 0 then Some([Point(0, 1), Point(1, 0)])
    else if x == w && y == h then
      if h == 0 || w == 0 then None else Some([Point(w, h - 1), Point(w - 1, h)])
    else if x == 0 && y == h then Some([Point(0, h - 1), Point(1, 9)])
    else if x == w && y == 0 then Some([Point(9, 1), Point(8, 0)])
    else if x == 0 && y < h then Some([Point(0, y - 1), Point(0, y + 1), Point(1, y)])
    else if x == w && y < h then Some([Point(w, y - 1), Point(w, y + 1), Point(w - 1, y)])
    else if x < w && y == 0 then Some([Point(x - 1, 0), Point(x + 1, 0), Point(x, 1)])
    else if x < w && y == h then Some([Point(x - 1, h), Point(x + 1, h), Point(x, h - 1)])
    else if x < w && y < h then
      Some([Point(x, y - 1), Point(x, y + 1), Point(x - 1, y), Point(x + 1, y)])
    else Some([])
  }

  /** `Individual::new` first computes `height - 1` and `width - 1` (src/lib.rs:97-98), which panic on 0. */
  function NeighborsOf(loc: Point, width: u32, height: u32): Option<seq<Point>>
  {
    if width == 0 || height == 0 then None else NeighborMatch(loc, width - 1, height - 1)
  }

  /** The same match with the (0,h) and (w,0) corners derived from w and h like the other two. */
  function NeighborsIntended(loc: Point, w: u32, h: u32): Option<seq<Point>>
  {
    var x, y := loc.x, loc.y;
    if x == 0 && y == 0 then Some([Point(0, 1), Point(1, 0)])
    else if x == w && y == h then
      if h == 0 || w == 0 then None else Some([Point(w, h - 1), Point(w - 1, h)])
    else if x == 0 && y == h then Some([Point(0, h - 1), Point(1, h)])
    else if x == w && y == 0 then Some([Point(w, 1), Point(w - 1, 0)])
    else if x == 0 && y < h then Some([Point(0, y - 1), Point(0, y + 1), Point(1, y)])
    else if x == w && y < h then Some([Point(w, y - 1), Point(w, y + 1), Point(w - 1, y)])
    else if x < w && y == 0 then Some([Point(x - 1, 0), Point(x + 1, 0), Point(x, 1)])
    else if x < w && y == h then Some([Point(x - 1, h), Point(x + 1, h), Point(x, h - 1)])
    else if x < w && y < h then
      Some([Point(x, y - 1), Point(x, y + 1), Point(x - 1, y), Point(x + 1, y)])
    else Some([])
  }

  // ---------------------------------------------------------------------------------------------
  // What holds for every lattice

  /** The match panics exactly at the far corner of a lattice one cell wide or one cell high, but not both. */
  lemma MatchUndefinedIff(loc: Point, w: u32, h: u32)
    ensures NeighborMatch(loc, w, h).None? <==> loc == Point(w, h) && (w == 0) != (h == 0)
  {
  }

  /** The empty fallback of src/lib.rs:127 is reached exactly for cells outside the lattice. */
  lemma EmptyIffOutOfGrid(loc: Point, w: u32, h: u32)
    ensures NeighborMatch(loc, w, h) == Some([]) <==> !InGrid(loc, w, h)
  {
  }

  /** On a lattice of at least 2 x 2 every cell gets a list: 2 at corners, 3 on edges, 4 inside, without repeats. */
  lemma NeighborCount(loc: Point, w: u32, h: u32)
    requires 1 <= w && 1 <= h && InGrid(loc, w, h)
    ensures NeighborMatch(loc, w, h).Some?
    ensures |NeighborMatch(loc, w, h).value| ==
              if IsCorner(loc, w, h) then 2 else if OnBorder(loc, w, h) then 3 else 4
    ensures NoDuplicates(NeighborMatch(loc, w, h).value)
  {
  }

  /** Away from the two hard-coded corners, the match lists exactly the cells sharing a side. */
  lemma MatchIsNeighborhood(loc: Point, w: u32, h: u32)
    requires 1 <= w && 1 <= h && InGrid(loc, w, h)
    requires loc != Point(0, h) && loc != Point(w, 0)
    ensures NeighborMatch(loc, w, h).Some?
    ensures IsNeighborhood(NeighborMatch(loc, w, h).value, loc, w, h)
  {
    NeighborCount(loc, w, h);
    NeighborsIntendedExact(loc, w, h);
  }

  /** The (0,h) corner is right exactly when the lattice is 10 high. */
  lemma BottomLeftCornerIff(w: u32, h: u32)
    requires 1 <= w && 1 <= h
    ensures NeighborMatch(Point(0, h), w, h).Some?
    ensures IsNeighborhood(NeighborMatch(Point(0, h), w, h).value, Point(0, h), w, h) <==> h == 9
  {
    var ps := NeighborMatch(Point(0, h), w, h).value;
    if h == 9 {
      NeighborsIntendedExact(Point(0, h), w, h);
    } else {
      assert Point(1, 9) in ps && !Adjacent(Point(0, h), Point(1, 9));
    }
  }

  /** The (w,0) corner is right exactly when the lattice is 10 wide. */
  lemma TopRightCornerIff(w: u32, h: u32)
    requires 1 <= w && 1 <= h
    ensures NeighborMatch(Point(w, 0), w, h).Some?
    ensures IsNeighborhood(NeighborMatch(Point(w, 0), w, h).value, Point(w, 0), w, h) <==> w == 9
  {
    var ps := NeighborMatch(Point(w, 0), w, h).value;
    if w == 9 {
      NeighborsIntendedExact(Point(w, 0), w, h);
    } else {
      assert Point(9, 1) in ps && !Adjacent(Point(w, 0), Point(9, 1));
    }
  }

  /** On a 3 x 3 lattice the (0,2) corner lists (1,9), which lies outside the lattice. */
  lemma ThreeByThreeCornerEscapes()
    ensures NeighborMatch(Point(0, 2), 2, 2) == Some([Point(0, 1), Point(1, 9)])
    ensures !InGrid(Point(1, 9), 2, 2)
  {
  }

  // ---------------------------------------------------------------------------------------------
  // What holds only on the 10 x 10 lattice, and the corrected corners

  /** With w = h = 9 the literal corners coincide with the symmetric ones, for every location. */
  lemma TenByTenAgrees(loc: Point)
    ensures NeighborMatch(loc, 9, 9) == NeighborsIntended(loc, 9, 9)
  {
  }

  /** The corrected match lists exactly the side-sharing cells, for every cell of every lattice of at least 2 x 2. */
  lemma NeighborsIntendedExact(loc: Point, w: u32, h: u32)
    requires 1 <= w && 1 <= h && InGrid(loc, w, h)
    ensures NeighborsIntended(loc, w, h).Some?
    ensures IsNeighborhood(NeighborsIntended(loc, w, h).value, loc, w, h)
  {
    var ps := NeighborsIntended(loc, w, h).value;
    forall q: Point
      ensures q in ps <==> InGrid(q, w, h) && Adjacent(loc, q)
    {
      if InGrid(q, w, h) && Adjacent(loc, q) {
        var dx, dy := q.x as int - loc.x as int, q.y as int - loc.y as int;
        assert (dx == 0 && (dy == 1 || dy == -1)) || (dy == 0 && (dx == 1 || dx == -1));
      }
    }
  }

  /** On the 10 x 10 lattice every listed neighbour of every cell is in the lattice and shares a side. */
  lemma TenByTenNeighborsValid(loc: Point)
    requires InGrid(loc, 9, 9)
    ensures NeighborMatch(loc, 9, 9).Some?
    ensures IsNeighborhood(NeighborMatch(loc, 9, 9).value, loc, 9, 9)
  {
    TenByTenAgrees(loc);
    NeighborsIntendedExact(loc, 9, 9);
  }
}
