/**
 * Neighbour precomputation: every open node gets the list of the surrounding
 * cells (the Moore neighbourhood) that lie inside the grid and are not walls,
 * scanned row by row and column by column.
 */
module Neighbors {
  import opened Grid

  /** `d` may stand in the neighbour list of `c`: an in-grid non-wall cell at Chebyshev distance 1. */
  predicate Admissible(g: Arena, c: Coord, d: Coord) {
    Adjacent(c, d) && At(g, d).Node?
  }

  /** The scan order: rows first, then columns. */
  predicate LexLess(a: Coord, b: Coord) {
    a.x < b.x || (a.x == b.x && a.y < b.y)
  }

  predicate StrictlySorted(s: seq<Coord>) {
    forall i, j :: 0 <= i < j < |s| ==> LexLess(s[i], s[j])
  }

  /**
   * `ns` is the neighbour list of `c`: exactly the admissible cells, each once,
   * in scan order.
   */
  ghost predicate IsNeighborList(g: Arena, c: Coord, ns: seq<Coord>) {
    (forall k :: 0 <= k < |ns| ==> Admissible(g, c, ns[k]))
    && (forall d :: Admissible(g, c, d) ==> d in ns)
    && StrictlySorted(ns)
  }

  /** Two strictly sorted sequences with the same elements are equal. */
  lemma {:induction false} SortedUnique(a: seq<Coord>, b: seq<Coord>)
    requires StrictlySorted(a) && StrictlySorted(b)
    requires forall d :: d in a <==> d in b
    ensures a == b
  {
    assert a != [] ==> a[0] in b;
    assert b != [] ==> b[0] in a;
    if a != [] && b != [] {
      assert a[0] == b[0];
      forall d ensures d in a[1..] <==> d in b[1..] {
        if d in a[1..] {
          assert d in b;
          assert d != b[0];
        }
        if d in b[1..] {
          assert d in a;
          assert d != a[0];
        }
      }
      SortedUnique(a[1..], b[1..]);
      assert a == [a[0]] + a[1..];
      assert b == [b[0]] + b[1..];
    }
  }

  /** The neighbour list of a cell is determined by the walls alone. */
  lemma NeighborListUnique(g: Arena, c: Coord, a: seq<Coord>, b: seq<Coord>)
    requires IsNeighborList(g, c, a) && IsNeighborList(g, c, b)
    ensures a == b
  {
    forall d ensures d in a <==> d in b {
      if d in a {
        var k :| 0 <= k < |a| && a[k] == d;
        assert Admissible(g, c, a[k]);
      }
      if d in b {
        var k :| 0 <= k < |b| && b[k] == d;
        assert Admissible(g, c, b[k]);
      }
    }
    SortedUnique(a, b);
  }

  /** Neighbour lists depend on the walls alone: arenas with the same walls share them. */
  lemma NeighborListTransfer(g: Arena, h: Arena, c: Coord, ns: seq<Coord>)
    requires forall d :: At(g, d).Node? <==> At(h, d).Node?
    requires IsNeighborList(g, c, ns)
    ensures IsNeighborList(h, c, ns)
  {
    assert forall d :: Admissible(g, c, d) <==> Admissible(h, c, d);
  }

  /**
   * The body of the per-node callback of calculateNeighbors: scan the 3x3 block
   * around `c`, skip `c` itself, out-of-bounds cells and walls.
   */
  method NeighborList(g: Arena, c: Coord) returns (ns: seq<Coord>)
    requires Rectangular(g)
    ensures IsNeighborList(g, c, ns)
  {
    ns := [];
    var i := c.x - 1;
    while i <= c.x + 1
      invariant c.x - 1 <= i <= c.x + 2
      invariant forall k :: 0 <= k < |ns| ==> Admissible(g, c, ns[k]) && ns[k].x < i
      invariant forall d :: Admissible(g, c, d) && d.x < i ==> d in ns
      invariant StrictlySorted(ns)
    {
      var j := c.y - 1;
      while j <= c.y + 1
        invariant c.y - 1 <= j <= c.y + 2
        invariant forall k :: 0 <= k < |ns| ==> Admissible(g, c, ns[k]) && LexLess(ns[k], Coord(i, j))
        invariant forall d :: Admissible(g, c, d) && LexLess(d, Coord(i, j)) ==> d in ns
        invariant StrictlySorted(ns)
      {
        if !(i == c.x && j == c.y) {
          // the bounds test reads the first row's length, as the grid is rectangular
          if 0 <= i < |g| && 0 <= j < |g[0]| {
            var neighbor := g[i][j];
            if !neighbor.Wall? {
              assert At(g, Coord(i, j)) == neighbor;
              ns := ns + [Coord(i, j)];
            }
          }
        }
        assert !Admissible(g, c, Coord(i, j)) ==> Coord(i, j) !in ns;
        j := j + 1;
      }
      i := i + 1;
    }
  }

  /**
   * Node `c` of `r` is node `c` of `g` with its neighbour list extended by the
   * neighbour list of `c`; walls stay walls.
   */
  ghost predicate NeighborsAdded(g: Arena, r: Arena, c: Coord) {
    (At(g, c).Wall? ==> At(r, c) == Wall)
    && (At(g, c).Node? ==>
          At(r, c).Node?
          && At(r, c) == At(g, c).(neighbors := At(r, c).neighbors)
          && |At(g, c).neighbors| <= |At(r, c).neighbors|
          && At(r, c).neighbors[..|At(g, c).neighbors|] == At(g, c).neighbors
          && IsNeighborList(g, c, At(r, c).neighbors[|At(g, c).neighbors|..]))
  }

  /**
   * calculateNeighbors: visit every cell; for every non-wall node, append its
   * neighbour list. Walls are untouched; the walls that decide the lists never
   * change during the pass, so the lists are computed against the input arena.
   */
  method CalculateNeighbors(g: Arena) returns (r: Arena)
    requires Rectangular(g)
    ensures SameShape(g, r)
    ensures forall c :: NeighborsAdded(g, r, c)
  {
    r := g;
    var x := 0;
    while x < |g|
      invariant 0 <= x <= |g|
      invariant SameShape(g, r)
      invariant forall c: Coord :: c.x < x ==> NeighborsAdded(g, r, c)
      invariant forall c: Coord :: c.x >= x ==> At(r, c) == At(g, c)
    {
      var y := 0;
      while y < |g[x]|
        invariant 0 <= y <= |g[x]|
        invariant SameShape(g, r)
        invariant forall c: Coord :: (c.x < x || (c.x == x && c.y < y)) ==> NeighborsAdded(g, r, c)
        invariant forall c: Coord :: (c.x > x || (c.x == x && c.y >= y)) ==> At(r, c) == At(g, c)
      {
        var c := Coord(x, y);
        var ele := r[x][y];
        assert ele == At(g, c);
        if !ele.Wall? {
          var ns := NeighborList(g, c);
          var updated := ele.(neighbors := ele.neighbors + ns);
          assert updated.neighbors[|ele.neighbors|..] == ns;
          r := Update(r, c, updated);
        }
        y := y + 1;
      }
      x := x + 1;
    }
    forall c ensures NeighborsAdded(g, r, c) {
      if !InGrid(g, c) {
        assert At(g, c) == Wall && At(r, c) == Wall;
      }
    }
  }
}
