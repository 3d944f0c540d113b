/**
 * The grid model of the A* engine: cell positions, path costs, the node record
 * every grid cell becomes, and the node arena indexed by position.
 */
module Grid {

  datatype Option<T> = None | Some(value: T)

  /** A cell position: `x` indexes the rows of the maze, `y` the cells inside a row. */
  datatype Coord = Coord(x: int, y: int)

  /** A path cost; `Infinite` is the unset value every node starts with. */
  datatype Score = Infinite | Finite(value: real)

  /**
   * A grid node. A wall cell becomes the sentinel `Wall`; an open cell keeps its
   * position, its cost from the start (`gScore`), its estimated total cost
   * (`fScore`), its predecessor on the best known path and its neighbour list.
   */
  datatype Node =
    | Wall
    | Node(x: int, y: int, gScore: Score, fScore: Score, cameFrom: Option<Coord>, neighbors: seq<Coord>)

  /** The raw input grid: `true` marks a wall, `false` an open cell. */
  type Maze = seq<seq<bool>>

  /** The node arena: one node per cell, indexed like the maze. */
  type Arena = seq<seq<Node>>

  predicate Rectangular<T>(m: seq<seq<T>>) {
    forall x :: 0 <= x < |m| ==> |m[x]| == |m[0]|
  }

  predicate InGrid<T>(m: seq<seq<T>>, c: Coord) {
    0 <= c.x < |m| && 0 <= c.y < |m[c.x]|
  }

  predicate SameShape<A, B>(m: seq<seq<A>>, n: seq<seq<B>>) {
    |m| == |n| && forall x :: 0 <= x < |m| ==> |m[x]| == |n[x]|
  }

  /** Two cells at Chebyshev distance exactly 1 (the eight surrounding cells). */
  predicate Adjacent(c: Coord, d: Coord) {
    c != d && -1 <= c.x - d.x <= 1 && -1 <= c.y - d.y <= 1
  }

  /** The node at `c`; positions outside the grid read as walls. */
  function At(g: Arena, c: Coord): Node {
    if InGrid(g, c) then g[c.x][c.y] else Wall
  }

  /** The predecessor recorded at `c` (none for walls). */
  function Parent(g: Arena, c: Coord): Option<Coord> {
    if At(g, c).Node? then At(g, c).cameFrom else None
  }

  function GScore(g: Arena, c: Coord): Score {
    if At(g, c).Node? then At(g, c).gScore else Infinite
  }

  function FScore(g: Arena, c: Coord): Score {
    if At(g, c).Node? then At(g, c).fScore else Infinite
  }

  /** The arena with the node at `c` replaced by `n`; nothing else moves. */
  function Update(g: Arena, c: Coord, n: Node): (r: Arena)
    ensures SameShape(g, r)
    ensures forall d :: At(r, d) == if d == c && InGrid(g, c) then n else At(g, d)
  {
    if InGrid(g, c) then g[c.x := g[c.x][c.y := n]] else g
  }

  /** The positions of the non-wall nodes. */
  function NodeCells(g: Arena): set<Coord> {
    set x, y | 0 <= x < |g| && 0 <= y < |g[x]| && g[x][y].Node? :: Coord(x, y)
  }

  lemma NodeCellsMember(g: Arena, c: Coord)
    ensures c in NodeCells(g) <==> At(g, c).Node?
  {
    if At(g, c).Node? {
      assert Coord(c.x, c.y) == c;
    }
  }

  /** Two arenas with the same shape and the same walls have the same node cells. */
  lemma NodeCellsSame(g: Arena, h: Arena)
    requires SameShape(g, h)
    requires forall c :: At(g, c).Node? <==> At(h, c).Node?
    ensures NodeCells(g) == NodeCells(h)
  {
    forall c | c in NodeCells(g) ensures c in NodeCells(h) {
      NodeCellsMember(g, c);
      NodeCellsMember(h, c);
    }
    forall c | c in NodeCells(h) ensures c in NodeCells(g) {
      NodeCellsMember(g, c);
      NodeCellsMember(h, c);
    }
  }

  /** Two arenas of the same shape that agree at every position are equal. */
  lemma ArenaExt(g: Arena, h: Arena)
    requires SameShape(g, h)
    requires forall c :: At(g, c) == At(h, c)
    ensures g == h
  {
    forall x | 0 <= x < |g| ensures g[x] == h[x] {
      forall y | 0 <= y < |g[x]| ensures g[x][y] == h[x][y] {
        assert At(g, Coord(x, y)) == At(h, Coord(x, y));
      }
    }
  }

  /**
   * nodesFromMaze: every cell becomes a node; a wall cell becomes the wall
   * sentinel, an open cell a node at its own position with unset scores, no
   * predecessor and no neighbours yet.
   */
  function NodesFromMaze(maze: Maze): (g: Arena)
    ensures SameShape(maze, g)
    ensures forall c :: InGrid(maze, c) ==> (At(g, c).Wall? <==> maze[c.x][c.y])
    ensures forall c :: At(g, c).Node? ==>
              At(g, c) == Node(c.x, c.y, Infinite, Infinite, None, [])
  {
    seq(|maze|, x requires 0 <= x < |maze| =>
      seq(|maze[x]|, y requires 0 <= y < |maze[x]| =>
        if maze[x][y] then Wall else Node(x, y, Infinite, Infinite, None, [])))
  }
}
