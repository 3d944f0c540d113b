/**
 * The smallest search of the test suite, worked out: a 2x2 maze without
 * walls, from the top-left cell to the bottom-right one, with exact
 * Euclidean distances.
 */
module Example {
  import opened Grid
  import opened Neighbors
  import opened OpenSet
  import opened Path
  import opened SearchSpec

  /** distanceBetween as an exact real: the non-negative root of the squared coordinate differences. */
  ghost predicate Euclidean(dist: (Coord, Coord) -> real) {
    forall a: Coord, b: Coord ::
      dist(a, b) >= 0.0
      && dist(a, b) * dist(a, b) == ((a.x - b.x) * (a.x - b.x) + (a.y - b.y) * (a.y - b.y)) as real
  }

  const OpenTwoByTwo: Maze := [[false, false], [false, false]]

  /** Squaring is strictly increasing on the non-negative reals. */
  lemma SquareOrder(x: real, y: real)
    requires 0.0 <= x && 0.0 <= y
    ensures x < y ==> x * x < y * y
  {
    if x < y {
      assert y * y - x * x == (y - x) * (y + x);
      PositiveProduct(y - x, y + x);
    }
  }

  lemma PositiveProduct(p: real, q: real)
    requires p > 0.0 && q > 0.0
    ensures p * q > 0.0
  {
  }

  lemma RootOfZero(x: real)
    requires x >= 0.0 && x * x == 0.0
    ensures x == 0.0
  {
    SquareOrder(0.0, x);
  }

  lemma RootOfOne(x: real)
    requires x >= 0.0 && x * x == 1.0
    ensures x == 1.0
  {
    SquareOrder(x, 1.0);
    SquareOrder(1.0, x);
  }

  /** The diagonal step, the square root of 2, lies strictly between 1 and 2. */
  lemma RootOfTwo(x: real)
    requires x >= 0.0 && x * x == 2.0
    ensures 1.0 < x < 2.0
  {
    SquareOrder(x, 1.0);
    SquareOrder(2.0, x);
  }

  /** The neighbour list of the top-left cell: right, below, diagonal. */
  lemma CornerNeighbors(cfg: Config, st: State)
    requires cfg.start == Coord(0, 0) && cfg.goal == Coord(1, 1)
    requires IsInitial(cfg, OpenTwoByTwo, st)
    ensures NeighborsOf(st.nodes, Coord(0, 0)) == [Coord(0, 1), Coord(1, 0), Coord(1, 1)]
  {
    var g := st.nodes;
    var s := Coord(0, 0);
    var ns := [Coord(0, 1), Coord(1, 0), Coord(1, 1)];
    assert InGrid(OpenTwoByTwo, Coord(0, 1)) && InGrid(OpenTwoByTwo, Coord(1, 0)) && InGrid(OpenTwoByTwo, Coord(1, 1));
    assert At(g, s).Node?;
    forall d | Admissible(g, s, d) ensures d in ns {
      assert InGrid(g, d);
    }
    assert IsNeighborList(g, s, ns);
    NeighborListUnique(g, s, ns, At(g, s).neighbors);
  }

  /** The distances the 2x2 search uses: side steps cost 1, the diagonal lies strictly between 1 and 2, staying costs 0. */
  lemma TwoByTwoDistances(dist: (Coord, Coord) -> real)
    requires Euclidean(dist)
    ensures dist(Coord(0, 0), Coord(0, 1)) == 1.0 && dist(Coord(0, 0), Coord(1, 0)) == 1.0
    ensures dist(Coord(0, 1), Coord(1, 1)) == 1.0 && dist(Coord(1, 0), Coord(1, 1)) == 1.0
    ensures 1.0 < dist(Coord(0, 0), Coord(1, 1)) < 2.0 && dist(Coord(1, 1), Coord(1, 1)) == 0.0
  {
    RootOfOne(dist(Coord(0, 0), Coord(0, 1)));
    RootOfOne(dist(Coord(0, 0), Coord(1, 0)));
    RootOfOne(dist(Coord(0, 1), Coord(1, 1)));
    RootOfOne(dist(Coord(1, 0), Coord(1, 1)));
    RootOfTwo(dist(Coord(0, 0), Coord(1, 1)));
    RootOfZero(dist(Coord(1, 1), Coord(1, 1)));
  }

  /** The state after the first call of the 2x2 search. */
  ghost predicate AfterFirstCall(cfg: Config, st: State) {
    var s, a, b, t := Coord(0, 0), Coord(0, 1), Coord(1, 0), Coord(1, 1);
    st.open == [a, b, t] && st.closed == {s} && !st.finished
    && FScore(st.nodes, a) == Finite(2.0) && FScore(st.nodes, b) == Finite(2.0)
    && FScore(st.nodes, t) == Finite(cfg.dist(s, t))
    && Parent(st.nodes, t) == Some(s) && Parent(st.nodes, s) == None
  }

  /** The facts about the initial 2x2 state the first call depends on. */
  ghost predicate TwoByTwoStart(cfg: Config, st: State) {
    var s, a, b, t := Coord(0, 0), Coord(0, 1), Coord(1, 0), Coord(1, 1);
    var g := st.nodes;
    st.open == [s] && st.closed == {} && !st.finished
    && At(g, s).Node? && At(g, a).Node? && At(g, b).Node? && At(g, t).Node?
    && GScore(g, s) == Finite(0.0) && FScore(g, s) == Finite(cfg.dist(s, t)) && Parent(g, s) == None
    && NeighborsOf(g, s) == [a, b, t]
  }

  lemma InitialTwoByTwo(cfg: Config, st: State)
    requires cfg.start == Coord(0, 0) && cfg.goal == Coord(1, 1)
    requires IsInitial(cfg, OpenTwoByTwo, st)
    ensures TwoByTwoStart(cfg, st)
  {
    var s, a, b, t := Coord(0, 0), Coord(0, 1), Coord(1, 0), Coord(1, 1);
    CornerNeighbors(cfg, st);
    assert InGrid(OpenTwoByTwo, s) && InGrid(OpenTwoByTwo, a) && InGrid(OpenTwoByTwo, b) && InGrid(OpenTwoByTwo, t);
  }

  /** The first call expands the start: its three neighbours enter the open list. */
  lemma FirstCall(cfg: Config, st: State)
    requires cfg.start == Coord(0, 0) && cfg.goal == Coord(1, 1) && Euclidean(cfg.dist)
    requires TwoByTwoStart(cfg, st)
    ensures Next(cfg, st).0.Snapshot? && AfterFirstCall(cfg, Next(cfg, st).1)
  {
    var s, a, b, t := Coord(0, 0), Coord(0, 1), Coord(1, 0), Coord(1, 1);
    var g := st.nodes;
    var d := cfg.dist(s, t);
    assert Scores(g, [s]) == [Finite(d)];
    assert LowestIndex([Finite(d)]) == Some(0);
    assert [s][..0] + [s][1..] == [];
    assert TakeLowest(g, [s]) == (Some(s), []);
    assert st.closed + {s} == {s};
    NextExpands(cfg, st);
    FirstRelax(cfg, st.(open := [], closed := {s}));
  }

  /** The neighbour loop of the first call, over right, below and diagonal. */
  lemma FirstRelax(cfg: Config, st1: State)
    requires cfg.start == Coord(0, 0) && cfg.goal == Coord(1, 1) && Euclidean(cfg.dist)
    requires var s, a, b, t := Coord(0, 0), Coord(0, 1), Coord(1, 0), Coord(1, 1);
      var g := st1.nodes;
      st1.open == [] && st1.closed == {s} && !st1.finished
      && At(g, a).Node? && At(g, b).Node? && At(g, t).Node?
      && GScore(g, s) == Finite(0.0) && Parent(g, s) == None
    ensures AfterFirstCall(cfg, RelaxAll(cfg, st1, Coord(0, 0), [Coord(0, 1), Coord(1, 0), Coord(1, 1)]))
  {
    var s, a, b, t := Coord(0, 0), Coord(0, 1), Coord(1, 0), Coord(1, 1);
    TwoByTwoDistances(cfg.dist);
    var r1 := Relax(cfg, st1, s, a);
    assert r1.open == [a] && FScore(r1.nodes, a) == Finite(2.0);
    var r2 := Relax(cfg, r1, s, b);
    assert IndexOf([a], b) == -1;
    assert r2.open == [a, b] && FScore(r2.nodes, a) == Finite(2.0) && FScore(r2.nodes, b) == Finite(2.0);
    var r3 := Relax(cfg, r2, s, t);
    assert IndexOf([a, b], t) == -1;
    assert AfterFirstCall(cfg, r3);
    assert RelaxAll(cfg, st1, s, [a]) == r1 by {
      assert [a][..0] == [];
    }
    assert RelaxAll(cfg, st1, s, [a, b]) == r2 by {
      assert [a, b][..1] == [a];
    }
    assert RelaxAll(cfg, st1, s, [a, b, t]) == r3 by {
      assert [a, b, t][..2] == [a, b];
    }
  }

  /** The second call takes the goal, whose fScore is the least, and reports the diagonal path. */
  lemma SecondCall(cfg: Config, st: State)
    requires cfg.start == Coord(0, 0) && cfg.goal == Coord(1, 1) && Euclidean(cfg.dist)
    requires AfterFirstCall(cfg, st)
    ensures Next(cfg, st).0 == Result(Coord(0, 0), Coord(1, 1), {Coord(0, 0), Coord(1, 1)}, true)
  {
    var s, a, b, t := Coord(0, 0), Coord(0, 1), Coord(1, 0), Coord(1, 1);
    TwoByTwoDistances(cfg.dist);
    var d := cfg.dist(s, t);
    var fs := Scores(st.nodes, [a, b, t]);
    assert fs == [Finite(2.0), Finite(2.0), Finite(d)];
    assert fs[..1] == [Finite(2.0)] && fs[..2] == [Finite(2.0), Finite(2.0)];
    assert LowestIndex(fs[..1]) == Some(0);
    assert LowestIndex(fs[..2]) == Some(0);
    assert LowestIndex(fs) == Some(2);
    assert TakeLowest(st.nodes, [a, b, t]).0 == Some(t);
    assert Chain(st.nodes, t, 2) == [t, s];
    assert Elements([t, s]) == {s, t};
  }

  /**
   * The 2x2 test case: the search expands the start, then takes the goal,
   * whose diagonal fScore (the square root of 2) beats the fScore 2 of the
   * two side cells, and reports success with the path {0,0; 1,1}.
   */
  lemma TwoByTwo(cfg: Config, st: State)
    requires cfg.start == Coord(0, 0) && cfg.goal == Coord(1, 1) && Euclidean(cfg.dist)
    requires IsInitial(cfg, OpenTwoByTwo, st)
    ensures Inv(cfg, st)
    ensures Run(cfg, st) == Result(Coord(0, 0), Coord(1, 1), {Coord(0, 0), Coord(1, 1)}, true)
  {
    InitialInv(cfg, OpenTwoByTwo, st);
    InitialTwoByTwo(cfg, st);
    FirstCall(cfg, st);
    NextInv(cfg, st);
    SecondCall(cfg, Next(cfg, st).1);
  }
}
