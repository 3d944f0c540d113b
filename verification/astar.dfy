/**
 * The search generator returned by aStar: its setup, the body of one next()
 * call (the main loop of aStarGen up to its yield or return), and
 * runToCompletion. The node arena, open list and closed set are fields the
 * methods update in place; each method is proved against the pure step
 * function of the search.
 */
module AStar {
  import opened Grid
  import opened Neighbors
  import opened OpenSet
  import opened Path
  import opened SearchSpec

  /**
   * The setup of aStarGen: after nodesFromMaze and calculateNeighbors, giving
   * the start gScore 0 and fScore its heuristic yields the initial state.
   */
  lemma SetupIsInitial(cfg: Config, maze: Maze, g: Arena)
    requires ValidInput(maze, cfg.start, cfg.goal)
    requires SameShape(NodesFromMaze(maze), g)
    requires forall c :: NeighborsAdded(NodesFromMaze(maze), g, c)
    ensures At(g, cfg.start).Node?
    ensures var n := At(g, cfg.start).(gScore := Finite(0.0), fScore := Finite(Heuristic(cfg, cfg.start)));
      IsInitial(cfg, maze, State(Update(g, cfg.start, n), [cfg.start], {}, false))
  {
    var g0 := NodesFromMaze(maze);
    assert NeighborsAdded(g0, g, cfg.start);
    var n := At(g, cfg.start).(gScore := Finite(0.0), fScore := Finite(Heuristic(cfg, cfg.start)));
    var h := Update(g, cfg.start, n);
    forall c ensures (At(h, c).Node? <==> At(g0, c).Node?) && (InGrid(maze, c) ==> (At(h, c).Wall? <==> maze[c.x][c.y]))
    {
      assert NeighborsAdded(g0, g, c);
    }
    forall c | At(h, c).Node?
      ensures At(h, c) == Node(c.x, c.y,
                               if c == cfg.start then Finite(0.0) else Infinite,
                               if c == cfg.start then Finite(Heuristic(cfg, c)) else Infinite,
                               None, At(h, c).neighbors)
      ensures IsNeighborList(h, c, At(h, c).neighbors)
    {
      assert NeighborsAdded(g0, g, c);
      assert At(g, c).neighbors[0..] == At(g, c).neighbors;
      NeighborListTransfer(g0, h, c, At(g, c).neighbors);
    }
  }

  class Generator {
    const start: Coord
    const goal: Coord
    const dist: (Coord, Coord) -> real
    var nodes: Arena
    var open: seq<Coord>
    var closed: set<Coord>
    var finished: bool

    function Cfg(): Config {
      Config(start, goal, dist)
    }

    function Current(): State
      reads this
    {
      State(nodes, open, closed, finished)
    }

    ghost predicate Valid()
      reads this
    {
      Inv(Cfg(), Current())
    }

    /**
     * aStar(maze): build the node arena, precompute the neighbour lists, put
     * the start in the open list with gScore 0 and fScore its heuristic.
     */
    constructor (maze: Maze, start: Coord, goal: Coord, dist: (Coord, Coord) -> real)
      requires ValidInput(maze, start, goal)
      ensures this.start == start && this.goal == goal && this.dist == dist
      ensures IsInitial(Cfg(), maze, Current())
      ensures Valid()
    {
      this.start := start;
      this.goal := goal;
      this.dist := dist;
      var g := NodesFromMaze(maze);
      assert Rectangular(g) by {
        forall x | 0 <= x < |g| ensures |g[x]| == |g[0]| {
          assert |maze[x]| == |maze[0]|;
        }
      }
      g := CalculateNeighbors(g);
      SetupIsInitial(Config(start, goal, dist), maze, g);
      var startNode := At(g, start).(gScore := Finite(0.0), fScore := Finite(dist(start, goal)));
      nodes := Update(g, start, startNode);
      open := [start];
      closed := {};
      finished := false;
      new;
      InitialInv(Cfg(), maze, Current());
    }

    /**
     * One call of next(): runs the main loop of aStarGen from where it last
     * stopped to its next yield or return.
     */
    method Step() returns (out: Outcome)
      requires Valid()
      modifies this
      ensures Valid()
      ensures (out, Current()) == Next(Cfg(), old(Current()))
      ensures out != Fault
      ensures !out.Snapshot? ==> finished
    {
      ghost var st0 := Current();
      if finished {
        return Idle;
      }
      if |open| == 0 {
        NextInv(Cfg(), st0);
        assert At(nodes, goal).Node?;
        var path := ReconstructPath(nodes, goal, |closed| + 1);
        finished := true;
        out := Result(start, goal, path, false);
        assert (out, Current()) == Next(Cfg(), st0);
        return;
      }
      LowestExists(Cfg(), st0);
      var lowest, rest := RemoveLowest(nodes, open);
      if lowest.None? {
        // the reduce keeps its sentinel only when no open node has a finite
        // fScore, and every open node has one
        assert false;
      }
      open := rest;
      var cur := lowest.value;
      if cur == goal {
        NextInv(Cfg(), st0);
        assert At(nodes, goal).Node?;
        var path := ReconstructPath(nodes, goal, |closed| + 1);
        finished := true;
        out := Result(start, goal, path, true);
        assert (out, Current()) == Next(Cfg(), st0);
        return;
      }
      out := Expand(cur, st0);
    }

    /**
     * The rest of the loop body when the lowest node `cur` is not the goal:
     * close it, relax its neighbours and yield the path back from it. `st0` is
     * the state before the call of next() that took `cur` off the open list.
     */
    method Expand(cur: Coord, ghost st0: State) returns (out: Outcome)
      requires Inv(Cfg(), st0) && !st0.finished && st0.open != []
      requires TakeLowest(st0.nodes, st0.open) == (Some(cur), open) && cur != goal
      requires nodes == st0.nodes && closed == st0.closed && finished == st0.finished
      modifies this
      ensures Valid()
      ensures (out, Current()) == Next(Cfg(), st0)
      ensures out.Snapshot?
    {
      closed := closed + {cur};
      NextExpands(Cfg(), st0);
      ghost var st1 := Current();
      assert st1 == st0.(open := open, closed := st0.closed + {cur});
      RelaxNeighbors(cur);
      assert Current() == RelaxAll(Cfg(), st1, cur, NeighborsOf(st0.nodes, cur)) == Next(Cfg(), st0).1;
      ExpandInv(Cfg(), st0);
      assert cur in closed && At(nodes, cur).Node?;
      var path := ReconstructPath(nodes, cur, |closed| + 1);
      out := Snapshot(start, goal, path);
    }

    /** The neighbour loop of aStarGen over the neighbour list of `cur`, in order. */
    method RelaxNeighbors(cur: Coord)
      modifies this
      ensures Current() == RelaxAll(Cfg(), old(Current()), cur, NeighborsOf(old(nodes), cur))
    {
      ghost var st1 := Current();
      var ns := NeighborsOf(nodes, cur);
      for k := 0 to |ns|
        invariant Current() == RelaxAll(Cfg(), st1, cur, ns[..k])
      {
        assert ns[..k + 1][..k] == ns[..k];
        RelaxNeighbor(cur, ns[k]);
      }
      assert ns[..|ns|] == ns;
    }

    /**
     * One turn of the neighbour loop of aStarGen: skip a closed neighbour;
     * push an undiscovered one; skip one whose known cost is not beaten;
     * otherwise record `cur` as its predecessor with the new scores.
     */
    method RelaxNeighbor(cur: Coord, nb: Coord)
      modifies this
      ensures Current() == Relax(Cfg(), old(Current()), cur, nb)
    {
      if nb in closed {
        return;
      }
      var tentative := Plus(GScore(nodes, cur), dist(cur, nb));
      if IndexOf(open, nb) == -1 {
        open := open + [nb];
      } else if !Less(tentative, GScore(nodes, nb)) {
        return;
      }
      var n := At(nodes, nb);
      if n.Node? {
        nodes := Update(nodes, nb, n.(cameFrom := Some(cur), gScore := tentative,
                                      fScore := Plus(tentative, dist(nb, goal))));
      }
    }

    /**
     * runToCompletion: call next() until the generator returns, and deliver
     * what it returned; the generator is done afterwards.
     */
    method RunToCompletion() returns (result: Outcome)
      requires Valid()
      modifies this
      ensures Valid()
      ensures result == Run(Cfg(), old(Current()))
      ensures !old(finished) ==> result.Result?
      ensures finished
    {
      ghost var st0 := Current();
      if !finished {
        RunResult(Cfg(), st0);
      }
      result := Step();
      while result.Snapshot?
        invariant Valid()
        invariant result.Snapshot? ==> Run(Cfg(), Current()) == Run(Cfg(), st0)
        invariant !result.Snapshot? ==> result == Run(Cfg(), st0)
        invariant !result.Snapshot? ==> finished
        decreases if result.Snapshot? then Measure(Cfg(), Current()) + 1 else 0
      {
        ghost var before := Current();
        MeasureBound(Cfg(), before);
        result := Step();
        if result.Snapshot? {
          NextMeasure(Cfg(), before);
        }
      }
    }
  }
}
