/**
 * Predecessor chains and reconstructPath: from a node, follow the cameFrom
 * links until a node without a predecessor, collecting the visited cells.
 */
module Path {
  import opened Grid

  /**
   * Following cameFrom links from `c` reaches a node without a predecessor
   * within `fuel` links. Holding for some fuel at every node is exactly the
   * absence of cycles among the links.
   */
  predicate ReachesRoot(g: Arena, c: Coord, fuel: nat)
    decreases fuel
  {
    At(g, c).Node?
    && (Parent(g, c).Some? ==> fuel > 0 && ReachesRoot(g, Parent(g, c).value, fuel - 1))
  }

  /** The cells visited from `c` by following at most `fuel` links, in visiting order. */
  function Chain(g: Arena, c: Coord, fuel: nat): (r: seq<Coord>)
    ensures 1 <= |r| <= fuel + 1 && r[0] == c
    decreases fuel
  {
    if fuel > 0 && Parent(g, c).Some? then [c] + Chain(g, Parent(g, c).value, fuel - 1) else [c]
  }

  function Elements(s: seq<Coord>): set<Coord> {
    set x | x in s
  }

  /** The path object reconstructPath builds: the set of the visited cells. */
  function PathSet(g: Arena, c: Coord, fuel: nat): set<Coord> {
    Elements(Chain(g, c, fuel))
  }

  /** Predecessor links step to an adjacent cell. */
  ghost predicate LinksAdjacent(g: Arena) {
    forall c :: Parent(g, c).Some? ==> Adjacent(c, Parent(g, c).value)
  }

  /**
   * reconstructPath: walk the cameFrom links from `node`, adding every visited
   * cell to the path, until a node has no predecessor.
   */
  method ReconstructPath(g: Arena, node: Coord, ghost fuel: nat) returns (path: set<Coord>)
    requires ReachesRoot(g, node, fuel)
    ensures path == PathSet(g, node, fuel)
  {
    path := {};
    var current := Some(node);
    ghost var f: nat := fuel;
    while current.Some?
      invariant current.Some? ==> ReachesRoot(g, current.value, f) && f <= fuel
      invariant current.Some? ==> path + PathSet(g, current.value, f) == PathSet(g, node, fuel)
      invariant current.None? ==> path == PathSet(g, node, fuel)
      decreases if current.Some? then f + 1 else 0
    {
      var c := current.value;
      assert Elements(Chain(g, c, f)) == {c} + if Parent(g, c).Some? then PathSet(g, Parent(g, c).value, f - 1) else {};
      path := path + {c};
      current := Parent(g, c);
      if current.Some? {
        f := f - 1;
      }
    }
  }

  /** More fuel never hurts. */
  lemma {:induction false} ReachesRootMono(g: Arena, c: Coord, f1: nat, f2: nat)
    requires ReachesRoot(g, c, f1) && f1 <= f2
    ensures ReachesRoot(g, c, f2)
    decreases f1
  {
    if Parent(g, c).Some? {
      ReachesRootMono(g, Parent(g, c).value, f1 - 1, f2 - 1);
    }
  }

  /** Once a chain reaches a root, more fuel does not change it. */
  lemma {:induction false} ChainStable(g: Arena, c: Coord, f1: nat, f2: nat)
    requires ReachesRoot(g, c, f1) && f1 <= f2
    ensures Chain(g, c, f1) == Chain(g, c, f2)
    decreases f1
  {
    if Parent(g, c).Some? {
      ChainStable(g, Parent(g, c).value, f1 - 1, f2 - 1);
    }
  }

  /**
   * A chain that reaches a root ends at a node without a predecessor, and
   * each entry is the predecessor of the one before it.
   */
  lemma {:induction false} ChainLinks(g: Arena, c: Coord, fuel: nat)
    requires ReachesRoot(g, c, fuel)
    ensures var ch := Chain(g, c, fuel);
      && Parent(g, ch[|ch| - 1]).None?
      && forall k :: 0 <= k < |ch| - 1 ==> Parent(g, ch[k]) == Some(ch[k + 1])
    decreases fuel
  {
    if Parent(g, c).Some? {
      var p := Parent(g, c).value;
      ChainLinks(g, p, fuel - 1);
      var ch := Chain(g, c, fuel);
      var rest := Chain(g, p, fuel - 1);
      assert ch == [c] + rest;
      forall k | 0 <= k < |ch| - 1 ensures Parent(g, ch[k]) == Some(ch[k + 1]) {
        if k > 0 {
          assert ch[k] == rest[k - 1] && ch[k + 1] == rest[k];
        }
      }
    }
  }

  /** The suffix of a full chain from position k is the full chain of its first entry. */
  lemma {:induction false} ChainSuffix(g: Arena, c: Coord, fuel: nat, k: nat)
    requires ReachesRoot(g, c, fuel) && k < |Chain(g, c, fuel)|
    ensures k <= fuel
    ensures ReachesRoot(g, Chain(g, c, fuel)[k], fuel - k)
    ensures Chain(g, c, fuel)[k..] == Chain(g, Chain(g, c, fuel)[k], fuel - k)
    decreases k
  {
    if k > 0 {
      var p := Parent(g, c).value;
      ChainSuffix(g, p, fuel - 1, k - 1);
      assert Chain(g, c, fuel)[k..] == Chain(g, p, fuel - 1)[k - 1..];
    }
  }

  /** A chain that reaches a root visits no cell twice: the links have no cycle. */
  lemma ChainNoRepeat(g: Arena, c: Coord, fuel: nat)
    requires ReachesRoot(g, c, fuel)
    ensures var ch := Chain(g, c, fuel);
      forall i, j :: 0 <= i < j < |ch| ==> ch[i] != ch[j]
  {
    var ch := Chain(g, c, fuel);
    forall i, j | 0 <= i < j < |ch| ensures ch[i] != ch[j] {
      ChainSuffix(g, c, fuel, i);
      ChainSuffix(g, c, fuel, j);
      ChainStable(g, ch[j], fuel - j, fuel - i);
    }
  }

  /** Under adjacent links, consecutive cells of a chain are 8-neighbours. */
  lemma ChainAdjacent(g: Arena, c: Coord, fuel: nat)
    requires ReachesRoot(g, c, fuel) && LinksAdjacent(g)
    ensures var ch := Chain(g, c, fuel);
      forall k :: 0 <= k < |ch| - 1 ==> Adjacent(ch[k], ch[k + 1])
  {
    ChainLinks(g, c, fuel);
  }

  /**
   * Changing the node at `m` leaves every chain that never visits `m` intact:
   * when every link points into `s` and `m` lies outside `s`, chains from
   * cells other than `m` keep reaching a root, along the same cells.
   */
  lemma {:induction false} ReachesRootFrame(g: Arena, h: Arena, s: set<Coord>, m: Coord, c: Coord, fuel: nat)
    requires forall d :: d != m ==> At(h, d) == At(g, d)
    requires forall d :: Parent(g, d).Some? ==> Parent(g, d).value in s
    requires m !in s && c != m
    requires ReachesRoot(g, c, fuel)
    ensures ReachesRoot(h, c, fuel) && Chain(h, c, fuel) == Chain(g, c, fuel)
    decreases fuel
  {
    if Parent(g, c).Some? {
      ReachesRootFrame(g, h, s, m, Parent(g, c).value, fuel - 1);
    }
  }

  /** When every link points into `s`, a chain stays in `s` after its first cell. */
  lemma {:induction false} ChainWithin(g: Arena, s: set<Coord>, c: Coord, fuel: nat)
    requires forall d :: Parent(g, d).Some? ==> Parent(g, d).value in s
    ensures var ch := Chain(g, c, fuel);
      forall k :: 1 <= k < |ch| ==> ch[k] in s
    decreases fuel
  {
    if fuel > 0 && Parent(g, c).Some? {
      var p := Parent(g, c).value;
      ChainWithin(g, s, p, fuel - 1);
      var ch := Chain(g, c, fuel);
      assert ch == [c] + Chain(g, p, fuel - 1);
    }
  }
}
