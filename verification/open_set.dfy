/**
 * The open list and removeLowest: a reduce that keeps the element with the
 * smallest fScore (strict `<`, seeded with a sentinel whose score is +infinity),
 * then a splice at the index of that element.
 */
module OpenSet {
  import opened Grid

  /** JavaScript `<` on scores, +infinity included. */
  predicate Less(a: Score, b: Score) {
    match a
    case Infinite => false
    case Finite(u) => b.Infinite? || u < b.value
  }

  predicate NoDup<T(==)>(s: seq<T>) {
    forall i, j :: 0 <= i < j < |s| ==> s[i] != s[j]
  }

  /** The fScores of the open list, in list order. */
  function Scores(g: Arena, open: seq<Coord>): (fs: seq<Score>)
    ensures |fs| == |open|
    ensures forall k :: 0 <= k < |open| ==> fs[k] == FScore(g, open[k])
  {
    seq(|open|, k requires 0 <= k < |open| => FScore(g, open[k]))
  }

  /**
   * Where the reduce of removeLowest ends: the index of the element it keeps,
   * or None when the sentinel survives. The element is the first one of least
   * finite score; the sentinel survives exactly when no score is finite.
   */
  function LowestIndex(fs: seq<Score>): (r: Option<nat>)
    ensures r.None? <==> forall i :: 0 <= i < |fs| ==> fs[i].Infinite?
    ensures r.Some? ==> r.value < |fs| && fs[r.value].Finite?
    ensures r.Some? ==> forall j :: 0 <= j < |fs| ==> !Less(fs[j], fs[r.value])
    ensures r.Some? ==> forall j :: 0 <= j < r.value ==> Less(fs[r.value], fs[j])
    decreases |fs|
  {
    if fs == [] then None
    else
      var acc := LowestIndex(fs[..|fs| - 1]);
      var accScore := if acc.Some? then fs[acc.value] else Infinite;
      if Less(fs[|fs| - 1], accScore) then Some(|fs| - 1) else acc
  }

  /** Array.prototype.indexOf: the first index holding `x`, or -1. */
  function IndexOf<T(==)>(s: seq<T>, x: T): (k: int)
    ensures -1 <= k < |s|
    ensures k == -1 <==> x !in s
    ensures 0 <= k ==> s[k] == x && x !in s[..k]
    decreases |s|
  {
    if s == [] then -1
    else if s[0] == x then 0
    else
      var k := IndexOf(s[1..], x);
      assert s[1..][..k + 1] == s[1..k + 2] by { if k >= 0 { } }
      if k == -1 then -1 else k + 1
  }

  /** Array.prototype.splice(k, 1): a negative start counts from the end. */
  function SpliceOne<T>(s: seq<T>, k: int): (r: seq<T>)
    ensures 0 <= k < |s| ==> r == s[..k] + s[k + 1..]
    ensures k == -1 ==> r == if s == [] then [] else s[..|s| - 1]
  {
    var start := if k < 0 then (if |s| + k < 0 then 0 else |s| + k)
                 else (if k > |s| then |s| else k);
    if start < |s| then s[..start] + s[start + 1..] else s
  }

  /**
   * The node removeLowest returns (None for the sentinel) and the open list it
   * leaves: the first element of least finite fScore, with exactly that
   * occurrence removed; for the sentinel, the last element dropped.
   */
  function TakeLowest(g: Arena, open: seq<Coord>): (Option<Coord>, seq<Coord>) {
    match LowestIndex(Scores(g, open))
    case Some(i) => (Some(open[i]), open[..i] + open[i + 1..])
    case None => (None, if open == [] then [] else open[..|open| - 1])
  }

  /** One more step of the reduce. */
  lemma LowestIndexStep(fs: seq<Score>, i: nat)
    requires i < |fs|
    ensures var acc := LowestIndex(fs[..i]);
            var accScore := if acc.Some? then fs[acc.value] else Infinite;
            LowestIndex(fs[..i + 1]) == if Less(fs[i], accScore) then Some(i) else acc
  {
    assert fs[..i + 1][..i] == fs[..i];
  }

  /** The element the reduce keeps has no earlier copy: an earlier copy would score the same and win. */
  lemma LowestIsFirstCopy(g: Arena, open: seq<Coord>, m: nat)
    requires LowestIndex(Scores(g, open)) == Some(m)
    ensures open[m] !in open[..m]
  {
  }

  /** indexOf finds an element with no earlier copy at its own position. */
  lemma IndexOfFirstCopy<T>(s: seq<T>, m: nat)
    requires m < |s| && s[m] !in s[..m]
    ensures IndexOf(s, s[m]) == m
  {
    var k := IndexOf(s, s[m]);
    assert 0 <= k && s[k] == s[m];
  }

  /**
   * removeLowest: reduce to the lowest node, splice it out at its indexOf.
   */
  method RemoveLowest(g: Arena, open: seq<Coord>) returns (lowest: Option<Coord>, rest: seq<Coord>)
    ensures (lowest, rest) == TakeLowest(g, open)
  {
    ghost var fs := Scores(g, open);
    lowest := None;  // the sentinel { fScore: Infinity }
    ghost var at: Option<nat> := None;
    var i := 0;
    while i < |open|
      invariant 0 <= i <= |open|
      invariant at == LowestIndex(fs[..i])
      invariant lowest == if at.Some? then Some(open[at.value]) else None
    {
      LowestIndexStep(fs, i);
      var accScore := if lowest.Some? then FScore(g, lowest.value) else Infinite;
      assert at.Some? ==> at.value < i && accScore == fs[at.value];
      assert FScore(g, open[i]) == fs[i];
      if Less(FScore(g, open[i]), accScore) {
        lowest := Some(open[i]);
        at := Some(i);
      }
      i := i + 1;
    }
    assert fs[..|open|] == fs;
    var k := if lowest.Some? then IndexOf(open, lowest.value) else -1;
    if lowest.Some? {
      LowestIsFirstCopy(g, open, at.value);
      IndexOfFirstCopy(open, at.value);
    }
    rest := SpliceOne(open, k);
    if at.Some? {
      assert lowest == Some(open[at.value]) && rest == open[..at.value] + open[at.value + 1..];
    } else {
      assert lowest == None && rest == if open == [] then [] else open[..|open| - 1];
    }
  }

  /**
   * What removeLowest promises about a list that holds a finite score: it
   * returns a member of least score and removes exactly that occurrence,
   * keeping the others in order.
   */
  lemma TakeLowestFacts(g: Arena, open: seq<Coord>)
    requires exists k :: 0 <= k < |open| && FScore(g, open[k]).Finite?
    ensures var (lowest, rest) := TakeLowest(g, open);
      && lowest.Some?
      && lowest.value in open
      && FScore(g, lowest.value).Finite?
      && (forall c :: c in open ==> !Less(FScore(g, c), FScore(g, lowest.value)))
      && multiset(rest) + multiset{lowest.value} == multiset(open)
  {
    var fs := Scores(g, open);
    var k :| 0 <= k < |open| && FScore(g, open[k]).Finite?;
    assert fs[k].Finite?;
    var i := LowestIndex(fs).value;
    assert TakeLowest(g, open) == (Some(open[i]), open[..i] + open[i + 1..]);
    assert open == open[..i] + [open[i]] + open[i + 1..];
    forall c | c in open ensures !Less(FScore(g, c), FScore(g, open[i])) {
      var j :| 0 <= j < |open| && open[j] == c;
      assert fs[j] == FScore(g, c);
    }
  }

  /** Removing one position from a list without duplicates leaves none, and drops that element. */
  lemma RemoveAtNoDup(open: seq<Coord>, i: nat)
    requires i < |open| && NoDup(open)
    ensures NoDup(open[..i] + open[i + 1..]) && open[i] !in open[..i] + open[i + 1..]
  {
    var rest := open[..i] + open[i + 1..];
    forall a, b | 0 <= a < b < |rest| ensures rest[a] != rest[b] {
      var a' := if a < i then a else a + 1;
      var b' := if b < i then b else b + 1;
      assert rest[a] == open[a'] && rest[b] == open[b'];
    }
    forall j | 0 <= j < |rest| ensures rest[j] != open[i] {
      var j' := if j < i then j else j + 1;
      assert rest[j] == open[j'];
    }
  }

  /** On a list without duplicates, removeLowest leaves none and takes the node out. */
  lemma TakeLowestNoDup(g: Arena, open: seq<Coord>)
    requires NoDup(open)
    ensures var (lowest, rest) := TakeLowest(g, open);
      NoDup(rest) && (lowest.Some? ==> lowest.value !in rest)
      && forall c :: c in rest ==> c in open
  {
    match LowestIndex(Scores(g, open))
    case Some(i) => RemoveAtNoDup(open, i);
    case None =>
  }
}
