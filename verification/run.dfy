/**
  The pure part of `run` (src/part1and2.rs): parse the input lines, patrol
  once to count visited cells, then try an extra obstacle on every position
  of that patrol except the start and count those that make the guard loop.
*/
module Puzzle {
  import opened Seqs
  import opened Types
  import opened Step
  import opened Patrol
  import opened Tally

  /** Both answers, or why there are none. */
  datatype Answer =
    | Answer(visited: nat, loops: nat)
    | Panics    // no input line, an empty first line, or a line shorter than the first
    | OutOfFuel // the baseline patrol was still walking after the allotted steps
    | Diverges  // a patrol got the guard enclosed; the source's search never returns

  /** The input `run` cannot transpose or patrol without indexing out of bounds. */
  predicate Unusable(lines: seq<string>)
  {
    |lines| == 0 || !Covers(lines) || |lines[0]| == 0
  }

  /** Every cell of `g` where a new obstacle makes the guard loop. */
  ghost function Loopers(g: Grid): set<Pos>
    requires |g| > 0 && Rectangular(g)
  {
    set x: nat, y: nat | x < |g| && y < |g[x]| && LoopsWith(g, (x, y)) :: (x, y)
  }

  /** Part two: the positions of the trail, other than the start, where an obstacle makes the guard loop. */
  ghost function LoopSet(g: Grid, trail: Trail): set<Pos>
    requires |g| > 0 && Rectangular(g)
  {
    if |trail| == 0 then {} else (Elems(Positions(trail)) - {trail[0].1}) * Loopers(g)
  }

  /** A cell is a looper exactly when a new obstacle there makes the guard loop. */
  lemma InLoopers(g: Grid, c: Pos)
    requires |g| > 0 && Rectangular(g) && InGrid(g, c)
    ensures c in Loopers(g) <==> LoopsWith(g, c)
  {
  }

  /** Keeping the next candidate exactly when it is in `keep` extends the filtered prefix by one. */
  lemma FilterStep<T>(cs: seq<T>, i: nat, kept: seq<T>, keep: set<T>, found: bool)
    requires i < |cs| && Elems(kept) == Elems(cs[..i]) * keep
    requires found <==> cs[i] in keep
    ensures var kept' := if found then kept + [cs[i]] else kept;
      Elems(kept') == Elems(cs[..i + 1]) * keep
  {
    assert cs[..i + 1] == cs[..i] + [cs[i]];
    ElemsAppend(cs[..i], cs[i]);
    ElemsAppend(kept, cs[i]);
  }

  /**
    The candidate loop of `run`: check every candidate with a fresh copy of
    the grid and collect those that make the guard loop. `hangs` reports a
    candidate whose patrol gets the guard enclosed, where the source never
    returns.
  */
  method TryObstacles(g: Grid, cs: seq<Pos>) returns (obstacles: seq<Pos>, hangs: bool)
    requires |g| > 0 && Rectangular(g)
    requires forall c | c in cs :: InGrid(g, c)
    ensures hangs ==> exists c :: c in cs && InGrid(g, c) && StuckWith(g, c)
    ensures !hangs ==> Elems(obstacles) == Elems(cs) * Loopers(g)
    ensures !hangs ==> forall c | c in cs :: LoopsWith(g, c) || !StuckWith(g, c)
  {
    obstacles := [];
    var i := 0;
    while i < |cs|
      invariant 0 <= i <= |cs|
      invariant Elems(obstacles) == Elems(cs[..i]) * Loopers(g)
      invariant forall c | c in cs[..i] :: LoopsWith(g, c) || !StuckWith(g, c)
    {
      var c := cs[i];
      var v := CheckForLoop(g, c.0, c.1);
      if v.Hangs? {
        return obstacles, true;
      }
      assert cs[..i + 1] == cs[..i] + [c];
      InLoopers(g, c);
      FilterStep(cs, i, obstacles, Loopers(g), v.Found?);
      if v.Found? {
        obstacles := obstacles + [v.obs];
      }
      i := i + 1;
    }
    assert cs[..i] == cs;
    return obstacles, false;
  }

  /**
    Part two of `run` after the baseline patrol left `trail`: the candidates,
    the obstacles found among them, and how many distinct ones there are.
  */
  method PartTwo(g: Grid, trail: Trail) returns (loops: nat, hangs: bool)
    requires |g| > 0 && Rectangular(g) && TrailInGrid(g, trail)
    ensures hangs ==> exists c :: c in Positions(trail) && InGrid(g, c) && StuckWith(g, c)
    ensures !hangs ==> loops == |LoopSet(g, trail)|
    ensures !hangs ==> forall c | c in Positions(trail) && c != trail[0].1 ::
      InGrid(g, c) && (LoopsWith(g, c) || !StuckWith(g, c))
  {
    var tocheck := Candidates(trail);
    forall c | c in tocheck
      ensures c in Positions(trail) && InGrid(g, c)
    {
      assert c in Elems(tocheck);
      var j :| 0 <= j < |trail| && Positions(trail)[j] == c;
      assert InGrid(g, trail[j].1);
    }
    var obstacles;
    obstacles, hangs := TryObstacles(g, tocheck);
    if hangs {
      return 0, true;
    }
    forall c | c in Positions(trail) && c != trail[0].1
      ensures InGrid(g, c) && (LoopsWith(g, c) || !StuckWith(g, c))
    {
      var j :| 0 <= j < |trail| && Positions(trail)[j] == c;
      assert InGrid(g, trail[j].1);
      assert c in Elems(Positions(trail));
      assert c in Elems(tocheck);
    }
    obstacles := Dedup(obstacles);
    DistinctCard(obstacles);
    return |obstacles|, false;
  }

  /**
    `run` on the lines of the input file, with the baseline patrol limited to
    `fuel` calls of `move_guard`.
  */
  method Solve(lines: seq<string>, fuel: nat) returns (a: Answer)
    ensures a.Panics? <==> Unusable(lines)
    ensures !a.Panics? ==> (a.OutOfFuel? <==> Walk(ParseGrid(lines), fuel).status == Continues)
    ensures a.Answer? ==>
      var g := ParseGrid(lines);
      var b := Walk(g, fuel);
      b.status == Stops && a.visited == CountVisited(b.grid) && a.loops == |LoopSet(g, b.trail)|
    ensures a.Answer? ==>
      var g := ParseGrid(lines);
      var b := Walk(g, fuel);
      forall c | c in Positions(b.trail) && c != b.trail[0].1 :: InGrid(g, c) && (LoopsWith(g, c) || !StuckWith(g, c))
    ensures a.Answer? && (exists p :: OnlyGuardAt(ParseGrid(lines), p)) ==>
      a.visited == |Elems(Positions(Walk(ParseGrid(lines), fuel).trail))|
    ensures a.Diverges? ==>
      var g := ParseGrid(lines);
      var b := Walk(g, fuel);
      b.status == Stuck || exists c :: c in Positions(b.trail) && InGrid(g, c) && StuckWith(g, c)
  {
    if Unusable(lines) {
      return Panics;
    }
    var g := ParseGrid(lines);
    var b := RunBaseline(g, fuel);
    if b.status == Continues {
      return OutOfFuel;
    }
    if b.status == Stuck {
      return Diverges;
    }
    var visited := CountVisited(b.grid);
    if p :| OnlyGuardAt(g, p) {
      assert VisitedExactly(g, {});
      VisitedIsDistinctPositions(g, p, fuel);
    }
    WalkKeeps(g, fuel);
    var loops, hangs := PartTwo(g, b.trail);
    if hangs {
      return Diverges;
    }
    return Answer(visited, loops);
  }
}
