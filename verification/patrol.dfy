/**
  Whole patrols (src/part1and2.rs): repeated steps, loop detection with a
  candidate obstacle, order-preserving deduplication, the candidate list and
  the pure part of the puzzle run (parse, baseline patrol, visited count and
  loop count).
*/
module Patrol {
  import opened Seqs
  import opened Types
  import opened Step

  // ---------------------------------------------------------------------------
  // Deduplication

  /**
    `deduplicate_vec`: the elements of `s` without repetitions, each kept at
    its first occurrence, in the order of those first occurrences.
  */
  method Dedup<T(==)>(s: seq<T>) returns (r: seq<T>)
    ensures Distinct(r)
    ensures Elems(r) == Elems(s)
    ensures forall i | 0 <= i < |r| :: r[i] in s
    ensures forall i, j | 0 <= i < j < |r| :: FirstIndex(s, r[i]) < FirstIndex(s, r[j])
  {
    r := [];
    var k := 0;
    while k < |s|
      invariant 0 <= k <= |s|
      invariant Distinct(r)
      invariant Elems(r) == Elems(s[..k])
      invariant forall i | 0 <= i < |r| :: r[i] in s && FirstIndex(s, r[i]) < k
      invariant forall i, j | 0 <= i < j < |r| :: FirstIndex(s, r[i]) < FirstIndex(s, r[j])
    {
      var item := s[k];
      if item !in r {
        assert item !in s[..k] by {
          assert item !in Elems(r);
        }
        assert FirstIndex(s, item) == k by {
          forall j | 0 <= j < k
            ensures s[j] != item
          {
            assert s[..k][j] == s[j];
          }
        }
        ElemsAppend(r, item);
        r := r + [item];
      }
      assert s[..k + 1] == s[..k] + [s[k]];
      ElemsAppend(s[..k], s[k]);
      k := k + 1;
    }
    assert s[..|s|] == s;
  }

  /** The positions of a trail, in order. */
  function Positions(t: Trail): (ps: seq<Pos>)
    ensures |ps| == |t|
    ensures forall i | 0 <= i < |t| :: ps[i] == t[i].1
  {
    seq(|t|, i requires 0 <= i < |t| => t[i].1)
  }

  /** Every recorded position lies on the grid. */
  predicate TrailInGrid(g: Grid, t: Trail)
  {
    forall i | 0 <= i < |t| :: InGrid(g, t[i].1)
  }

  /**
    The obstacle candidates of `run`: the distinct positions of the trail, in
    order of first visit, without the first one (the guard's start).
  */
  method Candidates(trail: Trail) returns (c: seq<Pos>)
    ensures Distinct(c)
    ensures |trail| == 0 ==> c == []
    ensures |trail| > 0 ==> Elems(c) == Elems(Positions(trail)) - {trail[0].1}
  {
    var ps := Positions(trail);
    var tocheck := Dedup(ps);
    if |tocheck| == 0 {
      return [];
    }
    assert tocheck[0] == ps[0] by {
      assert ps[0] in Elems(tocheck);
      var i :| 0 <= i < |tocheck| && tocheck[i] == ps[0];
      assert FirstIndex(ps, ps[0]) == 0;
    }
    c := tocheck[1..];
    assert Elems(tocheck) == Elems(c) + {tocheck[0]} by {
      assert tocheck == [tocheck[0]] + c;
    }
    assert tocheck[0] !in Elems(c);
  }

  // ---------------------------------------------------------------------------
  // Patrols

  /**
    The state after `n` calls of `move_guard` on a fresh trail, stopping at the
    first call that does not continue.
  */
  function Walk(g: Grid, n: nat): (r: MoveResult)
    requires |g| > 0 && Rectangular(g)
    ensures |r.grid| > 0 && Rectangular(r.grid)
    ensures |r.trail| <= n
    ensures r.status == Continues ==> |r.trail| == n
  {
    if n == 0 then MoveResult(g, [], Continues)
    else
      var m := Walk(g, n - 1);
      if m.status != Continues then m else MoveGuard(m.grid, m.trail)
  }

  /** Once a patrol has stopped, further calls change nothing. */
  lemma {:induction false} WalkSettled(g: Grid, k: nat, n: nat)
    requires |g| > 0 && Rectangular(g)
    requires k <= n && Walk(g, k).status != Continues
    ensures Walk(g, n) == Walk(g, k)
    decreases n
  {
    if n > k {
      WalkSettled(g, k, n - 1);
    }
  }

  /** The patrol keeps the obstacle layout and records only positions on the grid. */
  lemma {:induction false} WalkKeeps(g: Grid, n: nat)
    requires |g| > 0 && Rectangular(g)
    ensures SameObstacles(Walk(g, n).grid, g) && TrailInGrid(g, Walk(g, n).trail)
  {
    if n > 0 {
      WalkKeeps(g, n - 1);
      var m := Walk(g, n - 1);
      if m.status == Continues {
        assert Walk(g, n) == MoveGuard(m.grid, m.trail);
        MoveGuardKeeps(g, m);
      } else {
        assert Walk(g, n) == m;
      }
    }
  }

  /** One call of `move_guard` keeps the obstacle layout of `g` and records a position on it. */
  lemma MoveGuardKeeps(g: Grid, m: MoveResult)
    requires |g| > 0 && Rectangular(g) && |m.grid| > 0 && Rectangular(m.grid)
    requires SameObstacles(m.grid, g) && TrailInGrid(g, m.trail)
    ensures var r := MoveGuard(m.grid, m.trail);
      SameObstacles(r.grid, g) && TrailInGrid(g, r.trail)
  {
    var r := MoveGuard(m.grid, m.trail);
    MoveGuardSpec(m.grid, m.trail);
    SameObstaclesTrans(r.grid, m.grid, g);
    if HasGuard(m.grid) {
      var s := LastGuard(m.grid).value;
      assert InGrid(g, s.1);
      assert r.trail == m.trail + [s];
    }
  }

  /** Sharing the obstacle layout is transitive. */
  lemma SameObstaclesTrans(a: Grid, b: Grid, c: Grid)
    requires SameObstacles(a, b) && SameObstacles(b, c)
    ensures SameObstacles(a, c)
  {
  }

  /** After `n` continuing steps the newest trail entry already occurs earlier on the trail. */
  predicate LoopsAt(g: Grid, n: nat)
    requires |g| > 0 && Rectangular(g)
  {
    var m := Walk(g, n);
    m.status == Continues && |m.trail| > 0 && m.trail[|m.trail| - 1] in m.trail[..|m.trail| - 1]
  }

  /** The grid `check_for_loop` patrols: the candidate cell turned into an obstacle. */
  function Place(g: Grid, c: Pos): (h: Grid)
    requires |g| > 0 && Rectangular(g) && InGrid(g, c)
    ensures |h| > 0 && Rectangular(h)
  {
    SetCell(g, c, Obstacle)
  }

  /** A new obstacle at `c` (a free cell) makes the guard revisit a state. */
  ghost predicate LoopsWith(g: Grid, c: Pos)
    requires |g| > 0 && Rectangular(g) && InGrid(g, c)
  {
    g[c.0][c.1] != Obstacle && exists n: nat :: LoopsAt(Place(g, c), n)
  }

  /** A new obstacle at `c` (a free cell) leaves the guard enclosed at some point. */
  ghost predicate StuckWith(g: Grid, c: Pos)
    requires |g| > 0 && Rectangular(g) && InGrid(g, c)
  {
    g[c.0][c.1] != Obstacle && exists n: nat :: Walk(Place(g, c), n).status == Stuck
  }

  /** With a new obstacle at `c` (a free cell) the patrol stops. */
  ghost predicate StopsWith(g: Grid, c: Pos)
    requires |g| > 0 && Rectangular(g) && InGrid(g, c)
  {
    g[c.0][c.1] != Obstacle && exists n: nat :: Walk(Place(g, c), n).status == Stops
  }

  /** A lone guard whose cell ahead is free steps onto it, keeping its facing. */
  lemma StepAhead(h: Grid, trail: Trail, p: Pos, d: Direction, q: Pos)
    requires |h| > 0 && Rectangular(h) && OnlyGuardAt(h, p) && h[p.0][p.1] == Guard(d)
    requires NewSpace(h, p, d) == Some(q) && h[q.0][q.1] != Obstacle
    ensures var m := MoveGuard(h, trail);
      m.status == Continues && m.trail == trail + [(d, p)] &&
      OnlyGuardAt(m.grid, q) && m.grid[q.0][q.1] == Guard(d) && SameObstacles(m.grid, h)
  {
    assert Look(h, p, d) == Clear(d, q);
    MoveGuardKeepsOneGuard(h, trail, p);
    MoveGuardSpec(h, trail);
  }

  /** A lone guard whose cell ahead is off the grid leaves, and the patrol stops. */
  lemma StepOff(h: Grid, trail: Trail, p: Pos, d: Direction)
    requires |h| > 0 && Rectangular(h) && OnlyGuardAt(h, p) && h[p.0][p.1] == Guard(d)
    requires NewSpace(h, p, d).None?
    ensures var m := MoveGuard(h, trail);
      m.status == Stops && m.trail == trail + [(d, p)]
  {
    assert Look(h, p, d) == Exit;
    SingleGuardScansAgree(h, p);
    MoveGuardSpec(h, trail);
  }

  /** The room `.#.` / `#^#` / `...` with its guard at `(1, 1)` facing up. */
  function ThreeWalls(): (g: Grid)
    ensures |g| == 3 && Rectangular(g) && |g[1]| == 3
    ensures OnlyGuardAt(g, (1, 1)) && g[1][1] == Guard(Up)
    ensures g[1][0] == Obstacle && g[0][1] == Obstacle && g[2][1] == Obstacle && g[1][2] == Empty
  {
    var g := ParseGrid([".#.", "#^#", "..."]);
    assert OnlyGuardAt(g, (1, 1)) by {
      forall x: nat, y: nat | x < |g| && y < |g[x]| && g[x][y].Guard?
        ensures (x, y) == (1, 1)
      {
        assert x < 3 && y < 3;
      }
    }
    g
  }

  /** The first call on `ThreeWalls`: blocked ahead and to the right, the guard turns to face down. */
  lemma ThreeWallsTurn()
    ensures var m := MoveGuard(ThreeWalls(), []);
      m.status == Continues && m.trail == [(Up, (1, 1))] &&
      OnlyGuardAt(m.grid, (1, 1)) && m.grid[1][1] == Guard(Down) && SameObstacles(m.grid, ThreeWalls())
  {
    var g := ThreeWalls();
    assert Turns(Up, 1) == Right && Turns(Up, 2) == Down;
    assert Blocked(g, (1, 1), Up) && Blocked(g, (1, 1), Right);
    assert LookFrom(g, (1, 1), Up, Down, 2) == Clear(Down, (1, 2));
    assert Look(g, (1, 1), Up) == Clear(Down, (1, 2));
    MoveGuardKeepsOneGuard(g, [], (1, 1));
    MoveGuardSpec(g, []);
  }

  /**
    On the room `.#.` / `#^#` / `...` the unchanged patrol turns twice in
    place at `(1, 1)`, steps down to `(1, 2)` and leaves the room, so `(1, 2)`
    is on its trail.
  */
  lemma BaselineVisitsBelow()
    ensures var g := ParseGrid([".#.", "#^#", "..."]);
      Walk(g, 3).status == Stops && Positions(Walk(g, 3).trail) == [(1, 1), (1, 1), (1, 2)]
  {
    var g := ThreeWalls();
    ThreeWallsTurn();
    var m1 := MoveGuard(g, []);
    assert Walk(g, 1) == m1;
    StepAhead(m1.grid, m1.trail, (1, 1), Down, (1, 2));
    var m2 := MoveGuard(m1.grid, m1.trail);
    assert Walk(g, 2) == m2;
    StepOff(m2.grid, m2.trail, (1, 2), Down);
    var m3 := MoveGuard(m2.grid, m2.trail);
    assert Walk(g, 3) == m3;
    ThreePositions(m1.trail, m2.trail, m3.trail, (Up, (1, 1)), (Down, (1, 1)), (Down, (1, 2)));
  }

  /** A trail built by three appends has the three appended positions, in order. */
  lemma ThreePositions(t1: Trail, t2: Trail, t3: Trail, a: State, b: State, c: State)
    requires t1 == [a] && t2 == t1 + [b] && t3 == t2 + [c]
    ensures Positions(t3) == [a.1, b.1, c.1]
  {
    assert t3 == [a, b, c];
  }

  /**
    On the room `.#.` / `#^#` / `...` the guard starts at `(1, 1)` with
    obstacles on three sides. An obstacle at `(1, 2)`, the cell below it,
    encloses the guard: the model's step is stuck, and the source's search
    never returns.
  */
  lemma EnclosedCandidate(fuel: nat)
    ensures var g := ParseGrid([".#.", "#^#", "..."]);
      InGrid(g, (1, 2)) && StuckWith(g, (1, 2)) &&
      TurnUntilFree(Place(g, (1, 2)), (1, 1), Up, fuel).None?
    ensures var g := ParseGrid([".#.", "#^#", "..."]);
      Walk(g, 3).status == Stops && Positions(Walk(g, 3).trail) == [(1, 1), (1, 1), (1, 2)]
  {
    var g := ParseGrid([".#.", "#^#", "..."]);
    var h := Place(g, (1, 2));
    assert h[1][1] == Guard(Up);
    assert OnlyGuardAt(h, (1, 1)) by {
      forall x: nat, y: nat | x < |h| && y < |h[x]| && h[x][y].Guard?
        ensures (x, y) == (1, 1)
      {
        assert x < 3 && y < 3;
      }
    }
    SingleGuardScansAgree(h, (1, 1));
    LookSpec(h, (1, 1), Up);
    assert h[0][1] == Obstacle && h[2][1] == Obstacle && h[1][0] == Obstacle && h[1][2] == Obstacle;
    FourWalls(h, (1, 1));
    EnclosedNeverSettles(h, (1, 1), Up, fuel);
    MoveGuardSpec(h, []);
    assert Walk(h, 1) == MoveGuard(h, []);
    BaselineVisitsBelow();
  }

  /** The four trail states at cell `(x, y)`. */
  function Facings(x: nat, y: nat): seq<State>
  {
    [(Up, (x, y)), (Right, (x, y)), (Down, (x, y)), (Left, (x, y))]
  }

  /** Every trail state of the cells `(x, 0)` to `(x, h - 1)`. */
  function Column(x: nat, h: nat): (r: seq<State>)
    ensures |r| == 4 * h
  {
    if h == 0 then [] else Column(x, h - 1) + Facings(x, h - 1)
  }

  /** Every trail state of a `w` by `h` grid, column by column. */
  function States(w: nat, h: nat): seq<State>
  {
    if w == 0 then [] else States(w - 1, h) + Column(w - 1, h)
  }

  /** There are four states per cell. */
  lemma {:induction false} StatesCount(w: nat, h: nat)
    ensures |States(w, h)| == 4 * w * h
  {
    if w > 0 {
      StatesCount(w - 1, h);
      assert 4 * w * h == 4 * (w - 1) * h + 4 * h;
    }
  }

  lemma {:induction false} InColumn(s: State, x: nat, h: nat)
    requires s.1.0 == x && s.1.1 < h
    ensures s in Column(x, h)
    decreases h
  {
    if s.1.1 < h - 1 {
      InColumn(s, x, h - 1);
    } else {
      assert s == (s.0, (x, h - 1));
      match s.0
      case Up => assert s == Facings(x, h - 1)[0];
      case Right => assert s == Facings(x, h - 1)[1];
      case Down => assert s == Facings(x, h - 1)[2];
      case Left => assert s == Facings(x, h - 1)[3];
    }
  }

  lemma {:induction false} InStates(s: State, w: nat, h: nat)
    requires s.1.0 < w && s.1.1 < h
    ensures s in States(w, h)
    decreases w
  {
    var rest, last := States(w - 1, h), Column(w - 1, h);
    assert States(w, h) == rest + last;
    if s.1.0 < w - 1 {
      InStates(s, w - 1, h);
      assert s in rest;
    } else {
      InColumn(s, w - 1, h);
      assert s in last;
    }
  }

  /**
    A distinct sequence of states on a rectangular grid that misses some
    state on the grid is shorter than four times the number of cells.
  */
  lemma RoomLeft(h: Grid, seen: seq<State>, x: State)
    requires |h| > 0 && Rectangular(h)
    requires Distinct(seen) && TrailInGrid(h, seen)
    requires InGrid(h, x.1) && x !in seen
    ensures |seen| < |States(|h|, |h[0]|)|
  {
    var all := States(|h|, |h[0]|);
    var t := seen + [x];
    forall y | y in Elems(t)
      ensures y in Elems(all)
    {
      var i :| 0 <= i < |t| && t[i] == y;
      assert InGrid(h, t[i].1);
      InStates(y, |h|, |h[0]|);
    }
    assert Distinct(t);
    DistinctCard(t);
    SubsetCard(Elems(t), Elems(all));
    ElemsCard(all);
  }

  /** When the patrol has stopped at `k` without a loop so far, it never loops nor gets stuck. */
  lemma NeverLoops(h: Grid, k: nat)
    requires |h| > 0 && Rectangular(h)
    requires Walk(h, k).status != Continues
    requires forall n: nat | n <= k :: !LoopsAt(h, n)
    ensures forall n: nat :: !LoopsAt(h, n)
  {
    forall n: nat | n > k
      ensures !LoopsAt(h, n)
    {
      WalkSettled(h, k, n);
    }
  }

  /** When the patrol has stopped at `k` and was never stuck before, it is never stuck. */
  lemma NeverStuck(h: Grid, k: nat)
    requires |h| > 0 && Rectangular(h)
    requires Walk(h, k).status == Stops
    requires forall n: nat | n <= k :: Walk(h, n).status != Stuck
    ensures forall n: nat :: Walk(h, n).status != Stuck
  {
    forall n: nat | n > k
      ensures Walk(h, n).status != Stuck
    {
      WalkSettled(h, k, n);
    }
  }

  /** One more call of `move_guard` on a continuing patrol is the next walk. */
  lemma WalkStep(h: Grid, k: nat)
    requires |h| > 0 && Rectangular(h)
    requires Walk(h, k).status == Continues
    ensures Walk(h, k + 1) == MoveGuard(Walk(h, k).grid, Walk(h, k).trail)
  {
  }

  /**
    A continuing step whose new state is not on the trail yet keeps the trail
    free of repetitions, and such a trail is no longer than the set of all
    states of the grid.
  */
  lemma FreshState(h: Grid, k: nat)
    requires |h| > 0 && Rectangular(h) && k > 0
    requires Walk(h, k - 1).status == Continues && Walk(h, k).status == Continues
    requires Distinct(Walk(h, k - 1).trail)
    requires Walk(h, k).trail[k - 1] !in Walk(h, k - 1).trail
    ensures Distinct(Walk(h, k).trail)
    ensures |Walk(h, k).trail| <= |States(|h|, |h[0]|)|
  {
    var m := Walk(h, k - 1);
    var r := Walk(h, k);
    assert r == MoveGuard(m.grid, m.trail);
    MoveGuardSpec(m.grid, m.trail);
    WalkKeeps(h, k);
    FreshTrail(h, m.trail, r.trail);
  }

  /** A trail without repetitions, extended by a new on-grid state. */
  lemma FreshTrail(h: Grid, t: Trail, u: Trail)
    requires |h| > 0 && Rectangular(h)
    requires Distinct(t) && TrailInGrid(h, u) && |u| == |t| + 1 && u[..|t|] == t && u[|t|] !in t
    ensures Distinct(u) && |u| <= |States(|h|, |h[0]|)|
  {
    var s := u[|t|];
    assert u == t + [s];
    assert TrailInGrid(h, t) by {
      forall i | 0 <= i < |t|
        ensures InGrid(h, t[i].1)
      {
        assert t[i] == u[i];
      }
    }
    assert InGrid(h, s.1);
    RoomLeft(h, t, s);
  }

  /** Extends "no loop so far" by one step. */
  lemma QuietStep(h: Grid, k: nat)
    requires |h| > 0 && Rectangular(h) && k > 0
    requires forall n: nat | n < k :: !LoopsAt(h, n)
    requires !LoopsAt(h, k)
    ensures forall n: nat | n <= k :: !LoopsAt(h, n)
  {
  }

  /** Extends "never stuck so far" by one step. */
  lemma UnstuckStep(h: Grid, k: nat)
    requires |h| > 0 && Rectangular(h) && k > 0
    requires forall n: nat | n < k :: Walk(h, n).status != Stuck
    requires Walk(h, k).status != Stuck
    ensures forall n: nat | n <= k :: Walk(h, n).status != Stuck
  {
  }

  /** How a patrol with checkpoints ends. */
  datatype Outcome = Looped | LeftGrid | Enclosed

  /**
    The loop of `check_for_loop` on a grid that already holds the candidate
    obstacle: call `move_guard`, and remember the newest state of every
    continuing call, until a remembered state comes round again or the guard
    stops.
  */
  method Watch(h: Grid) returns (o: Outcome)
    requires |h| > 0 && Rectangular(h)
    ensures o == Looped <==> exists n: nat :: LoopsAt(h, n)
    ensures o == Enclosed ==> exists n: nat :: Walk(h, n).status == Stuck
    ensures o == LeftGrid ==> exists n: nat :: Walk(h, n).status == Stops
    ensures o == LeftGrid ==> forall n: nat :: Walk(h, n).status != Stuck
  {
    ghost var bound := |States(|h|, |h[0]|)|;
    var room := h;
    var goOn := true;
    var checkpoints: seq<State> := [];
    var trail: Trail := [];
    ghost var k: nat := 0;
    while goOn
      invariant |room| > 0 && Rectangular(room)
      invariant room == Walk(h, k).grid && trail == Walk(h, k).trail
      invariant goOn ==> Walk(h, k).status == Continues && checkpoints == trail
      invariant !goOn ==> Walk(h, k).status == Stops
      invariant forall n: nat | n <= k :: !LoopsAt(h, n)
      invariant forall n: nat | n <= k :: Walk(h, n).status != Stuck
      invariant Distinct(checkpoints)
      invariant |checkpoints| <= bound
      decreases bound - |checkpoints|, if goOn then 1 else 0
    {
      var m := MoveGuard(room, trail);
      assert m == Walk(h, k + 1) by {
        WalkStep(h, k);
      }
      room, trail := m.grid, m.trail;
      k := k + 1;
      if m.status == Stuck {
        QuietStep(h, k);
        NeverLoops(h, k);
        return Enclosed;
      }
      goOn := m.status == Continues;
      if goOn && trail[|trail| - 1] in checkpoints {
        assert LoopsAt(h, k);
        return Looped;
      }
      QuietStep(h, k);
      UnstuckStep(h, k);
      if goOn {
        FreshState(h, k);
        checkpoints := trail;
      }
    }
    NeverLoops(h, k);
    NeverStuck(h, k);
    return LeftGrid;
  }

  /** The outcome of `check_for_loop`. */
  datatype Verdict =
    | Found(obs: Pos) // the candidate obstacle makes the guard loop
    | NotFound        // the candidate cell was an obstacle already, or the guard left the grid
    | Hangs           // the guard ended up enclosed; the source's search never returns

  /**
    `check_for_loop`: place an obstacle at the candidate cell (unless one is
    there already) and watch the patrol for a repeated state.
  */
  method CheckForLoop(g: Grid, obsx: nat, obsy: nat) returns (r: Verdict)
    requires |g| > 0 && Rectangular(g) && InGrid(g, (obsx, obsy))
    ensures g[obsx][obsy] == Obstacle ==> r == NotFound
    ensures r.Found? ==> r.obs == (obsx, obsy)
    ensures r.Found? <==> LoopsWith(g, (obsx, obsy))
    ensures r.Hangs? ==> StuckWith(g, (obsx, obsy))
    ensures r.NotFound? ==> !StuckWith(g, (obsx, obsy))
    ensures r.NotFound? && g[obsx][obsy] != Obstacle ==> StopsWith(g, (obsx, obsy))
  {
    if g[obsx][obsy] == Obstacle {
      return NotFound;
    }
    var room := SetCell(g, (obsx, obsy), Obstacle);
    assert room == Place(g, (obsx, obsy));
    var o := Watch(room);
    match o
    case Looped => r := Found((obsx, obsy));
    case LeftGrid => r := NotFound;
    case Enclosed => r := Hangs;
  }

  /**
    The baseline patrol of `run`, with `fuel` bounding its steps: it calls
    `move_guard` until a call does not continue or the fuel is spent.
  */
  method RunBaseline(g: Grid, fuel: nat) returns (r: MoveResult)
    requires |g| > 0 && Rectangular(g)
    ensures r == Walk(g, fuel)
    ensures r.status == Continues ==> |r.trail| == fuel
  {
    var board := g;
    var trail: Trail := [];
    var status := Continues;
    var steps := 0;
    while status == Continues && steps < fuel
      invariant steps <= fuel
      invariant MoveResult(board, trail, status) == Walk(g, steps)
    {
      var m := MoveGuard(board, trail);
      board, trail, status := m.grid, m.trail, m.status;
      steps := steps + 1;
    }
    if status != Continues {
      WalkSettled(g, steps, fuel);
    }
    r := MoveResult(board, trail, status);
  }
}
