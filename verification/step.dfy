/**
  One step of the guard (src/part1and2.rs): the clockwise turn, the bounded
  step to a neighbouring cell, the turn-until-free search and `move_guard`.
*/
module Step {
  import opened Seqs
  import opened Types

  // ---------------------------------------------------------------------------
  // Turning

  /** Position of a facing on the clock face, starting at Up and going clockwise. */
  function Clock(d: Direction): (k: nat)
    ensures k < 4
  {
    match d
    case Up => 0
    case Right => 1
    case Down => 2
    case Left => 3
  }

  /** A quarter turn clockwise: Up, Right, Down, Left, Up. */
  function TurnRight(d: Direction): (r: Direction)
    ensures Clock(r) == (Clock(d) + 1) % 4
    ensures r != d
  {
    match d
    case Up => Right
    case Right => Down
    case Down => Left
    case Left => Up
  }

  /** `d` turned right `n` times. */
  function Turns(d: Direction, n: nat): Direction
  {
    if n == 0 then d else TurnRight(Turns(d, n - 1))
  }

  /** Turning right `n` times advances the clock position by `n`, modulo 4. */
  lemma {:induction false} TurnsClock(d: Direction, n: nat)
    ensures Clock(Turns(d, n)) == (Clock(d) + n) % 4
  {
    if n > 0 {
      TurnsClock(d, n - 1);
    }
  }

  /** Four right turns are the identity, and fewer never give the starting facing back. */
  lemma FourTurns(d: Direction)
    ensures Turns(d, 4) == d
    ensures forall k | 0 < k < 4 :: Turns(d, k) != d
  {
    forall k | 0 < k <= 4
      ensures Clock(Turns(d, k)) == (Clock(d) + k) % 4
    {
      TurnsClock(d, k);
    }
  }

  /** The first four turns from any facing visit every facing. */
  lemma TurnsCover(d: Direction, e: Direction)
    ensures exists k | 0 <= k < 4 :: Turns(d, k) == e
  {
    var k := (Clock(e) - Clock(d) + 4) % 4;
    TurnsClock(d, k);
    assert Clock(Turns(d, k)) == Clock(e);
  }

  // ---------------------------------------------------------------------------
  // Neighbours

  /** The coordinates one step from `p` towards `d`, possibly off the grid. */
  function Offset(p: Pos, d: Direction): (int, int)
  {
    match d
    case Up => (p.0, p.1 - 1)
    case Down => (p.0, p.1 + 1)
    case Left => (p.0 - 1, p.1)
    case Right => (p.0 + 1, p.1)
  }

  /**
    `get_newspace`: the neighbour of `p` towards `d` when it lies on the grid
    (heights are measured on the column of `p`), and None otherwise.
  */
  function NewSpace(g: Grid, p: Pos, d: Direction): (r: Option<Pos>)
    requires InGrid(g, p)
    ensures var t := Offset(p, d);
      (r.None? <==> !(0 <= t.0 < |g| && 0 <= t.1 < |g[p.0]|)) &&
      (r.Some? ==> r.value.0 == t.0 && r.value.1 == t.1)
    ensures Rectangular(g) && r.Some? ==> InGrid(g, r.value)
  {
    match d
    case Up => if p.1 > 0 then Some((p.0, p.1 - 1)) else None
    case Down => if p.1 < |g[p.0]| - 1 then Some((p.0, p.1 + 1)) else None
    case Right => if p.0 < |g| - 1 then Some((p.0 + 1, p.1)) else None
    case Left => if p.0 > 0 then Some((p.0 - 1, p.1)) else None
  }

  /** The neighbour towards `d` is on the grid and holds an obstacle. */
  predicate Blocked(g: Grid, p: Pos, d: Direction)
    requires Rectangular(g) && InGrid(g, p)
  {
    var q := NewSpace(g, p, d);
    q.Some? && g[q.value.0][q.value.1] == Obstacle
  }

  /** The first `k` right turns from `d` all face obstacles. */
  predicate BlockedBefore(g: Grid, p: Pos, d: Direction, k: nat)
    requires Rectangular(g) && InGrid(g, p)
  {
    forall j | 0 <= j < k :: Blocked(g, p, Turns(d, j))
  }

  /** `k` is the number of right turns the guard makes before it faces no obstacle. */
  predicate Chooses(g: Grid, p: Pos, d: Direction, k: nat)
    requires Rectangular(g) && InGrid(g, p)
  {
    k < 4 && BlockedBefore(g, p, d, k) && !Blocked(g, p, Turns(d, k))
  }

  /** All four neighbours are on the grid and hold obstacles. */
  predicate Enclosed(g: Grid, p: Pos)
    requires Rectangular(g) && InGrid(g, p)
  {
    forall e: Direction :: Blocked(g, p, e)
  }

  /** What the guard sees when it looks for a way on. */
  datatype Probe =
    | Exit                             // the first unblocked facing leads off the grid
    | Clear(dir: Direction, next: Pos) // facing `dir`, the cell `next` is free
    | Trapped                          // every facing is blocked

  /** The search after `k` turns from `d0`, now facing `d`. */
  function LookFrom(g: Grid, p: Pos, d0: Direction, d: Direction, k: nat): (r: Probe)
    requires Rectangular(g) && InGrid(g, p)
    requires k <= 3 && d == Turns(d0, k) && BlockedBefore(g, p, d0, k)
    decreases 3 - k
    ensures r.Clear? ==> NewSpace(g, p, r.dir) == Some(r.next) && g[r.next.0][r.next.1] != Obstacle
  {
    match NewSpace(g, p, d)
    case None => Exit
    case Some(q) =>
      if g[q.0][q.1] == Obstacle then
        if k == 3 then Trapped
        else
          assert Blocked(g, p, Turns(d0, k));
          LookFrom(g, p, d0, TurnRight(d), k + 1)
      else Clear(d, q)
  }

  /**
    The search from the `k`-th turn settles on the first facing that is not
    blocked, and reports Trapped exactly when the remaining facings are all
    blocked.
  */
  lemma {:induction false} LookFromSpec(g: Grid, p: Pos, d0: Direction, d: Direction, k: nat)
    requires Rectangular(g) && InGrid(g, p)
    requires k <= 3 && d == Turns(d0, k) && BlockedBefore(g, p, d0, k)
    decreases 3 - k
    ensures var r := LookFrom(g, p, d0, d, k);
      (r.Trapped? <==> forall j | k <= j < 4 :: Blocked(g, p, Turns(d0, j))) &&
      (r.Clear? ==> exists j | k <= j < 4 :: Chooses(g, p, d0, j) && r.dir == Turns(d0, j)) &&
      (r.Exit? ==> exists j | k <= j < 4 :: Chooses(g, p, d0, j) && NewSpace(g, p, Turns(d0, j)).None?)
  {
    var q := NewSpace(g, p, d);
    if q.None? || g[q.value.0][q.value.1] != Obstacle {
      assert Chooses(g, p, d0, k);
    } else if k < 3 {
      assert Blocked(g, p, Turns(d0, k));
      LookFromSpec(g, p, d0, TurnRight(d), k + 1);
    }
  }

  /**
    `get_newspace_with_obstacle` with the turning bounded to four facings:
    turn right until the cell ahead is not an obstacle, then report that cell,
    or Exit if it is off the grid. When all four facings are blocked the
    result is Trapped.
  */
  function Look(g: Grid, p: Pos, d: Direction): (r: Probe)
    requires Rectangular(g) && InGrid(g, p)
    ensures r.Clear? ==>
      NewSpace(g, p, r.dir) == Some(r.next) && InGrid(g, r.next) && g[r.next.0][r.next.1] != Obstacle
  {
    LookFrom(g, p, d, d, 0)
  }

  /**
    The guard turns right the fewest times that leave it facing no obstacle:
    Clear and Exit report that facing, and Trapped means it is enclosed.
  */
  lemma LookSpec(g: Grid, p: Pos, d: Direction)
    requires Rectangular(g) && InGrid(g, p)
    ensures var r := Look(g, p, d);
      (r.Clear? ==> exists k | 0 <= k < 4 :: Chooses(g, p, d, k) && r.dir == Turns(d, k)) &&
      (r.Exit? ==> exists k | 0 <= k < 4 :: Chooses(g, p, d, k) && NewSpace(g, p, Turns(d, k)).None?) &&
      (r.Trapped? <==> Enclosed(g, p))
  {
    LookFromSpec(g, p, d, d, 0);
    EnclosedIffFourBlocked(g, p, d);
  }

  /** Being blocked on the four facings reached by turning from `d` is being enclosed. */
  lemma EnclosedIffFourBlocked(g: Grid, p: Pos, d: Direction)
    requires Rectangular(g) && InGrid(g, p)
    ensures Enclosed(g, p) <==> forall j | 0 <= j < 4 :: Blocked(g, p, Turns(d, j))
  {
    if Enclosed(g, p) {
      forall j | 0 <= j < 4
        ensures Blocked(g, p, Turns(d, j))
      {
      }
    } else {
      var e :| !Blocked(g, p, e);
      TurnsCover(d, e);
      var k :| 0 <= k < 4 && Turns(d, k) == e;
      assert !Blocked(g, p, Turns(d, k));
    }
    if forall j | 0 <= j < 4 :: Blocked(g, p, Turns(d, j)) {
      forall e: Direction
        ensures Blocked(g, p, e)
      {
        TurnsCover(d, e);
        var k :| 0 <= k < 4 && Turns(d, k) == e;
        assert Blocked(g, p, Turns(d, k));
      }
    }
  }

  /** A cell with obstacles on all four sides, none on the edge of the grid, is enclosed. */
  lemma FourWalls(g: Grid, p: Pos)
    requires Rectangular(g) && 0 < p.0 < |g| - 1 && 0 < p.1 < |g[p.0]| - 1
    requires g[p.0 - 1][p.1] == Obstacle && g[p.0 + 1][p.1] == Obstacle
    requires g[p.0][p.1 - 1] == Obstacle && g[p.0][p.1 + 1] == Obstacle
    ensures Enclosed(g, p)
  {
  }

  /** The neighbours of `p` never include `p` itself. */
  lemma NewSpaceMoves(g: Grid, p: Pos, d: Direction)
    requires InGrid(g, p)
    ensures NewSpace(g, p, d) != Some(p)
  {
  }

  /** The search only reads the obstacle layout, so grids that share it give the same result. */
  lemma LookSameObstacles(g: Grid, h: Grid, p: Pos, d: Direction)
    requires Rectangular(g) && InGrid(g, p) && SameObstacles(h, g)
    ensures Rectangular(h) && InGrid(h, p)
    ensures Look(h, p, d) == Look(g, p, d)
  {
    assert Rectangular(h);
    LookFromSameObstacles(g, h, p, d, d, 0);
  }

  lemma {:induction false} LookFromSameObstacles(g: Grid, h: Grid, p: Pos, d0: Direction, d: Direction, k: nat)
    requires Rectangular(g) && Rectangular(h) && InGrid(g, p) && InGrid(h, p) && SameObstacles(h, g)
    requires k <= 3 && d == Turns(d0, k) && BlockedBefore(g, p, d0, k)
    decreases 3 - k
    ensures BlockedBefore(h, p, d0, k)
    ensures LookFrom(h, p, d0, d, k) == LookFrom(g, p, d0, d, k)
  {
    assert forall e: Direction :: NewSpace(h, p, e) == NewSpace(g, p, e) && Blocked(h, p, e) == Blocked(g, p, e);
    var q := NewSpace(g, p, d);
    if q.Some? && g[q.value.0][q.value.1] == Obstacle && k < 3 {
      LookFromSameObstacles(g, h, p, d0, TurnRight(d), k + 1);
    }
  }

  // ---------------------------------------------------------------------------
  // The unbounded search as written

  /**
    `get_newspace_with_obstacle` as written, with its unbounded recursion cut
    off by `fuel`: None means the recursion was still going when the fuel ran
    out; Some(o) is what the source returns.
  */
  function TurnUntilFree(g: Grid, p: Pos, d: Direction, fuel: nat): (r: Option<Option<(Direction, Pos)>>)
    requires Rectangular(g) && InGrid(g, p)
    ensures r.Some? && r.value.Some? ==>
      NewSpace(g, p, r.value.value.0) == Some(r.value.value.1) &&
      g[r.value.value.1.0][r.value.value.1.1] != Obstacle
    ensures r == Some(None) ==> exists e: Direction :: NewSpace(g, p, e).None?
    ensures r.None? <==> BlockedBefore(g, p, d, fuel)
    decreases fuel
  {
    if fuel == 0 then None
    else
      match NewSpace(g, p, d)
      case None =>
        assert !Blocked(g, p, Turns(d, 0));
        Some(None)
      case Some(q) =>
        if g[q.0][q.1] == Obstacle then
          BlockedBeforeTurn(g, p, d, fuel - 1);
          TurnUntilFree(g, p, TurnRight(d), fuel - 1)
        else
          assert !Blocked(g, p, Turns(d, 0));
          Some(Some((d, q)))
  }

  /** Blocked for `k + 1` turns from `d` is blocked at `d` and for `k` turns from its right turn. */
  lemma BlockedBeforeTurn(g: Grid, p: Pos, d: Direction, k: nat)
    requires Rectangular(g) && InGrid(g, p)
    ensures BlockedBefore(g, p, d, k + 1) <==> Blocked(g, p, d) && BlockedBefore(g, p, TurnRight(d), k)
  {
    forall j | 0 <= j < k
      ensures Turns(TurnRight(d), j) == Turns(d, j + 1)
    {
      TurnsShift(d, j);
    }
    if Blocked(g, p, d) && BlockedBefore(g, p, TurnRight(d), k) {
      forall j | 0 <= j < k + 1
        ensures Blocked(g, p, Turns(d, j))
      {
        if j > 0 {
          assert Turns(TurnRight(d), j - 1) == Turns(d, j);
        }
      }
    }
    if BlockedBefore(g, p, d, k + 1) {
      assert Blocked(g, p, Turns(d, 0));
      forall j | 0 <= j < k
        ensures Blocked(g, p, Turns(TurnRight(d), j))
      {
        assert Blocked(g, p, Turns(d, j + 1));
      }
    }
  }

  /** Turning right first and then `j` times is turning `j + 1` times. */
  lemma {:induction false} TurnsShift(d: Direction, j: nat)
    ensures Turns(TurnRight(d), j) == Turns(d, j + 1)
  {
    if j > 0 {
      TurnsShift(d, j - 1);
    }
  }

  /** A guard enclosed on all four sides makes the source's search recurse for ever. */
  lemma {:induction false} EnclosedNeverSettles(g: Grid, p: Pos, d: Direction, fuel: nat)
    requires Rectangular(g) && InGrid(g, p) && Enclosed(g, p)
    decreases fuel
    ensures TurnUntilFree(g, p, d, fuel).None?
  {
    if fuel > 0 {
      assert Blocked(g, p, d);
      EnclosedNeverSettles(g, p, TurnRight(d), fuel - 1);
    }
  }

  /** The result of the bounded search in the source's return shape. */
  function AsSourceResult(r: Probe): Option<(Direction, Pos)>
    requires !r.Trapped?
  {
    if r.Clear? then Some((r.dir, r.next)) else None
  }

  /**
    Whenever the guard is not enclosed, the bounded search returns what the
    source's recursion returns after at most four calls.
  */
  lemma LookAgreesWithSource(g: Grid, p: Pos, d: Direction, fuel: nat)
    requires Rectangular(g) && InGrid(g, p) && !Enclosed(g, p) && fuel >= 4
    ensures !Look(g, p, d).Trapped?
    ensures TurnUntilFree(g, p, d, fuel) == Some(AsSourceResult(Look(g, p, d)))
  {
    LookFromAgrees(g, p, d, d, 0, fuel);
  }

  lemma {:induction false} LookFromAgrees(g: Grid, p: Pos, d0: Direction, d: Direction, k: nat, fuel: nat)
    requires Rectangular(g) && InGrid(g, p) && !Enclosed(g, p)
    requires k <= 3 && d == Turns(d0, k) && BlockedBefore(g, p, d0, k) && fuel >= 4 - k
    decreases 3 - k
    ensures !LookFrom(g, p, d0, d, k).Trapped?
    ensures TurnUntilFree(g, p, d, fuel) == Some(AsSourceResult(LookFrom(g, p, d0, d, k)))
  {
    if k == 3 {
      LastFacingFree(g, p, d0);
    }
    var q := NewSpace(g, p, d);
    if q.Some? && g[q.value.0][q.value.1] == Obstacle && k < 3 {
      assert Blocked(g, p, Turns(d0, k));
      assert BlockedBefore(g, p, d0, k + 1);
      LookFromAgrees(g, p, d0, TurnRight(d), k + 1, fuel - 1);
    }
  }

  /** A guard that is not enclosed and is blocked on its first three facings is free on the fourth. */
  lemma LastFacingFree(g: Grid, p: Pos, d0: Direction)
    requires Rectangular(g) && InGrid(g, p) && !Enclosed(g, p) && BlockedBefore(g, p, d0, 3)
    ensures !Blocked(g, p, Turns(d0, 3))
  {
    EnclosedIffFourBlocked(g, p, d0);
  }

  // ---------------------------------------------------------------------------
  // move_guard

  /** How a call of `move_guard` ends. */
  datatype Status =
    | Continues // the guard moved or turned and is still on the grid (the source returns true)
    | Stops     // no guard was found, or the guard walked off the grid (the source returns false)
    | Stuck     // the guard is enclosed; the source's search never returns

  datatype MoveResult = MoveResult(grid: Grid, trail: Trail, status: Status)

  /** Same shape and the same obstacle cells. */
  predicate SameObstacles(a: Grid, b: Grid)
  {
    SameShape(a, b) &&
    forall x, y | 0 <= x < |a| && 0 <= y < |a[x]| :: a[x][y] == Obstacle <==> b[x][y] == Obstacle
  }

  /** Writing a non-obstacle over a non-obstacle keeps the obstacle layout. */
  lemma SetCellKeepsObstacles(g: Grid, p: Pos, c: Cell)
    requires InGrid(g, p) && g[p.0][p.1] != Obstacle && c != Obstacle
    ensures SameObstacles(SetCell(g, p, c), g)
  {
  }

  /** The guard state after a successful search: step ahead when the facing is unchanged, else turn in place. */
  function NextState(s: State, pr: Probe): (t: State)
    requires pr.Clear?
    ensures t.0 == pr.dir
  {
    if pr.dir == s.0 then (s.0, pr.next) else (pr.dir, s.1)
  }

  /**
    `move_guard`: find the (last) guard, mark its cell visited and record its
    state on the trail, then move it one cell ahead if the search kept its
    facing, or turn it in place otherwise.
  */
  function MoveGuard(g: Grid, trail: Trail): (r: MoveResult)
    requires |g| > 0 && Rectangular(g)
    ensures |r.grid| == |g| && Rectangular(r.grid)
    ensures |trail| <= |r.trail| <= |trail| + 1
    ensures r.status == Continues ==> |r.trail| == |trail| + 1
  {
    match LastGuard(g)
    case None => MoveResult(g, trail, Stops)
    case Some((d, p)) =>
      var visited := SetCell(g, p, Visited);
      var trail' := trail + [(d, p)];
      match Look(visited, p, d)
      case Exit => MoveResult(visited, trail', Stops)
      case Trapped => MoveResult(visited, trail', Stuck)
      case Clear(dir, q) =>
        var at := if dir == d then q else p;
        MoveResult(SetCell(visited, at, Guard(dir)), trail', Continues)
  }

  /**
    A step keeps the obstacle layout. Without a guard it stops and changes
    nothing; with one, it records the guard found by the scan and continues
    exactly when the search finds a free cell, and is stuck exactly when the
    guard is enclosed.
  */
  lemma MoveGuardSpec(g: Grid, trail: Trail)
    requires |g| > 0 && Rectangular(g)
    ensures var r := MoveGuard(g, trail);
      SameObstacles(r.grid, g) &&
      (!HasGuard(g) ==> r == MoveResult(g, trail, Stops)) &&
      (HasGuard(g) ==>
        LastGuard(g).Some? &&
        var (d, p) := LastGuard(g).value;
        var pr := Look(g, p, d);
        r.trail == trail + [(d, p)] &&
        (r.status == Continues <==> pr.Clear?) &&
        (r.status == Stuck <==> pr.Trapped?))
  {
    LastGuardSpec(g);
    if HasGuard(g) {
      var (d, p) := LastGuard(g).value;
      var visited := SetCell(g, p, Visited);
      SetCellKeepsObstacles(g, p, Visited);
      LookSameObstacles(g, visited, p, d);
      var pr := Look(visited, p, d);
      if pr.Clear? {
        var at := if pr.dir == d then pr.next else p;
        SetCellKeepsObstacles(visited, at, Guard(pr.dir));
      }
    }
  }

  /**
    The cells a step changes: with the guard found at `p` facing `d`, a step
    that continues shows the guard in its next state and leaves `p` visited if
    it moved away; a step that does not continue leaves `p` visited. No other
    cell changes.
  */
  lemma MoveGuardCells(g: Grid, trail: Trail)
    requires |g| > 0 && Rectangular(g) && HasGuard(g)
    ensures LastGuard(g).Some?
    ensures var (d, p) := LastGuard(g).value;
      var pr := Look(g, p, d);
      var r := MoveGuard(g, trail);
      (pr.Clear? ==>
        var (d', q) := NextState((d, p), pr);
        AgreeOff(r.grid, g, p, q) && r.grid[q.0][q.1] == Guard(d') && (q != p ==> r.grid[p.0][p.1] == Visited)) &&
      (!pr.Clear? ==> AgreeOff(r.grid, g, p, p) && r.grid[p.0][p.1] == Visited)
  {
    LastGuardSpec(g);
    var (d, p) := LastGuard(g).value;
    var visited := SetCell(g, p, Visited);
    SetCellKeepsObstacles(g, p, Visited);
    LookSameObstacles(g, visited, p, d);
  }

  /**
    With exactly one guard on the grid, a step that continues leaves exactly one
    guard, in the next state and different from the recorded one; any other
    step leaves no guard.
  */
  lemma MoveGuardKeepsOneGuard(g: Grid, trail: Trail, p: Pos)
    requires |g| > 0 && Rectangular(g) && OnlyGuardAt(g, p)
    ensures var r := MoveGuard(g, trail);
      var s := (g[p.0][p.1].facing, p);
      r.trail == trail + [s] &&
      (r.status == Continues <==> Look(g, p, s.0).Clear?) &&
      (r.status == Continues ==>
        var t := NextState(s, Look(g, p, s.0));
        t != s && OnlyGuardAt(r.grid, t.1) && r.grid[t.1.0][t.1.1] == Guard(t.0)) &&
      (r.status != Continues ==> !HasGuard(r.grid))
  {
    SingleGuardScansAgree(g, p);
    MoveGuardSpec(g, trail);
    MoveGuardCells(g, trail);
    var r := MoveGuard(g, trail);
    var s := (g[p.0][p.1].facing, p);
    var pr := Look(g, p, s.0);
    if pr.Clear? {
      NewSpaceMoves(g, p, pr.dir);
    }
    if r.status != Continues {
      assert !pr.Clear?;
      forall x: nat, y: nat | x < |r.grid| && y < |r.grid[x]|
        ensures !r.grid[x][y].Guard?
      {
        if (x, y) != p {
          assert r.grid[x][y] == g[x][y];
        }
      }
    }
  }
}
