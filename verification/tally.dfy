/**
  The visited count of part one (src/part1and2.rs): how many cells a patrol
  leaves marked visited, and why that is the number of distinct positions on
  its trail.
*/
module Tally {
  import opened Seqs
  import opened Types
  import opened Step
  import opened Patrol

  /** The visited cells of column `x` from row `y` on, top to bottom. */
  function ColumnVisits(g: Grid, x: nat, y: nat): (r: seq<Pos>)
    requires x < |g| && y <= |g[x]|
    ensures Distinct(r)
    ensures forall p | p in r :: p.0 == x && y <= p.1 < |g[x]| && g[x][p.1] == Visited
    ensures forall j | y <= j < |g[x]| && g[x][j] == Visited :: (x, j) in r
    decreases |g[x]| - y
  {
    if y == |g[x]| then []
    else
      var rest := ColumnVisits(g, x, y + 1);
      if g[x][y] == Visited then [(x, y)] + rest else rest
  }

  /** The visited cells of columns `x` onwards, column by column. */
  function GridVisits(g: Grid, x: nat): (r: seq<Pos>)
    requires x <= |g|
    ensures Distinct(r)
    ensures forall p | p in r :: x <= p.0 < |g| && p.1 < |g[p.0]| && g[p.0][p.1] == Visited
    ensures forall i, j | x <= i < |g| && 0 <= j < |g[i]| && g[i][j] == Visited :: (i, j) in r
    decreases |g| - x
  {
    if x == |g| then []
    else
      var col := ColumnVisits(g, x, 0);
      var rest := GridVisits(g, x + 1);
      assert forall p | p in col :: p !in rest;
      DistinctConcat(col, rest);
      col + rest
  }

  /** The count `run` prints for part one: the number of cells marked visited. */
  function CountVisited(g: Grid): (r: nat)
    ensures r == 0 <==> VisitedExactly(g, {})
  {
    var v := GridVisits(g, 0);
    assert |v| > 0 ==> v[0] in v;
    |v|
  }

  /** The cells of `g` marked visited are exactly the positions in `s`. */
  predicate VisitedExactly(g: Grid, s: set<Pos>)
  {
    forall x: nat, y: nat | x < |g| && y < |g[x]| :: g[x][y] == Visited <==> (x, y) in s
  }

  /** The count of visited cells is the size of any in-grid set they are exactly. */
  lemma CountIsCard(g: Grid, s: set<Pos>)
    requires VisitedExactly(g, s)
    requires forall p | p in s :: InGrid(g, p)
    ensures CountVisited(g) == |s|
  {
    var v := GridVisits(g, 0);
    assert Elems(v) == s by {
      forall p | p in s
        ensures p in v
      {
        assert InGrid(g, p);
      }
    }
    DistinctCard(v);
  }

  /** The positions of a trail grow by the newest position. */
  lemma PositionsAppend(t: Trail, s: State)
    ensures Elems(Positions(t + [s])) == Elems(Positions(t)) + {s.1}
  {
    assert Positions(t + [s]) == Positions(t) + [s.1];
    ElemsAppend(Positions(t), s.1);
  }

  /** Cells marked visited between two steps: the bookkeeping of one `move_guard` call. */
  ghost predicate Marked(r: MoveResult)
  {
    if r.status == Continues then
      exists q: Pos :: OnlyGuardAt(r.grid, q) && VisitedExactly(r.grid, Elems(Positions(r.trail)) - {q})
    else
      !HasGuard(r.grid) && VisitedExactly(r.grid, Elems(Positions(r.trail)))
  }

  /** A guard stepping from `q` to `t` (or turning, `t == q`) leaves `q` visited and unmarks `t`. */
  lemma MarksAfterMove(g: Grid, g': Grid, q: Pos, t: Pos, s: set<Pos>)
    requires AgreeOff(g', g, q, t) && InGrid(g, q) && InGrid(g, t)
    requires g'[t.0][t.1].Guard? && (q != t ==> g'[q.0][q.1] == Visited)
    requires VisitedExactly(g, s - {q})
    ensures VisitedExactly(g', (s + {q}) - {t})
  {
    forall x: nat, y: nat | x < |g'| && y < |g'[x]|
      ensures g'[x][y] == Visited <==> (x, y) in (s + {q}) - {t}
    {
      if (x, y) != q && (x, y) != t {
        assert g'[x][y] == g[x][y];
      }
    }
  }

  /** A guard leaving the grid from `q` leaves `q` visited as well. */
  lemma MarksAfterStop(g: Grid, g': Grid, q: Pos, s: set<Pos>)
    requires AgreeOff(g', g, q, q) && InGrid(g, q)
    requires g'[q.0][q.1] == Visited
    requires VisitedExactly(g, s - {q})
    ensures VisitedExactly(g', s + {q})
  {
    forall x: nat, y: nat | x < |g'| && y < |g'[x]|
      ensures g'[x][y] == Visited <==> (x, y) in s + {q}
    {
      if (x, y) != q {
        assert g'[x][y] == g[x][y];
      }
    }
  }

  /**
    One step keeps the bookkeeping: with one guard at `q` and the other trail
    positions marked visited, the result is again marked.
  */
  lemma StepMarks(g: Grid, trail: Trail, q: Pos)
    requires |g| > 0 && Rectangular(g) && OnlyGuardAt(g, q)
    requires VisitedExactly(g, Elems(Positions(trail)) - {q})
    ensures Marked(MoveGuard(g, trail))
  {
    var r := MoveGuard(g, trail);
    SingleGuardScansAgree(g, q);
    MoveGuardKeepsOneGuard(g, trail, q);
    MoveGuardCells(g, trail);
    var s := (g[q.0][q.1].facing, q);
    PositionsAppend(trail, s);
    var pr := Look(g, q, s.0);
    if pr.Clear? {
      var t := NextState(s, pr);
      NewSpaceMoves(g, q, pr.dir);
      MarksAfterMove(g, r.grid, q, t.1, Elems(Positions(trail)));
    } else {
      MarksAfterStop(g, r.grid, q, Elems(Positions(trail)));
    }
  }

  /**
    Starting from one guard and no visited cell, every patrol prefix is
    marked: while the guard walks, the visited cells are the trail positions
    other than the guard's own; once it stops, they are all trail positions.
  */
  lemma {:induction false} WalkMarks(g: Grid, start: Pos, n: nat)
    requires |g| > 0 && Rectangular(g) && OnlyGuardAt(g, start)
    requires VisitedExactly(g, {})
    ensures Marked(Walk(g, n))
    decreases n
  {
    if n == 0 {
      assert Walk(g, 0) == MoveResult(g, [], Continues);
      assert Elems(Positions([])) - {start} == {};
      assert VisitedExactly(g, Elems(Positions([])) - {start});
    } else {
      WalkMarks(g, start, n - 1);
      var m := Walk(g, n - 1);
      if m.status == Continues {
        var q :| OnlyGuardAt(m.grid, q) && VisitedExactly(m.grid, Elems(Positions(m.trail)) - {q});
        StepMarks(m.grid, m.trail, q);
        assert Walk(g, n) == MoveGuard(m.grid, m.trail);
      } else {
        assert Walk(g, n) == m;
      }
    }
  }

  /**
    Part one: when the patrol from a single guard on a grid without visited
    cells has ended, the visited count is the number of distinct positions on
    its trail.
  */
  lemma VisitedIsDistinctPositions(g: Grid, start: Pos, n: nat)
    requires |g| > 0 && Rectangular(g) && OnlyGuardAt(g, start)
    requires VisitedExactly(g, {})
    requires Walk(g, n).status != Continues
    ensures CountVisited(Walk(g, n).grid) == |Elems(Positions(Walk(g, n).trail))|
  {
    var r := Walk(g, n);
    WalkMarks(g, start, n);
    WalkKeeps(g, n);
    forall p | p in Elems(Positions(r.trail))
      ensures InGrid(r.grid, p)
    {
      var i :| 0 <= i < |r.trail| && Positions(r.trail)[i] == p;
      assert InGrid(g, r.trail[i].1);
    }
    CountIsCard(r.grid, Elems(Positions(r.trail)));
  }
}
