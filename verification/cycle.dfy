/**
  Why the loop test of `check_for_loop` (src/part1and2.rs) is sound: with one
  guard on the grid, each step depends only on the guard's state and the
  obstacles, so a state that comes round again makes the patrol repeat for
  ever.
*/
module Cycle {
  import opened Seqs
  import opened Types
  import opened Step
  import opened Patrol

  /** The search from state `s`, on the grid, finds a free cell. */
  predicate Moves(h: Grid, s: State)
  {
    Rectangular(h) && InGrid(h, s.1) && Look(h, s.1, s.0).Clear?
  }

  /** `Moves` as a function value. */
  function Mover(h: Grid): State -> bool
  {
    s => Moves(h, s)
  }

  /** `x` after `i` applications of `f`. */
  function Iterate<T>(f: T -> T, x: T, i: nat): T
  {
    if i == 0 then x else f(Iterate(f, x, i - 1))
  }

  /** The guard's next state among the obstacles of `h`; a state that finds no free cell is kept. */
  function Succ(h: Grid, s: State): (t: State)
    ensures Rectangular(h) && InGrid(h, s.1) ==> InGrid(h, t.1)
  {
    if Moves(h, s) then NextState(s, Look(h, s.1, s.0)) else s
  }

  /** `Succ` as a function value. */
  function Stepper(h: Grid): State -> State
  {
    s => Succ(h, s)
  }

  /** The guard's state after `i` steps from `s0`, while it keeps finding a free cell. */
  function StateAt(h: Grid, s0: State, i: nat): State
  {
    Iterate(Stepper(h), s0, i)
  }

  /** Every state reached from an on-grid state is on the grid. */
  lemma {:induction false} StateAtInGrid(h: Grid, s0: State, i: nat)
    requires Rectangular(h) && InGrid(h, s0.1)
    ensures InGrid(h, StateAt(h, s0, i).1)
  {
    if i > 0 {
      StateAtInGrid(h, s0, i - 1);
    }
  }

  /** The first `n` states all find a free cell. */
  predicate Runs(h: Grid, s0: State, n: nat)
  {
    forall i: nat | i < n :: Mover(h)(StateAt(h, s0, i))
  }

  /** The state of the single guard of `h`. */
  function Start(h: Grid, p: Pos): (s: State)
    requires OnlyGuardAt(h, p)
    ensures s.1 == p && h[p.0][p.1] == Guard(s.0)
  {
    (h[p.0][p.1].facing, p)
  }

  /**
    The patrol result `m` after `n` calls follows `StateAt` from `s0`: it is
    still walking exactly when the first `n` states found a free cell, the
    guard then shows state `n`, and the trail records the states in order.
  */
  predicate Follows(h: Grid, s0: State, n: nat, m: MoveResult)
  {
    (m.status == Continues <==> Runs(h, s0, n)) &&
    (m.status == Continues ==>
      var s := StateAt(h, s0, n);
      OnlyGuardAt(m.grid, s.1) && m.grid[s.1.0][s.1.1] == Guard(s.0)) &&
    (forall i | 0 <= i < |m.trail| :: m.trail[i] == StateAt(h, s0, i))
  }

  /** With one guard, every patrol prefix follows `StateAt` from the guard's state. */
  lemma {:induction false} WalkFollows(h: Grid, p: Pos, n: nat)
    requires |h| > 0 && Rectangular(h) && OnlyGuardAt(h, p)
    ensures Follows(h, Start(h, p), n, Walk(h, n))
    decreases n
  {
    if n == 0 {
      assert Walk(h, 0) == MoveResult(h, [], Continues);
    } else {
      WalkFollows(h, p, n - 1);
      FollowsNext(h, Start(h, p), n);
    }
  }

  /** The induction step of `WalkFollows`. */
  lemma FollowsNext(h: Grid, s0: State, n: nat)
    requires |h| > 0 && Rectangular(h) && InGrid(h, s0.1) && n > 0
    requires Follows(h, s0, n - 1, Walk(h, n - 1))
    ensures Follows(h, s0, n, Walk(h, n))
  {
    var m := Walk(h, n - 1);
    if m.status != Continues {
      assert Walk(h, n) == m;
      StopFollows(h, s0, n, m);
    } else {
      assert Walk(h, n) == MoveGuard(m.grid, m.trail);
      WalkKeeps(h, n - 1);
      FollowStep(h, s0, n, m);
    }
  }

  /** A patrol that has stopped keeps following `StateAt`. */
  lemma StopFollows(h: Grid, s0: State, n: nat, m: MoveResult)
    requires n > 0 && m.status != Continues && Follows(h, s0, n - 1, m)
    ensures Follows(h, s0, n, m)
  {
    assert !Runs(h, s0, n - 1);
  }

  /** With one guard, the patrol is still walking after `n` calls exactly when the first `n` states found a free cell. */
  lemma WalkRuns(h: Grid, p: Pos, n: nat)
    requires |h| > 0 && Rectangular(h) && OnlyGuardAt(h, p)
    ensures Walk(h, n).status == Continues <==> Runs(h, Start(h, p), n)
  {
    WalkFollows(h, p, n);
  }

  /** When every state finds a free cell, the patrol never stops. */
  lemma RunsMeansWalking(h: Grid, p: Pos)
    requires |h| > 0 && Rectangular(h) && OnlyGuardAt(h, p)
    requires forall n: nat :: Runs(h, Start(h, p), n)
    ensures forall k: nat :: Walk(h, k).status == Continues
  {
    forall k: nat
      ensures Walk(h, k).status == Continues
    {
      WalkRuns(h, p, k);
    }
  }

  /** One continuing step of `WalkFollows`, the `n`-th call. */
  lemma FollowStep(h: Grid, s0: State, n: nat, m: MoveResult)
    requires |h| > 0 && Rectangular(h) && InGrid(h, s0.1) && n > 0
    requires |m.grid| > 0 && Rectangular(m.grid) && SameObstacles(m.grid, h)
    requires m.status == Continues && |m.trail| == n - 1
    requires Follows(h, s0, n - 1, m)
    ensures Follows(h, s0, n, MoveGuard(m.grid, m.trail))
  {
    var s := StateAt(h, s0, n - 1);
    GuardStep(h, m.grid, m.trail, s);
    AppendFollows(h, s0, m.trail);
    assert Runs(h, s0, n) <==> Moves(h, s) by {
      assert Runs(h, s0, n) ==> Mover(h)(StateAt(h, s0, n - 1));
    }
    assert StateAt(h, s0, n) == Succ(h, s);
  }

  /**
    One call of `move_guard` on a grid with the same obstacles as `h` whose
    single guard shows state `s`: it records `s`, continues exactly when `s`
    finds a free cell in `h`, and then shows the guard in state `Succ(h, s)`.
  */
  lemma GuardStep(h: Grid, g: Grid, trail: Trail, s: State)
    requires |h| > 0 && Rectangular(h) && |g| > 0 && Rectangular(g) && SameObstacles(g, h)
    requires OnlyGuardAt(g, s.1) && g[s.1.0][s.1.1] == Guard(s.0)
    ensures var r := MoveGuard(g, trail);
      r.trail == trail + [s] &&
      (r.status == Continues <==> Moves(h, s)) &&
      (r.status == Continues ==>
        var t := Succ(h, s);
        OnlyGuardAt(r.grid, t.1) && r.grid[t.1.0][t.1.1] == Guard(t.0))
  {
    var r := MoveGuard(g, trail);
    SingleGuardScansAgree(g, s.1);
    MoveGuardKeepsOneGuard(g, trail, s.1);
    LookSameObstacles(h, g, s.1, s.0);
    assert s == (g[s.1.0][s.1.1].facing, s.1);
  }

  /** A trail that records the first states, extended by the next one. */
  lemma AppendFollows(h: Grid, s0: State, t: Trail)
    requires forall i | 0 <= i < |t| :: t[i] == StateAt(h, s0, i)
    ensures var u := t + [StateAt(h, s0, |t|)];
      forall i | 0 <= i < |u| :: u[i] == StateAt(h, s0, i)
  {
  }

  /** An iteration that meets a value again repeats from there. */
  lemma {:induction false} Periodic<T>(f: T -> T, x: T, i: nat, j: nat, m: nat)
    requires Iterate(f, x, i) == Iterate(f, x, j)
    ensures Iterate(f, x, i + m) == Iterate(f, x, j + m)
    decreases m
  {
    if m > 0 {
      Periodic(f, x, i, j, m - 1);
    }
  }

  /**
    When an iteration meets value `n - 1` again at an earlier `i` and the
    first `n` values satisfy `P`, every value does.
  */
  lemma {:induction false} RepeatKeeps<T>(f: T -> T, x: T, P: T -> bool, i: nat, n: nat, t: nat)
    requires i + 1 < n && Iterate(f, x, i) == Iterate(f, x, n - 1)
    requires forall k: nat | k < n :: P(Iterate(f, x, k))
    ensures P(Iterate(f, x, t))
    decreases t
  {
    if t >= n {
      var back := t - (n - 1 - i);
      RepeatKeeps(f, x, P, i, n, back);
      Periodic(f, x, i, n - 1, back - i);
    }
  }

  /** A patrol that loops at call `n` has met state `n - 1` before, and every state so far found a free cell. */
  lemma RepeatedState(h: Grid, p: Pos, n: nat) returns (i: nat)
    requires |h| > 0 && Rectangular(h) && OnlyGuardAt(h, p)
    requires LoopsAt(h, n)
    ensures i + 1 < n && StateAt(h, Start(h, p), i) == StateAt(h, Start(h, p), n - 1)
    ensures Runs(h, Start(h, p), n)
  {
    WalkFollows(h, p, n);
    i := RepeatIn(h, Start(h, p), n, Walk(h, n));
  }

  /** A still-walking result that follows `StateAt` and whose newest trail state occurs earlier. */
  lemma RepeatIn(h: Grid, s0: State, n: nat, m: MoveResult) returns (i: nat)
    requires Follows(h, s0, n, m) && m.status == Continues && |m.trail| == n
    requires n > 0 && m.trail[n - 1] in m.trail[..n - 1]
    ensures i + 1 < n && StateAt(h, s0, i) == StateAt(h, s0, n - 1)
    ensures Runs(h, s0, n)
  {
    var t := m.trail;
    i :| 0 <= i < n - 1 && t[..n - 1][i] == t[n - 1];
    assert t[i] == t[n - 1];
  }

  /** A repeated state whose cycle keeps finding free cells finds free cells for ever. */
  lemma RunsForever(h: Grid, s0: State, i: nat, n: nat)
    requires i + 1 < n && StateAt(h, s0, i) == StateAt(h, s0, n - 1) && Runs(h, s0, n)
    ensures forall m: nat :: Runs(h, s0, m)
  {
    forall k: nat | k < n
      ensures Mover(h)(Iterate(Stepper(h), s0, k))
    {
      assert Mover(h)(StateAt(h, s0, k));
    }
    assert Iterate(Stepper(h), s0, i) == Iterate(Stepper(h), s0, n - 1);
    forall m: nat
      ensures Runs(h, s0, m)
    {
      forall t: nat | t < m
        ensures Mover(h)(StateAt(h, s0, t))
      {
        RepeatKeeps(Stepper(h), s0, Mover(h), i, n, t);
      }
    }
  }

  /**
    Soundness of the loop test: with one guard on the grid, once the newest
    trail state already occurs earlier on the trail the guard never stops nor
    gets enclosed.
  */
  lemma RepeatIsForever(h: Grid, p: Pos, n: nat)
    requires |h| > 0 && Rectangular(h) && OnlyGuardAt(h, p)
    requires LoopsAt(h, n)
    ensures forall k: nat :: Walk(h, k).status == Continues
  {
    var i := RepeatedState(h, p, n);
    RunsForever(h, Start(h, p), i, n);
    RunsMeansWalking(h, p);
  }

  /**
    A candidate obstacle away from the single guard that makes the patrol
    revisit a state keeps the guard walking for ever.
  */
  lemma LoopsWithIsForever(g: Grid, c: Pos, p: Pos)
    requires |g| > 0 && Rectangular(g) && InGrid(g, c) && OnlyGuardAt(g, p) && c != p
    requires LoopsWith(g, c)
    ensures forall k: nat :: Walk(Place(g, c), k).status == Continues
  {
    var h := Place(g, c);
    PlaceKeepsGuard(g, c, p);
    var n :| LoopsAt(h, n);
    RepeatIsForever(h, p, n);
  }

  /** An obstacle placed away from the single guard leaves it the single guard. */
  lemma PlaceKeepsGuard(g: Grid, c: Pos, p: Pos)
    requires |g| > 0 && Rectangular(g) && InGrid(g, c) && OnlyGuardAt(g, p) && c != p
    ensures OnlyGuardAt(Place(g, c), p)
  {
    var h: Grid := Place(g, c);
    forall x: nat, y: nat | x < |h| && y < |h[x]| && h[x][y].Guard?
      ensures (x, y) == p
    {
      assert (x, y) != c;
      assert g[x][y] == h[x][y];
    }
  }
}
