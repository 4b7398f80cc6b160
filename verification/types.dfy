/**
  The grid model of the guard-patrol room (src/types.rs): facings, cells and
  their glyphs, the room record with its trail-replay cursor, single-cell
  mutators, guard lookup, the line-to-grid parse and the text display.

  A grid is stored transposed from its text: `grid[x][y]` is the character in
  column `x` of text line `y`.
*/
module Types {
  import opened Seqs

  /** The four facings of the guard. */
  datatype Direction = Up | Down | Left | Right

  /** One square of the room. */
  datatype Cell = Guard(facing: Direction) | Obstacle | Visited | Empty

  /** A position `(x, y)`: `x` indexes the outer sequence of the grid, `y` the inner one. */
  type Pos = (nat, nat)

  /** One trail entry: the guard's facing and position. */
  type State = (Direction, Pos)

  type Grid = seq<seq<Cell>>

  type Trail = seq<State>

  /** A room: its name, the replay cursor into its trail, the grid and the trail. */
  datatype Room = Room(name: string, trailIdx: nat, grid: Grid, trail: Trail)

  predicate InGrid(g: Grid, p: Pos)
  {
    p.0 < |g| && p.1 < |g[p.0]|
  }

  /** Every column has the length of the first. */
  predicate Rectangular(g: Grid)
  {
    forall x | 0 <= x < |g| :: |g[x]| == |g[0]|
  }

  /** Every inner sequence is at least as long as the first one. */
  predicate Covers<T>(m: seq<seq<T>>)
  {
    forall j | 0 <= j < |m| :: |m[j]| >= |m[0]|
  }

  /** Two grids with the same column count and column lengths. */
  predicate SameShape(a: Grid, b: Grid)
  {
    |a| == |b| && forall x | 0 <= x < |a| :: |a[x]| == |b[x]|
  }

  /** Two grids of the same shape that agree on every cell except possibly `p` and `q`. */
  predicate AgreeOff(a: Grid, b: Grid, p: Pos, q: Pos)
  {
    SameShape(a, b) &&
    forall x: nat, y: nat | x < |a| && y < |a[x]| && (x, y) != p && (x, y) != q :: a[x][y] == b[x][y]
  }

  predicate HasGuard(g: Grid)
  {
    exists x: nat, y: nat | x < |g| && y < |g[x]| :: g[x][y].Guard?
  }

  /** `p` holds a guard and no other cell does. */
  predicate OnlyGuardAt(g: Grid, p: Pos)
  {
    InGrid(g, p) && g[p.0][p.1].Guard? &&
    forall x: nat, y: nat | x < |g| && y < |g[x]| && g[x][y].Guard? :: (x, y) == p
  }

  /** No guard cell comes before `p` in x-then-y scan order. */
  predicate NoGuardBefore(g: Grid, p: Pos)
  {
    forall x: nat, y: nat | x < |g| && y < |g[x]| && (x < p.0 || (x == p.0 && y < p.1)) :: !g[x][y].Guard?
  }

  /** No guard cell comes after `p` in x-then-y scan order. */
  predicate NoGuardAfter(g: Grid, p: Pos)
  {
    forall x: nat, y: nat | x < |g| && y < |g[x]| && (x > p.0 || (x == p.0 && y > p.1)) :: !g[x][y].Guard?
  }

  // ---------------------------------------------------------------------------
  // Cells and text

  /** The display glyph of a cell. */
  function Glyph(c: Cell): (ch: char)
    ensures ParseCell(ch) == Normalize(c)
    ensures ch != '\n'
  {
    match c
    case Guard(Up) => '^'
    case Guard(Down) => 'v'
    case Guard(Left) => '<'
    case Guard(Right) => '>'
    case Obstacle => '#'
    case Visited => '.'
    case Empty => ' '
  }

  /** The cell a character reads as. */
  function ParseCell(ch: char): (c: Cell)
    ensures c.Guard? <==> ch == '^'
    ensures c == Obstacle <==> ch == '#'
    ensures c.Guard? ==> c.facing == Up
    ensures c != Visited
  {
    match ch
    case '^' => Guard(Up)
    case '#' => Obstacle
    case _ => Empty
  }

  /** What survives printing a cell and reading it back. */
  function Normalize(c: Cell): Cell
  {
    match c
    case Guard(Up) => Guard(Up)
    case Obstacle => Obstacle
    case _ => Empty
  }

  /** Distinct cells print as distinct glyphs. */
  lemma GlyphInjective(a: Cell, b: Cell)
    ensures Glyph(a) == Glyph(b) ==> a == b
  {
  }

  /** Swap the two index levels: `t[i][j] == m[j][i]`. */
  function Transpose<T>(m: seq<seq<T>>): (t: seq<seq<T>>)
    requires |m| > 0 && Covers(m)
    ensures |t| == |m[0]|
    ensures forall i | 0 <= i < |t| :: |t[i]| == |m|
    ensures forall i, j | 0 <= i < |t| && 0 <= j < |m| :: t[i][j] == m[j][i]
  {
    seq(|m[0]|, i requires 0 <= i < |m[0]| => seq(|m|, j requires 0 <= j < |m| => m[j][i]))
  }

  /** The cells of each text line, before transposition. */
  function RawRows(lines: seq<string>): (raw: seq<seq<Cell>>)
    ensures |raw| == |lines|
    ensures forall j | 0 <= j < |raw| :: |raw[j]| == |lines[j]|
    ensures forall j, i | 0 <= j < |raw| && 0 <= i < |raw[j]| :: raw[j][i] == ParseCell(lines[j][i])
  {
    seq(|lines|, j requires 0 <= j < |lines| =>
      seq(|lines[j]|, i requires 0 <= i < |lines[j]| => ParseCell(lines[j][i])))
  }

  /**
    The grid read from text lines: each character becomes a cell and the result
    is transposed, so there are as many columns as the first line has characters.
  */
  function ParseGrid(lines: seq<string>): (g: Grid)
    requires |lines| > 0 && Covers(lines)
    ensures |g| == |lines[0]|
    ensures forall x | 0 <= x < |g| :: |g[x]| == |lines|
    ensures Rectangular(g)
    ensures forall x, y | 0 <= x < |g| && 0 <= y < |lines| :: g[x][y] == ParseCell(lines[y][x])
  {
    Transpose(RawRows(lines))
  }

  /** A room read from text lines: named, parsed grid, empty trail, cursor at 0. */
  function FromLines(lines: seq<string>, name: string): (room: Room)
    requires |lines| > 0 && Covers(lines)
    ensures room.name == name && room.trailIdx == 0 && room.trail == []
    ensures |room.grid| == |lines[0]|
    ensures forall x | 0 <= x < |room.grid| :: |room.grid[x]| == |lines|
    ensures forall x, y | 0 <= x < |room.grid| && 0 <= y < |lines| :: room.grid[x][y] == ParseCell(lines[y][x])
    ensures !exists x, y | 0 <= x < |room.grid| && 0 <= y < |room.grid[x]| :: room.grid[x][y] == Visited
  {
    Room(name, 0, ParseGrid(lines), [])
  }

  /** `n` dashes. */
  function Dashes(n: nat): (s: string)
    ensures |s| == n && forall i | 0 <= i < n :: s[i] == '-'
  {
    if n == 0 then "" else Dashes(n - 1) + "-"
  }

  /** Each line followed by a newline, concatenated. */
  function JoinLines(ls: seq<string>): (s: string)
    ensures |ls| > 0 ==> |s| > 0 && s[|s| - 1] == '\n'
  {
    if |ls| == 0 then "" else ls[0] + "\n" + JoinLines(ls[1..])
  }

  /** Position of the first newline in `s`, or `|s|` when there is none. */
  function NewlineAt(s: string): (k: nat)
    ensures k <= |s|
    ensures k < |s| ==> s[k] == '\n'
    ensures forall i | 0 <= i < k :: s[i] != '\n'
  {
    if |s| == 0 then 0 else if s[0] == '\n' then 0 else 1 + NewlineAt(s[1..])
  }

  /** Split text into lines at newlines; a final newline does not start an extra line. */
  function SplitLines(s: string): seq<string>
    decreases |s|
  {
    if |s| == 0 then []
    else
      var k := NewlineAt(s);
      if k == |s| then [s] else [s[..k]] + SplitLines(s[k + 1..])
  }

  predicate NoNewline(s: string)
  {
    forall i | 0 <= i < |s| :: s[i] != '\n'
  }

  /** Splitting joined lines gives the lines back. */
  lemma {:induction false} SplitJoin(ls: seq<string>)
    requires forall i | 0 <= i < |ls| :: NoNewline(ls[i])
    ensures SplitLines(JoinLines(ls)) == ls
  {
    if |ls| > 0 {
      var s := JoinLines(ls);
      var rest := JoinLines(ls[1..]);
      assert s == ls[0] + "\n" + rest;
      assert NewlineAt(s) == |ls[0]| by {
        assert forall i | 0 <= i < |ls[0]| :: s[i] == ls[0][i];
        assert s[|ls[0]|] == '\n';
      }
      assert s[..|ls[0]|] == ls[0];
      assert s[|ls[0]| + 1..] == rest;
      SplitJoin(ls[1..]);
      assert [ls[0]] + ls[1..] == ls;
    }
  }

  /** The display lines between the dashed header and footer: line `c` holds `grid[r][c]` for every `r`. */
  function BodyLines(g: Grid): seq<string>
    requires |g| > 0 && Covers(g)
  {
    Transpose(seq(|g|, r requires 0 <= r < |g| => seq(|g[r]|, c requires 0 <= c < |g[r]| => Glyph(g[r][c]))))
  }

  /** All display lines of a grid, header and footer included. */
  function DisplayLines(g: Grid): seq<string>
    requires Covers(g)
  {
    if |g| == 0 then [] else [Dashes(|g[0]|)] + BodyLines(g) + [Dashes(|g[0]|)]
  }

  /**
    The text display of a grid. An empty grid displays as the empty string;
    otherwise the lines are a header of `|g[0]|` dashes, then `|g[0]|` lines of
    width `|g|` where character `r` of line `c` is the glyph of `g[r][c]`, then
    the same dashed footer.
  */
  function Display(g: Grid): (s: string)
    requires Covers(g)
    ensures |g| == 0 ==> s == ""
    ensures |g| > 0 ==>
      var ls := SplitLines(s);
      |ls| == |g[0]| + 2 &&
      ls[0] == Dashes(|g[0]|) && ls[|g[0]| + 1] == Dashes(|g[0]|) &&
      forall c | 1 <= c <= |g[0]| :: |ls[c]| == |g| && forall r | 0 <= r < |g| :: ls[c][r] == Glyph(g[r][c - 1])
    ensures |g| > 0 ==> |s| > 0 && s[|s| - 1] == '\n'
  {
    var ls := DisplayLines(g);
    assert forall i | 0 <= i < |ls| :: NoNewline(ls[i]);
    SplitJoin(ls);
    JoinLines(ls)
  }

  /** The grid with every cell normalized. */
  function NormalizeGrid(g: Grid): (n: Grid)
    ensures SameShape(n, g)
    ensures forall x, y | 0 <= x < |g| && 0 <= y < |g[x]| :: n[x][y] == Normalize(g[x][y])
  {
    seq(|g|, x requires 0 <= x < |g| => seq(|g[x]|, y requires 0 <= y < |g[x]| => Normalize(g[x][y])))
  }

  /**
    Reading back the body lines of a display gives the grid again, up to the
    cells that have no glyph of their own in the parser (visited cells and
    guards not facing up read as empty).
  */
  lemma DisplayParseRoundTrip(g: Grid)
    requires |g| > 0 && |g[0]| > 0 && Rectangular(g)
    ensures var ls := SplitLines(Display(g));
      |ls| == |g[0]| + 2 &&
      ParseGrid(ls[1..|g[0]| + 1]) == NormalizeGrid(g)
  {
    var ls := SplitLines(Display(g));
    var body := ls[1..|g[0]| + 1];
    assert |body[0]| == |g|;
    var p := ParseGrid(body);
    var n := NormalizeGrid(g);
    assert |p| == |n|;
    forall x | 0 <= x < |p|
      ensures p[x] == n[x]
    {
      assert |p[x]| == |n[x]|;
      forall y | 0 <= y < |p[x]|
        ensures p[x][y] == n[x][y]
      {
        assert body[y] == ls[y + 1];
      }
    }
  }

  // ---------------------------------------------------------------------------
  // Single-cell mutation and guard lookup

  /** The grid with the cell at `p` replaced by `c`. */
  function SetCell(g: Grid, p: Pos, c: Cell): (r: Grid)
    requires InGrid(g, p)
    ensures AgreeOff(r, g, p, p)
    ensures r[p.0][p.1] == c
    ensures Rectangular(g) ==> Rectangular(r)
  {
    g[p.0 := g[p.0][p.1 := c]]
  }

  /** `Room::new`: an empty grid, the cursor at 0 and the given trail or an empty one. */
  function NewRoom(name: string, trail: Option<Trail>): (r: Room)
    ensures r.grid == [] && Display(r.grid) == ""
    ensures r.trailIdx == 0 && r.name == name
    ensures r.trail == (if trail.Some? then trail.value else [])
  {
    match trail
    case Some(t) => Room(name, 0, [], t)
    case None => Room(name, 0, [], [])
  }

  function AddObstacle(room: Room, x: nat, y: nat): (r: Room)
    requires InGrid(room.grid, (x, y))
    ensures AgreeOff(r.grid, room.grid, (x, y), (x, y))
    ensures r.grid[x][y] == Obstacle
    ensures r.name == room.name && r.trailIdx == room.trailIdx && r.trail == room.trail
  {
    room.(grid := SetCell(room.grid, (x, y), Obstacle))
  }

  function AddGuard(room: Room, x: nat, y: nat, d: Direction): (r: Room)
    requires InGrid(room.grid, (x, y))
    ensures AgreeOff(r.grid, room.grid, (x, y), (x, y))
    ensures r.grid[x][y] == Guard(d)
    ensures r.name == room.name && r.trailIdx == room.trailIdx && r.trail == room.trail
  {
    room.(grid := SetCell(room.grid, (x, y), Guard(d)))
  }

  function VisitSpace(room: Room, x: nat, y: nat): (r: Room)
    requires InGrid(room.grid, (x, y))
    ensures AgreeOff(r.grid, room.grid, (x, y), (x, y))
    ensures r.grid[x][y] == Visited
    ensures r.name == room.name && r.trailIdx == room.trailIdx && r.trail == room.trail
  {
    room.(grid := SetCell(room.grid, (x, y), Visited))
  }

  /** The first guard cell of `row` at index `j` or later. */
  function FirstGuardInRow(row: seq<Cell>, j: nat): (r: Option<nat>)
    requires j <= |row|
    decreases |row| - j
    ensures r.Some? ==> j <= r.value < |row| && row[r.value].Guard? && forall k | j <= k < r.value :: !row[k].Guard?
    ensures r.None? ==> forall k | j <= k < |row| :: !row[k].Guard?
  {
    if j == |row| then None
    else if row[j].Guard? then Some(j)
    else FirstGuardInRow(row, j + 1)
  }

  /** The first guard cell in columns `i` and later, in x-then-y scan order. */
  function FindGuardFrom(g: Grid, i: nat): (r: Option<State>)
    requires i <= |g|
    decreases |g| - i
    ensures r.Some? ==>
      var (d, p) := r.value;
      i <= p.0 && InGrid(g, p) && g[p.0][p.1] == Guard(d) &&
      forall x: nat, y: nat | i <= x < |g| && y < |g[x]| && (x < p.0 || (x == p.0 && y < p.1)) :: !g[x][y].Guard?
    ensures r.None? ==> forall x: nat, y: nat | i <= x < |g| && y < |g[x]| :: !g[x][y].Guard?
  {
    if i == |g| then None
    else
      match FirstGuardInRow(g[i], 0)
      case Some(y) => Some((g[i][y].facing, (i, y)))
      case None => FindGuardFrom(g, i + 1)
  }

  /** `find_guard`: the first guard cell in x-then-y scan order, with its facing. */
  function FindGuard(g: Grid): (r: Option<State>)
    ensures r.None? <==> !HasGuard(g)
    ensures r.Some? ==> InGrid(g, r.value.1) && g[r.value.1.0][r.value.1.1] == Guard(r.value.0) && NoGuardBefore(g, r.value.1)
  {
    var r := FindGuardFrom(g, 0);
    assert r.Some? ==> var p := r.value.1; g[p.0][p.1].Guard?;
    r
  }

  /** The last guard cell among the first `n` cells of `row`. */
  function LastGuardInRow(row: seq<Cell>, n: nat): (r: Option<nat>)
    requires n <= |row|
    ensures r.Some? ==> r.value < n && row[r.value].Guard?
  {
    if n == 0 then None
    else if row[n - 1].Guard? then Some(n - 1)
    else LastGuardInRow(row, n - 1)
  }

  /** The row scan finds the last guard cell before `n`, and finds none only when there is none. */
  lemma {:induction false} LastGuardInRowSpec(row: seq<Cell>, n: nat)
    requires n <= |row|
    ensures var r := LastGuardInRow(row, n);
      (r.Some? ==> forall k | r.value < k < n :: !row[k].Guard?) &&
      (r.None? ==> forall k | 0 <= k < n :: !row[k].Guard?)
  {
    if n > 0 && !row[n - 1].Guard? {
      LastGuardInRowSpec(row, n - 1);
    }
  }

  /** The last guard cell among the first `n` columns, in x-then-y scan order. */
  function LastGuardIn(g: Grid, n: nat): (r: Option<State>)
    requires n <= |g|
    ensures r.Some? ==>
      var (d, p) := r.value;
      p.0 < n && InGrid(g, p) && g[p.0][p.1] == Guard(d)
  {
    if n == 0 then None
    else
      match LastGuardInRow(g[n - 1], |g[n - 1]|)
      case Some(y) => Some((g[n - 1][y].facing, (n - 1, y)))
      case None => LastGuardIn(g, n - 1)
  }

  /** The column scan finds the last guard cell before column `n`, and finds none only when there is none. */
  lemma {:induction false} LastGuardInSpec(g: Grid, n: nat)
    requires n <= |g|
    ensures var r := LastGuardIn(g, n);
      (r.Some? ==> var p := r.value.1;
        forall x: nat, y: nat | x < n && y < |g[x]| && (x > p.0 || (x == p.0 && y > p.1)) :: !g[x][y].Guard?) &&
      (r.None? ==> forall x: nat, y: nat | x < n && y < |g[x]| :: !g[x][y].Guard?)
  {
    if n > 0 {
      LastGuardInRowSpec(g[n - 1], |g[n - 1]|);
      if LastGuardInRow(g[n - 1], |g[n - 1]|).None? {
        LastGuardInSpec(g, n - 1);
      }
    }
  }

  /**
    The guard `move_guard` acts on: its scan keeps overwriting what it found, so
    it ends with the last guard cell in x-then-y order.
  */
  function LastGuard(g: Grid): (r: Option<State>)
    ensures r.Some? ==> InGrid(g, r.value.1) && g[r.value.1.0][r.value.1.1] == Guard(r.value.0)
  {
    LastGuardIn(g, |g|)
  }

  /** The scan finds a guard exactly when there is one, and no guard cell comes after the one it finds. */
  lemma LastGuardSpec(g: Grid)
    ensures LastGuard(g).None? <==> !HasGuard(g)
    ensures LastGuard(g).Some? ==> NoGuardAfter(g, LastGuard(g).value.1)
  {
    LastGuardInSpec(g, |g|);
    var r := LastGuard(g);
    if r.Some? {
      var p := r.value.1;
      assert g[p.0][p.1].Guard?;
    }
  }

  /** With a single guard on the grid, the first and the last scan agree. */
  lemma SingleGuardScansAgree(g: Grid, p: Pos)
    requires OnlyGuardAt(g, p)
    ensures FindGuard(g) == LastGuard(g) == Some((g[p.0][p.1].facing, p))
  {
    LastGuardSpec(g);
  }

  // ---------------------------------------------------------------------------
  // Trail replay

  /** The cell at the cursor shows the guard of the current trail entry. */
  predicate CursorShown(room: Room)
  {
    room.trailIdx < |room.trail| ==>
      var (d, p) := room.trail[room.trailIdx];
      InGrid(room.grid, p) && room.grid[p.0][p.1] == Guard(d)
  }

  /**
    `advance`: step the replay cursor forward. While the cursor is on an entry
    it moves to the next index; when that index is an entry too, the old
    entry's cell becomes visited and the guard appears at the new entry.
  */
  function Advance(room: Room): (r: Room)
    requires room.trailIdx + 1 < |room.trail| ==>
      InGrid(room.grid, room.trail[room.trailIdx].1) && InGrid(room.grid, room.trail[room.trailIdx + 1].1)
    ensures r.name == room.name && r.trail == room.trail
    ensures room.trailIdx < |room.trail| ==> r.trailIdx == room.trailIdx + 1
    ensures room.trailIdx >= |room.trail| ==> r == room
    ensures room.trailIdx <= |room.trail| ==> r.trailIdx <= |r.trail|
    ensures room.trailIdx + 1 >= |room.trail| ==> r.grid == room.grid
    ensures room.trailIdx + 1 < |room.trail| ==>
      var p := room.trail[room.trailIdx].1;
      var q := room.trail[room.trailIdx + 1].1;
      CursorShown(r) && AgreeOff(r.grid, room.grid, p, q) && (p != q ==> r.grid[p.0][p.1] == Visited)
  {
    if room.trailIdx < |room.trail| then
      var pos := room.trail[room.trailIdx];
      var moved := room.(trailIdx := room.trailIdx + 1);
      if moved.trailIdx < |moved.trail| then
        var visited := VisitSpace(moved, pos.1.0, pos.1.1);
        var (d, (x, y)) := moved.trail[moved.trailIdx];
        AddGuard(visited, x, y, d)
      else moved
    else room
  }

  /**
    `retreat` as written: when `0 < trailIdx < |trail|` it clears the current
    entry's cell, decrements the cursor, and then places the guard back on the
    cell it has just cleared (the position was read before the decrement).
  */
  function Retreat(room: Room): (r: Room)
    requires 0 < room.trailIdx < |room.trail| ==> InGrid(room.grid, room.trail[room.trailIdx].1)
    ensures r.name == room.name && r.trail == room.trail
    ensures !(0 < room.trailIdx < |room.trail|) ==> r == room
    ensures 0 < room.trailIdx < |room.trail| ==>
      var (d, p) := room.trail[room.trailIdx];
      r.trailIdx == room.trailIdx - 1 && AgreeOff(r.grid, room.grid, p, p) && r.grid[p.0][p.1] == Guard(d)
  {
    if room.trailIdx < |room.trail| && room.trailIdx > 0 then
      var pos := room.trail[room.trailIdx];
      var cleared := room.(grid := SetCell(room.grid, pos.1, Empty));
      var back := cleared.(trailIdx := cleared.trailIdx - 1);
      AddGuard(back, pos.1.0, pos.1.1, pos.0)
    else room
  }

  /**
    The evident intent of `retreat`: clear the current entry's cell, step the
    cursor back and show the guard at the previous entry.
  */
  function RetreatToPrevious(room: Room): (r: Room)
    requires 0 < room.trailIdx < |room.trail| ==>
      InGrid(room.grid, room.trail[room.trailIdx].1) && InGrid(room.grid, room.trail[room.trailIdx - 1].1)
    ensures r.name == room.name && r.trail == room.trail
    ensures !(0 < room.trailIdx < |room.trail|) ==> r == room
    ensures 0 < room.trailIdx < |room.trail| ==>
      var p := room.trail[room.trailIdx].1;
      var q := room.trail[room.trailIdx - 1].1;
      r.trailIdx == room.trailIdx - 1 && CursorShown(r) && AgreeOff(r.grid, room.grid, p, q) &&
      (p != q ==> r.grid[p.0][p.1] == Empty)
  {
    if room.trailIdx < |room.trail| && room.trailIdx > 0 then
      var pos := room.trail[room.trailIdx];
      var cleared := room.(grid := SetCell(room.grid, pos.1, Empty));
      var back := cleared.(trailIdx := cleared.trailIdx - 1);
      var (d, (x, y)) := back.trail[back.trailIdx];
      AddGuard(back, x, y, d)
    else room
  }

  /**
    Stepping back after stepping forward returns the cursor to where it was and
    shows the guard at that entry again.
  */
  lemma AdvanceThenRetreat(room: Room)
    requires room.trailIdx + 1 < |room.trail|
    requires forall i | 0 <= i < |room.trail| :: InGrid(room.grid, room.trail[i].1)
    ensures RetreatToPrevious(Advance(room)).trailIdx == room.trailIdx
    ensures CursorShown(RetreatToPrevious(Advance(room)))
  {
  }

  /**
    The source's `retreat` does not show the guard at the entry it steps back
    to: a two-entry trail whose cursor display is consistent loses that
    consistency after one `retreat`.
  */
  lemma RetreatLosesCursor()
    ensures var room := Room("", 1, [[Visited, Guard(Down)]], [(Down, (0, 0)), (Down, (0, 1))]);
      CursorShown(room) && !CursorShown(Retreat(room))
  {
    var room := Room("", 1, [[Visited, Guard(Down)]], [(Down, (0, 0)), (Down, (0, 1))]);
    var r := Retreat(room);
    assert r.trailIdx == 0;
    assert r.grid[0][0] == Visited;
  }
}
