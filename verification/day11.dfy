/** Day 11 (`src/challenge/day11/mod.rs`): the seating automaton. Every
    seat looks at its neighbours in the current grid and all seats change
    at once, until nothing changes. */
module Seating {
  import opened Wrappers
  import opened Text
  import opened Seqs

  datatype Tile = Floor | Empty | Occupied

  /** Rows of tiles; `FixedGrid` is always rectangular. */
  type Grid = seq<seq<Tile>>

  /** `Point<i64>`: `x` is the column, `y` the row. */
  datatype Point = Point(x: int, y: int)

  predicate Rect(g: Grid) {
    forall y | 0 <= y < |g| :: |g[y]| == |g[0]|
  }

  /** `maybe_point_to_idx(p).is_some()`. */
  predicate InBounds(g: Grid, p: Point) {
    0 <= p.y < |g| && 0 <= p.x < |g[p.y]|
  }

  function At(g: Grid, p: Point): Tile
    requires InBounds(g, p)
  {
    g[p.y][p.x]
  }

  predicate SameShape(g: Grid, h: Grid) {
    |g| == |h| && forall y | 0 <= y < |g| :: |g[y]| == |h[y]|
  }

  // ---------------------------------------------------------------------
  // Text form
  // ---------------------------------------------------------------------

  function ParseTile(c: char): (r: Result<Tile>)
    ensures r.Ok? <==> c in ".L#"
  {
    match c
    case '.' => Ok(Floor)
    case 'L' => Ok(Empty)
    case '#' => Ok(Occupied)
    case _ => Err("unknown tile char")
  }

  /** The `Debug` form of a tile. */
  function TileChar(t: Tile): char {
    match t
    case Floor => '.'
    case Empty => 'L'
    case Occupied => '#'
  }

  lemma ParseTileChar(t: Tile)
    ensures ParseTile(TileChar(t)) == Ok(t)
  {
  }

  function ParseRow(line: string): (r: Result<seq<Tile>>)
    ensures r.Ok? <==> forall i | 0 <= i < |line| :: line[i] in ".L#"
    ensures r.Ok? ==> |r.value| == |line|
    ensures r.Ok? ==> forall i | 0 <= i < |line| :: ParseTile(line[i]) == Ok(r.value[i])
  {
    CollectAll(line, ParseTile)
  }

  /** One row per line and one tile per character; any other character is
      an error, and so are rows of different lengths. */
  function ParseGrid(input: string): (r: Result<Grid>)
    ensures r.Ok? ==> Rect(r.value) && |r.value| == |Lines(input)|
    ensures r.Ok? ==> forall y, x | 0 <= y < |r.value| && 0 <= x < |r.value[y]| ::
                        x < |Lines(input)[y]| && ParseTile(Lines(input)[y][x]) == Ok(r.value[y][x])
  {
    var rows :- CollectAll(Lines(input), ParseRow);
    if Rect(rows) then Ok(rows) else Err("rows of different lengths")
  }

  // ---------------------------------------------------------------------
  // Looking around
  // ---------------------------------------------------------------------

  /** `adjacent_all`: the eight unit steps. */
  const DIRS: seq<Point> := [
    Point(-1, -1), Point(0, -1), Point(1, -1),
    Point(-1, 0), Point(1, 0),
    Point(-1, 1), Point(0, 1), Point(1, 1)]

  predicate IsDir(d: Point) {
    -1 <= d.x <= 1 && -1 <= d.y <= 1 && (d.x != 0 || d.y != 0)
  }

  lemma DirsAreDirs()
    ensures forall i | 0 <= i < |DIRS| :: IsDir(DIRS[i])
    ensures forall d | IsDir(d) :: d in DIRS
  {
  }

  /** The point `mag` steps from `c` in direction `d`. */
  function Ray(c: Point, d: Point, mag: int): Point {
    Point(c.x + d.x * mag, c.y + d.y * mag)
  }

  predicate OccupiedAt(g: Grid, p: Point) {
    InBounds(g, p) && At(g, p) == Occupied
  }

  /** Past this many steps any direction has left the grid. */
  function Horizon(g: Grid, c: Point): nat
    requires |g| > 0
  {
    |g| + |g[0]| + (if c.x < 0 then -c.x else c.x) + (if c.y < 0 then -c.y else c.y)
  }

  lemma InsideHorizon(g: Grid, c: Point, d: Point, mag: nat)
    requires Rect(g) && IsDir(d) && InBounds(g, Ray(c, d, mag))
    ensures mag < Horizon(g, c)
  {
    var p := Ray(c, d, mag);
    var m: int := mag;
    assert d.x * m == (if d.x == 1 then m else if d.x == -1 then -m else 0);
    assert d.y * m == (if d.y == 1 then m else if d.y == -1 then -m else 0);
    assert |g[p.y]| == |g[0]|;
  }

  /** `scan_direction` from step `mag` on: pass over floor, and report
      whether the first seat is occupied; the edge counts as empty. */
  function Scan(g: Grid, c: Point, d: Point, mag: nat): bool
    requires Rect(g) && IsDir(d)
    decreases if |g| == 0 then 0 else Horizon(g, c) - mag
  {
    var p := Ray(c, d, mag);
    if !InBounds(g, p) then false
    else match At(g, p)
      case Floor =>
        InsideHorizon(g, c, d, mag);
        Scan(g, c, d, mag + 1)
      case Empty => false
      case Occupied => true
  }

  /** Looking from `c` along `d`, the first seat at or after step `mag` is
      occupied: there is one at step `k`, with only floor in between. */
  ghost predicate SeesOccupiedFrom(g: Grid, c: Point, d: Point, mag: nat) {
    exists k: nat | k >= mag ::
      && OccupiedAt(g, Ray(c, d, k))
      && forall j: nat | mag <= j < k :: InBounds(g, Ray(c, d, j)) && At(g, Ray(c, d, j)) == Floor
  }

  /** The scan is true exactly when the first seat along the ray is
      occupied. */
  lemma {:induction false} ScanSees(g: Grid, c: Point, d: Point, mag: nat)
    requires Rect(g) && IsDir(d)
    ensures Scan(g, c, d, mag) <==> SeesOccupiedFrom(g, c, d, mag)
    decreases if |g| == 0 then 0 else Horizon(g, c) - mag
  {
    var p := Ray(c, d, mag);
    if InBounds(g, p) && At(g, p) == Floor {
      InsideHorizon(g, c, d, mag);
      ScanSees(g, c, d, mag + 1);
      if SeesOccupiedFrom(g, c, d, mag + 1) {
        var k: nat :| k >= mag + 1 && OccupiedAt(g, Ray(c, d, k))
          && forall j: nat | mag + 1 <= j < k :: InBounds(g, Ray(c, d, j)) && At(g, Ray(c, d, j)) == Floor;
        assert forall j: nat | mag <= j < k :: InBounds(g, Ray(c, d, j)) && At(g, Ray(c, d, j)) == Floor;
      }
      if SeesOccupiedFrom(g, c, d, mag) {
        var k: nat :| k >= mag && OccupiedAt(g, Ray(c, d, k))
          && forall j: nat | mag <= j < k :: InBounds(g, Ray(c, d, j)) && At(g, Ray(c, d, j)) == Floor;
        assert k != mag;
        assert SeesOccupiedFrom(g, c, d, mag + 1);
      }
    } else if InBounds(g, p) && At(g, p) == Occupied {
      assert OccupiedAt(g, Ray(c, d, mag));
    }
  }

  /** Which of the two neighbourhood rules a step uses. */
  datatype Rule = Immediate | Sight

  /** Whether the neighbour in direction `d` counts: the adjacent cell is
      occupied (`check_immediate_occupied`), or the first seat in sight is
      (`check_sight_occupied`). */
  predicate Sees(rule: Rule, g: Grid, c: Point, d: Point)
    requires Rect(g) && IsDir(d)
  {
    match rule
    case Immediate => OccupiedAt(g, Ray(c, d, 1))
    case Sight => Scan(g, c, d, 1)
  }

  function CountSeen(rule: Rule, g: Grid, c: Point, ds: seq<Point>): (n: nat)
    requires Rect(g) && forall i | 0 <= i < |ds| :: IsDir(ds[i])
    ensures n <= |ds|
    decreases |ds|
  {
    if ds == [] then 0
    else (if Sees(rule, g, c, ds[0]) then 1 else 0) + CountSeen(rule, g, c, ds[1..])
  }

  /** The number of occupied neighbours under a rule: at most 8. */
  function Neighbours(rule: Rule, g: Grid, c: Point): (n: nat)
    requires Rect(g)
    ensures n <= 8
  {
    DirsAreDirs();
    CountSeen(rule, g, c, DIRS)
  }

  /** On a grid without floor the first seat in sight is the adjacent one,
      so the two rules count the same. */
  lemma {:induction false} NoFloorRulesAgree(g: Grid, c: Point, ds: seq<Point>)
    requires Rect(g) && forall i | 0 <= i < |ds| :: IsDir(ds[i])
    requires forall y, x | 0 <= y < |g| && 0 <= x < |g[y]| :: g[y][x] != Floor
    ensures CountSeen(Immediate, g, c, ds) == CountSeen(Sight, g, c, ds)
    decreases |ds|
  {
    if ds != [] {
      NoFloorRulesAgree(g, c, ds[1..]);
      var p := Ray(c, ds[0], 1);
      if InBounds(g, p) {
        assert g[p.y][p.x] != Floor;
      }
    }
  }

  // ---------------------------------------------------------------------
  // One step
  // ---------------------------------------------------------------------

  /** The new state of one tile given its neighbour count. */
  function NextTile(t: Tile, n: nat, tolerance: nat): (r: Tile)
    ensures t == Floor <==> r == Floor
    ensures t == Empty ==> (r == Occupied <==> n == 0)
    ensures t == Occupied ==> (r == Empty <==> n >= tolerance)
  {
    match t
    case Floor => Floor
    case Empty => if n == 0 then Occupied else Empty
    case Occupied => if n >= tolerance then Empty else Occupied
  }

  function NextRow(g: Grid, y: nat, tolerance: nat, rule: Rule): (r: seq<Tile>)
    requires Rect(g) && y < |g|
    ensures |r| == |g[y]|
    ensures forall x | 0 <= x < |g[y]| :: r[x] == NextTile(g[y][x], Neighbours(rule, g, Point(x, y)), tolerance)
  {
    seq(|g[y]|, x requires 0 <= x < |g[y]| => NextTile(g[y][x], Neighbours(rule, g, Point(x, y)), tolerance))
  }

  /** Every tile's new state, each computed from the old grid alone. */
  function NextGrid(g: Grid, tolerance: nat, rule: Rule): (r: Grid)
    requires Rect(g)
    ensures SameShape(g, r) && Rect(r)
    ensures forall y, x | 0 <= y < |g| && 0 <= x < |g[y]| ::
              r[y][x] == NextTile(g[y][x], Neighbours(rule, g, Point(x, y)), tolerance)
  {
    var r := seq(|g|, y requires 0 <= y < |g| => NextRow(g, y, tolerance, rule));
    assert forall y | 0 <= y < |g| :: r[y] == NextRow(g, y, tolerance, rule);
    r
  }

  /** Floor stays floor and no seat becomes floor. */
  lemma FloorFixed(g: Grid, tolerance: nat, rule: Rule, y: nat, x: nat)
    requires Rect(g) && y < |g| && x < |g[y]|
    ensures g[y][x] == Floor <==> NextGrid(g, tolerance, rule)[y][x] == Floor
  {
  }

  /** `Board`: two buffers and which one is current. */
  datatype Board = Board(a: Grid, b: Grid, swp: bool)

  function Inner(board: Board): Grid {
    if board.swp then board.b else board.a
  }

  predicate WellFormed(board: Board) {
    Rect(board.a) && Rect(board.b) && SameShape(board.a, board.b)
  }

  /** `Board::step`: write the next grid into the other buffer, flip `swp`,
      and report whether anything changed. */
  function Step(board: Board, tolerance: nat, rule: Rule): (r: (bool, Board))
    requires WellFormed(board)
    ensures WellFormed(r.1)
    ensures r.1.swp == !board.swp
    ensures Inner(r.1) == NextGrid(Inner(board), tolerance, rule)
    ensures (if r.1.swp then r.1.a else r.1.b) == Inner(board)
    ensures r.0 <==> Inner(r.1) != Inner(board)
  {
    var next := NextGrid(Inner(board), tolerance, rule);
    if board.swp then (next != board.b, Board(next, board.b, false))
    else (board.a != next, Board(board.a, next, true))
  }

  // ---------------------------------------------------------------------
  // Counting and settling
  // ---------------------------------------------------------------------

  function IsOccupied(t: Tile): bool {
    t == Occupied
  }

  /** The occupied seats, row by row. */
  function CountOccupied(g: Grid): nat
    decreases |g|
  {
    if g == [] then 0 else CountOccupied(g[..|g| - 1]) + Count(g[|g| - 1], IsOccupied)
  }

  /** `count`: no more seats are occupied than there are tiles that are not
      floor. */
  lemma {:induction false} CountAtMostSeats(g: Grid)
    ensures CountOccupied(g) <= CountNonFloor(g)
    decreases |g|
  {
    if g != [] {
      CountAtMostSeats(g[..|g| - 1]);
      CountWithin(g[|g| - 1]);
    }
  }

  function IsSeat(t: Tile): bool {
    t != Floor
  }

  function CountNonFloor(g: Grid): nat
    decreases |g|
  {
    if g == [] then 0 else CountNonFloor(g[..|g| - 1]) + Count(g[|g| - 1], IsSeat)
  }

  lemma {:induction false} CountWithin(row: seq<Tile>)
    ensures Count(row, IsOccupied) <= Count(row, IsSeat)
    decreases |row|
  {
    if row != [] {
      CountWithin(row[1..]);
    }
  }

  /** The grid after `k` steps. */
  function Evolve(g: Grid, tolerance: nat, rule: Rule, k: nat): (r: Grid)
    requires Rect(g)
    ensures Rect(r) && SameShape(g, r)
    decreases k
  {
    if k == 0 then g else NextGrid(Evolve(g, tolerance, rule, k - 1), tolerance, rule)
  }

  /** The loop `while b.step(..) {}`, given at most `fuel` steps: `None`
      if it has not settled by then. */
  function Settle(board: Board, tolerance: nat, rule: Rule, fuel: nat): Option<Board>
    requires WellFormed(board)
    decreases fuel
  {
    if fuel == 0 then None
    else
      var (changed, next) := Step(board, tolerance, rule);
      if changed then Settle(next, tolerance, rule, fuel - 1) else Some(next)
  }

  /** A settled board holds a fixed point of the step, reached from the
      start by repeated steps. */
  lemma {:induction false} SettleFixedPoint(board: Board, tolerance: nat, rule: Rule, fuel: nat)
    requires WellFormed(board)
    ensures Settle(board, tolerance, rule, fuel).Some? ==>
      var g := Inner(Settle(board, tolerance, rule, fuel).value);
      && Rect(g)
      && NextGrid(g, tolerance, rule) == g
      && exists k | 0 < k <= fuel :: g == Evolve(Inner(board), tolerance, rule, k)
    decreases fuel
  {
    if fuel > 0 {
      var (changed, next) := Step(board, tolerance, rule);
      if changed {
        SettleFixedPoint(next, tolerance, rule, fuel - 1);
        if Settle(board, tolerance, rule, fuel).Some? {
          var g := Inner(Settle(board, tolerance, rule, fuel).value);
          var k :| 0 < k <= fuel - 1 && g == Evolve(Inner(next), tolerance, rule, k);
          EvolveShift(Inner(board), tolerance, rule, k);
          assert g == Evolve(Inner(board), tolerance, rule, k + 1);
        }
      } else {
        assert Inner(next) == Evolve(Inner(board), tolerance, rule, 1);
      }
    }
  }

  /** Stepping once and then `k` times is stepping `k + 1` times. */
  lemma {:induction false} EvolveShift(g: Grid, tolerance: nat, rule: Rule, k: nat)
    requires Rect(g)
    ensures Evolve(NextGrid(g, tolerance, rule), tolerance, rule, k) == Evolve(g, tolerance, rule, k + 1)
    decreases k
  {
    if k > 0 {
      EvolveShift(g, tolerance, rule, k - 1);
    }
  }

  /** `parse`: both buffers start as the parsed grid. */
  function ParseBoard(input: string): (r: Result<Board>)
    ensures r.Ok? <==> ParseGrid(input).Ok?
    ensures r.Ok? ==> WellFormed(r.value) && r.value.a == r.value.b == Inner(r.value) == ParseGrid(input).value
  {
    var g :- ParseGrid(input);
    Ok(Board(g, g, false))
  }

  /** `part1` (`part2`): settle under the immediate rule with tolerance 4
      (the sight rule with tolerance 5) and count the occupied seats;
      `None` when `fuel` steps do not settle it. */
  function Solve(input: string, tolerance: nat, rule: Rule, fuel: nat): (r: Result<Option<nat>>)
    ensures r.Err? <==> ParseGrid(input).Err?
    ensures r.Ok? && r.value.Some? ==>
      exists g: Grid | Rect(g) && SameShape(ParseGrid(input).value, g) ::
        && NextGrid(g, tolerance, rule) == g
        && CountOccupied(g) == r.value.value
        && exists k | 0 < k <= fuel :: g == Evolve(ParseGrid(input).value, tolerance, rule, k)
  {
    var board :- ParseBoard(input);
    SettleFixedPoint(board, tolerance, rule, fuel);
    match Settle(board, tolerance, rule, fuel)
    case None => Ok(None)
    case Some(settled) => Ok(Some(CountOccupied(Inner(settled))))
  }

  function Part1(input: string, fuel: nat): Result<Option<nat>> {
    Solve(input, 4, Immediate, fuel)
  }

  function Part2(input: string, fuel: nat): Result<Option<nat>> {
    Solve(input, 5, Sight, fuel)
  }

  // ---------------------------------------------------------------------
  // Examples
  // ---------------------------------------------------------------------

  /** Where no neighbour is on the grid, none is occupied. */
  lemma {:induction false} Isolated(g: Grid, c: Point, ds: seq<Point>)
    requires Rect(g) && forall i | 0 <= i < |ds| :: IsDir(ds[i])
    requires forall i | 0 <= i < |ds| :: !InBounds(g, Ray(c, ds[i], 1))
    ensures CountSeen(Immediate, g, c, ds) == 0
    decreases |ds|
  {
    if ds != [] {
      Isolated(g, c, ds[1..]);
    }
  }

  /** A seat alone on a one-tile grid has no neighbour. */
  lemma LoneNeighbours(t: Tile)
    ensures Neighbours(Immediate, [[t]], Point(0, 0)) == 0
  {
    DirsAreDirs();
    var g: Grid := [[t]];
    forall i | 0 <= i < |DIRS| ensures !InBounds(g, Ray(Point(0, 0), DIRS[i], 1)) {
      var d := DIRS[i];
      assert IsDir(d);
      assert Ray(Point(0, 0), d, 1) == d;
    }
    Isolated(g, Point(0, 0), DIRS);
  }

  /** A lone empty seat fills, and a lone occupied seat stays. */
  lemma LoneSeat(t: Tile)
    requires t != Floor
    ensures NextGrid([[t]], 4, Immediate) == [[Occupied]]
  {
    var g: Grid := [[t]];
    LoneNeighbours(t);
    var r := NextGrid(g, 4, Immediate);
    assert r[0][0] == Occupied;
    assert r[0] == [Occupied];
  }
}
