/** Day 12 (`src/challenge/day12/mod.rs`): steer a ferry by compass and
    turning instructions, either directly (`Ship`) or by moving a waypoint
    that the ship follows (`WayPointShip`), and report how far it ends
    from where it started. */
module Navigation {
  import opened Wrappers
  import opened Text
  import opened Numbers

  // ---------------------------------------------------------------------
  // Points and the compass
  // ---------------------------------------------------------------------

  /** `Point<i64>`, x growing east and y growing north. */
  datatype Point = Point(x: int, y: int)

  const ORIGIN := Point(0, 0)

  function Add(p: Point, q: Point): Point {
    Point(p.x + q.x, p.y + q.y)
  }

  function Scale(p: Point, k: int): Point {
    Point(p.x * k, p.y * k)
  }

  /** `manhattan_distance`: the taxicab distance from the origin. */
  function Manhattan(p: Point): (r: nat)
    ensures r == 0 <==> p == ORIGIN
    ensures r >= Abs(p.x) && r >= Abs(p.y)
  {
    Abs(p.x) + Abs(p.y)
  }

  /** `aoc::grid::compass::Direction`, restricted to the four headings a
      ship can take. */
  datatype Direction = North | East | South | West

  /** `Direction::delta`: one step in that direction. */
  function Delta(d: Direction): Point
  {
    match d
    case North => Point(0, 1)
    case East => Point(1, 0)
    case South => Point(0, -1)
    case West => Point(-1, 0)
  }

  function Clockwise(d: Direction): Direction {
    match d
    case North => East
    case East => South
    case South => West
    case West => North
  }

  function Anticlockwise(d: Direction): (r: Direction)
    ensures Clockwise(r) == d
  {
    match d
    case North => West
    case West => South
    case South => East
    case East => North
  }

  // ---------------------------------------------------------------------
  // Quarter turns
  // ---------------------------------------------------------------------

  /** Remainders modulo 4 add up. */
  lemma ModAdd(a: int, b: int)
    ensures (a % 4 + b % 4) % 4 == (a + b) % 4
  {
    var qa, qb := a / 4, b / 4;
    assert a == 4 * qa + a % 4;
    assert b == 4 * qb + b % 4;
    assert a + b == 4 * (qa + qb) + (a % 4 + b % 4);
  }

  /** `k` quarter turns anticlockwise about the origin (clockwise for a
      negative `k`): only `k` modulo 4 matters. */
  function Turn(p: Point, k: int): Point {
    var r := k % 4;
    if r == 0 then p
    else if r == 1 then Point(-p.y, p.x)
    else if r == 2 then Point(-p.x, -p.y)
    else Point(p.y, -p.x)
  }

  /** Turning by `a` and then by `b` quarters is turning by `a + b`. */
  lemma TurnAdd(p: Point, a: int, b: int)
    ensures Turn(Turn(p, a), b) == Turn(p, a + b)
  {
    ModAdd(a, b);
  }

  /** A quarter turn keeps the Manhattan distance. */
  lemma TurnManhattan(p: Point, k: int)
    ensures Manhattan(Turn(p, k)) == Manhattan(p)
  {
    var q := Turn(p, k);
    assert Abs(q.x) + Abs(q.y) == Abs(p.x) + Abs(p.y) by {
      assert Abs(-p.x) == Abs(p.x) && Abs(-p.y) == Abs(p.y);
    }
  }

  // ---------------------------------------------------------------------
  // `rotate`
  // ---------------------------------------------------------------------

  const Q_TRIG: seq<int> := [0, 1, 0, -1]

  /** `q_sin`: the sine of `q` quarter turns, read from the table. */
  function QSin(q: nat): (r: int)
    ensures r == -1 || r == 0 || r == 1
  {
    Q_TRIG[q % 4]
  }

  /** `q_cos`: the cosine of `q` quarter turns, the table shifted by one. */
  function QCos(q: nat): (r: int)
    ensures r == -1 || r == 0 || r == 1
    ensures Times(r, r) + Times(QSin(q), QSin(q)) == 1
    ensures r == QSin(q + 1)
  {
    Q_TRIG[(q + 1) % 4]
  }

  /** `a * t` for a table entry `t`, written out by cases so that proofs
      about rotation stay linear. */
  function Times(a: int, t: int): int
    requires -1 <= t <= 1
  {
    if t == 0 then 0 else if t == 1 then a else -a
  }

  lemma TimesIsProduct(a: int, t: int)
    requires -1 <= t <= 1
    ensures Times(a, t) == a * t
  {
  }

  /** `(n) as usize` for an `i64`: two's complement reinterpretation. */
  function AsUsize(n: int): (r: nat)
    ensures r <= USIZE_MAX
    ensures 0 <= n <= USIZE_MAX ==> r == n
  {
    n % (USIZE_MAX + 1)
  }

  /** The quarter-turn count `rotate` derives from an angle: truncating
      division of `deg + 360` by 90, cast to `usize`. */
  function Quarters(deg: int): nat {
    AsUsize(TruncDiv(deg + 360, 90))
  }

  /** The rotation matrix for `q` quarter turns applied to `p`. */
  function Rotation(p: Point, q: nat): Point {
    var c, s := QCos(q), QSin(q);
    Point(Times(p.x, c) - Times(p.y, s), Times(p.x, s) + Times(p.y, c))
  }

  /** `rotate`: anticlockwise by `deg` degrees, through the quarter-turn
      sine and cosine. */
  function Rotate(p: Point, deg: int): Point {
    Rotation(p, Quarters(deg))
  }

  /** The sine/cosine matrix for `q` quarter turns is `q` quarter turns. */
  lemma RotationMatrix(p: Point, q: nat)
    ensures Rotation(p, q) == Turn(p, q)
  {
    assert (q + 1) % 4 == (q % 4 + 1) % 4 by {
      ModAdd(q, 1);
    }
  }

  /** Rotating by any angle is some number of quarter turns, and so keeps
      the Manhattan distance. */
  lemma RotateTurns(p: Point, deg: int)
    ensures Rotate(p, deg) == Turn(p, Quarters(deg))
    ensures Manhattan(Rotate(p, deg)) == Manhattan(p)
  {
    RotationMatrix(p, Quarters(deg));
    TurnManhattan(p, Quarters(deg));
  }

  /** A whole number of right angles divides exactly. */
  lemma TruncDivExact(n: int)
    ensures TruncDiv(90 * n, 90) == n
  {
    if n < 0 {
      assert Abs(90 * n) == 90 * -n;
    } else {
      assert Abs(90 * n) == 90 * n;
    }
  }

  /** 2^64 is a multiple of 4, so the `usize` cast keeps the remainder
      modulo 4. */
  lemma AsUsizeMod4(n: int)
    ensures AsUsize(n) % 4 == n % 4
  {
    var w := n / (USIZE_MAX + 1);
    var m := 4 * (0x4000_0000_0000_0000 * w);
    assert n == m + AsUsize(n);
    ModAdd(m, AsUsize(n));
  }

  /** For a whole number of right angles `90 * k`, the quarter-turn count
      is `k + 4` up to the `usize` cast. */
  lemma QuartersOfMultiple(k: int)
    ensures Quarters(90 * k) % 4 == k % 4
  {
    assert TruncDiv(90 * k + 360, 90) == k + 4 by {
      assert 90 * k + 360 == 90 * (k + 4);
      TruncDivExact(k + 4);
    }
    AsUsizeMod4(k + 4);
    ModAdd(k, 4);
  }

  /** Rotating by `90 * k` degrees is `k` quarter turns anticlockwise (for
      negative `k`, `-k` quarter turns clockwise). */
  lemma RotateRightAngles(p: Point, k: int)
    ensures Rotate(p, 90 * k) == Turn(p, k)
  {
    RotateTurns(p, 90 * k);
    QuartersOfMultiple(k);
  }

  lemma RotateExamples(p: Point)
    ensures Rotate(p, 0) == p
    ensures Rotate(p, 90) == Point(-p.y, p.x)
    ensures Rotate(p, -90) == Point(p.y, -p.x)
    ensures Rotate(p, 180) == Point(-p.x, -p.y)
  {
    RotateRightAngles(p, 0);
    RotateRightAngles(p, 1);
    RotateRightAngles(p, -1);
    RotateRightAngles(p, 2);
  }

  /** A left turn undone by a right turn of the same whole number of right
      angles. */
  lemma LeftThenRight(p: Point, m: int)
    requires m % 90 == 0
    ensures Rotate(Rotate(p, m), -m) == p
  {
    var k := m / 90;
    var q := Rotate(p, m);
    assert q == Turn(p, k) by {
      assert m == 90 * k;
      RotateRightAngles(p, k);
    }
    assert Rotate(q, -m) == Turn(q, -k) by {
      assert -m == 90 * -k;
      RotateRightAngles(q, -k);
    }
    TurnAdd(p, k, -k);
  }

  /** Off the right angles the truncating division is not symmetric: 45
      degrees left is no turn at all, 45 degrees right is a full right
      angle. */
  lemma OffAngleNotUndone()
    ensures Rotate(Rotate(Point(1, 0), 45), -45) == Point(0, -1)
  {
    var p := Point(1, 0);
    assert Rotate(p, 45) == p by {
      assert Quarters(45) == 4 by {
        assert TruncDiv(405, 90) == 4;
      }
      RotateTurns(p, 45);
    }
    assert Rotate(p, -45) == Point(0, -1) by {
      assert Quarters(-45) == 3 by {
        assert TruncDiv(315, 90) == 3;
      }
      RotateTurns(p, -45);
    }
  }

  /** A compass heading turned anticlockwise (clockwise) is its step turned
      a quarter anticlockwise (clockwise). */
  lemma DeltaTurns(d: Direction)
    ensures Delta(Anticlockwise(d)) == Turn(Delta(d), 1)
    ensures Delta(Clockwise(d)) == Turn(Delta(d), -1)
  {
  }

  // ---------------------------------------------------------------------
  // Instructions
  // ---------------------------------------------------------------------

  datatype Command = MoveNorth | MoveSouth | MoveEast | MoveWest | Forward | TurnRight | TurnLeft

  /** `magnitude` is an `i64`. */
  datatype Instruction = Instruction(command: Command, magnitude: int)

  function CommandChar(c: Command): char {
    match c
    case MoveNorth => 'N'
    case MoveSouth => 'S'
    case MoveEast => 'E'
    case MoveWest => 'W'
    case Forward => 'F'
    case TurnRight => 'R'
    case TurnLeft => 'L'
  }

  /** The command a leading letter selects, if any. */
  function ParseCommand(c: char): (r: Result<Command>)
    ensures r.Ok? <==> c in "NSEWFRL"
    ensures r.Ok? ==> CommandChar(r.value) == c
  {
    match c
    case 'N' => Ok(MoveNorth)
    case 'S' => Ok(MoveSouth)
    case 'E' => Ok(MoveEast)
    case 'W' => Ok(MoveWest)
    case 'F' => Ok(Forward)
    case 'R' => Ok(TurnRight)
    case 'L' => Ok(TurnLeft)
    case _ => Err("unknown cmd")
  }

  /** `parse_instr`: the first byte names the command and the rest is an
      `i64`. `&s[0..1]` panics on an empty line and on a line whose first
      character takes more than one byte in UTF-8. */
  function ParseInstr(s: string): (r: Outcome<Result<Instruction>>)
    ensures r.Panics? <==> |s| == 0 || s[0] as int >= 0x80
    ensures Succeeds(r) <==> |s| > 0 && s[0] in "NSEWFRL" && ParseI64(s[1..]).Ok?
    ensures Succeeds(r) ==>
      CommandChar(r.value.value.command) == s[0] && ParseI64(s[1..]) == Ok(r.value.value.magnitude)
  {
    if |s| == 0 || s[0] as int >= 0x80 then Panics
    else Finishes(
      var command :- ParseCommand(s[0]);
      var magnitude :- ParseI64(s[1..]);
      Ok(Instruction(command, magnitude)))
  }

  /** The line an instruction is written as. */
  function FormatInstr(i: Instruction): string {
    [CommandChar(i.command)] + IntToString(i.magnitude)
  }

  lemma ParseFormatInstr(i: Instruction)
    requires I64_MIN <= i.magnitude <= I64_MAX
    ensures ParseInstr(FormatInstr(i)) == Finishes(Ok(i))
  {
    var s := FormatInstr(i);
    assert s[1..] == IntToString(i.magnitude);
    ParseI64OfString(i.magnitude);
  }

  /** `parse`: one instruction per line, read in order until the first
      error or panic. */
  function Parse(input: string): (r: Outcome<Result<seq<Instruction>>>)
    ensures Succeeds(r) <==> forall i | 0 <= i < |Lines(input)| :: Succeeds(ParseInstr(Lines(input)[i]))
    ensures Succeeds(r) ==> |r.value.value| == |Lines(input)|
    ensures Succeeds(r) ==>
      forall i | 0 <= i < |Lines(input)| :: ParseInstr(Lines(input)[i]) == Finishes(Ok(r.value.value[i]))
  {
    var f := ParseInstr;
    assert forall i | 0 <= i < |Lines(input)| :: f(Lines(input)[i]) == ParseInstr(Lines(input)[i]);
    CollectOutcomes(Lines(input), f)
  }

  // ---------------------------------------------------------------------
  // The ship that follows a waypoint
  // ---------------------------------------------------------------------

  datatype WayPointShip = WayPointShip(position: Point, waypoint: Point)

  /** `WayPointShip::default`. */
  const WAYPOINT_START := WayPointShip(ORIGIN, Point(10, 1))

  /** `WayPointShip::step`: compass moves and turns act on the waypoint
      only; `F` moves the ship `magnitude` times by the waypoint. */
  function WaypointStep(s: WayPointShip, i: Instruction): (r: WayPointShip)
    ensures i.command != Forward ==> r.position == s.position
    ensures i.command == Forward ==> r.waypoint == s.waypoint
    ensures i.command == Forward ==> r.position == Add(s.position, Scale(s.waypoint, i.magnitude))
    ensures i.command == MoveNorth ==> r.waypoint == Point(s.waypoint.x, s.waypoint.y + i.magnitude)
    ensures i.command == MoveSouth ==> r.waypoint == Point(s.waypoint.x, s.waypoint.y - i.magnitude)
    ensures i.command == MoveEast ==> r.waypoint == Point(s.waypoint.x + i.magnitude, s.waypoint.y)
    ensures i.command == MoveWest ==> r.waypoint == Point(s.waypoint.x - i.magnitude, s.waypoint.y)
    ensures (i.command.TurnLeft? || i.command.TurnRight?) ==> Manhattan(r.waypoint) == Manhattan(s.waypoint)
  {
    match i.command
    case MoveNorth => s.(waypoint := Add(s.waypoint, Scale(Delta(North), i.magnitude)))
    case MoveSouth => s.(waypoint := Add(s.waypoint, Scale(Delta(South), i.magnitude)))
    case MoveEast => s.(waypoint := Add(s.waypoint, Scale(Delta(East), i.magnitude)))
    case MoveWest => s.(waypoint := Add(s.waypoint, Scale(Delta(West), i.magnitude)))
    case TurnRight =>
      RotateTurns(s.waypoint, -i.magnitude);
      s.(waypoint := Rotate(s.waypoint, -i.magnitude))
    case TurnLeft =>
      RotateTurns(s.waypoint, i.magnitude);
      s.(waypoint := Rotate(s.waypoint, i.magnitude))
    case Forward => s.(position := Add(s.position, Scale(s.waypoint, i.magnitude)))
  }

  /** The waypoint ship after each instruction in turn. */
  function WaypointRun(s: WayPointShip, instrs: seq<Instruction>): WayPointShip
    decreases |instrs|
  {
    if instrs == [] then s else WaypointRun(WaypointStep(s, instrs[0]), instrs[1..])
  }

  /** A left turn followed by the same right turn, by a whole number of
      right angles, leaves the ship as it was. */
  lemma WaypointLeftRight(s: WayPointShip, m: int)
    requires m % 90 == 0
    ensures WaypointRun(s, [Instruction(TurnLeft, m), Instruction(TurnRight, m)]) == s
  {
    var left, right := Instruction(TurnLeft, m), Instruction(TurnRight, m);
    WaypointRunTwo(s, left, right);
    WaypointTurnsCancel(s, m);
  }

  lemma WaypointTurnsCancel(s: WayPointShip, m: int)
    requires m % 90 == 0
    ensures WaypointStep(WaypointStep(s, Instruction(TurnLeft, m)), Instruction(TurnRight, m)) == s
  {
    var left, right := Instruction(TurnLeft, m), Instruction(TurnRight, m);
    var s1 := WaypointStep(s, left);
    var p := s.waypoint;
    WaypointTurn(s, left);
    WaypointTurn(s1, right);
    LeftThenRight(p, m);
    assert s.(waypoint := p) == s;
  }

  /** A turn moves only the waypoint, rotating it about the ship. */
  lemma WaypointTurn(s: WayPointShip, i: Instruction)
    requires i.command.TurnLeft? || i.command.TurnRight?
    ensures WaypointStep(s, i) ==
      s.(waypoint := Rotate(s.waypoint, if i.command.TurnLeft? then i.magnitude else -i.magnitude))
  {
  }

  lemma WaypointRunTwo(s: WayPointShip, a: Instruction, b: Instruction)
    ensures WaypointRun(s, [a, b]) == WaypointStep(WaypointStep(s, a), b)
  {
    var s1 := WaypointStep(s, a);
    assert WaypointRun(s, [a, b]) == WaypointRun(s1, [b]) by {
      assert [a, b][1..] == [b];
    }
    assert WaypointRun(s1, [b]) == WaypointRun(WaypointStep(s1, b), []) by {
      assert [b][1..] == [];
    }
  }
  // ---------------------------------------------------------------------
  // The ship that steers itself
  // ---------------------------------------------------------------------

  datatype Ship = Ship(heading: Direction, position: Point)

  /** `Ship::default`: facing east at the origin. */
  const SHIP_START := Ship(East, ORIGIN)

  /** `n` turns one way. */
  function TurnHeading(h: Direction, n: nat, clockwise: bool): Direction
    decreases n
  {
    if n == 0 then h
    else
      var r := TurnHeading(h, n - 1, clockwise);
      if clockwise then Clockwise(r) else Anticlockwise(r)
  }

  /** How many turns `magnitude / 90` makes `0..iter` run: the truncated
      quotient, or none when it is not positive. */
  function TurnCount(magnitude: int): (n: nat)
    ensures magnitude >= 0 ==> n == magnitude / 90
    ensures magnitude < 90 ==> n == 0
  {
    var iter := TruncDiv(magnitude, 90);
    if iter > 0 then iter else 0
  }

  /** `Ship::step`: compass moves and `F` move the ship and keep the
      heading; turns change the heading and keep the position. */
  function ShipStep(s: Ship, i: Instruction): (r: Ship)
    ensures (i.command.TurnLeft? || i.command.TurnRight?) ==> r.position == s.position
    ensures !(i.command.TurnLeft? || i.command.TurnRight?) ==> r.heading == s.heading
    ensures i.command == Forward ==> r.position == Add(s.position, Scale(Delta(s.heading), i.magnitude))
    ensures i.command == MoveNorth ==> r.position == Point(s.position.x, s.position.y + i.magnitude)
    ensures i.command == MoveSouth ==> r.position == Point(s.position.x, s.position.y - i.magnitude)
    ensures i.command == MoveEast ==> r.position == Point(s.position.x + i.magnitude, s.position.y)
    ensures i.command == MoveWest ==> r.position == Point(s.position.x - i.magnitude, s.position.y)
  {
    var translate := (d: Direction) => Add(s.position, Scale(Delta(d), i.magnitude));
    match i.command
    case MoveNorth => s.(position := translate(North))
    case MoveSouth => s.(position := translate(South))
    case MoveEast => s.(position := translate(East))
    case MoveWest => s.(position := translate(West))
    case Forward => s.(position := translate(s.heading))
    case TurnRight => s.(heading := TurnHeading(s.heading, TurnCount(i.magnitude), true))
    case TurnLeft => s.(heading := TurnHeading(s.heading, TurnCount(i.magnitude), false))
  }

  function ShipRun(s: Ship, instrs: seq<Instruction>): Ship
    decreases |instrs|
  {
    if instrs == [] then s else ShipRun(ShipStep(s, instrs[0]), instrs[1..])
  }

  /** The heading after `n` clockwise turns points along its step turned
      `n` quarters clockwise. */
  lemma {:induction false} ClockwiseDelta(h: Direction, n: nat)
    ensures Delta(TurnHeading(h, n, true)) == Turn(Delta(h), -(n as int))
    decreases n
  {
    if n > 0 {
      var r, v := TurnHeading(h, n - 1, true), Delta(h);
      assert TurnHeading(h, n, true) == Clockwise(r);
      assert Delta(r) == Turn(v, -(n - 1)) by {
        ClockwiseDelta(h, n - 1);
      }
      assert Delta(Clockwise(r)) == Turn(Delta(r), -1) by {
        DeltaTurns(r);
      }
      assert Turn(Turn(v, -(n - 1)), -1) == Turn(v, -(n as int)) by {
        TurnAdd(v, -(n - 1), -1);
      }
    }
  }

  lemma {:induction false} AnticlockwiseDelta(h: Direction, n: nat)
    ensures Delta(TurnHeading(h, n, false)) == Turn(Delta(h), n)
    decreases n
  {
    if n > 0 {
      var r, v := TurnHeading(h, n - 1, false), Delta(h);
      assert TurnHeading(h, n, false) == Anticlockwise(r);
      assert Delta(r) == Turn(v, n - 1) by {
        AnticlockwiseDelta(h, n - 1);
      }
      assert Delta(Anticlockwise(r)) == Turn(Delta(r), 1) by {
        DeltaTurns(r);
      }
      assert Turn(Turn(v, n - 1), 1) == Turn(v, n) by {
        TurnAdd(v, n - 1, 1);
      }
    }
  }

  /** Turning the ship by a whole non-negative number of right angles turns
      its heading exactly as `rotate` turns a waypoint: left by `m`, right
      by `-m`. */
  lemma TurnAgreesWithRotate(h: Direction, m: int, clockwise: bool)
    requires m >= 0 && m % 90 == 0
    ensures Delta(TurnHeading(h, TurnCount(m), clockwise)) == Rotate(Delta(h), if clockwise then -m else m)
  {
    var n := m / 90;
    assert TurnCount(m) == n;
    if clockwise {
      ClockwiseDelta(h, n);
      assert -m == 90 * -n;
      RotateRightAngles(Delta(h), -n);
    } else {
      AnticlockwiseDelta(h, n);
      assert m == 90 * n;
      RotateRightAngles(Delta(h), n);
    }
  }

  /** A turn or `F` instruction the two ships both understand. */
  predicate Steering(i: Instruction) {
    i.command == Forward || ((i.command.TurnLeft? || i.command.TurnRight?) && i.magnitude >= 0 && i.magnitude % 90 == 0)
  }

  /** Without compass moves, and turning by whole right angles, the
      self-steering ship is a waypoint ship whose waypoint is one step
      along its heading. */
  lemma {:induction false} ShipIsUnitWaypoint(s: Ship, instrs: seq<Instruction>)
    requires forall k | 0 <= k < |instrs| :: Steering(instrs[k])
    ensures ShipRun(s, instrs).position == WaypointRun(WayPointShip(s.position, Delta(s.heading)), instrs).position
    ensures Delta(ShipRun(s, instrs).heading) == WaypointRun(WayPointShip(s.position, Delta(s.heading)), instrs).waypoint
    decreases |instrs|
  {
    if instrs != [] {
      var i := instrs[0];
      var next := ShipStep(s, i);
      if i.command != Forward {
        TurnAgreesWithRotate(s.heading, i.magnitude, i.command == TurnRight);
      }
      assert WaypointStep(WayPointShip(s.position, Delta(s.heading)), i) == WayPointShip(next.position, Delta(next.heading));
      ShipIsUnitWaypoint(next, instrs[1..]);
    }
  }

  // ---------------------------------------------------------------------
  // The puzzle
  // ---------------------------------------------------------------------

  /** `part1`: the distance the self-steering ship ends from the origin. */
  function Part1(input: string): (r: Outcome<Result<nat>>)
    ensures r.Panics? <==> Parse(input).Panics?
    ensures Succeeds(r) <==> Succeeds(Parse(input))
    ensures Succeeds(r) ==> r.value.value == Manhattan(ShipRun(SHIP_START, Parse(input).value.value).position)
  {
    match Parse(input)
    case Panics => Panics
    case Finishes(Err(msg)) => Finishes(Err(msg))
    case Finishes(Ok(instrs)) => Finishes(Ok(Manhattan(ShipRun(SHIP_START, instrs).position)))
  }

  /** `part2`: the distance the waypoint ship ends from the origin. */
  function Part2(input: string): (r: Outcome<Result<nat>>)
    ensures r.Panics? <==> Parse(input).Panics?
    ensures Succeeds(r) <==> Succeeds(Parse(input))
    ensures Succeeds(r) ==> r.value.value == Manhattan(WaypointRun(WAYPOINT_START, Parse(input).value.value).position)
  {
    match Parse(input)
    case Panics => Panics
    case Finishes(Err(msg)) => Finishes(Err(msg))
    case Finishes(Ok(instrs)) => Finishes(Ok(Manhattan(WaypointRun(WAYPOINT_START, instrs).position)))
  }

  // ---------------------------------------------------------------------
  // Examples
  // ---------------------------------------------------------------------

  /** `F10` then `R90` then `F11`, one step at a time. */
  lemma ShipExampleForward()
    ensures ShipStep(SHIP_START, Instruction(Forward, 10)) == Ship(East, Point(10, 0))
  {
  }

  lemma ShipExampleTurn()
    ensures ShipStep(Ship(East, Point(10, 0)), Instruction(TurnRight, 90)) == Ship(South, Point(10, 0))
  {
    assert TurnCount(90) == 1 by {
      assert TruncDiv(90, 90) == 1;
    }
    assert TurnHeading(East, 1, true) == South;
  }

  lemma ShipExampleSouth()
    ensures ShipStep(Ship(South, Point(10, 0)), Instruction(Forward, 11)) == Ship(South, Point(10, -11))
  {
  }
  /** `F10` then `R90` then `F11`: ten east, then eleven south. */
  lemma ShipExample()
    ensures ShipRun(SHIP_START, [Instruction(Forward, 10), Instruction(TurnRight, 90), Instruction(Forward, 11)])
            == Ship(South, Point(10, -11))
  {
    var f10, r90, f11 := Instruction(Forward, 10), Instruction(TurnRight, 90), Instruction(Forward, 11);
    var s1, s2, s3 := Ship(East, Point(10, 0)), Ship(South, Point(10, 0)), Ship(South, Point(10, -11));
    ShipExampleForward();
    ShipExampleTurn();
    ShipExampleSouth();
    assert ShipRun(SHIP_START, [f10, r90, f11]) == ShipRun(s1, [r90, f11]) by {
      assert [f10, r90, f11][1..] == [r90, f11];
    }
    assert ShipRun(s1, [r90, f11]) == ShipRun(s2, [f11]) by {
      assert [r90, f11][1..] == [f11];
    }
    assert ShipRun(s2, [f11]) == ShipRun(s3, []);
  }

  /** `F10` from the start moves ten waypoint lengths: to (100, 10). */
  lemma WaypointExample()
    ensures WaypointRun(WAYPOINT_START, [Instruction(Forward, 10)]).position == Point(100, 10)
  {
  }
}
