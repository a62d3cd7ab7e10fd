/** The match engine's vocabulary and the value-level meaning of its set-up operations
    (src/game.rs): cells, directions, players, the game state, the initial grid, spawn slots,
    adding players, steering requests and the start of a match. */
module GameRules {
  import opened Wrappers
  import opened Courses

  datatype Cell = Empty | Wall | Obstruction | Trail(owner: nat)

  datatype Direction = Up | Down | Left | Right

  /** A steering request: turn left, turn right or keep straight. */
  datatype SteerAction = SteerLeft | SteerRight | Straight

  datatype Status = WaitingForPlayers | Running | Finished

  datatype Player = Player(
    name: string,
    x: int,
    y: int,
    direction: Direction,
    alive: bool,
    trail: seq<(int, int)>,
    distance: nat,
    score: nat,
    pending: Option<SteerAction>)

  /** Everything a match holds, as a value. The grid is indexed grid[y][x]. */
  datatype GameState = GameState(
    id: nat,
    grid: seq<seq<Cell>>,
    width: nat,
    height: nat,
    players: seq<Player>,
    status: Status,
    tick: nat,
    maxTrailLength: nat,
    courseName: string,
    courseLevel: nat,
    winner: Option<nat>)

  /** The number of spawn slots, and so the most players a match accepts. */
  const SpawnCount: nat := 8

  // ---------------------------------------------------------------- directions

  function TurnLeft(d: Direction): Direction {
    match d
    case Up => Left
    case Left => Down
    case Down => Right
    case Right => Up
  }

  function TurnRight(d: Direction): Direction {
    match d
    case Up => Right
    case Right => Down
    case Down => Left
    case Left => Up
  }

  function Abs(n: int): nat {
    if n < 0 then -n else n
  }

  /** The one-cell step of a heading, with y growing downwards. */
  function Delta(d: Direction): (r: (int, int))
    ensures Abs(r.0) + Abs(r.1) == 1
  {
    match d
    case Up => (0, -1)
    case Down => (0, 1)
    case Left => (-1, 0)
    case Right => (1, 0)
  }

  /** The compass name a heading is reported under. */
  function HeadingName(d: Direction): string {
    match d
    case Up => "NORTH"
    case Down => "SOUTH"
    case Left => "WEST"
    case Right => "EAST"
  }

  /** Four left turns come back to the start. */
  lemma TurnLeftFourTimes(d: Direction)
    ensures TurnLeft(TurnLeft(TurnLeft(TurnLeft(d)))) == d
  {
    match d
    case Up =>
    case Left =>
    case Down =>
    case Right =>
  }

  /** A right turn undoes a left turn and the other way round. */
  lemma TurnsUndoEachOther(d: Direction)
    ensures TurnRight(TurnLeft(d)) == d && TurnLeft(TurnRight(d)) == d
  {
    match d
    case Up =>
    case Left =>
    case Down =>
    case Right =>
  }

  /** A left turn rotates the step by 90 degrees: (dx, dy) becomes (dy, -dx). */
  lemma TurnLeftRotatesStep(d: Direction)
    ensures Delta(TurnLeft(d)) == (Delta(d).1, -Delta(d).0)
    ensures Delta(TurnRight(d)) == (-Delta(d).1, Delta(d).0)
  {
    match d
    case Up =>
    case Left =>
    case Down =>
    case Right =>
  }

  /** The four headings have four different names. */
  lemma HeadingNamesDistinct(d: Direction, e: Direction)
    ensures HeadingName(d) == HeadingName(e) <==> d == e
  {
  }

  // ---------------------------------------------------------------- grid

  predicate InBounds(w: nat, h: nat, x: int, y: int) {
    0 <= x < w && 0 <= y < h
  }

  /** `grid` has `h` rows of `w` cells each. */
  predicate IsRect(grid: seq<seq<Cell>>, w: nat, h: nat) {
    |grid| == h && forall y :: 0 <= y < |grid| ==> |grid[y]| == w
  }

  /** The grid with cell (x, y) replaced by `c`. */
  function Put(grid: seq<seq<Cell>>, x: int, y: int, c: Cell): (g: seq<seq<Cell>>)
    requires 0 <= y < |grid| && 0 <= x < |grid[y]|
    ensures |g| == |grid| && forall r :: 0 <= r < |g| ==> |g[r]| == |grid[r]|
    ensures g[y][x] == c
    ensures forall r, q :: 0 <= r < |g| && 0 <= q < |g[r]| && (q, r) != (x, y) ==> g[r][q] == grid[r][q]
  {
    grid[y := grid[y][x := c]]
  }

  /** The shape facts every operation of a match keeps. */
  predicate WellFormed(s: GameState) {
    IsRect(s.grid, s.width, s.height) &&
    |s.players| <= SpawnCount &&
    (s.winner.Some? ==> s.winner.value < |s.players| && s.status == Finished)
  }

  // ---------------------------------------------------------------- Game::new

  predicate OnBorder(w: nat, h: nat, x: nat, y: nat) {
    x == 0 || y == 0 || x == w - 1 || y == h - 1
  }

  /** The cell a new match shows at (x, y): the border ring is stamped first, course
      obstructions over it, course walls over both. */
  function InitialCell(c: Course, x: nat, y: nat): Cell {
    if (x, y) in c.walls then Wall
    else if (x, y) in c.obstructions then Obstruction
    else if OnBorder(c.width, c.height, x, y) then Wall
    else Empty
  }

  function InitialGrid(c: Course): (g: seq<seq<Cell>>)
    ensures IsRect(g, c.width, c.height)
  {
    seq(c.height, y requires 0 <= y => seq(c.width, x requires 0 <= x => InitialCell(c, x, y)))
  }

  /** The match Game::new returns, waiting for players, with no one in it. */
  function NewGame(c: Course, id: nat): (s: GameState)
    ensures WellFormed(s)
    ensures s.status == WaitingForPlayers && s.tick == 0 && s.players == [] && s.winner == None
  {
    GameState(id, InitialGrid(c), c.width, c.height, [], WaitingForPlayers, 0,
              c.maxTrailLength, c.name, c.level, None)
  }

  /** A border cell is a wall unless the course puts an obstruction (and no wall) on it. */
  lemma BorderIsWall(c: Course, x: nat, y: nat)
    requires x < c.width && y < c.height && OnBorder(c.width, c.height, x, y)
    ensures InitialGrid(c)[y][x] == Wall || ((x, y) in c.obstructions && (x, y) !in c.walls)
  {
  }

  /** Where the course lists a cell both as wall and as obstruction, the wall wins. */
  lemma WallOverridesObstruction(c: Course, x: nat, y: nat)
    requires x < c.width && y < c.height && (x, y) in c.walls && (x, y) in c.obstructions
    ensures InitialGrid(c)[y][x] == Wall
  {
  }

  /** A wall or obstruction coordinate outside the board changes nothing. */
  lemma OutOfRangeIgnored(c: Course, p: Coord)
    requires !(p.0 < c.width && p.1 < c.height)
    ensures InitialGrid(c.(walls := c.walls + [p])) == InitialGrid(c)
    ensures InitialGrid(c.(obstructions := c.obstructions + [p])) == InitialGrid(c)
  {
    var cw := c.(walls := c.walls + [p]);
    var co := c.(obstructions := c.obstructions + [p]);
    forall y, x | 0 <= y < c.height && 0 <= x < c.width
      ensures InitialCell(cw, x, y) == InitialCell(c, x, y)
      ensures InitialCell(co, x, y) == InitialCell(c, x, y)
    {
      assert (x, y) != p;
      assert (x, y) in cw.walls <==> (x, y) in c.walls;
      assert (x, y) in co.obstructions <==> (x, y) in c.obstructions;
    }
    assert forall y :: 0 <= y < c.height ==> InitialGrid(cw)[y] == InitialGrid(c)[y];
    assert forall y :: 0 <= y < c.height ==> InitialGrid(co)[y] == InitialGrid(c)[y];
  }

  /** On every course of the catalogue the whole border ring of a new match is wall. */
  lemma CatalogueBorderIsWall(draws: seq<Segment>, k: nat, x: nat, y: nat)
    requires k < CourseCount
    requires x < AllCourses(draws)[k].width && y < AllCourses(draws)[k].height
    requires OnBorder(AllCourses(draws)[k].width, AllCourses(draws)[k].height, x, y)
    ensures InitialGrid(AllCourses(draws)[k])[y][x] == Wall
  {
    CatalogueLayouts(draws, k);
  }

  // ---------------------------------------------------------------- spawning

  /** The eight spawn slots: four corners set three cells in, then four edge midpoints,
      each facing into the board. */
  function SpawnSlots(w: nat, h: nat): (slots: seq<(int, int, Direction)>)
    ensures |slots| == SpawnCount
  {
    var W, H := w as int, h as int;
    [(3, 3, Right), (W - 4, H - 4, Left), (W - 4, 3, Down), (3, H - 4, Up),
     (W / 2, 3, Down), (3, H / 2, Right), (W - 4, H / 2, Left), (W / 2, H - 4, Up)]
  }

  /** On a board at least 9 x 9 the slots are eight different interior cells, and the first
      step from each stays in the interior. */
  lemma SpawnSlotsApart(w: nat, h: nat, i: nat, j: nat)
    requires w >= 9 && h >= 9 && i < SpawnCount && j < SpawnCount
    ensures var s := SpawnSlots(w, h)[i];
      1 <= s.0 < w - 1 && 1 <= s.1 < h - 1 &&
      1 <= s.0 + Delta(s.2).0 < w - 1 && 1 <= s.1 + Delta(s.2).1 < h - 1
    ensures i != j ==> SpawnSlots(w, h)[i].0 != SpawnSlots(w, h)[j].0 || SpawnSlots(w, h)[i].1 != SpawnSlots(w, h)[j].1
  {
  }

  function SpawnPlayer(name: string, w: nat, h: nat, idx: nat): (p: Player)
    requires idx < SpawnCount
    ensures p.name == name && (p.x, p.y, p.direction) == SpawnSlots(w, h)[idx]
    ensures p.alive && p.trail == [] && p.distance == 0 && p.score == 0 && p.pending == None
  {
    var (x, y, dir) := SpawnSlots(w, h)[idx];
    Player(name, x, y, dir, true, [], 0, 0, None)
  }

  /** The index add_player hands out: the next slot, or none once all eight are taken. */
  function NextSlot(s: GameState): (r: Option<nat>)
    ensures r.Some? <==> |s.players| < SpawnCount
    ensures r.Some? ==> r.value == |s.players|
  {
    if |s.players| >= SpawnCount then None else Some(|s.players|)
  }

  /** The match after add_player(name). */
  function WithPlayer(s: GameState, name: string): (r: GameState)
    requires WellFormed(s)
    ensures WellFormed(r) && r == s.(players := r.players)
    ensures |s.players| >= SpawnCount ==> r == s
  {
    if |s.players| >= SpawnCount then s
    else s.(players := s.players + [SpawnPlayer(name, s.width, s.height, |s.players|)])
  }

  /** The match after adding each of `names` in order. */
  function WithPlayers(s: GameState, names: seq<string>): (r: GameState)
    requires WellFormed(s)
    ensures WellFormed(r) && r == s.(players := r.players)
    decreases |names|
  {
    if names == [] then s else WithPlayers(WithPlayer(s, names[0]), names[1..])
  }

  /** Adding up to the free slots' worth of names gives name k the slot after the players
      already present, in order. */
  lemma {:induction false} WithPlayersSlots(s: GameState, names: seq<string>)
    requires WellFormed(s) && |s.players| + |names| <= SpawnCount
    ensures var r := WithPlayers(s, names);
      |r.players| == |s.players| + |names| &&
      r.players[..|s.players|] == s.players &&
      forall k :: 0 <= k < |names| ==>
        r.players[|s.players| + k] == SpawnPlayer(names[k], s.width, s.height, |s.players| + k)
    decreases |names|
  {
    if names != [] {
      var s1 := WithPlayer(s, names[0]);
      WithPlayersSlots(s1, names[1..]);
      var r := WithPlayers(s, names);
      assert r == WithPlayers(s1, names[1..]);
      assert s1.players == s.players + [SpawnPlayer(names[0], s.width, s.height, |s.players|)];
      assert r.players[..|s.players|] == r.players[..|s1.players|][..|s.players|];
      forall k | 0 <= k < |names|
        ensures r.players[|s.players| + k] == SpawnPlayer(names[k], s.width, s.height, |s.players| + k)
      {
        if k > 0 {
          assert names[1..][k - 1] == names[k];
        }
      }
    }
  }

  /** Adding one more name after a batch is the same as adding the longer batch. */
  lemma {:induction false} WithPlayersSnoc(s: GameState, names: seq<string>, n: string)
    requires WellFormed(s)
    ensures WithPlayers(s, names + [n]) == WithPlayer(WithPlayers(s, names), n)
    decreases |names|
  {
    if names != [] {
      assert (names + [n])[1..] == names[1..] + [n];
      WithPlayersSnoc(WithPlayer(s, names[0]), names[1..], n);
    } else {
      assert ([] + [n])[1..] == [];
    }
  }

  // ---------------------------------------------------------------- apply_action

  /** The match after apply_action(idx, action): only an existing, alive player's pending
      request is set. */
  function ActionApplied(s: GameState, idx: nat, action: SteerAction): (r: GameState)
    requires WellFormed(s)
    ensures WellFormed(r)
  {
    if idx < |s.players| && s.players[idx].alive
    then s.(players := s.players[idx := s.players[idx].(pending := Some(action))])
    else s
  }

  /** apply_action changes at most one player's pending request and nothing else. */
  lemma ActionAppliedTouchesOnePlayer(s: GameState, idx: nat, action: SteerAction)
    requires WellFormed(s)
    ensures var r := ActionApplied(s, idx, action);
      r == s.(players := r.players) && |r.players| == |s.players| &&
      (forall k :: 0 <= k < |s.players| && k != idx ==> r.players[k] == s.players[k]) &&
      (idx < |s.players| ==>
        r.players[idx] == if s.players[idx].alive
                          then s.players[idx].(pending := Some(action))
                          else s.players[idx])
  {
  }

  // ---------------------------------------------------------------- start

  /** The grid after start() has stamped the first `k` players' cells, in index order,
      skipping positions off the board. */
  function StampPlayers(grid: seq<seq<Cell>>, w: nat, h: nat, ps: seq<Player>, k: nat): (g: seq<seq<Cell>>)
    requires IsRect(grid, w, h) && k <= |ps|
    ensures IsRect(g, w, h)
  {
    if k == 0 then grid
    else
      var g := StampPlayers(grid, w, h, ps, k - 1);
      var p := ps[k - 1];
      if InBounds(w, h, p.x, p.y) then Put(g, p.x, p.y, Trail(k - 1)) else g
  }

  /** The match after start(). */
  function Started(s: GameState): (r: GameState)
    requires WellFormed(s)
    ensures r == s.(status := Running, grid := r.grid) && IsRect(r.grid, s.width, s.height)
    ensures s.winner == None ==> WellFormed(r)
  {
    s.(status := Running, grid := StampPlayers(s.grid, s.width, s.height, s.players, |s.players|))
  }

  /** The last of the first `n` players standing on (x, y), if any. */
  function LastAt(ps: seq<Player>, n: nat, x: int, y: int): (r: Option<nat>)
    requires n <= |ps|
    ensures r.None? <==> forall k :: 0 <= k < n ==> (ps[k].x, ps[k].y) != (x, y)
    ensures r.Some? ==> r.value < n && (ps[r.value].x, ps[r.value].y) == (x, y)
    ensures r.Some? ==> forall j :: r.value < j < n ==> (ps[j].x, ps[j].y) != (x, y)
  {
    if n == 0 then None
    else if (ps[n - 1].x, ps[n - 1].y) == (x, y) then Some(n - 1)
    else LastAt(ps, n - 1, x, y)
  }

  /** After start(), a cell shows the trail marker of the last player standing on it, and a
      cell no player stands on is as before. */
  lemma {:induction false} StampPlayersCell(grid: seq<seq<Cell>>, w: nat, h: nat, ps: seq<Player>, n: nat, x: nat, y: nat)
    requires IsRect(grid, w, h) && n <= |ps| && InBounds(w, h, x, y)
    ensures StampPlayers(grid, w, h, ps, n)[y][x] ==
      match LastAt(ps, n, x, y)
      case Some(k) => Trail(k)
      case None => grid[y][x]
  {
    if n > 0 {
      StampPlayersCell(grid, w, h, ps, n - 1, x, y);
    }
  }

  /** start() sets the match running and marks each player's spawn cell with its own index
      when the spawn cells are distinct and on the board; nothing else changes. */
  lemma StartedMarksSpawns(s: GameState)
    requires WellFormed(s) && s.winner == None
    requires forall k :: 0 <= k < |s.players| ==>
      0 <= s.players[k].x < s.width && 0 <= s.players[k].y < s.height
    requires forall i, j :: 0 <= i < j < |s.players| ==>
      (s.players[i].x, s.players[i].y) != (s.players[j].x, s.players[j].y)
    ensures Started(s).status == Running && Started(s).players == s.players
    ensures forall k :: 0 <= k < |s.players| ==>
      Started(s).grid[s.players[k].y][s.players[k].x] == Trail(k)
  {
    var r := Started(s);
    forall k | 0 <= k < |s.players|
      ensures r.grid[s.players[k].y][s.players[k].x] == Trail(k)
    {
      StampPlayersCell(s.grid, s.width, s.height, s.players, |s.players|, s.players[k].x, s.players[k].y);
    }
  }
}
