/** The match engine as the mutable object src/game.rs defines: a Game whose methods update
    its grid and players in place. Every method is proved to do exactly what the value-level
    rules in GameRules, TickRules and Views say of the state before the call. */
module Engine {
  import opened Wrappers
  import opened Courses
  import opened GameRules
  import opened TickRules
  import opened Views

  /** The grid Game::new builds: the border ring first, then the in-range obstructions and
      then the in-range walls, each in course order. A board with exactly one zero
      dimension makes the border loops index outside the grid, hence the precondition. */
  method BuildGrid(c: Course) returns (grid: seq<seq<Cell>>)
    requires (c.width == 0) == (c.height == 0)
    ensures grid == InitialGrid(c)
  {
    var w, h := c.width, c.height;
    grid := seq(h, _ => seq(w, _ => Empty));
    for x := 0 to w
      invariant IsRect(grid, w, h)
      invariant forall r, q :: 0 <= r < h && 0 <= q < w ==>
        grid[r][q] == if (r == 0 || r == h - 1) && q < x then Wall else Empty
    {
      grid := Put(grid, x, 0, Wall);
      grid := Put(grid, x, h - 1, Wall);
    }
    for y := 0 to h
      invariant IsRect(grid, w, h)
      invariant forall r, q :: 0 <= r < h && 0 <= q < w ==>
        grid[r][q] == if r == 0 || r == h - 1 || ((q == 0 || q == w - 1) && r < y) then Wall else Empty
    {
      grid := Put(grid, 0, y, Wall);
      grid := Put(grid, w - 1, y, Wall);
    }
    for k := 0 to |c.obstructions|
      invariant IsRect(grid, w, h)
      invariant forall r, q :: 0 <= r < h && 0 <= q < w ==>
        grid[r][q] == if (q, r) in c.obstructions[..k] then Obstruction
                      else if OnBorder(w, h, q, r) then Wall else Empty
    {
      var (x, y) := c.obstructions[k];
      if x < w && y < h {
        grid := Put(grid, x, y, Obstruction);
      }
      assert c.obstructions[..k + 1] == c.obstructions[..k] + [(x, y)];
    }
    for k := 0 to |c.walls|
      invariant IsRect(grid, w, h)
      invariant forall r, q :: 0 <= r < h && 0 <= q < w ==>
        grid[r][q] == if (q, r) in c.walls[..k] then Wall
                      else if (q, r) in c.obstructions then Obstruction
                      else if OnBorder(w, h, q, r) then Wall else Empty
    {
      var (x, y) := c.walls[k];
      if x < w && y < h {
        grid := Put(grid, x, y, Wall);
      }
      assert c.walls[..k + 1] == c.walls[..k] + [(x, y)];
    }
    assert c.walls[..|c.walls|] == c.walls && c.obstructions[..|c.obstructions|] == c.obstructions;
    forall r | 0 <= r < h
      ensures grid[r] == InitialGrid(c)[r]
    {
    }
  }

  /** Some player before `i` that reached the head-on scan shares player k's destination. */
  ghost predicate EarlyPartner(grid: seq<seq<Cell>>, w: nat, h: nat, ps: seq<Player>, k: nat, i: nat)
    requires IsRect(grid, w, h) && k < |ps|
  {
    ps[k].alive && !Blocked(grid, w, h, Destination(ps[k])) &&
    exists m :: 0 <= m < i && m < |ps| && m != k && ps[m].alive && Destination(ps[m]) == Destination(ps[k])
  }

  /** The collision phase of tick(): each alive player is checked against the bounds, then
      the pre-move grid, then every other alive player's destination, and a head-on match
      marks both players. */
  method DetectCollisions(grid: seq<seq<Cell>>, w: nat, h: nat, ps: seq<Player>, positions: seq<(int, int)>)
    returns (killed: seq<bool>)
    requires IsRect(grid, w, h)
    requires |positions| == |ps| && forall k :: 0 <= k < |ps| ==> positions[k] == Destination(ps[k])
    ensures killed == Crashed(grid, w, h, ps)
  {
    var n := |ps|;
    killed := seq(n, _ => false);
    for i := 0 to n
      invariant |killed| == n
      invariant forall k :: 0 <= k < n ==>
        killed[k] == if k < i then Crashes(grid, w, h, ps, k) else EarlyPartner(grid, w, h, ps, k, i)
    {
      if !ps[i].alive {
        continue;
      }
      var (nx, ny) := positions[i];
      if nx < 0 || ny < 0 || nx >= w || ny >= h {
        killed := killed[i := true];
        BlockedPartners(grid, w, h, ps, i);
        continue;
      }
      if grid[ny][nx] != Empty {
        killed := killed[i := true];
        BlockedPartners(grid, w, h, ps, i);
        continue;
      }
      ghost var before := killed;
      for j := 0 to n
        invariant |killed| == n
        invariant forall k :: 0 <= k < n && k != i ==>
          killed[k] == (before[k] || (k < j && ps[k].alive && Destination(ps[k]) == Destination(ps[i])))
        invariant killed[i] == (before[i] || exists m :: 0 <= m < j && m != i && ps[m].alive &&
                                                        Destination(ps[m]) == Destination(ps[i]))
      {
        if i == j || !ps[j].alive {
          continue;
        }
        if positions[i] == positions[j] {
          killed := killed[i := true][j := true];
        }
      }
      forall k | 0 <= k < n
        ensures killed[k] == if k < i + 1 then Crashes(grid, w, h, ps, k) else EarlyPartner(grid, w, h, ps, k, i + 1)
      {
        PartnerStep(grid, w, h, ps, i, k);
      }
    }
  }

  /** A blocked player is no head-on partner: whoever shares its destination is blocked too. */
  lemma BlockedPartners(grid: seq<seq<Cell>>, w: nat, h: nat, ps: seq<Player>, i: nat)
    requires IsRect(grid, w, h) && i < |ps| && Blocked(grid, w, h, Destination(ps[i]))
    ensures forall k :: 0 <= k < |ps| ==> EarlyPartner(grid, w, h, ps, k, i + 1) == EarlyPartner(grid, w, h, ps, k, i)
  {
  }

  /** Scanning an unblocked alive player i adds exactly the players sharing its destination. */
  lemma PartnerStep(grid: seq<seq<Cell>>, w: nat, h: nat, ps: seq<Player>, i: nat, k: nat)
    requires IsRect(grid, w, h) && i < |ps| && k < |ps|
    requires ps[i].alive && !Blocked(grid, w, h, Destination(ps[i]))
    ensures k > i ==> (EarlyPartner(grid, w, h, ps, k, i + 1) <==>
      EarlyPartner(grid, w, h, ps, k, i) || (ps[k].alive && Destination(ps[k]) == Destination(ps[i])))
    ensures k < i ==> (Crashes(grid, w, h, ps, k) <==>
      Crashes(grid, w, h, ps, k) || (ps[k].alive && Destination(ps[k]) == Destination(ps[i])))
    ensures k == i ==> (Crashes(grid, w, h, ps, k) <==>
      EarlyPartner(grid, w, h, ps, k, k) || exists m :: 0 <= m < |ps| && m != i && ps[m].alive &&
                                                      Destination(ps[m]) == Destination(ps[i]))
  {
    if k < i && ps[k].alive && Destination(ps[k]) == Destination(ps[i]) {
      assert HeadOn(ps, k);
    }
  }

  /** The trim loop of tick(): pop the front of the trail while it is longer than `max`,
      clearing each popped cell that is on the board and still holds Trail(i). */
  method TrimTrail(grid: seq<seq<Cell>>, w: nat, h: nat, i: nat, trail: seq<(int, int)>, max: nat)
    returns (g: seq<seq<Cell>>, t: seq<(int, int)>)
    requires IsRect(grid, w, h)
    ensures g == ClearOwned(grid, w, h, i, Dropped(trail, max))
    ensures t == Kept(trail, max)
  {
    g, t := grid, trail;
    while |t| > max
      invariant IsRect(g, w, h)
      invariant ClearOwned(g, w, h, i, Dropped(t, max)) == ClearOwned(grid, w, h, i, Dropped(trail, max))
      invariant Kept(t, max) == Kept(trail, max)
      decreases |t|
    {
      var (tx, ty) := t[0];
      ClearOwnedPop(g, w, h, i, t, max);
      t := t[1..];
      if 0 <= tx < w && 0 <= ty < h && g[ty][tx] == Trail(i) {
        g := Put(g, tx, ty, Empty);
      }
    }
  }

  class Game {
    var id: nat
    var grid: seq<seq<Cell>>
    var width: nat
    var height: nat
    var players: seq<Player>
    var status: Status
    var tick: nat
    var maxTrailLength: nat
    var courseName: string
    var courseLevel: nat
    var winner: Option<nat>

    /** The match this object currently holds. */
    function State(): GameState
      reads this
    {
      GameState(id, grid, width, height, players, status, tick, maxTrailLength, courseName, courseLevel, winner)
    }

    ghost predicate Valid()
      reads this
    {
      WellFormed(State())
    }

    /** Game::new, with the id supplied by the caller. */
    constructor (course: Course, gameId: nat)
      requires (course.width == 0) == (course.height == 0)
      ensures State() == NewGame(course, gameId) && Valid()
    {
      var g := BuildGrid(course);
      id := gameId;
      grid := g;
      width := course.width;
      height := course.height;
      players := [];
      status := WaitingForPlayers;
      tick := 0;
      maxTrailLength := course.maxTrailLength;
      courseName := course.name;
      courseLevel := course.level;
      winner := None;
    }

    method AddPlayer(name: string) returns (slot: Option<nat>)
      requires Valid()
      modifies this
      ensures Valid()
      ensures slot == NextSlot(old(State()))
      ensures State() == WithPlayer(old(State()), name)
    {
      var spawns := SpawnSlots(width, height);
      var idx := |players|;
      if idx >= |spawns| {
        return None;
      }
      var (x, y, dir) := spawns[idx];
      players := players + [Player(name, x, y, dir, true, [], 0, 0, None)];
      return Some(idx);
    }

    method ApplyAction(idx: nat, action: SteerAction)
      requires Valid()
      modifies this
      ensures Valid()
      ensures State() == ActionApplied(old(State()), idx, action)
    {
      if idx < |players| && players[idx].alive {
        players := players[idx := players[idx].(pending := Some(action))];
      }
    }

    method Start()
      requires Valid() && winner == None
      modifies this
      ensures Valid()
      ensures State() == Started(old(State()))
    {
      ghost var s0 := State();
      status := Running;
      for k := 0 to |players|
        invariant State() == s0.(status := Running, grid := grid)
        invariant grid == StampPlayers(s0.grid, width, height, players, k)
      {
        var p := players[k];
        if 0 <= p.x < width && 0 <= p.y < height {
          grid := Put(grid, p.x, p.y, Trail(k));
        }
      }
    }

    /** tick(): the steering, collision, movement and win-check phases in turn. */
    method Tick()
      requires Valid()
      modifies this
      ensures Valid()
      ensures State() == TickRules.Tick(old(State()))
    {
      if status != Running {
        return;
      }
      ghost var s0 := State();
      tick := tick + 1;
      var positions := SteerPlayers();
      assert State() == SteeredAll(s0);
      // collisions are judged against the grid before anyone moves
      var killed := DetectCollisions(grid, width, height, players, positions);
      MovePlayers(positions, killed);
      assert State() == Advanced(s0);
      CheckWinner();
    }

    /** The steering phase of tick(): each alive player consumes its request and its
        destination is recorded; a crashed player's destination is its own cell. */
    method SteerPlayers() returns (positions: seq<(int, int)>)
      modifies this
      ensures State() == old(State()).(players := SteerAll(old(players)))
      ensures |positions| == |players| && forall k :: 0 <= k < |players| ==> positions[k] == Destination(players[k])
    {
      ghost var s0 := State();
      var n := |players|;
      positions := [];
      for i := 0 to n
        invariant |players| == n && |positions| == i
        invariant State() == s0.(players := players)
        invariant forall k :: 0 <= k < i ==> players[k] == Steered(s0.players[k])
        invariant forall k :: i <= k < n ==> players[k] == s0.players[k]
        invariant forall k :: 0 <= k < i ==> positions[k] == Destination(players[k])
      {
        var p := players[i];
        if !p.alive {
          positions := positions + [(p.x, p.y)];
          continue;
        }
        var dir := p.direction;
        match p.pending {
          case Some(SteerLeft) => dir := TurnLeft(dir);
          case Some(SteerRight) => dir := TurnRight(dir);
          case _ =>
        }
        p := p.(direction := dir, pending := None);
        players := players[i := p];
        var (dx, dy) := Delta(dir);
        positions := positions + [(p.x + dx, p.y + dy)];
      }
    }

    /** The movement phase of tick(), player by player in index order: a crashed player is
        marked dead; a survivor pushes its old cell onto its trail, trims the trail, moves to its
        destination and marks it. */
    method MovePlayers(positions: seq<(int, int)>, killed: seq<bool>)
      requires IsRect(grid, width, height)
      requires |positions| == |players| && forall k :: 0 <= k < |players| ==> positions[k] == Destination(players[k])
      requires killed == Crashed(grid, width, height, players)
      modifies this
      ensures State() == MovedAll(old(State()), killed)
    {
      ghost var s0 := State();
      var n := |players|;
      assert SurvivorsLand(width, height, s0.players, killed);
      for i := 0 to n
        invariant |players| == n
        invariant State() == s0.(players := players, grid := grid)
        invariant grid == MovePhase(s0.grid, width, height, maxTrailLength, s0.players, killed, i)
        invariant forall k :: 0 <= k < i ==> players[k] == MovedPlayer(s0.players[k], maxTrailLength, killed[k])
        invariant forall k :: i <= k < n ==> players[k] == s0.players[k]
      {
        MoveOne(i, positions[i], killed[i]);
      }
      assert players == MovedAll(s0, killed).players;
    }

    /** Player i's turn in the movement phase. */
    method MoveOne(i: nat, destination: (int, int), killed: bool)
      requires IsRect(grid, width, height) && i < |players| && destination == Destination(players[i])
      requires players[i].alive && !killed ==> 0 <= destination.0 < width && 0 <= destination.1 < height
      modifies this
      ensures State() == old(State()).(
        grid := MovedGrid(old(grid), old(width), old(height), old(maxTrailLength), old(players[i]), i, killed),
        players := old(players)[i := MovedPlayer(old(players[i]), old(maxTrailLength), killed)])
    {
      if !players[i].alive {
        return;
      }
      if killed {
        players := players[i := players[i].(alive := false)];
        return;
      }
      var p := players[i];
      var g, t := TrimTrail(grid, width, height, i, p.trail + [(p.x, p.y)], maxTrailLength);
      var (nx, ny) := destination;
      players := players[i := p.(x := nx, y := ny, trail := t, distance := p.distance + 1)];
      grid := Put(g, nx, ny, Trail(i));
    }

    /** The indices of the alive players, in order. */
    method AlivePlayers() returns (alive: seq<nat>)
      ensures alive == AliveIndices(players)
    {
      alive := [];
      for i := 0 to |players|
        invariant alive == AliveIndices(players[..i])
      {
        assert players[..i + 1][..i] == players[..i];
        if players[i].alive {
          alive := alive + [i];
        }
      }
      assert players[..|players|] == players;
    }

    /** The win check of tick(): at most one alive player ends the match, and a single
        survivor becomes the winner with its score. */
    method CheckWinner()
      requires IsRect(grid, width, height) && |players| <= SpawnCount && winner == None
      modifies this
      ensures State() == WinCheck(old(State()))
    {
      var alive := AlivePlayers();
      if |alive| <= 1 {
        status := Finished;
        if |alive| == 1 {
          var w := alive[0];
          winner := Some(w);
          var speedBonus := if tick > 0 then Min(1000 / tick, 200) else 0;
          players := players[w := players[w].(score := 100 + players[w].distance + speedBonus)];
        }
      }
    }

    /** look(idx, radius) for a player the caller knows exists. */
    method Look(idx: nat, radius: nat) returns (v: LookReport)
      requires Valid() && idx < |players|
      ensures v == LookSpec(State(), idx, radius)
    {
      var p := players[idx];
      if !p.alive {
        return CrashedView(p.name, p.x, p.y, p.direction);
      }
      var alive := AlivePlayers();
      var rows := ViewWindow(idx, radius);
      var rivals := ListRivals(idx);
      return Sighted(p.name, p.x, p.y, p.direction, p.distance, tick, |alive|, |players|, rows, rivals);
    }

    /** The window rows of look(), top to bottom. */
    method ViewWindow(idx: nat, radius: nat) returns (rows: seq<string>)
      requires Valid() && idx < |players|
      ensures rows == Window(State(), idx, radius)
    {
      var r := radius as int;
      rows := [];
      var dy := -r;
      while dy <= r
        invariant -r <= dy <= r + 1
        invariant rows == Window(State(), idx, radius)[..dy + r]
      {
        var row := ViewRow(idx, radius, dy);
        rows := rows + [row];
        dy := dy + 1;
      }
    }

    /** One window row of look(): the symbols from left to right, separated by spaces. */
    method ViewRow(idx: nat, radius: nat, dy: int) returns (row: string)
      requires Valid() && idx < |players|
      ensures row == RenderRow(WindowSymbols(State(), idx, radius, dy))
    {
      var p := players[idx];
      var r := radius as int;
      ghost var syms := WindowSymbols(State(), idx, radius, dy);
      row := [];
      var dx := -r;
      while dx <= r
        invariant -r <= dx <= r + 1
        invariant row == RenderRow(syms[..dx + r])
      {
        var c := SymbolAt(idx, p.x + dx, p.y + dy);
        assert syms[dx + r] == c;
        assert syms[..dx + r + 1] == syms[..dx + r] + [c];
        RenderRowSnoc(syms[..dx + r], c);
        if row != [] {
          row := row + [' '];
        }
        row := row + [c];
        dx := dx + 1;
      }
      assert syms[..2 * r + 1] == syms;
    }

    /** The symbol player `idx` sees at board position (gx, gy). */
    method SymbolAt(idx: nat, gx: int, gy: int) returns (c: char)
      requires Valid() && idx < |players|
      ensures c == Symbol(State(), idx, gx, gy)
    {
      var p := players[idx];
      if gx == p.x && gy == p.y {
        c := '@';
      } else if gx < 0 || gy < 0 || gx >= width || gy >= height {
        c := '#';
      } else {
        match grid[gy][gx] {
          case Empty => c := '.';
          case Wall => c := '#';
          case Obstruction => c := 'X';
          case Trail(o) => c := if o == idx then '|' else Digit(o % 9 + 1);
        }
      }
    }

    /** The lines under look()'s window: every other player, in order. */
    method ListRivals(idx: nat) returns (rivals: seq<Rival>)
      requires idx < |players|
      ensures rivals == Rivals(State(), idx)
    {
      var p := players[idx];
      rivals := [];
      for i := 0 to |players|
        invariant rivals == Rivals(State(), idx)[..if i <= idx then i else i - 1]
      {
        if i == idx {
          continue;
        }
        var q := players[i];
        ghost var k := if i < idx then i else i - 1;
        assert Rivals(State(), idx)[k] == RivalOf(p, q);
        assert Rivals(State(), idx)[..k + 1] == Rivals(State(), idx)[..k] + [RivalOf(p, q)];
        rivals := rivals + [Rival(q.name, q.alive, Abs(q.x - p.x) + Abs(q.y - p.y))];
      }
    }
  }
}
