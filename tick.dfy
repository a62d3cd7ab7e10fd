/** The meaning of one synchronized step of a match (Game::tick in src/game.rs) as a function
    on GameState, and what it promises: crashes are judged against the grid as it stood before
    anyone moved, survivors advance one cell with a bounded trail, an evicted trail cell is
    cleared only while it still carries its owner's marker, and the win check runs last. */
module TickRules {
  import opened Wrappers
  import opened GameRules

  // ---------------------------------------------------------------- steering

  /** The heading after a queued request is applied. */
  function Steer(d: Direction, request: Option<SteerAction>): Direction {
    match request
    case Some(SteerLeft) => TurnLeft(d)
    case Some(SteerRight) => TurnRight(d)
    case _ => d
  }

  /** A player after the steering phase: an alive player consumes its request; a crashed
      player is skipped and keeps whatever it had queued. */
  function Steered(p: Player): Player {
    if p.alive then p.(direction := Steer(p.direction, p.pending), pending := None) else p
  }

  function SteerAll(ps: seq<Player>): (qs: seq<Player>)
    ensures |qs| == |ps| && forall i :: 0 <= i < |ps| ==> qs[i] == Steered(ps[i])
  {
    seq(|ps|, i requires 0 <= i < |ps| => Steered(ps[i]))
  }

  /** Where a player means to go this step: one cell ahead when alive, its own cell when not. */
  function Destination(p: Player): (int, int) {
    if p.alive then (p.x + Delta(p.direction).0, p.y + Delta(p.direction).1) else (p.x, p.y)
  }

  // ---------------------------------------------------------------- collisions

  /** The cell is off the board or not Empty in `grid`. */
  predicate Blocked(grid: seq<seq<Cell>>, w: nat, h: nat, pos: (int, int))
    requires IsRect(grid, w, h)
  {
    !(0 <= pos.0 < w && 0 <= pos.1 < h) || grid[pos.1][pos.0] != Empty
  }

  /** Some other alive player heads for the same cell. */
  predicate HeadOn(ps: seq<Player>, i: nat)
    requires i < |ps|
  {
    exists j :: 0 <= j < |ps| && j != i && ps[j].alive && Destination(ps[j]) == Destination(ps[i])
  }

  /** Player i (already steered) crashes this step. */
  predicate Crashes(grid: seq<seq<Cell>>, w: nat, h: nat, ps: seq<Player>, i: nat)
    requires IsRect(grid, w, h) && i < |ps|
  {
    ps[i].alive && (Blocked(grid, w, h, Destination(ps[i])) || HeadOn(ps, i))
  }

  /** The crash flags of the whole field. */
  function Crashed(grid: seq<seq<Cell>>, w: nat, h: nat, ps: seq<Player>): (killed: seq<bool>)
    requires IsRect(grid, w, h)
    ensures |killed| == |ps| && forall i :: 0 <= i < |ps| ==> killed[i] == Crashes(grid, w, h, ps, i)
  {
    seq(|ps|, i requires 0 <= i < |ps| => Crashes(grid, w, h, ps, i))
  }

  /** Two alive players heading for the same cell crash together. */
  lemma HeadOnCrashesBoth(grid: seq<seq<Cell>>, w: nat, h: nat, ps: seq<Player>, i: nat, j: nat)
    requires IsRect(grid, w, h) && i < |ps| && j < |ps| && i != j
    requires ps[i].alive && ps[j].alive && Destination(ps[i]) == Destination(ps[j])
    ensures Crashes(grid, w, h, ps, i) && Crashes(grid, w, h, ps, j)
  {
    assert HeadOn(ps, i) by { assert ps[j].alive && Destination(ps[j]) == Destination(ps[i]); }
    assert HeadOn(ps, j) by { assert ps[i].alive && Destination(ps[i]) == Destination(ps[j]); }
  }

  /** Crash judgement does not depend on the order of the player list: listing the players
      as qs[k] == ps[perm[k]] for a permutation `perm` (with inverse `inv`) gives each player
      the same verdict. */
  lemma CrashesIgnoreOrder(grid: seq<seq<Cell>>, w: nat, h: nat, ps: seq<Player>, qs: seq<Player>,
                           perm: seq<nat>, inv: seq<nat>, k: nat)
    requires IsRect(grid, w, h)
    requires |qs| == |ps| && |perm| == |ps| && |inv| == |ps| && k < |ps|
    requires forall m :: 0 <= m < |perm| ==> perm[m] < |ps| && qs[m] == ps[perm[m]] && inv[perm[m]] == m
    requires forall m :: 0 <= m < |inv| ==> inv[m] < |ps| && perm[inv[m]] == m
    ensures Crashes(grid, w, h, qs, k) == Crashes(grid, w, h, ps, perm[k])
  {
    var i := perm[k];
    if HeadOn(qs, k) {
      var j :| 0 <= j < |qs| && j != k && qs[j].alive && Destination(qs[j]) == Destination(qs[k]);
      assert perm[j] != i by {
        assert inv[perm[j]] == j && inv[perm[k]] == k;
      }
      assert ps[perm[j]].alive && Destination(ps[perm[j]]) == Destination(ps[i]);
      assert HeadOn(ps, i);
    }
    if HeadOn(ps, i) {
      var j :| 0 <= j < |ps| && j != i && ps[j].alive && Destination(ps[j]) == Destination(ps[i]);
      var m := inv[j];
      assert perm[m] == j;
      assert m != k;
      assert qs[m].alive && Destination(qs[m]) == Destination(qs[k]);
      assert HeadOn(qs, k);
    }
  }

  // ---------------------------------------------------------------- trails

  /** The front cells the trim loop pops off a trail of more than `max` cells. */
  function Dropped(t: seq<(int, int)>, max: nat): seq<(int, int)> {
    if |t| > max then t[..|t| - max] else []
  }

  /** The trail the trim loop leaves: the newest `max` cells. */
  function Kept(t: seq<(int, int)>, max: nat): (k: seq<(int, int)>)
    ensures |k| <= max || k == t
  {
    if |t| > max then t[|t| - max..] else t
  }

  /** Trimming splits the trail into a dropped front and a kept back of at most `max` cells. */
  lemma TrimSplits(t: seq<(int, int)>, max: nat)
    ensures Dropped(t, max) + Kept(t, max) == t
    ensures |Kept(t, max)| == Min(|t|, max)
  {
  }

  /** The grid after the dropped cells of player i's trail are popped in order: each one still
      holding Trail(i) becomes Empty. */
  function ClearOwned(grid: seq<seq<Cell>>, w: nat, h: nat, i: nat, cells: seq<(int, int)>): (g: seq<seq<Cell>>)
    requires IsRect(grid, w, h)
    ensures IsRect(g, w, h)
    ensures forall y, x :: 0 <= y < h && 0 <= x < w ==>
      g[y][x] == if (x, y) in cells && grid[y][x] == Trail(i) then Empty else grid[y][x]
    decreases |cells|
  {
    if cells == [] then grid
    else
      assert forall c :: c in cells <==> c == cells[0] || c in cells[1..];
      ClearOwned(PopCell(grid, w, h, i, cells[0]), w, h, i, cells[1..])
  }

  /** One popped trail cell: cleared when it is on the board and still holds Trail(i). */
  function PopCell(grid: seq<seq<Cell>>, w: nat, h: nat, i: nat, c: (int, int)): (g: seq<seq<Cell>>)
    requires IsRect(grid, w, h)
    ensures IsRect(g, w, h)
  {
    var (tx, ty) := c;
    if 0 <= tx < w && 0 <= ty < h && grid[ty][tx] == Trail(i) then Put(grid, tx, ty, Empty) else grid
  }

  /** Trimming a trail longer than `max` pops its front cell first. */
  lemma ClearOwnedPop(grid: seq<seq<Cell>>, w: nat, h: nat, i: nat, t: seq<(int, int)>, max: nat)
    requires IsRect(grid, w, h) && |t| > max
    ensures ClearOwned(grid, w, h, i, Dropped(t, max)) ==
            ClearOwned(PopCell(grid, w, h, i, t[0]), w, h, i, Dropped(t[1..], max))
  {
    assert Dropped(t, max)[1..] == Dropped(t[1..], max);
  }

  // ---------------------------------------------------------------- movement

  /** Player i after the movement phase, given whether it crashed. */
  function MovedPlayer(p: Player, max: nat, killed: bool): Player {
    if !p.alive then p
    else if killed then p.(alive := false)
    else
      var d := Destination(p);
      p.(x := d.0, y := d.1, trail := Kept(p.trail + [(p.x, p.y)], max), distance := p.distance + 1)
  }

  /** Player i survives the step. */
  predicate Survives(ps: seq<Player>, killed: seq<bool>, i: nat)
    requires |killed| == |ps| && i < |ps|
  {
    ps[i].alive && !killed[i]
  }

  /** The grid after player i's movement: a survivor's dropped trail cells are released and
      its destination is marked; anyone else leaves the grid alone. */
  function MovedGrid(grid: seq<seq<Cell>>, w: nat, h: nat, max: nat, p: Player, i: nat, killed: bool): (g: seq<seq<Cell>>)
    requires IsRect(grid, w, h)
    requires p.alive && !killed ==> 0 <= Destination(p).0 < w && 0 <= Destination(p).1 < h
    ensures IsRect(g, w, h)
  {
    if !p.alive || killed then grid
    else
      var g := ClearOwned(grid, w, h, i, Dropped(p.trail + [(p.x, p.y)], max));
      Put(g, Destination(p).0, Destination(p).1, Trail(i))
  }

  /** Survivors' destinations lie on the board. */
  predicate SurvivorsLand(w: nat, h: nat, ps: seq<Player>, killed: seq<bool>)
    requires |killed| == |ps|
  {
    forall i :: 0 <= i < |ps| && ps[i].alive && !killed[i] ==>
      0 <= Destination(ps[i]).0 < w && 0 <= Destination(ps[i]).1 < h
  }

  /** The grid after the first `k` players, in index order, have moved. */
  function MovePhase(grid: seq<seq<Cell>>, w: nat, h: nat, max: nat, ps: seq<Player>, killed: seq<bool>, k: nat): (g: seq<seq<Cell>>)
    requires IsRect(grid, w, h) && |killed| == |ps| && k <= |ps|
    requires SurvivorsLand(w, h, ps, killed)
    ensures IsRect(g, w, h)
  {
    if k == 0 then grid
    else MovedGrid(MovePhase(grid, w, h, max, ps, killed, k - 1), w, h, max, ps[k - 1], k - 1, killed[k - 1])
  }

  /** The last of the first `k` survivors whose destination is (x, y), if any. */
  function ArrivalAt(ps: seq<Player>, killed: seq<bool>, k: nat, x: int, y: int): (r: Option<nat>)
    requires |killed| == |ps| && k <= |ps|
    ensures r.None? <==> forall i :: 0 <= i < k && Survives(ps, killed, i) ==> Destination(ps[i]) != (x, y)
    ensures r.Some? ==> r.value < k && Survives(ps, killed, r.value) && Destination(ps[r.value]) == (x, y)
  {
    if k == 0 then None
    else if Survives(ps, killed, k - 1) && Destination(ps[k - 1]) == (x, y) then Some(k - 1)
    else ArrivalAt(ps, killed, k - 1, x, y)
  }

  /** Cell (x, y) held the marker of one of the first `k` players, that player survives, and
      the cell is among those its trim loop pops. */
  predicate Released(grid: seq<seq<Cell>>, w: nat, h: nat, max: nat, ps: seq<Player>, killed: seq<bool>,
                     k: nat, x: nat, y: nat)
    requires IsRect(grid, w, h) && |killed| == |ps| && k <= |ps| && x < w && y < h
  {
    grid[y][x].Trail? && grid[y][x].owner < k && Survives(ps, killed, grid[y][x].owner) &&
    (x, y) in Dropped(ps[grid[y][x].owner].trail + [(ps[grid[y][x].owner].x, ps[grid[y][x].owner].y)], max)
  }

  /** Closed form of the movement phase, cell by cell: a cell some survivor moved onto shows
      the last such survivor's marker; otherwise it is Empty if it was a released trail cell,
      and as before if not. */
  lemma {:induction false} MovePhaseCell(grid: seq<seq<Cell>>, w: nat, h: nat, max: nat, ps: seq<Player>,
                                         killed: seq<bool>, k: nat, x: nat, y: nat)
    requires IsRect(grid, w, h) && |killed| == |ps| && k <= |ps| && x < w && y < h
    requires SurvivorsLand(w, h, ps, killed)
    ensures MovePhase(grid, w, h, max, ps, killed, k)[y][x] ==
      match ArrivalAt(ps, killed, k, x, y)
      case Some(i) => Trail(i)
      case None => if Released(grid, w, h, max, ps, killed, k, x, y) then Empty else grid[y][x]
  {
    if k > 0 {
      var i := k - 1;
      var before := MovePhase(grid, w, h, max, ps, killed, k - 1)[y][x];
      var after := MovePhase(grid, w, h, max, ps, killed, k)[y][x];
      var arrivedBefore := ArrivalAt(ps, killed, k - 1, x, y);
      var releasedBefore := Released(grid, w, h, max, ps, killed, k - 1, x, y);
      MovePhaseCell(grid, w, h, max, ps, killed, k - 1, x, y);
      assert before == match arrivedBefore
        case Some(j) => Trail(j)
        case None => if releasedBefore then Empty else grid[y][x];
      MovePhaseStep(grid, w, h, max, ps, killed, k, x, y);
      if !Survives(ps, killed, i) {
        assert after == before;
        assert ArrivalAt(ps, killed, k, x, y) == arrivedBefore;
        assert Released(grid, w, h, max, ps, killed, k, x, y) == releasedBefore;
      } else if Destination(ps[i]) == (x, y) {
        assert after == Trail(i);
        assert ArrivalAt(ps, killed, k, x, y) == Some(i);
      } else {
        assert ArrivalAt(ps, killed, k, x, y) == arrivedBefore;
        StepReleases(grid, w, h, max, ps, killed, k, x, y);
      }
    }
  }

  /** What moving player k - 1 does to cell (x, y). */
  lemma MovePhaseStep(grid: seq<seq<Cell>>, w: nat, h: nat, max: nat, ps: seq<Player>,
                      killed: seq<bool>, k: nat, x: nat, y: nat)
    requires IsRect(grid, w, h) && |killed| == |ps| && 0 < k <= |ps| && x < w && y < h
    requires SurvivorsLand(w, h, ps, killed)
    ensures var before := MovePhase(grid, w, h, max, ps, killed, k - 1)[y][x];
      var i := k - 1;
      MovePhase(grid, w, h, max, ps, killed, k)[y][x] ==
        if !Survives(ps, killed, i) then before
        else if Destination(ps[i]) == (x, y) then Trail(i)
        else if (x, y) in Dropped(ps[i].trail + [(ps[i].x, ps[i].y)], max) && before == Trail(i) then Empty
        else before
  {
  }

  /** One more survivor releases exactly its own dropped cells. */
  lemma StepReleases(grid: seq<seq<Cell>>, w: nat, h: nat, max: nat, ps: seq<Player>,
                     killed: seq<bool>, k: nat, x: nat, y: nat)
    requires IsRect(grid, w, h) && |killed| == |ps| && 0 < k <= |ps| && x < w && y < h
    requires Survives(ps, killed, k - 1)
    ensures Released(grid, w, h, max, ps, killed, k, x, y) <==>
      Released(grid, w, h, max, ps, killed, k - 1, x, y) ||
      (grid[y][x] == Trail(k - 1) && (x, y) in Dropped(ps[k - 1].trail + [(ps[k - 1].x, ps[k - 1].y)], max))
  {
  }

  // ---------------------------------------------------------------- win check

  /** The indices of the alive players, in increasing order. */
  function AliveIndices(ps: seq<Player>): (r: seq<nat>)
    ensures |r| <= |ps|
    ensures forall k :: 0 <= k < |r| ==> r[k] < |ps| && ps[r[k]].alive
    ensures forall i :: 0 <= i < |ps| && ps[i].alive ==> i in r
    ensures forall a, b :: 0 <= a < b < |r| ==> r[a] < r[b]
  {
    if ps == [] then []
    else AliveIndices(ps[..|ps| - 1]) + (if ps[|ps| - 1].alive then [|ps| - 1] else [])
  }

  /** The set of alive players' indices. */
  function AliveSet(ps: seq<Player>): set<nat> {
    set i: nat | i < |ps| && ps[i].alive
  }

  /** The elements of a sequence of indices. */
  function Elements(r: seq<nat>): set<nat> {
    set k | k in r
  }

  /** The alive indices number exactly the alive players. */
  lemma AliveIndicesCount(ps: seq<Player>)
    ensures |AliveIndices(ps)| == |AliveSet(ps)|
  {
    var r := AliveIndices(ps);
    assert AliveSet(ps) == Elements(r);
    IncreasingElements(r);
  }

  /** A strictly increasing sequence has as many distinct elements as it is long. */
  lemma {:induction false} IncreasingElements(r: seq<nat>)
    requires forall a, b :: 0 <= a < b < |r| ==> r[a] < r[b]
    ensures |Elements(r)| == |r|
  {
    if r == [] {
      assert Elements(r) == {};
    } else {
      var n := |r| - 1;
      var init := r[..n];
      IncreasingElements(init);
      assert r[n] !in Elements(init) by {
        forall m | 0 <= m < n ensures init[m] != r[n] { assert init[m] == r[m]; }
      }
      assert r == init + [r[n]];
      assert Elements(r) == Elements(init) + {r[n]};
    }
  }

  /** The winner's score: a base of 100, one point per cell travelled, and a speed bonus of
      1000 / tick capped at 200. */
  function Score(distance: nat, tick: nat): (score: nat)
    ensures 100 + distance <= score <= 300 + distance
    ensures tick > 0 ==> score == 100 + distance + Min(1000 / tick, 200)
  {
    100 + distance + (if tick > 0 then Min(1000 / tick, 200) else 0)
  }

  /** The match after the win check: at most one alive player ends it, a single survivor
      wins and is scored. */
  function WinCheck(s: GameState): (r: GameState)
    requires IsRect(s.grid, s.width, s.height) && |s.players| <= SpawnCount && s.winner == None
    ensures WellFormed(r)
  {
    var alive := AliveIndices(s.players);
    if |alive| == 0 then s.(status := Finished)
    else if |alive| == 1 then
      var w := alive[0];
      s.(status := Finished, winner := Some(w),
         players := s.players[w := s.players[w].(score := Score(s.players[w].distance, s.tick))])
    else s
  }

  // ---------------------------------------------------------------- the step

  /** The match after the movement phase, given the crash flags. */
  function MovedAll(s: GameState, killed: seq<bool>): (r: GameState)
    requires IsRect(s.grid, s.width, s.height) && |killed| == |s.players|
    requires SurvivorsLand(s.width, s.height, s.players, killed)
    ensures IsRect(r.grid, r.width, r.height) && |r.players| == |s.players|
  {
    s.(grid := MovePhase(s.grid, s.width, s.height, s.maxTrailLength, s.players, killed, |s.players|),
       players := seq(|s.players|, i requires 0 <= i < |s.players| => MovedPlayer(s.players[i], s.maxTrailLength, killed[i])))
  }

  /** The match after the steering phase of a running step, with the counter advanced. */
  function SteeredAll(s: GameState): GameState {
    s.(tick := s.tick + 1, players := SteerAll(s.players))
  }

  /** The match after the steering, collision and movement phases of a running step. */
  function Advanced(s: GameState): (r: GameState)
    requires WellFormed(s) && s.status == Running
    ensures IsRect(r.grid, r.width, r.height) && |r.players| == |s.players| && r.winner == None
  {
    var st := SteeredAll(s);
    MovedAll(st, Crashed(st.grid, st.width, st.height, st.players))
  }

  /** The match after tick(). */
  function Tick(s: GameState): (r: GameState)
    requires WellFormed(s)
    ensures WellFormed(r) && |r.players| == |s.players|
    ensures r == s.(grid := r.grid, players := r.players, status := r.status, tick := r.tick, winner := r.winner)
    ensures s.status != Running ==> r == s
    ensures s.status == Running ==> r.tick == s.tick + 1 && r.status in {Running, Finished}
  {
    if s.status != Running then s else WinCheck(Advanced(s))
  }

  // ---------------------------------------------------------------- what a step promises

  /** The players of a running match after tick(), before scoring. */
  lemma TickPlayer(s: GameState, i: nat)
    requires WellFormed(s) && s.status == Running && i < |s.players|
    ensures var ps := SteerAll(s.players);
      Tick(s).players[i] ==
        var m := MovedPlayer(ps[i], s.maxTrailLength, Crashes(s.grid, s.width, s.height, ps, i));
        if Tick(s).winner == Some(i) then m.(score := Tick(s).players[i].score) else m
  {
  }

  /** A step never renames or reorders players. */
  lemma TickKeepsNames(s: GameState)
    requires WellFormed(s)
    ensures forall i :: 0 <= i < |s.players| ==> Tick(s).players[i].name == s.players[i].name
  {
    if s.status == Running {
      forall i | 0 <= i < |s.players|
        ensures Tick(s).players[i].name == s.players[i].name
      {
        TickPlayer(s, i);
      }
    }
  }

  /** Every player alive before a running step has no steering request left afterwards. */
  lemma TickConsumesRequests(s: GameState, i: nat)
    requires WellFormed(s) && s.status == Running && i < |s.players| && s.players[i].alive
    ensures Tick(s).players[i].pending == None
  {
    TickPlayer(s, i);
  }

  /** A player alive before a running step dies in it exactly when its post-turn destination
      is off the board, or not Empty in the pre-move grid, or the destination of another
      player alive before the step. */
  lemma TickCrashIff(s: GameState, i: nat)
    requires WellFormed(s) && s.status == Running && i < |s.players| && s.players[i].alive
    ensures var d := Destination(Steered(s.players[i]));
      !Tick(s).players[i].alive <==>
        !(0 <= d.0 < s.width && 0 <= d.1 < s.height) ||
        s.grid[d.1][d.0] != Empty ||
        exists j :: 0 <= j < |s.players| && j != i && s.players[j].alive && Destination(Steered(s.players[j])) == d
  {
    TickPlayer(s, i);
    var ps := SteerAll(s.players);
    assert HeadOn(ps, i) <==> (exists j :: 0 <= j < |s.players| && j != i && s.players[j].alive &&
                                          Destination(Steered(s.players[j])) == Destination(ps[i])) by {
      if HeadOn(ps, i) {
        var j :| 0 <= j < |ps| && j != i && ps[j].alive && Destination(ps[j]) == Destination(ps[i]);
        assert s.players[j].alive && Destination(Steered(s.players[j])) == Destination(ps[i]);
      }
    }
  }

  /** A player dead before the step is untouched by it. */
  lemma TickLeavesDeadAlone(s: GameState, i: nat)
    requires WellFormed(s) && i < |s.players| && !s.players[i].alive
    ensures Tick(s).players[i] == s.players[i]
  {
    if s.status == Running {
      TickPlayer(s, i);
    }
  }

  /** A survivor of a running step moves one cell along its post-turn heading, travels one
      more cell, pushes its old cell onto the back of its trail and trims the trail to the
      course's length; its new cell carries its marker. */
  lemma TickSurvivor(s: GameState, i: nat)
    requires WellFormed(s) && s.status == Running && i < |s.players| && Tick(s).players[i].alive
    ensures var p, q := s.players[i], Tick(s).players[i];
      var dir := Steer(p.direction, p.pending);
      p.alive &&
      q.direction == dir && q.x == p.x + Delta(dir).0 && q.y == p.y + Delta(dir).1 &&
      q.distance == p.distance + 1 &&
      q.trail == Kept(p.trail + [(p.x, p.y)], s.maxTrailLength) &&
      |q.trail| <= s.maxTrailLength &&
      Tick(s).grid[q.y][q.x] == Trail(i)
  {
    TickPlayer(s, i);
    var ps := SteerAll(s.players);
    var killed := Crashed(s.grid, s.width, s.height, ps);
    var mx := s.maxTrailLength;
    assert Survives(ps, killed, i);
    var d := Destination(ps[i]);
    MovePhaseCell(s.grid, s.width, s.height, mx, ps, killed, |ps|, d.0, d.1);
    var a := ArrivalAt(ps, killed, |ps|, d.0, d.1);
    assert a == Some(i) by {
      assert a.Some?;
      var j := a.value;
      if j != i {
        HeadOnCrashesBoth(s.grid, s.width, s.height, ps, i, j);
      }
    }
    TrimSplits(PushedTrail(s, i), mx);
  }

  function PushedTrail(s: GameState, i: nat): seq<(int, int)>
    requires i < |s.players|
  {
    s.players[i].trail + [(s.players[i].x, s.players[i].y)]
  }

  /** No cell changes except survivors' new cells and the released cells of survivors'
      trimmed trails: a cell no survivor moved onto is Empty if it held the marker of a
      survivor whose trim popped it, and as before otherwise. */
  lemma TickOtherCells(s: GameState, x: nat, y: nat)
    requires WellFormed(s) && s.status == Running && x < s.width && y < s.height
    requires forall i :: 0 <= i < |s.players| && Tick(s).players[i].alive ==>
      (Tick(s).players[i].x, Tick(s).players[i].y) != (x, y)
    ensures Tick(s).grid[y][x] ==
      if s.grid[y][x].Trail? && s.grid[y][x].owner < |s.players| &&
         Tick(s).players[s.grid[y][x].owner].alive &&
         (x, y) in Dropped(PushedTrail(s, s.grid[y][x].owner), s.maxTrailLength)
      then Empty else s.grid[y][x]
  {
    var ps := SteerAll(s.players);
    var killed := Crashed(s.grid, s.width, s.height, ps);
    var mx := s.maxTrailLength;
    MovePhaseCell(s.grid, s.width, s.height, mx, ps, killed, |ps|, x, y);
    forall i | 0 <= i < |ps| && Survives(ps, killed, i)
      ensures Destination(ps[i]) != (x, y)
    {
      TickPlayer(s, i);
    }
    if s.grid[y][x].Trail? && s.grid[y][x].owner < |s.players| {
      var o := s.grid[y][x].owner;
      TickPlayer(s, o);
      assert Tick(s).players[o].alive <==> Survives(ps, killed, o);
    }
  }

  /** After a running step the match is over exactly when at most one player is alive (even
      in a one-player match); it has a winner exactly when one is alive, that player, scored
      100 + distance + min(1000 / tick, 200). */
  lemma TickWinCheck(s: GameState)
    requires WellFormed(s) && s.status == Running
    ensures var r := Tick(s); var alive := AliveIndices(r.players);
      (r.status == Finished <==> |alive| <= 1) &&
      (r.winner.Some? <==> |alive| == 1) &&
      (|alive| == 1 ==> r.winner == Some(alive[0])) &&
      (|alive| == 1 ==> r.players[alive[0]].score == 100 + r.players[alive[0]].distance + Min(1000 / r.tick, 200))
  {
    var a := Advanced(s);
    var alive := AliveIndices(a.players);
    if |alive| == 1 {
      var w := alive[0];
      var r := Tick(s);
      assert r.players == a.players[w := a.players[w].(score := Score(a.players[w].distance, a.tick))];
      AliveIndicesIgnoreScore(a.players, w, Score(a.players[w].distance, a.tick));
    }
  }

  /** Setting a score does not change who is alive. */
  lemma AliveIndicesIgnoreScore(ps: seq<Player>, w: nat, score: nat)
    requires w < |ps|
    ensures AliveIndices(ps[w := ps[w].(score := score)]) == AliveIndices(ps)
  {
    AliveIndicesSameLiveness(ps, ps[w := ps[w].(score := score)]);
  }

  /** AliveIndices depends only on who is alive. */
  lemma {:induction false} AliveIndicesSameLiveness(ps: seq<Player>, qs: seq<Player>)
    requires |ps| == |qs| && forall i :: 0 <= i < |ps| ==> ps[i].alive == qs[i].alive
    ensures AliveIndices(ps) == AliveIndices(qs)
    decreases |ps|
  {
    if ps != [] {
      AliveIndicesSameLiveness(ps[..|ps| - 1], qs[..|qs| - 1]);
    }
  }
}
