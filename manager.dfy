/** The session manager (GameManager in src/manager.rs): a queue of waiting names, per-name
    sessions, the active matches, the leaderboard and the archive of finished matches, all
    updated in place. Every method is proved against the value-level rules of module Ledger
    and keeps the invariant Ledger.Consistent over the states of the active matches. */
module Manager {
  import opened Wrappers
  import opened Courses
  import opened GameRules
  import opened TickRules
  import opened Views
  import opened Ledger
  import opened Engine

  class GameManager {
    /** Matches in play, keyed by a fresh id (the source keys them by a random UUID). */
    var activeGames: map<nat, Game>
    var finishedGames: seq<WebGame>
    var leaderboard: map<string, Entry>
    var sessions: map<string, Session>
    var waiting: seq<string>
    var maxFinishedGames: nat
    /** The id the next match receives. */
    var nextId: nat

    /** The states of the active matches. */
    ghost function Games(): (gs: map<nat, GameState>)
      reads this`activeGames, activeGames.Values
      ensures gs.Keys == activeGames.Keys
    {
      map id | id in activeGames :: activeGames[id].State()
    }

    /** No two keys share a match object. */
    ghost predicate Separate()
      reads this`activeGames
    {
      forall a, b :: a in activeGames && b in activeGames && a != b ==> activeGames[a] != activeGames[b]
    }

    ghost function BooksNow(): Books
      reads this`leaderboard, this`sessions, this`finishedGames
    {
      Books(leaderboard, sessions, finishedGames)
    }

    ghost predicate Valid()
      reads this, activeGames.Values
    {
      maxFinishedGames == MaxFinishedGames && Separate() && Consistent(waiting, BooksNow(), nextId, Games())
    }

    /** The invariant holds once a match of the first `m` names of a consistent snapshot has
        been started, and the state is the one try_start_game() promises. */
    lemma StartValid(w: seq<string>, b: Books, n: nat, g: map<nat, GameState>, a: map<nat, Game>,
                     draws: seq<Segment>, course: Course, m: nat)
      requires Consistent(w, b, n, g) && |w| >= 2 && m <= SpawnCount
      requires course == MatchCourse(w, b.sessions, draws) && m == MatchSize(w, b.sessions, draws)
      requires maxFinishedGames == MaxFinishedGames && leaderboard == b.leaderboard && finishedGames == b.archive
      requires Launched(w, b.sessions, n, a, g, course, m)
      ensures Valid() && StartedFrom(w, b.sessions, n, a, draws)
    {
      StartKeeps(w, b, n, g, course, m);
    }

    constructor ()
      ensures Valid()
      ensures activeGames == map[] && finishedGames == [] && leaderboard == map[]
      ensures sessions == map[] && waiting == [] && nextId == 0
      ensures maxFinishedGames == MaxFinishedGames
    {
      activeGames := map[];
      finishedGames := [];
      leaderboard := map[];
      sessions := map[];
      waiting := [];
      maxFinishedGames := 100;
      nextId := 0;
    }

    /** The join conflict: the name's session is bound to an active match that has not
        finished. */
    ghost predicate InActiveGame(name: string)
      reads this`sessions, this`activeGames, activeGames.Values
    {
      name in sessions && sessions[name].gameId.Some? && sessions[name].gameId.value in activeGames &&
      activeGames[sessions[name].gameId.value].status != Finished
    }

    // ---------------------------------------------------------------- join

    /** join(): refused while the name plays an unfinished match; otherwise the session is
        reset, the name queued, and a match started once two or more wait. The result is the
        queue length afterwards. */
    method Join(name: string, draws: seq<Segment>) returns (r: Result<nat, ManagerError>)
      requires Valid()
      modifies this
      ensures Valid()
      ensures r.Err? <==> old(InActiveGame(name))
      ensures r.Err? ==> r.error == AlreadyInGame && unchanged(this)
      ensures r.Ok? ==> r.value == |waiting| && leaderboard == old(leaderboard) && finishedGames == old(finishedGames)
      ensures r.Ok? ==>
        StartedFrom(Enqueue(old(waiting), name), old(sessions)[name := Rejoined(old(sessions), name)],
                    old(nextId), old(activeGames), draws)
      ensures r.Ok? && |Enqueue(old(waiting), name)| >= 2 ==>
        old(nextId) in activeGames && fresh(activeGames[old(nextId)])
    {
      if name in sessions && sessions[name].gameId.Some? {
        var id := sessions[name].gameId.value;
        if id in activeGames && activeGames[id].status != Finished {
          return Err(AlreadyInGame);
        }
      }
      ghost var q, ss, n0, g0 := Enqueue(waiting, name), sessions[name := Rejoined(sessions, name)], nextId, activeGames;
      Rejoin(name);
      assert waiting == q && sessions == ss && nextId == n0 && activeGames == g0;
      if |waiting| >= 2 {
        TryStartGame(draws);
        assert StartedFrom(q, ss, n0, g0, draws);
      }
      return Ok(|waiting|);
    }

    /** The unconditional part of join(): the session is reset, keeping its level or
        starting at 1, and the name is queued unless it already waits. */
    method Rejoin(name: string)
      requires Valid()
      modifies this`sessions, this`waiting
      ensures Valid()
      ensures sessions == old(sessions)[name := Rejoined(old(sessions), name)]
      ensures waiting == Enqueue(old(waiting), name)
    {
      JoinKeeps(waiting, BooksNow(), nextId, Games(), name);
      var level := if name in sessions then sessions[name].level else 1;
      sessions := sessions[name := Session(name, None, None, level)];
      if name !in waiting {
        waiting := waiting + [name];
      }
    }

    /** The lowest level among queued names that have a session, or 1. */
    method LowestQueuedLevel() returns (level: nat)
      ensures level == MinLevel(waiting, sessions)
    {
      var best: Option<nat> := None;
      var k := |waiting|;
      while k > 0
        invariant 0 <= k <= |waiting|
        invariant best == QueuedLevel(waiting[k..], sessions)
      {
        k := k - 1;
        assert waiting[k..][1..] == waiting[k + 1..];
        var n := waiting[k];
        if n in sessions {
          best := match best
            case None => Some(sessions[n].level)
            case Some(l) => Some(Min(sessions[n].level, l));
        }
      }
      assert waiting[0..] == waiting;
      level := best.GetOr(1);
    }

    /** The course a new match is played on, and how many queued names it takes. */
    method PlanMatch(draws: seq<Segment>) returns (course: Course, m: nat)
      requires |waiting| >= 2
      ensures course == MatchCourse(waiting, sessions, draws) && m == MatchSize(waiting, sessions, draws)
      ensures 2 <= m <= |waiting| && m <= SpawnCount && (course.width == 0) == (course.height == 0)
    {
      var level := LowestQueuedLevel();
      course := GetCourse(level, draws);
      MatchSizeBounds(waiting, sessions, draws);
      m := Min(course.maxPlayers, |waiting|);
    }

    /** What try_start_game() leaves behind when it starts from queue `q`, sessions `ss`,
        next id `n0` and active matches `g0`: with two or more queued, the first MatchSize
        names leave the queue, in order, for a running match at the lowest queued level under
        id `n0`, and drained name k is bound to it at index k; otherwise none of these
        changes. */
    ghost predicate StartedFrom(q: seq<string>, ss: map<string, Session>, n0: nat, g0: map<nat, Game>,
                                draws: seq<Segment>)
      reads this, activeGames.Values
    {
      if |q| < 2 then waiting == q && sessions == ss && nextId == n0 && activeGames == g0
      else
        var m := MatchSize(q, ss, draws);
        m <= |q| &&
        waiting == q[m..] && sessions == Bind(ss, q[..m], n0, m) && nextId == n0 + 1 &&
        n0 in activeGames && activeGames == g0[n0 := activeGames[n0]] &&
        activeGames[n0].State() == StartedMatch(MatchCourse(q, ss, draws), q[..m], n0)
    }

    /** try_start_game(): with two or more waiting, the first MatchSize names leave the
        queue, in order, for a fresh running match at the lowest queued level; drained name k
        is bound to that match at index k. */
    method TryStartGame(draws: seq<Segment>)
      requires Valid()
      modifies this
      ensures Valid()
      ensures |old(waiting)| < 2 ==> unchanged(this)
      ensures leaderboard == old(leaderboard) && finishedGames == old(finishedGames)
      ensures StartedFrom(old(waiting), old(sessions), old(nextId), old(activeGames), draws)
      ensures |old(waiting)| >= 2 ==> old(nextId) in activeGames && fresh(activeGames[old(nextId)])
    {
      if |waiting| < 2 {
        return;
      }
      var course, m := PlanMatch(draws);
      ghost var w0, b0, n0, g0, a0 := waiting, BooksNow(), nextId, Games(), activeGames;
      Launch(course, m);
      StartValid(w0, b0, n0, g0, a0, draws, course, m);
    }

    /** The state after the names `w[..m]` were drained into a match on `course` under id `n`,
        starting from sessions `s0`, active matches `a` with states `g`: the rest of the queue
        waits, the drained names are bound, the id counter moved on, and the new match joins
        the active set with the others untouched. */
    ghost predicate Launched(w: seq<string>, s0: map<string, Session>, n: nat, a: map<nat, Game>,
                             g: map<nat, GameState>, course: Course, m: nat)
      reads this, activeGames.Values
    {
      m <= |w| && waiting == w[m..] && sessions == Bind(s0, w[..m], n, m) && nextId == n + 1 &&
      n in activeGames && activeGames == a[n := activeGames[n]] &&
      activeGames[n].State() == StartedMatch(course, w[..m], n) &&
      Separate() && Games() == g[n := StartedMatch(course, w[..m], n)]
    }

    /** The rest of try_start_game(): the first `m` queued names leave the queue for a new
        match under the next id, which joins the active set. */
    method Launch(course: Course, m: nat)
      requires (course.width == 0) == (course.height == 0) && m <= |waiting| && m <= SpawnCount
      requires Separate() && nextId !in activeGames
      modifies this`waiting, this`sessions, this`activeGames, this`nextId
      ensures Launched(old(waiting), old(sessions), old(nextId), old(activeGames), old(Games()), course, m)
      ensures old(nextId) in activeGames && fresh(activeGames[old(nextId)])
    {
      ghost var games0 := Games();
      var names := waiting[..m];
      waiting := waiting[m..];
      var id := nextId;
      var game := OpenMatch(course, names, id);
      activeGames := activeGames[id := game];
      nextId := nextId + 1;
      assert Games() == games0[id := game.State()] by {
        forall k | k in activeGames
          ensures Games()[k] == games0[id := game.State()][k]
        {
        }
      }
    }

    /** A new match on `course` holding `names` in order, started; each name with a session
        is bound to its slot. */
    method OpenMatch(course: Course, names: seq<string>, id: nat) returns (game: Game)
      requires (course.width == 0) == (course.height == 0) && |names| <= SpawnCount
      modifies this`sessions
      ensures fresh(game) && game.Valid() && game.State() == StartedMatch(course, names, id)
      ensures sessions == Bind(old(sessions), names, id, |names|)
    {
      game := new Game(course, id);
      EnrolPlayers(game, names, id);
      game.Start();
    }

    /** The loop of try_start_game() over the drained names: each is added to the new
        match, and a name with a session is bound to the slot it received. */
    method EnrolPlayers(game: Game, names: seq<string>, id: nat)
      requires game.Valid() && game.players == [] && |names| <= SpawnCount
      modifies this`sessions, game
      ensures game.Valid() && game.State() == WithPlayers(old(game.State()), names)
      ensures sessions == Bind(old(sessions), names, id, |names|)
    {
      ghost var s0 := game.State();
      ghost var sessions0 := sessions;
      var k := 0;
      while k < |names|
        invariant 0 <= k <= |names|
        invariant game.State() == WithPlayers(s0, names[..k])
        invariant |game.players| == k
        invariant sessions == Bind(sessions0, names, id, k)
      {
        WithPlayersSnoc(s0, names[..k], names[k]);
        assert names[..k + 1] == names[..k] + [names[k]];
        var slot := game.AddPlayer(names[k]);
        if slot.Some? {
          if names[k] in sessions {
            sessions := sessions[names[k] := sessions[names[k]].(gameId := Some(id), playerIndex := Some(slot.value))];
          }
        }
        k := k + 1;
      }
      assert names[..|names|] == names;
    }

    // ---------------------------------------------------------------- steer, look, game_status

    /** The lookups steer() and look() share, failing in the source's order: no session, no
        match yet, no index, match no longer active. */
    function Route(name: string): (r: Result<(nat, nat), ManagerError>)
      reads this`sessions, this`activeGames
      ensures r == Err(PlayerNotFound) <==> name !in sessions
      ensures r == Err(NotInGame) <==> name in sessions && sessions[name].gameId.None?
      ensures r == Err(IndexNotSet) <==>
        name in sessions && sessions[name].gameId.Some? && sessions[name].playerIndex.None?
      ensures r == Err(GameNotFound) <==>
        name in sessions && sessions[name].gameId.Some? && sessions[name].playerIndex.Some? &&
        sessions[name].gameId.value !in activeGames
      ensures r.Ok? <==>
        name in sessions && sessions[name].gameId.Some? && sessions[name].playerIndex.Some? &&
        sessions[name].gameId.value in activeGames
      ensures r.Ok? ==> sessions[name].gameId == Some(r.value.0) && sessions[name].playerIndex == Some(r.value.1)
    {
      if name !in sessions then Err(PlayerNotFound)
      else if sessions[name].gameId.None? then Err(NotInGame)
      else if sessions[name].playerIndex.None? then Err(IndexNotSet)
      else if sessions[name].gameId.value !in activeGames then Err(GameNotFound)
      else Ok((sessions[name].gameId.value, sessions[name].playerIndex.value))
    }

    /** A routed player of an active match is that match's player of the same name. */
    lemma RouteFindsPlayer(name: string)
      requires Valid() && Route(name).Ok?
      ensures var (g, i) := Route(name).value;
        g in activeGames && i < |activeGames[g].players| && activeGames[g].players[i].name == name
    {
      var (g, i) := Route(name).value;
      assert Games()[g] == activeGames[g].State();
    }

    /** steer(): after the routing checks, a match that is not running is refused; otherwise
        only that player's steering request in that match changes. */
    method Steer(name: string, action: SteerAction) returns (r: Result<SteerAction, ManagerError>)
      requires Valid()
      modifies activeGames.Values
      ensures Valid()
      ensures Route(name).Err? ==> r == Err(Route(name).error) && Games() == old(Games())
      ensures Route(name).Ok? ==>
        var (g, i) := Route(name).value;
        r == (if old(activeGames[g].status) != Running then Err(NotRunning) else Ok(action)) &&
        Games() == if r.Ok? then old(Games())[g := ActionApplied(old(Games())[g], i, action)] else old(Games())
    {
      var route := Route(name);
      if route.Err? {
        return Err(route.error);
      }
      var (id, idx) := route.value;
      if activeGames[id].status != Running {
        return Err(NotRunning);
      }
      SteerOne(id, idx, action);
      return Ok(action);
    }

    /** apply_action on one active match, leaving the others alone. */
    method SteerOne(id: nat, idx: nat, action: SteerAction)
      requires Valid() && id in activeGames
      modifies activeGames[id]
      ensures Valid()
      ensures Games() == old(Games())[id := ActionApplied(old(Games())[id], idx, action)]
    {
      ghost var games0 := Games();
      SteerKeeps(waiting, BooksNow(), nextId, games0, id, idx, action);
      var game := activeGames[id];
      game.ApplyAction(idx, action);
      assert Games() == games0[id := game.State()] by {
        forall k | k in activeGames
          ensures Games()[k] == games0[id := game.State()][k]
        {
          if k != id {
            assert activeGames[k] != game;
          }
        }
      }
    }

    /** look(): the routing checks, then the match's view for that player with radius 7. */
    method Look(name: string) returns (r: Result<LookReport, ManagerError>)
      requires Valid()
      ensures Route(name).Err? ==> r == Err(Route(name).error)
      ensures Route(name).Ok? ==>
        var (g, i) := Route(name).value;
        i < |activeGames[g].players| && r == Ok(LookSpec(activeGames[g].State(), i, 7))
    {
      var route := Route(name);
      if route.Err? {
        return Err(route.error);
      }
      var (id, idx) := route.value;
      RouteFindsPlayer(name);
      assert Games()[id] == activeGames[id].State();
      var v := activeGames[id].Look(idx, 7);
      return Ok(v);
    }

    /** game_status(): unknown names fail; an unbound session is waiting; a bound one is
        reported from its active match first, then from the archive, else not found. */
    function GameStatus(name: string): (r: Result<StatusReport, ManagerError>)
      reads this, activeGames.Values
      requires Valid()
      ensures r.Err? <==> name !in sessions
      ensures r.Err? ==> r.error == PlayerNotFound
      ensures name in sessions && sessions[name].gameId.None? ==> r == Ok(Waiting(|waiting|))
      ensures name in sessions && sessions[name].gameId.Some? ==>
        var id := sessions[name].gameId.value;
        var idx := sessions[name].playerIndex.GetOr(0);
        (r.value.Live? <==> id in activeGames) &&
        (id in activeGames ==> r == Ok(FormatStatus(activeGames[id].State(), idx))) &&
        (r.value.Archived? <==> id !in activeGames && exists k :: 0 <= k < |finishedGames| && finishedGames[k].id == id) &&
        (r.value.Archived? ==>
          var k := FindArchived(finishedGames, id).value;
          finishedGames[k].id == id && (forall j :: 0 <= j < k ==> finishedGames[j].id != id) &&
          r == Ok(ArchivedStatus(finishedGames[k], idx))) &&
        (r.value.NotFound? <==> id !in activeGames && forall k :: 0 <= k < |finishedGames| ==> finishedGames[k].id != id)
    {
      if name !in sessions then Err(PlayerNotFound)
      else
        var session := sessions[name];
        match session.gameId
        case None => Ok(Waiting(|waiting|))
        case Some(id) =>
          var idx := session.playerIndex.GetOr(0);
          if id in activeGames then Ok(FormatStatus(activeGames[id].State(), idx))
          else match FindArchived(finishedGames, id)
            case Some(k) => Ok(ArchivedStatus(finishedGames[k], idx))
            case None => Ok(NotFound)
    }

    // ---------------------------------------------------------------- tick_all

    /** tick_all(): every running match steps once; those that finished on this step leave
        the active set and are settled into the leaderboard, the sessions and the archive, in
        the order the iteration met them. `ids` is that order and `batch` the finished
        matches. */
    method TickAll() returns (ghost ids: seq<nat>, ghost batch: seq<GameState>)
      requires Valid()
      modifies this`activeGames, this`leaderboard, this`sessions, this`finishedGames, activeGames.Values
      ensures Valid()
      ensures NoDup(ids) && |batch| == |ids|
      ensures forall id :: id in ids <==> id in old(activeGames) && FinishesNow(old(Games())[id])
      ensures forall k :: 0 <= k < |ids| ==> batch[k] == Tick(old(Games())[ids[k]])
      ensures activeGames == old(activeGames) - Taken(ids, |ids|)
      ensures Games() == TickedExcept(old(Games()), {}) - Taken(ids, |ids|)
      ensures BooksNow() == SettledAll(old(BooksNow()), batch)
    {
      var finished := TickRunning();
      batch := SettleFinished(finished);
      ids := finished;
    }

    /** Phase one of tick_all(), with the invariant: every running match steps once. */
    method TickRunning() returns (finished: seq<nat>)
      requires Valid()
      modifies activeGames.Values
      ensures Valid()
      ensures NoDup(finished)
      ensures forall id :: id in finished <==> id in activeGames && FinishesNow(old(Games())[id])
      ensures Games() == TickedExcept(old(Games()), {})
    {
      ghost var games0 := Games();
      finished := StepEach();
      TickAllKeeps(waiting, BooksNow(), nextId, games0);
    }

    /** The first loop of tick_all(): each active match is stepped if running, and the ids
        of those that finished on this step are collected. */
    method StepEach() returns (finished: seq<nat>)
      requires Separate() && forall id :: id in activeGames ==> WellFormed(Games()[id])
      modifies activeGames.Values
      ensures NoDup(finished)
      ensures forall id :: id in finished <==> id in activeGames && FinishesNow(old(Games())[id])
      ensures Games() == TickedExcept(old(Games()), {})
    {
      ghost var games0 := Games();
      finished := [];
      var todo := activeGames.Keys;
      while todo != {}
        invariant todo <= activeGames.Keys == games0.Keys
        invariant Games() == TickedExcept(games0, todo)
        invariant Collected(games0, todo, finished)
        decreases todo
      {
        var id :| id in todo;
        var done := TickOne(id, games0, todo);
        CollectStep(games0, todo, finished, id, done);
        if done {
          finished := finished + [id];
        }
        todo := todo - {id};
      }
    }

    /** One match stepped if running, the others left alone; `done` tells whether it
        finished on this step. `games0` and `todo` are the loop's starting states and the
        matches still pending. */
    method TickOne(id: nat, ghost games0: map<nat, GameState>, ghost todo: set<nat>) returns (done: bool)
      requires Separate() && id in todo && forall k :: k in games0 ==> WellFormed(games0[k])
      requires id in games0 && Games() == TickedExcept(games0, todo)
      modifies activeGames[id]
      ensures Games() == TickedExcept(games0, todo - {id})
      ensures done <==> FinishesNow(games0[id])
    {
      ghost var before := Games();
      var game := activeGames[id];
      assert game.State() == games0[id] == before[id];
      done := false;
      if game.status == Running {
        game.Tick();
        done := game.status == Finished;
      }
      assert Games() == before[id := game.State()] by {
        forall k | k in activeGames
          ensures Games()[k] == before[id := game.State()][k]
        {
          if k != id {
            assert activeGames[k] != game;
          }
        }
      }
      TickedExceptStep(games0, todo, id);
    }

    /** Phase two of tick_all(), with the invariant: the finished matches are retired. */
    method SettleFinished(finished: seq<nat>) returns (ghost batch: seq<GameState>)
      requires Valid() && NoDup(finished)
      requires forall k :: 0 <= k < |finished| ==> finished[k] in activeGames
      modifies this`activeGames, this`leaderboard, this`sessions, this`finishedGames
      ensures Valid()
      ensures |batch| == |finished|
      ensures forall k :: 0 <= k < |finished| ==> batch[k] == old(Games())[finished[k]]
      ensures activeGames == old(activeGames) - Taken(finished, |finished|)
      ensures Games() == old(Games()) - Taken(finished, |finished|)
      ensures BooksNow() == SettledAll(old(BooksNow()), batch)
    {
      ghost var games0, books0 := Games(), BooksNow();
      batch := RetireEach(finished);
      RetireKeeps(waiting, books0, nextId, games0, Taken(finished, |finished|), batch);
    }

    /** The second loop of tick_all(): each finished match, in order, leaves the active set
        and is settled. */
    method RetireEach(finished: seq<nat>) returns (ghost batch: seq<GameState>)
      requires NoDup(finished) && maxFinishedGames == MaxFinishedGames
      requires forall k :: 0 <= k < |finished| ==> finished[k] in activeGames
      modifies this`activeGames, this`leaderboard, this`sessions, this`finishedGames
      ensures |batch| == |finished|
      ensures forall k :: 0 <= k < |finished| ==> batch[k] == old(Games())[finished[k]]
      ensures activeGames == old(activeGames) - Taken(finished, |finished|)
      ensures Games() == old(Games()) - Taken(finished, |finished|)
      ensures BooksNow() == SettledAll(old(BooksNow()), batch)
    {
      ghost var games0, books0 := Games(), BooksNow();
      batch := [];
      var k := 0;
      while k < |finished|
        invariant 0 <= k <= |finished|
        invariant activeGames == old(activeGames) - Taken(finished, k)
        invariant Games() == games0 - Taken(finished, k)
        invariant |batch| == k && forall j :: 0 <= j < k ==> batch[j] == games0[finished[j]]
        invariant BooksNow() == SettledAll(books0, batch)
      {
        var id := finished[k];
        TakenStep(finished, k);
        ghost var s := RetireOne(id);
        MapMinusStep(old(activeGames), Taken(finished, k), id);
        MapMinusStep(games0, Taken(finished, k), id);
        SettledAllSnoc(books0, batch, s);
        batch := batch + [s];
        k := k + 1;
      }
    }

    /** One finished match removed from the active set, then settled and archived. */
    method RetireOne(id: nat) returns (ghost s: GameState)
      requires id in activeGames && maxFinishedGames == MaxFinishedGames
      modifies this`activeGames, this`leaderboard, this`sessions, this`finishedGames
      ensures s == old(Games())[id]
      ensures activeGames == old(activeGames) - {id}
      ensures Games() == old(Games()) - {id}
      ensures BooksNow() == Settled(old(BooksNow()), s)
    {
      ghost var games0 := Games();
      var game := activeGames[id];
      s := game.State();
      activeGames := activeGames - {id};
      assert Games() == games0 - {id};
      Settle(game);
    }

    /** The settlement of one finished match: every player's entry counted in order, the
        winner's session promoted, and the snapshot pushed onto the bounded archive. */
    method Settle(game: Game)
      requires maxFinishedGames == MaxFinishedGames
      modifies this`leaderboard, this`sessions, this`finishedGames
      ensures BooksNow() == Settled(old(BooksNow()), game.State())
    {
      CountPlayers(game);
      Archive(Snapshot(game.State()));
    }

    /** The loop over a finished match's players. */
    method CountPlayers(game: Game)
      modifies this`leaderboard, this`sessions
      ensures BooksNow() == SettlePlayers(old(BooksNow()), game.State(), |game.players|)
    {
      ghost var books0, s := BooksNow(), game.State();
      var i := 0;
      while i < |game.players|
        invariant 0 <= i <= |game.players|
        invariant BooksNow() == SettlePlayers(books0, s, i)
      {
        CountPlayer(game.players[i], game.winner == Some(i), game.courseLevel);
        i := i + 1;
      }
    }

    /** One player's leaderboard entry (created empty if missing) counts one more game;
        the winner's also one more win, its score, and the next level as reached, and the
        winner's session moves up a level while below the last course. */
    method CountPlayer(p: Player, won: bool, courseLevel: nat)
      modifies this`leaderboard, this`sessions
      ensures leaderboard == old(leaderboard)[p.name := SettleEntry(EntryOf(old(leaderboard), p.name), won, p.score, courseLevel)]
      ensures sessions == if won then Promote(old(sessions), p.name) else old(sessions)
    {
      var e := if p.name in leaderboard then leaderboard[p.name] else Entry(p.name, 0, 0, 0, 0);
      e := e.(gamesPlayed := e.gamesPlayed + 1);
      if won {
        e := e.(wins := e.wins + 1, totalPoints := e.totalPoints + p.score);
        if courseLevel >= e.highestLevel {
          e := e.(highestLevel := courseLevel + 1);
        }
        if p.name in sessions && sessions[p.name].level < CourseCount {
          sessions := sessions[p.name := sessions[p.name].(level := sessions[p.name].level + 1)];
        }
      }
      leaderboard := leaderboard[p.name := e];
    }

    /** The archive push, dropping the oldest entry once over capacity. */
    method Archive(w: WebGame)
      modifies this`finishedGames
      ensures finishedGames == Pushed(old(finishedGames), w, maxFinishedGames)
    {
      finishedGames := finishedGames + [w];
      if |finishedGames| > maxFinishedGames {
        finishedGames := finishedGames[1..];
      }
    }

    // ---------------------------------------------------------------- get_leaderboard

    /** get_leaderboard(): every entry exactly once, highest total points first. */
    method GetLeaderboard() returns (es: seq<Entry>)
      requires Valid()
      ensures SortedByPoints(es)
      ensures |es| == |leaderboard|
      ensures forall e :: e in es <==> e in leaderboard.Values
      ensures forall i, j :: 0 <= i < j < |es| ==> es[i].name != es[j].name
    {
      var collected: seq<Entry> := [];
      var todo := leaderboard.Keys;
      while todo != {}
        invariant todo <= leaderboard.Keys
        invariant |collected| + |todo| == |leaderboard|
        invariant forall k :: 0 <= k < |collected| ==>
          collected[k].name in leaderboard && collected[k].name !in todo && collected[k] == leaderboard[collected[k].name]
        invariant forall n :: n in leaderboard && n !in todo ==> leaderboard[n] in collected
        invariant forall i, j :: 0 <= i < j < |collected| ==> collected[i].name != collected[j].name
        decreases todo
      {
        var n :| n in todo;
        collected := collected + [leaderboard[n]];
        todo := todo - {n};
      }
      assert |leaderboard.Keys| == |leaderboard|;
      es := SortByPoints(collected);
      assert forall e :: e in es <==> e in multiset(collected);
      PermutationKeepsNamesApart(collected, es);
    }
  }

  /** A permutation of entries with distinct names has distinct names. */
  lemma PermutationKeepsNamesApart(xs: seq<Entry>, ys: seq<Entry>)
    requires multiset(xs) == multiset(ys)
    requires forall i, j :: 0 <= i < j < |xs| ==> xs[i].name != xs[j].name
    ensures forall i, j :: 0 <= i < j < |ys| ==> ys[i].name != ys[j].name
  {
    forall i, j | 0 <= i < j < |ys|
      ensures ys[i].name != ys[j].name
    {
      if ys[i].name == ys[j].name {
        assert ys[i] in multiset(xs) && ys[j] in multiset(xs);
        var a :| 0 <= a < |xs| && xs[a] == ys[i];
        var b :| 0 <= b < |xs| && xs[b] == ys[j];
        assert a == b;
        TwiceInMultiset(ys, i, j);
        MultiplicityOfDistinct(xs, a);
        assert false;
      }
    }
  }

  /** Two positions holding the same value give it multiplicity at least 2. */
  lemma TwiceInMultiset(ys: seq<Entry>, i: nat, j: nat)
    requires i < j < |ys| && ys[i] == ys[j]
    ensures multiset(ys)[ys[i]] >= 2
  {
    var front, back := ys[..j], ys[j..];
    assert ys == front + back;
    assert front[i] == ys[i];
    assert back[0] == ys[j];
    assert multiset(ys) == multiset(front) + multiset(back);
  }

  /** In entries with distinct names, each entry occurs once. */
  lemma {:induction false} MultiplicityOfDistinct(xs: seq<Entry>, a: nat)
    requires a < |xs| && forall i, j :: 0 <= i < j < |xs| ==> xs[i].name != xs[j].name
    ensures multiset(xs)[xs[a]] == 1
    decreases |xs|
  {
    var last := |xs| - 1;
    var init := xs[..last];
    assert xs == init + [xs[last]];
    if a == last {
      forall b | 0 <= b < last
        ensures init[b] != xs[a]
      {
        assert init[b] == xs[b];
      }
      assert xs[a] !in init;
    } else {
      MultiplicityOfDistinct(init, a);
      assert init[a] == xs[a];
      assert xs[last] != xs[a];
    }
  }
}
