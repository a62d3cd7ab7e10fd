/** The bookkeeping of the session manager (src/manager.rs) on values: sessions and the
    waiting queue, matchmaking, status reports, settlement of finished matches into the
    leaderboard and sessions, the bounded archive, and the leaderboard order. */
module Ledger {
  import opened Wrappers
  import opened Courses
  import opened GameRules
  import opened TickRules
  import opened Views

  datatype Entry = Entry(name: string, wins: nat, totalPoints: nat, gamesPlayed: nat, highestLevel: nat)

  /** Which match a connected name is in, its index there, and its progression level. */
  datatype Session = Session(playerName: string, gameId: Option<nat>, playerIndex: Option<nat>, level: nat)

  /** The failures the manager reports; the message texts are not modelled. */
  datatype ManagerError =
    | AlreadyInGame
    | PlayerNotFound
    | NotInGame
    | IndexNotSet
    | GameNotFound
    | NotRunning

  /** Capacity of the archive of finished matches. */
  const MaxFinishedGames: nat := 100

  // ---------------------------------------------------------------- join

  /** The session join() installs: unbound, with the level kept or starting at 1. */
  function Rejoined(sessions: map<string, Session>, name: string): (s: Session)
    ensures s.gameId == None && s.playerIndex == None && s.playerName == name
    ensures s.level == if name in sessions then sessions[name].level else 1
  {
    Session(name, None, None, if name in sessions then sessions[name].level else 1)
  }

  /** The queue after join() appends a name it does not hold yet. */
  function Enqueue(queue: seq<string>, name: string): seq<string> {
    if name in queue then queue else queue + [name]
  }

  /** The queue stays free of duplicates, always holds the name afterwards, keeps everyone
      already waiting in place, and grows only for a name not yet in it. */
  lemma EnqueueKeepsOrder(queue: seq<string>, name: string)
    requires NoDup(queue)
    ensures var q := Enqueue(queue, name);
      NoDup(q) && name in q && q[..|queue|] == queue &&
      |q| == if name in queue then |queue| else |queue| + 1
  {
  }

  // ---------------------------------------------------------------- matchmaking

  /** The lowest level among queued names that have a session, if any. */
  function QueuedLevel(queue: seq<string>, sessions: map<string, Session>): (m: Option<nat>)
    ensures m.None? <==> forall n :: n in queue ==> n !in sessions
    ensures m.Some? ==> exists n :: n in queue && n in sessions && sessions[n].level == m.value
    ensures m.Some? ==> forall n :: n in queue && n in sessions ==> m.value <= sessions[n].level
    decreases |queue|
  {
    if queue == [] then None
    else
      assert forall n :: n in queue <==> n == queue[0] || n in queue[1..];
      var rest := QueuedLevel(queue[1..], sessions);
      if queue[0] !in sessions then rest
      else match rest
        case None => Some(sessions[queue[0]].level)
        case Some(l) => Some(Min(sessions[queue[0]].level, l))
  }

  /** The level a new match is played at: the lowest queued level, or 1. */
  function MinLevel(queue: seq<string>, sessions: map<string, Session>): nat {
    QueuedLevel(queue, sessions).GetOr(1)
  }

  function MatchCourse(queue: seq<string>, sessions: map<string, Session>, draws: seq<Segment>): Course {
    GetCourse(MinLevel(queue, sessions), draws)
  }

  /** How many queued names the new match takes. */
  function MatchSize(queue: seq<string>, sessions: map<string, Session>, draws: seq<Segment>): nat {
    Min(MatchCourse(queue, sessions, draws).maxPlayers, |queue|)
  }

  /** With two or more waiting, a match takes at least two and at most the course's capacity,
      never more than are waiting. */
  lemma MatchSizeBounds(queue: seq<string>, sessions: map<string, Session>, draws: seq<Segment>)
    requires |queue| >= 2
    ensures var k := MatchSize(queue, sessions, draws);
      2 <= k <= |queue| && k <= MatchCourse(queue, sessions, draws).maxPlayers <= SpawnCount
  {
  }

  /** The sessions after the drained names are bound, name k to index k of match `id`. */
  function Bind(sessions: map<string, Session>, names: seq<string>, id: nat, k: nat): (r: map<string, Session>)
    requires k <= |names|
    ensures r.Keys == sessions.Keys
  {
    if k == 0 then sessions
    else
      var r := Bind(sessions, names, id, k - 1);
      var n := names[k - 1];
      if n in r then r[n := r[n].(gameId := Some(id), playerIndex := Some(k - 1))] else r
  }

  /** For distinct names, drained name k is bound to match `id` at index k, keeps its level,
      and every other session is untouched. */
  lemma {:induction false} BindSessions(sessions: map<string, Session>, names: seq<string>, id: nat, k: nat)
    requires k <= |names| && NoDup(names)
    ensures forall j :: 0 <= j < k && names[j] in sessions ==>
      Bind(sessions, names, id, k)[names[j]] == sessions[names[j]].(gameId := Some(id), playerIndex := Some(j))
    ensures forall n :: n in sessions && n !in names[..k] ==> Bind(sessions, names, id, k)[n] == sessions[n]
  {
    if k > 0 {
      BindSessions(sessions, names, id, k - 1);
      assert forall n :: n in names[..k] <==> n in names[..k - 1] || n == names[k - 1];
    }
  }

  /** The match try_start_game() creates: the course's fresh board with the names added in
      queue order, then started. */
  function StartedMatch(course: Course, names: seq<string>, id: nat): (s: GameState)
    ensures WellFormed(s)
  {
    Started(WithPlayers(NewGame(course, id), names))
  }

  /** A new match is running, without winner, on tick 0, and holds exactly the drained names,
      name k in spawn slot k. */
  lemma StartedMatchPlayers(course: Course, names: seq<string>, id: nat)
    requires |names| <= SpawnCount
    ensures var s := StartedMatch(course, names, id);
      s.status == Running && s.winner == None && s.tick == 0 && s.id == id &&
      s.courseLevel == course.level && |s.players| == |names| &&
      forall k :: 0 <= k < |names| ==> s.players[k] == SpawnPlayer(names[k], course.width, course.height, k)
  {
    WithPlayersSlots(NewGame(course, id), names);
  }

  // ---------------------------------------------------------------- game_status

  /** The player line of a status report. */
  datatype YouLine = YouLine(name: string, x: int, y: int, heading: Direction, alive: bool, distance: nat)

  datatype Outcome = WonBy(name: string, score: nat, youWon: bool) | Draw

  datatype ArchivedResult = ArchivedWinner(name: string) | WinnerNotListed | ArchivedDraw

  datatype StatusReport =
    | Waiting(queueLength: nat)
    | Live(status: Status, courseName: string, courseLevel: nat, tick: nat, aliveCount: nat,
           total: nat, you: Option<YouLine>, outcome: Option<Outcome>)
    | Archived(result: ArchivedResult, yourScore: Option<nat>)
    | NotFound

  /** format_status: the match's progress, the caller's line when its index exists, and the
      outcome once the match is over. */
  function FormatStatus(s: GameState, idx: nat): (r: StatusReport)
    requires WellFormed(s)
    ensures r.Live? && r.status == s.status && r.courseName == s.courseName &&
            r.courseLevel == s.courseLevel && r.tick == s.tick
    ensures r.total == |s.players| && r.aliveCount == |AliveSet(s.players)|
    ensures r.you.Some? <==> idx < |s.players|
    ensures r.you.Some? ==>
      var p, y := s.players[idx], r.you.value;
      y.name == p.name && y.x == p.x && y.y == p.y && y.heading == p.direction &&
      y.alive == p.alive && y.distance == p.distance
    ensures r.outcome.Some? <==> s.status == Finished
    ensures r.outcome.Some? ==> (r.outcome.value.WonBy? <==> s.winner.Some?)
    ensures r.outcome.Some? && s.winner.Some? ==>
      var w := s.winner.value;
      r.outcome.value.name == s.players[w].name && r.outcome.value.score == s.players[w].score &&
      (r.outcome.value.youWon <==> w == idx)
  {
    AliveIndicesCount(s.players);
    var you := if idx < |s.players| then
      var p := s.players[idx]; Some(YouLine(p.name, p.x, p.y, p.direction, p.alive, p.distance))
    else None;
    var outcome := if s.status != Finished then None
      else match s.winner
        case Some(w) => Some(WonBy(s.players[w].name, s.players[w].score, w == idx))
        case None => Some(Draw);
    Live(s.status, s.courseName, s.courseLevel, s.tick, |AliveIndices(s.players)|, |s.players|, you, outcome)
  }

  /** The first archived match with the given id. */
  function FindArchived(archive: seq<WebGame>, id: nat): (r: Option<nat>)
    ensures r.None? <==> forall k :: 0 <= k < |archive| ==> archive[k].id != id
    ensures r.Some? ==> r.value < |archive| && archive[r.value].id == id &&
                        forall k :: 0 <= k < r.value ==> archive[k].id != id
    decreases |archive|
  {
    if archive == [] then None
    else if archive[0].id == id then Some(0)
    else match FindArchived(archive[1..], id)
      case None => None
      case Some(k) => Some(k + 1)
  }

  /** The report for an archived match. */
  function ArchivedStatus(w: WebGame, idx: nat): (r: StatusReport)
    ensures r.Archived?
    ensures r.result.ArchivedDraw? <==> w.winner.None?
    ensures r.result.ArchivedWinner? <==> w.winner.Some? && w.winner.value < |w.players|
    ensures r.result.ArchivedWinner? ==> r.result.name == w.players[w.winner.value].name
    ensures r.yourScore.Some? <==> idx < |w.players|
    ensures r.yourScore.Some? ==> r.yourScore.value == w.players[idx].score
  {
    var result := match w.winner
      case Some(v) => if v < |w.players| then ArchivedWinner(w.players[v].name) else WinnerNotListed
      case None => ArchivedDraw;
    Archived(result, if idx < |w.players| then Some(w.players[idx].score) else None)
  }

  // ---------------------------------------------------------------- settlement

  function EntryOf(board: map<string, Entry>, name: string): Entry {
    if name in board then board[name] else Entry(name, 0, 0, 0, 0)
  }

  /** One player's entry after a finished match: one more game, and for the winner one more
      win, its score added, and the next level recorded as reached. */
  function SettleEntry(e: Entry, won: bool, score: nat, courseLevel: nat): Entry {
    var played := e.(gamesPlayed := e.gamesPlayed + 1);
    if !won then played
    else
      var scored := played.(wins := played.wins + 1, totalPoints := played.totalPoints + score);
      if courseLevel >= scored.highestLevel then scored.(highestLevel := courseLevel + 1) else scored
  }

  /** The winner's session moves up one level while below the last course. */
  function Promote(sessions: map<string, Session>, name: string): map<string, Session> {
    if name in sessions && sessions[name].level < CourseCount
    then sessions[name := sessions[name].(level := sessions[name].level + 1)]
    else sessions
  }

  datatype Books = Books(leaderboard: map<string, Entry>, sessions: map<string, Session>, archive: seq<WebGame>)

  /** The books after the first `k` players of a finished match are settled, in order. */
  function SettlePlayers(b: Books, s: GameState, k: nat): (r: Books)
    requires k <= |s.players|
    ensures r.archive == b.archive && r.sessions.Keys == b.sessions.Keys
    ensures b.leaderboard.Keys <= r.leaderboard.Keys
    ensures forall i :: 0 <= i < k ==> s.players[i].name in r.leaderboard
  {
    if k == 0 then b
    else
      var r := SettlePlayers(b, s, k - 1);
      var p := s.players[k - 1];
      var won := s.winner == Some(k - 1);
      r.(leaderboard := r.leaderboard[p.name := SettleEntry(EntryOf(r.leaderboard, p.name), won, p.score, s.courseLevel)],
         sessions := if won then Promote(r.sessions, p.name) else r.sessions)
  }

  /** The archive after a snapshot is pushed: the oldest entry goes once it holds more than
      `max`. */
  function Pushed(archive: seq<WebGame>, w: WebGame, max: nat): (a: seq<WebGame>)
    ensures |a| <= |archive| + 1 && |a| <= Max(max, |archive|)
    ensures max > 0 ==> a != [] && a[|a| - 1] == w
  {
    var a := archive + [w];
    if |a| > max then a[1..] else a
  }

  /** The archive never outgrows its capacity, always ends with the newest snapshot, and
      keeps the newest entries in order. */
  lemma PushedBounded(archive: seq<WebGame>, w: WebGame, max: nat)
    requires |archive| <= max && max > 0
    ensures var a := Pushed(archive, w, max);
      |a| <= max && a[|a| - 1] == w &&
      (|archive| < max ==> a == archive + [w]) &&
      (|archive| == max ==> a == archive[1..] + [w])
  {
  }

  /** The books after a finished match is settled and archived. */
  function Settled(b: Books, s: GameState): Books {
    var r := SettlePlayers(b, s, |s.players|);
    r.(archive := Pushed(r.archive, Snapshot(s), MaxFinishedGames))
  }

  /** The books after several finished matches are settled in order. */
  function SettledAll(b: Books, ss: seq<GameState>): Books
    decreases |ss|
  {
    if ss == [] then b else Settled(SettledAll(b, ss[..|ss| - 1]), ss[|ss| - 1])
  }

  /** Settling one more match extends the settled sequence. */
  lemma SettledAllSnoc(b: Books, ss: seq<GameState>, s: GameState)
    ensures SettledAll(b, ss + [s]) == Settled(SettledAll(b, ss), s)
  {
    assert (ss + [s])[..|ss|] == ss;
  }

  predicate DistinctNames(ps: seq<Player>) {
    forall i, j :: 0 <= i < j < |ps| ==> ps[i].name != ps[j].name
  }

  /** Settling leaves the entry of a name outside the first `k` players as it was. */
  lemma {:induction false} SettleOthers(b: Books, s: GameState, k: nat, n: string)
    requires k <= |s.players|
    requires forall i :: 0 <= i < k ==> s.players[i].name != n
    ensures n in SettlePlayers(b, s, k).leaderboard <==> n in b.leaderboard
    ensures EntryOf(SettlePlayers(b, s, k).leaderboard, n) == EntryOf(b.leaderboard, n)
  {
    if k > 0 {
      SettleOthers(b, s, k - 1, n);
    }
  }

  /** With distinct names, player i's entry is settled exactly once, from its entry before. */
  lemma {:induction false} SettleOne(b: Books, s: GameState, k: nat, i: nat)
    requires i < k <= |s.players| && DistinctNames(s.players)
    ensures var p := s.players[i];
      SettlePlayers(b, s, k).leaderboard[p.name] ==
        SettleEntry(EntryOf(b.leaderboard, p.name), s.winner == Some(i), p.score, s.courseLevel)
  {
    if i == k - 1 {
      SettleOthers(b, s, k - 1, s.players[i].name);
    } else {
      SettleOne(b, s, k - 1, i);
    }
  }

  /** For a match with distinct names, every player has played one more game, only the
      winner gained a win, its score and a recorded level of at least the course's level + 1
      (and never lower than before), and names outside the match keep their entries. */
  lemma SettleCounts(b: Books, s: GameState, i: nat)
    requires i < |s.players| && DistinctNames(s.players)
    ensures var e0, e1 := EntryOf(b.leaderboard, s.players[i].name), Settled(b, s).leaderboard[s.players[i].name];
      e1.name == e0.name && e1.gamesPlayed == e0.gamesPlayed + 1 &&
      (s.winner == Some(i) ==>
        e1.wins == e0.wins + 1 && e1.totalPoints == e0.totalPoints + s.players[i].score &&
        e1.highestLevel >= s.courseLevel + 1 && e1.highestLevel >= e0.highestLevel) &&
      (s.winner != Some(i) ==>
        e1.wins == e0.wins && e1.totalPoints == e0.totalPoints && e1.highestLevel == e0.highestLevel)
  {
    SettleOne(b, s, |s.players|, i);
  }

  /** A name that did not play keeps its leaderboard entry, or its absence. */
  lemma SettleOutsiders(b: Books, s: GameState, n: string)
    requires forall i :: 0 <= i < |s.players| ==> s.players[i].name != n
    ensures n in Settled(b, s).leaderboard <==> n in b.leaderboard
    ensures n in b.leaderboard ==> Settled(b, s).leaderboard[n] == b.leaderboard[n]
  {
    SettleOthers(b, s, |s.players|, n);
  }

  /** Every leaderboard entry stays filed under its own name. */
  lemma {:induction false} SettleNames(b: Books, s: GameState, k: nat)
    requires k <= |s.players|
    requires forall n :: n in b.leaderboard ==> b.leaderboard[n].name == n
    ensures forall n :: n in SettlePlayers(b, s, k).leaderboard ==> SettlePlayers(b, s, k).leaderboard[n].name == n
  {
    if k > 0 {
      SettleNames(b, s, k - 1);
    }
  }

  /** Settling moves only the winner's session, one level up while below the last course,
      so levels stay within 1..5. */
  lemma {:induction false} SettleLevels(b: Books, s: GameState, k: nat)
    requires k <= |s.players|
    requires forall n :: n in b.sessions ==> 1 <= b.sessions[n].level <= CourseCount
    ensures forall n :: n in SettlePlayers(b, s, k).sessions ==> 1 <= SettlePlayers(b, s, k).sessions[n].level <= CourseCount
    ensures forall n :: n in b.sessions ==>
      var s0, s1 := b.sessions[n], SettlePlayers(b, s, k).sessions[n];
      s1 == s0.(level := s1.level) && s0.level <= s1.level
    ensures (s.winner.None? || s.winner.value >= k) ==> SettlePlayers(b, s, k).sessions == b.sessions
  {
    if k > 0 {
      SettleLevels(b, s, k - 1);
    }
  }

  /** A settled winner whose session is below the last course moves up exactly one level. */
  lemma WinnerPromoted(b: Books, s: GameState)
    requires WellFormed(s) && DistinctNames(s.players) && s.winner.Some?
    requires s.players[s.winner.value].name in b.sessions
    ensures var n := s.players[s.winner.value].name;
      Settled(b, s).sessions[n].level ==
        if b.sessions[n].level < CourseCount then b.sessions[n].level + 1 else b.sessions[n].level
  {
    var w := s.winner.value;
    var n := s.players[w].name;
    SessionsAfter(b, s, |s.players|, n);
  }

  /** The session of a name after settling the first `k` players. */
  lemma {:induction false} SessionsAfter(b: Books, s: GameState, k: nat, n: string)
    requires k <= |s.players| && DistinctNames(s.players) && n in b.sessions
    ensures SettlePlayers(b, s, k).sessions[n].level ==
      if s.winner.Some? && s.winner.value < k && s.players[s.winner.value].name == n && b.sessions[n].level < CourseCount
      then b.sessions[n].level + 1 else b.sessions[n].level
  {
    if k > 0 {
      SessionsAfter(b, s, k - 1, n);
    }
  }

  // ---------------------------------------------------------------- the manager's invariant

  /** The queue holds each name once, and only names with a session. */
  ghost predicate QueueOk(waiting: seq<string>, sessions: map<string, Session>) {
    NoDup(waiting) && forall n :: n in waiting ==> n in sessions
  }

  /** Levels stay within the catalogue and sessions only name ids already handed out. */
  ghost predicate SessionsOk(sessions: map<string, Session>, nextId: nat) {
    (forall n :: n in sessions ==> 1 <= sessions[n].level <= CourseCount) &&
    (forall n :: n in sessions && sessions[n].gameId.Some? ==> sessions[n].gameId.value < nextId)
  }

  /** Entries are filed under their own name and the archive is within capacity. */
  ghost predicate RecordsOk(b: Books) {
    (forall n :: n in b.leaderboard ==> b.leaderboard[n].name == n) && |b.archive| <= MaxFinishedGames
  }

  /** Each active match is well formed, carries its key as id, and has distinct names. */
  ghost predicate GamesOk(games: map<nat, GameState>, nextId: nat) {
    forall id :: id in games ==>
      id < nextId && WellFormed(games[id]) && games[id].id == id && DistinctNames(games[id].players)
  }

  /** A session bound to an active match points at that match's player of its own name. */
  ghost predicate Bindings(sessions: map<string, Session>, games: map<nat, GameState>) {
    forall n :: n in sessions && sessions[n].gameId.Some? && sessions[n].gameId.value in games ==>
      sessions[n].playerIndex.Some? && sessions[n].playerIndex.value < |games[sessions[n].gameId.value].players| &&
      games[sessions[n].gameId.value].players[sessions[n].playerIndex.value].name == n
  }

  ghost predicate Consistent(waiting: seq<string>, b: Books, nextId: nat, games: map<nat, GameState>) {
    QueueOk(waiting, b.sessions) && SessionsOk(b.sessions, nextId) && RecordsOk(b) &&
    GamesOk(games, nextId) && Bindings(b.sessions, games)
  }

  /** join()'s reset and enqueue keep the invariant. */
  lemma JoinKeeps(waiting: seq<string>, b: Books, nextId: nat, games: map<nat, GameState>, name: string)
    requires Consistent(waiting, b, nextId, games)
    ensures Consistent(Enqueue(waiting, name), b.(sessions := b.sessions[name := Rejoined(b.sessions, name)]), nextId, games)
  {
    EnqueueKeepsOrder(waiting, name);
  }

  /** Draining the first m queued names into match `nextId` keeps the invariant. */
  lemma StartKeeps(waiting: seq<string>, b: Books, nextId: nat, games: map<nat, GameState>, course: Course, m: nat)
    requires Consistent(waiting, b, nextId, games) && m <= |waiting| && m <= SpawnCount
    ensures var names := waiting[..m];
      Consistent(waiting[m..], b.(sessions := Bind(b.sessions, names, nextId, m)), nextId + 1,
                 games[nextId := StartedMatch(course, names, nextId)])
  {
    var names := waiting[..m];
    assert NoDup(names);
    assert names[..m] == names;
    BindSessions(b.sessions, names, nextId, m);
    var ss := Bind(b.sessions, names, nextId, m);
    assert QueueOk(waiting[m..], ss) by {
      forall n | n in waiting[m..] ensures n in ss {
        assert n in waiting;
      }
    }
    StartSessions(b.sessions, nextId, names);
    StartGames(games, nextId, course, names);
    StartBindings(b.sessions, games, nextId, course, names);
  }

  lemma StartSessions(sessions: map<string, Session>, nextId: nat, names: seq<string>)
    requires SessionsOk(sessions, nextId) && NoDup(names)
    ensures SessionsOk(Bind(sessions, names, nextId, |names|), nextId + 1)
  {
    BindSessions(sessions, names, nextId, |names|);
    assert names[..|names|] == names;
    var ss := Bind(sessions, names, nextId, |names|);
    forall n | n in ss
      ensures 1 <= ss[n].level <= CourseCount
      ensures ss[n].gameId.Some? ==> ss[n].gameId.value < nextId + 1
    {
      if n in names {
        var j :| 0 <= j < |names| && names[j] == n;
      }
    }
  }

  lemma StartGames(games: map<nat, GameState>, nextId: nat, course: Course, names: seq<string>)
    requires GamesOk(games, nextId) && NoDup(names) && |names| <= SpawnCount
    ensures GamesOk(games[nextId := StartedMatch(course, names, nextId)], nextId + 1)
  {
    StartedMatchPlayers(course, names, nextId);
  }

  lemma StartBindings(sessions: map<string, Session>, games: map<nat, GameState>, nextId: nat, course: Course, names: seq<string>)
    requires SessionsOk(sessions, nextId) && Bindings(sessions, games) && NoDup(names) && |names| <= SpawnCount
    ensures Bindings(Bind(sessions, names, nextId, |names|), games[nextId := StartedMatch(course, names, nextId)])
  {
    BindSessions(sessions, names, nextId, |names|);
    assert names[..|names|] == names;
    StartedMatchPlayers(course, names, nextId);
    var ss := Bind(sessions, names, nextId, |names|);
    var gs := games[nextId := StartedMatch(course, names, nextId)];
    forall n | n in ss && ss[n].gameId.Some? && ss[n].gameId.value in gs
      ensures ss[n].playerIndex.Some? && ss[n].playerIndex.value < |gs[ss[n].gameId.value].players| &&
              gs[ss[n].gameId.value].players[ss[n].playerIndex.value].name == n
    {
      if n in names {
        var j :| 0 <= j < |names| && names[j] == n;
        assert ss[n].gameId == Some(nextId) && ss[n].playerIndex == Some(j);
      } else {
        assert ss[n] == sessions[n];
      }
    }
  }

  /** Setting one routed player's steering request keeps the invariant. */
  lemma SteerKeeps(waiting: seq<string>, b: Books, nextId: nat, games: map<nat, GameState>, id: nat, i: nat, a: SteerAction)
    requires Consistent(waiting, b, nextId, games) && id in games
    ensures Consistent(waiting, b, nextId, games[id := ActionApplied(games[id], i, a)])
  {
    ActionAppliedTouchesOnePlayer(games[id], i, a);
  }

  /** A match that is running and finishes on the step about to be taken. */
  predicate FinishesNow(s: GameState)
    requires WellFormed(s)
  {
    s.status == Running && Tick(s).status == Finished
  }

  /** The active matches with each one outside `todo` stepped once. */
  function TickedExcept(games: map<nat, GameState>, todo: set<nat>): (r: map<nat, GameState>)
    requires forall id :: id in games ==> WellFormed(games[id])
    ensures r.Keys == games.Keys
  {
    map id | id in games :: if id in todo then games[id] else Tick(games[id])
  }

  /** Stepping one more pending match moves it out of `todo`. */
  lemma TickedExceptStep(games: map<nat, GameState>, todo: set<nat>, id: nat)
    requires id in todo && id in games && forall k :: k in games ==> WellFormed(games[k])
    ensures TickedExcept(games, todo)[id := Tick(games[id])] == TickedExcept(games, todo - {id})
  {
  }

  /** `finished` lists, once each, the matches outside `todo` that finished on their step. */
  ghost predicate Collected(games: map<nat, GameState>, todo: set<nat>, finished: seq<nat>)
    requires forall id :: id in games ==> WellFormed(games[id])
  {
    NoDup(finished) && forall id :: id in finished <==> id in games && id !in todo && FinishesNow(games[id])
  }

  /** Stepping pending match `id` and listing it when it finished keeps the list exact. */
  lemma CollectStep(games: map<nat, GameState>, todo: set<nat>, finished: seq<nat>, id: nat, done: bool)
    requires forall k :: k in games ==> WellFormed(games[k])
    requires id in todo && id in games && Collected(games, todo, finished)
    requires done <==> FinishesNow(games[id])
    ensures Collected(games, todo - {id}, if done then finished + [id] else finished)
  {
    if done {
      assert id !in finished;
      forall i, j | 0 <= i < j < |finished| + 1
        ensures (finished + [id])[i] != (finished + [id])[j]
      {
        if j == |finished| {
          assert (finished + [id])[i] == finished[i];
        }
      }
    }
  }

  /** Stepping every active match keeps the invariant: a step keeps each match well formed,
      its id, its player count and every player's name. */
  lemma TickAllKeeps(waiting: seq<string>, b: Books, nextId: nat, games: map<nat, GameState>)
    requires Consistent(waiting, b, nextId, games)
    ensures Consistent(waiting, b, nextId, TickedExcept(games, {}))
  {
    var t := TickedExcept(games, {});
    forall id | id in games
      ensures t[id].id == id && DistinctNames(t[id].players)
      ensures forall i :: 0 <= i < |t[id].players| ==> t[id].players[i].name == games[id].players[i].name
    {
      TickKeepsNames(games[id]);
    }
  }

  /** Retiring a set of matches from the active set and settling a sequence of finished
      matches keeps the invariant. */
  lemma {:induction false} RetireKeeps(waiting: seq<string>, b: Books, nextId: nat, games: map<nat, GameState>,
                                       removed: set<nat>, ss: seq<GameState>)
    requires Consistent(waiting, b, nextId, games)
    ensures Consistent(waiting, SettledAll(b, ss), nextId, games - removed)
    decreases |ss|
  {
    if ss != [] {
      RetireKeeps(waiting, b, nextId, games, removed, ss[..|ss| - 1]);
      SettleKeeps(waiting, SettledAll(b, ss[..|ss| - 1]), nextId, games - removed, ss[|ss| - 1]);
    }
  }

  /** Settling and archiving a finished match keeps the invariant. */
  lemma SettleKeeps(waiting: seq<string>, b: Books, nextId: nat, games: map<nat, GameState>, s: GameState)
    requires Consistent(waiting, b, nextId, games)
    ensures Consistent(waiting, Settled(b, s), nextId, games)
  {
    var r := SettlePlayers(b, s, |s.players|);
    SettleLevels(b, s, |s.players|);
    SettleNames(b, s, |s.players|);
    PushedBounded(r.archive, Snapshot(s), MaxFinishedGames);
    var ss := Settled(b, s).sessions;
    assert Bindings(ss, games) by {
      forall n | n in ss && ss[n].gameId.Some? && ss[n].gameId.value in games
        ensures ss[n].playerIndex.Some? && ss[n].playerIndex.value < |games[ss[n].gameId.value].players| &&
                games[ss[n].gameId.value].players[ss[n].playerIndex.value].name == n
      {
        assert ss[n] == b.sessions[n].(level := ss[n].level);
      }
    }
  }

  // ---------------------------------------------------------------- get_leaderboard

  predicate SortedByPoints(es: seq<Entry>) {
    forall i, j :: 0 <= i < j < |es| ==> es[i].totalPoints >= es[j].totalPoints
  }

  /** Places `e` after every entry with at least its points, as a stable sort does for a
      later element. */
  function InsertByPoints(e: Entry, es: seq<Entry>): seq<Entry>
    decreases |es|
  {
    if es == [] then [e]
    else if es[0].totalPoints >= e.totalPoints then [es[0]] + InsertByPoints(e, es[1..])
    else [e] + es
  }

  lemma {:induction false} InsertByPointsPerm(e: Entry, es: seq<Entry>)
    ensures multiset(InsertByPoints(e, es)) == multiset(es) + multiset{e}
    decreases |es|
  {
    if es != [] && es[0].totalPoints >= e.totalPoints {
      InsertByPointsPerm(e, es[1..]);
      assert es == [es[0]] + es[1..];
    }
  }

  /** Inserting keeps every entry at or below a bound that `e` and all of `es` respect. */
  lemma {:induction false} InsertByPointsBounded(e: Entry, es: seq<Entry>, bound: int)
    requires e.totalPoints <= bound && forall k :: 0 <= k < |es| ==> es[k].totalPoints <= bound
    ensures forall k :: 0 <= k < |InsertByPoints(e, es)| ==> InsertByPoints(e, es)[k].totalPoints <= bound
    decreases |es|
  {
    if es != [] && es[0].totalPoints >= e.totalPoints {
      InsertByPointsBounded(e, es[1..], bound);
    }
  }

  lemma {:induction false} InsertByPointsSorted(e: Entry, es: seq<Entry>)
    requires SortedByPoints(es)
    ensures SortedByPoints(InsertByPoints(e, es))
    decreases |es|
  {
    if es != [] && es[0].totalPoints >= e.totalPoints {
      var rest := InsertByPoints(e, es[1..]);
      InsertByPointsSorted(e, es[1..]);
      InsertByPointsBounded(e, es[1..], es[0].totalPoints);
      var r := [es[0]] + rest;
      assert r == InsertByPoints(e, es);
      forall i, j | 0 <= i < j < |r|
        ensures r[i].totalPoints >= r[j].totalPoints
      {
        assert r[j] == rest[j - 1];
        if i > 0 {
          assert r[i] == rest[i - 1];
        }
      }
    }
  }

  /** The leaderboard order: by total points, highest first; each entry is inserted after
      the earlier ones with at least its points. */
  function SortByPoints(es: seq<Entry>): (r: seq<Entry>)
    ensures SortedByPoints(r) && multiset(r) == multiset(es)
    decreases |es|
  {
    if es == [] then []
    else
      var init := SortByPoints(es[..|es| - 1]);
      InsertLastByPoints(es, init);
      InsertByPoints(es[|es| - 1], init)
  }

  /** Inserting the last entry into a sorted permutation of the others sorts them all. */
  lemma InsertLastByPoints(es: seq<Entry>, init: seq<Entry>)
    requires es != [] && SortedByPoints(init) && multiset(init) == multiset(es[..|es| - 1])
    ensures SortedByPoints(InsertByPoints(es[|es| - 1], init))
    ensures multiset(InsertByPoints(es[|es| - 1], init)) == multiset(es)
  {
    InsertByPointsSorted(es[|es| - 1], init);
    InsertByPointsPerm(es[|es| - 1], init);
    assert es == es[..|es| - 1] + [es[|es| - 1]];
  }
}
