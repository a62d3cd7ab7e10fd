# Tron light-cycle server core, modelled in Dafny

This project models the simulation and matchmaking core of a multiplayer Tron light-cycle
server. It covers three parts:

- **The match engine** (`Game`, src/game.rs).
  - A width × height grid of cells (empty, wall, obstruction, or the trail of player k) and an ordered player list.
  - The life cycle waiting → running → finished.
  - A synchronized `tick`. Every alive player applies its queued steering request. All crashes are judged against the grid as it stood before anyone moved. Survivors advance one cell. Trails are trimmed to the course's length, and an evicted cell is cleared only while it still carries the owner's marker. The win check and score formula run last.
  - `look`, the window a player sees, and `to_web_state`, the spectator snapshot.
- **The session manager** (`GameManager`, src/manager.rs).
  - A duplicate-free waiting queue and per-name sessions carrying a progression level.
  - Matchmaking at the lowest queued level, draining a queue prefix into a new match.
  - `steer`, `look` and `game_status` with their error cases.
  - `tick_all`, which steps every running match and settles each one that finished: leaderboard counters, the winner's promotion, and the bounded archive.
  - `get_leaderboard`.
- **The course catalogue** (src/course.rs): five level templates, the clamped `get_course`, and the loop-built wall and obstruction lists.

Structure:

- `wrappers.dfy`: `Option`, `Result`, `Min`/`Max`, `NoDup` and a few sequence/map helpers.
- `course.dfy` (module `Courses`): the catalogue. Each loop-built course is a method proved equal to a closed-form function, and lemmas locate every wall.
- `rules.dfy` (module `GameRules`): the engine's vocabulary, turning, and the value-level meaning of `new`, `add_player`, `apply_action` and `start`.
- `tick.dfy` (module `TickRules`): `tick` as a function on the match state, plus the lemmas that say what one step promises.
- `views.dfy` (module `Views`): `look` and `to_web_state` as functions.
- `engine.dfy` (module `Engine`): class `Game`. Its fields are updated in place, and every method is proved to produce exactly what the value-level rules say.
- `ledger.dfy` (module `Ledger`): the manager's bookkeeping on values, covering the queue, sessions, matchmaking, status reports, settlement, the archive and the sort. It also holds the manager invariant `Consistent` and the lemmas showing each operation keeps it. The invariant says:
  - the queue is duplicate-free and every queued name has a session;
  - levels stay in 1..5 and bound ids lie below the next id;
  - leaderboard entries are filed under their own name and the archive is within its capacity of 100;
  - every active match is well formed, filed under its own id, and has distinct player names;
  - a session bound to an active match points at that match's player of its own name.
- `manager.dfy` (module `Manager`): class `GameManager`, whose maps and queue are fields the methods reassign. Every public method keeps `Valid()`.

Inputs the code takes from outside are parameters:

- The game id: the source draws a random UUID; here a counter `nextId` supplies a fresh `nat`.
- The random draws of the Chaos course: a `seq<Segment>` threaded from `join` to `get_course`.

Behaviours worth spelling out, as the code has them:

- **Border.** `Game::new` stamps course obstructions after the border walls, so an obstruction listed on the border replaces the wall there. `GameRules.BorderIsWall` states the exact outcome. `GameRules.CatalogueBorderIsWall` proves the whole ring is wall for every catalogue course, because no catalogue course puts an obstruction on it.
- **One-player match.** A running match with at most one alive player finishes on the next tick, a solo match included.
- **Leaderboard.** `get_leaderboard` returns every entry, sorted by total points; nothing is truncated and nothing is persisted.
- **Movement.** Players move only on `tick`, all together. Steering only queues a request.

## Model

| member | source | states |
|---|---|---|
| GameRules.Delta | src/game.rs:44-51 | every heading's step is one cell along exactly one axis |
| GameRules.TurnLeftFourTimes | src/game.rs:26-33 | four left turns return to the starting heading |
| GameRules.TurnsUndoEachOther | src/game.rs:26-42 | a right turn undoes a left turn and vice versa |
| GameRules.TurnLeftRotatesStep | src/game.rs:26-51 | a left turn rotates the step (dx, dy) to (dy, -dx), a right turn to (-dy, dx) |
| GameRules.HeadingNamesDistinct | src/game.rs:53-60 | the four compass names are pairwise different |
| GameRules.NewGame | src/game.rs:114-156 | a new match is well formed, waiting for players, on tick 0, with no players and no winner |
| GameRules.BorderIsWall | src/game.rs:117-139 | a border cell is wall unless the course lists it as an obstruction and not as a wall |
| GameRules.WallOverridesObstruction | src/game.rs:127-139 | a coordinate that is both a wall and an obstruction ends as wall |
| GameRules.OutOfRangeIgnored | src/game.rs:128-138 | adding an off-board wall or obstruction coordinate leaves the grid unchanged |
| GameRules.CatalogueBorderIsWall | src/game.rs:117-125 | on every catalogue course the whole border ring of a new match is wall |
| GameRules.SpawnSlotsApart | src/game.rs:159-172 | on a board of at least 9 × 9 the eight slots are distinct interior cells and the first step from each stays inside |
| GameRules.SpawnPlayer | src/game.rs:182-193 | the player keeps its name, takes the position and heading of spawn slot idx, and is alive with an empty trail, zero distance, zero score and no request |
| GameRules.NextSlot | src/game.rs:176-180 | add_player succeeds exactly while fewer than 8 players exist, and returns the old player count |
| GameRules.WithPlayer | src/game.rs:175-196 | adding a player keeps the match well formed and changes only the player list; with 8 players already the match is unchanged |
| GameRules.WithPlayers | src/manager.rs:125-132 | adding a list of names keeps the match well formed and changes only the player list |
| GameRules.WithPlayersSlots | src/game.rs:175-196 | adding names in order gives name k the next free slot k, and earlier players stay in place |
| GameRules.ActionApplied | src/game.rs:199-205 | the match after apply_action stays well formed |
| GameRules.ActionAppliedTouchesOnePlayer | src/game.rs:199-205 | apply_action sets the request of an existing alive player only; nothing else changes |
| GameRules.LastAt | src/game.rs:211-217 | the last of the first n players standing on a cell, or none when no player stands there |
| GameRules.StampPlayersCell | src/game.rs:211-217 | after start's loop a board cell shows the marker of the last player standing on it, else its old content |
| GameRules.Started | src/game.rs:208-218 | start changes only the status, to running, and the grid, which keeps its size; a match without a winner stays well formed |
| GameRules.StartedMarksSpawns | src/game.rs:208-218 | start sets the match running and marks each player's distinct on-board cell with its own index |
| TickRules.HeadOnCrashesBoth | src/game.rs:279-288 | two alive players heading for the same cell both crash |
| TickRules.Crashed | src/game.rs:252-289 | one crash flag per player, each the crash verdict for that player against the grid before the move |
| TickRules.CrashesIgnoreOrder | src/game.rs:252-289 | the crash verdict of each player does not depend on the order of the player list |
| TickRules.TrimSplits | src/game.rs:309-321 | trimming splits the trail into a dropped front and a kept back of min(length, max) cells |
| TickRules.ClearOwned | src/game.rs:311-321 | after popping the dropped cells a cell is empty exactly when it was dropped and held the owner's marker |
| TickRules.ClearOwnedPop | src/game.rs:311-320 | trimming an over-long trail pops its front cell first |
| TickRules.MovePhaseCell | src/game.rs:292-332 | after the movement loop a cell shows the last survivor that moved onto it, else is empty if a survivor's trim released it, else unchanged |
| TickRules.MovePhaseStep | src/game.rs:302-331 | one more player's turn changes a cell only if that player survives: to its marker on its destination, to empty on an owned released cell |
| TickRules.StepReleases | src/game.rs:311-320 | a survivor's turn releases its own marked cells that the trim drops, and nothing else |
| TickRules.ArrivalAt | src/game.rs:324-331 | the last survivor among the first k whose destination is the cell, or none when no survivor goes there |
| TickRules.AliveIndices | src/game.rs:335-341 | the alive players' indices, each once, in increasing order |
| TickRules.AliveIndicesCount | src/game.rs:335-341 | the number of alive indices is the number of alive players |
| TickRules.IncreasingElements | src/game.rs:335-341 | a strictly increasing index list holds as many distinct indices as its length |
| TickRules.AliveIndicesSameLiveness | src/game.rs:335-341 | the alive indices depend only on each player's alive flag |
| TickRules.Score | src/game.rs:351-358 | the winner's score is 100 + distance + min(1000 / tick, 200), between 100 and 300 above the distance |
| TickRules.WinCheck | src/game.rs:343-366 | the win check leaves a well-formed match |
| TickRules.Tick | src/game.rs:221-226 | a non-running match is unchanged; a running one advances the tick by 1 and ends running or finished, keeping id, size and course |
| TickRules.TickPlayer | src/game.rs:229-331 | after a running step player i is its steered self moved under its crash verdict, with only the winner's score rewritten |
| TickRules.TickKeepsNames | src/game.rs:221-332 | a step never renames or reorders players |
| TickRules.TickConsumesRequests | src/game.rs:238 | every player alive before a running step has no request left after it |
| TickRules.TickCrashIff | src/game.rs:252-300 | an alive player dies exactly when its post-turn destination is off the board, not empty before the move, or shared with another alive player |
| TickRules.TickLeavesDeadAlone | src/game.rs:232-234 | a player dead before the step is untouched by it |
| TickRules.TickSurvivor | src/game.rs:302-331 | a survivor moves one cell along its new heading, travels one more cell, has its old cell pushed and its trail trimmed to at most the course length, and its new cell carries its marker |
| TickRules.TickOtherCells | src/game.rs:302-331 | a cell no survivor moved onto is emptied only if it held the marker of a survivor whose trim dropped it, and is otherwise unchanged |
| TickRules.TickWinCheck | src/game.rs:335-366 | after a running step the match is finished iff at most one player is alive, has a winner iff exactly one is, and that winner is scored by the formula |
| Views.RenderRow | src/game.rs:405-412 | a row of n symbols is 2n - 1 characters long |
| Views.RenderRowSnoc | src/game.rs:410-412 | appending a symbol adds a separating space unless the row is empty |
| Views.RenderRowSpacing | src/game.rs:410-412 | symbol k sits at position 2k, with spaces in between |
| Views.LookSpec | src/game.rs:370-463 | both views report the viewer's name, position and heading; the sighted view also its distance, the tick, the number of players and the number of alive players |
| Views.LookShape | src/game.rs:370-441 | a crashed player gets only the crash view; an alive one gets 2r+1 rows of 4r+1 characters with @ in the centre and one line per other player |
| Views.WindowRowLengths | src/game.rs:404-412 | every window row is 4r+1 characters long |
| Views.WindowRow | src/game.rs:404-412 | window row k is the spaced rendering of the symbols of board row y + k - r |
| Views.LookCells | src/game.rs:404-441 | column 2j of window row k shows the symbol of the board position j - r columns and k - r rows from the viewer; odd columns are spaces |
| Views.SymbolMeaning | src/game.rs:414-438 | each symbol stands for exactly one kind of cell: @, # (off board or wall), ., X, \| (own trail), digit (k % 9) + 1 (player k's trail) |
| Views.Rivals | src/game.rs:450-460 | there is one rival line for every player other than the viewer, in player order, each describing that player |
| Views.CellCode | src/game.rs:472-477 | empty, wall and obstruction are sent as 0, 1 and 2 and nothing else below marker 253 is; a trail of player k below 253 is sent as 3 + k |
| Views.CellCodeRoundTrip | src/game.rs:472-477 | a cell's byte code decodes back to the cell for every marker below 253 |
| Views.Snapshot | src/game.rs:466-512 | the snapshot has the match's grid shape and one entry per player |
| Views.SnapshotFaithful | src/game.rs:466-512 | the snapshot keeps id, size, status, winner, tick, course name and level, numbers player i as i in order with its name, position, heading, distance, liveness and score, and each cell can be read back |
| Engine.BuildGrid | src/game.rs:114-139 | the border, obstruction and wall loops build exactly the initial grid |
| Engine.DetectCollisions | src/game.rs:252-289 | the collision loops compute exactly the crash flags of the crash rule |
| Engine.TrimTrail | src/game.rs:309-321 | the trim loop leaves the kept trail and clears exactly the owned dropped cells |
| Engine.Game.constructor | src/game.rs:114-156 | Game::new holds the new-match state for the course |
| Engine.Game.AddPlayer | src/game.rs:175-196 | add_player returns the next slot or none and holds the state with that player added |
| Engine.Game.ApplyAction | src/game.rs:199-205 | apply_action holds the state with the request applied |
| Engine.Game.Start | src/game.rs:208-218 | start holds the started state |
| Engine.Game.Tick | src/game.rs:221-367 | tick holds exactly the value-level step of the old state |
| Engine.Game.SteerPlayers | src/game.rs:229-249 | each alive player consumes its request, and each destination is recorded |
| Engine.Game.MovePlayers | src/game.rs:292-332 | the movement loop holds the moved players and the moved grid |
| Engine.Game.MoveOne | src/game.rs:293-331 | one player's turn: dead players stay, crashed ones die, survivors trim, move and mark |
| Engine.Game.AlivePlayers | src/game.rs:335-341 | the alive indices in order |
| Engine.Game.CheckWinner | src/game.rs:343-366 | the win check holds the value-level win check |
| Engine.Game.Look | src/game.rs:370-463 | look returns exactly the value-level view |
| Engine.Game.ViewWindow | src/game.rs:404-441 | the row loop builds the window rows in order |
| Engine.Game.ViewRow | src/game.rs:405-440 | the column loop builds one spaced row of window symbols |
| Engine.Game.SymbolAt | src/game.rs:414-438 | the symbol chosen for one board position |
| Engine.Game.ListRivals | src/game.rs:450-460 | the other-player lines in order |
| Courses.BuildTheMaze | src/course.rs:47-75 | the four push loops build exactly the Maze's wall list |
| Courses.BuildNarrowCorridors | src/course.rs:77-99 | the push loop builds exactly the Corridors' wall list |
| Courses.CorridorGaps | src/course.rs:80-87 | a cell is a Corridors wall iff it is on row 7 outside 10..=15 or on row 14 outside 30..=40, with x < 50 |
| Courses.BuildTheGauntlet | src/course.rs:101-123 | the stepped nested loops build exactly the Gauntlet's obstruction list |
| Courses.GauntletInside | src/course.rs:104-111 | every Gauntlet obstruction lies in 5 ≤ x ≤ 54, 5 ≤ y ≤ 30 |
| Courses.BuildChaos | src/course.rs:125-159 | the segment loops build exactly the Chaos walls for the given draws |
| Courses.ChaosInside | src/course.rs:131-146 | every Chaos wall has x, y < 79, and with generator-range draws also x, y ≥ 5 |
| Courses.SegmentGuardNeverDrops | src/course.rs:137-146 | with generator-range draws the < 79 guard never drops a cell |
| Courses.AllCourses | src/course.rs:17-25 | five courses, course k at level k + 1, capacities between 4 and 8, boards at least 30 × 22 |
| Courses.GetCourse | src/course.rs:28-32 | the level is clamped into 1..5: level ≤ 1 gives Open Arena, level ≥ 5 gives Chaos |
| Courses.CatalogueLayouts | src/course.rs:34-159 | every catalogue course keeps its walls and obstructions on its board and no obstruction on the border ring |
| Ledger.Rejoined | src/manager.rs:72-86 | the reset session is unbound and keeps the old level, or starts at 1 |
| Ledger.EnqueueKeepsOrder | src/manager.rs:88-90 | the queue stays duplicate-free, keeps everyone in place, holds the name, and grows only for a new name |
| Ledger.QueuedLevel | src/manager.rs:110-116 | the minimum level over queued names with a session, or none when there are none |
| Ledger.MatchSizeBounds | src/manager.rs:118-121 | with two or more waiting, a match takes between 2 and the course capacity, and never more than wait |
| Ledger.BindSessions | src/manager.rs:125-132 | drained name k is bound to the new match at index k; every other session is untouched |
| Ledger.StartedMatchPlayers | src/manager.rs:123-134 | the new match is running, has no winner, is on tick 0, and holds exactly the drained names in spawn order |
| Ledger.FormatStatus | src/manager.rs:242-279 | the report carries the match's status, course, tick and player count, with the number of alive players; a caller line iff the index exists, giving that player's name, position, heading, liveness and distance; an outcome iff finished, a win iff a winner, with the winner's name and score and whether the caller won |
| Ledger.ArchivedStatus | src/manager.rs:220-233 | an archived report: a draw iff no winner, otherwise the winner's name; the caller's score iff its index exists |
| Ledger.FindArchived | src/manager.rs:220-224 | the first archived match with the id, or none when absent |
| Ledger.SettlePlayers | src/manager.rs:297-322 | settlement files an entry for every player and touches neither the archive nor the session keys |
| Ledger.SettleCounts | src/manager.rs:297-313 | every player plays one more game; only the winner gains a win, its score and a recorded level ≥ course level + 1 that never decreases |
| Ledger.SettleOne | src/manager.rs:297-313 | with distinct names, player i's entry after settlement is its old entry (or an empty one) counted once, as a win iff i is the winner |
| Ledger.SessionsAfter | src/manager.rs:314-320 | a session's level rises by one exactly when it is the winner's, the winner was settled and the level is below 5 |
| Ledger.SettleOutsiders | src/manager.rs:297-322 | names outside the match keep their entry or its absence |
| Ledger.SettleNames | src/manager.rs:298-304 | entries stay filed under their own name |
| Ledger.SettleLevels | src/manager.rs:314-320 | settlement changes no session field but the level, never lowers a level, keeps levels in 1..5, and changes no session when the winner is not among the settled players |
| Ledger.WinnerPromoted | src/manager.rs:314-320 | a winner below the last course moves up exactly one level |
| Ledger.Pushed | src/manager.rs:330-333 | the archive grows by at most one, stays within the larger of its capacity and its old size, and ends with the new snapshot whenever the capacity is positive |
| Ledger.PushedBounded | src/manager.rs:330-333 | the archive stays within capacity, ends with the newest snapshot, and drops only the oldest |
| Ledger.JoinKeeps | src/manager.rs:72-90 | join's reset and enqueue keep the manager invariant |
| Ledger.StartKeeps | src/manager.rs:110-137 | draining a prefix into a new match keeps the manager invariant |
| Ledger.StartSessions | src/manager.rs:125-132 | binding distinct names to the new id keeps every level in 1..5 and every bound id below the next id |
| Ledger.StartGames | src/manager.rs:123-137 | adding the new match keeps every active match well formed, filed under its own id below the next one, and with distinct player names |
| Ledger.StartBindings | src/manager.rs:125-137 | after binding, every session bound to an active match points at that match's player of its own name |
| Ledger.SteerKeeps | src/manager.rs:169 | setting one request keeps the manager invariant |
| Ledger.CollectStep | src/manager.rs:285-291 | stepping one pending match keeps the finished list exact and duplicate-free |
| Ledger.TickedExceptStep | src/manager.rs:285-291 | stepping one more match moves it out of the pending set |
| Ledger.TickAllKeeps | src/manager.rs:285-292 | stepping every active match keeps the manager invariant |
| Ledger.SettleKeeps | src/manager.rs:294-335 | settling and archiving one finished match keeps the manager invariant |
| Ledger.RetireKeeps | src/manager.rs:294-335 | retiring matches and settling a sequence of them keeps the manager invariant |
| Ledger.InsertByPointsPerm | src/manager.rs:351 | inserting adds exactly the one entry |
| Ledger.InsertByPointsSorted | src/manager.rs:351 | inserting into a sorted list keeps it sorted by points, highest first |
| Ledger.SortByPoints | src/manager.rs:349-353 | the result is sorted by total points, highest first, and is a permutation of the input |
| Manager.GameManager.constructor | src/manager.rs:41-53 | an empty manager with archive capacity 100 that satisfies the invariant |
| Manager.GameManager.StartValid | src/manager.rs:121-137 | the state right after a match is launched satisfies the manager invariant and is the matchmaking outcome for the old queue |
| Manager.GameManager.Join | src/manager.rs:56-101 | refused iff the name plays an unfinished active match; otherwise the session is reset, the name queued, a match started once two or more wait, and the queue length returned |
| Manager.GameManager.Rejoin | src/manager.rs:72-90 | the session is reset and the name enqueued, keeping the invariant |
| Manager.GameManager.LowestQueuedLevel | src/manager.rs:110-116 | the lowest queued level, or 1 |
| Manager.GameManager.PlanMatch | src/manager.rs:110-119 | the course at the lowest queued level, and a match size between 2 and that course's capacity |
| Manager.GameManager.TryStartGame | src/manager.rs:104-143 | with two or more waiting, the first MatchSize names leave the queue in order for a fresh running match bound to them by index; otherwise nothing changes |
| Manager.GameManager.Launch | src/manager.rs:121-137 | the drained names form a fresh match under the next id, added to the active set with the others untouched |
| Manager.GameManager.OpenMatch | src/manager.rs:123-134 | a fresh started match holding the names in order, each name with a session bound to its slot |
| Manager.GameManager.EnrolPlayers | src/manager.rs:125-132 | each name is added in order and bound to the slot it received |
| Manager.GameManager.Route | src/manager.rs:146-163 | the lookups fail in the source's order: no session, no match, no index, match not active |
| Manager.GameManager.RouteFindsPlayer | src/manager.rs:156-163 | a routed player is the match's player of that name |
| Manager.GameManager.Steer | src/manager.rs:146-172 | the routing errors, then not-running; on success only that player's request in that match changes |
| Manager.GameManager.SteerOne | src/manager.rs:169 | one match gets the request and every other match is unchanged |
| Manager.GameManager.Look | src/manager.rs:175-195 | the routing errors, otherwise exactly that match's view for that player with radius 7 |
| Manager.GameManager.GameStatus | src/manager.rs:198-240 | fails iff no session; waiting with the queue length when unbound; live iff the match is active, and then exactly format_status of it; archived iff not active but in the archive, and then the archived report of the first match with that id; not found iff in neither |
| Manager.GameManager.TickAll | src/manager.rs:282-346 | every running match steps once; exactly those that finished now leave the active set and are settled in order into the books and archive, keeping the invariant |
| Manager.GameManager.TickRunning | src/manager.rs:285-292 | the first loop steps every active match and lists exactly the ones that finished, keeping the invariant |
| Manager.GameManager.StepEach | src/manager.rs:285-292 | the loop over active matches steps each once and collects exactly the ones that finished now |
| Manager.GameManager.TickOne | src/manager.rs:286-291 | one match stepped if running, the others untouched, reporting whether it finished now |
| Manager.GameManager.SettleFinished | src/manager.rs:294-335 | each finished match leaves the active set and is settled, keeping the invariant |
| Manager.GameManager.RetireEach | src/manager.rs:294-335 | the loop over finished ids removes each and settles them in order |
| Manager.GameManager.RetireOne | src/manager.rs:295-334 | one match removed from the active set and settled |
| Manager.GameManager.Settle | src/manager.rs:297-334 | the players' entries are counted, then the snapshot is archived |
| Manager.GameManager.CountPlayers | src/manager.rs:297-322 | the player loop applies the settlement of every player in order |
| Manager.GameManager.CountPlayer | src/manager.rs:298-321 | the entry, created empty if missing, is counted; a winner's session is promoted while below the last course |
| Manager.GameManager.Archive | src/manager.rs:330-333 | the push drops the oldest entry once over capacity |
| Manager.GameManager.GetLeaderboard | src/manager.rs:349-353 | every entry exactly once, with distinct names, sorted by total points, highest first |
| Manager.PermutationKeepsNamesApart | src/manager.rs:350-351 | a permutation of entries with distinct names has distinct names |

## Left out

- I/O and hosting: the MCP adapter, the command-line entry point, the TCP loop and the web server (src/mcp.rs, src/main.rs, src/web.rs). They are not part of this model.
- Locking: the shared mutex. The manager is a single-threaded object.
- Broadcasts: the messages on the broadcast channel, and time stamps (`created_at`, `finished_at`).
- Serialisation: JSON and serde.
- Message text: the English messages of `join`, `steer`, `look` and `format_status`, and `look`'s header and legend. Results are tagged variants, and `look` keeps its symbol grid and the data of its text lines.
- Game ids: `Uuid::new_v4` is replaced by the counter `nextId`, so ids are distinct by construction. The archive lookup compares these ids rather than UUID strings.
- Chaos randomness: the generator's draws are a parameter. `Courses.ChaosInside` and `Courses.SegmentGuardNeverDrops` hold for draws in the generator's range.
- HashMap iteration order: `tick_all` visits the active matches in an arbitrary order, modelled by choosing any pending id. `TickAll` reports the order it took as a ghost result.
- `get_active_games` and `get_finished_games`: plain accessors with nothing to prove.
- Engine.Game.constructor: it requires that the width and height are both zero or both non-zero. Otherwise Game::new's border loops index outside the grid and panic. Every catalogue course meets the requirement.
- TickRules.Tick: integers are unbounded. The u32 tick, distance, score and leaderboard counters cannot overflow in the model, while the source's would panic or wrap.
- Views.CellCode: the byte cast `(3 + idx) as u8` is modelled modulo 256, so a marker of 253 or more wraps onto another code. Its contract and the round trip are stated only for markers below 253, which covers the at most eight players of a match.
- Engine.Game.Look, Engine.Game.ViewWindow, Engine.Game.ViewRow, Engine.Game.SymbolAt, Engine.Game.ListRivals, Views.LookSpec and Views.Rivals: they require `idx < |players|`. `look` in src/game.rs:370-371 indexes the player list directly and panics on an out-of-range index; the manager only calls it with the index bound to the caller's session, which the manager invariant keeps in range.
- Ledger.SortByPoints: stability of the sort on ties is not proved. The order among equal-point entries depends on HashMap order anyway.
- The bound "at most `max_trail_length` grid cells carry one player's marker" is not proved. Only the bound on the trail itself is proved, in `TickRules.TickSurvivor`.
