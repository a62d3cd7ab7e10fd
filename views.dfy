/** What a player sees (Game::look) and the snapshot handed to spectators (Game::to_web_state),
    both in src/game.rs, as functions of the match state. */
module Views {
  import opened Wrappers
  import opened GameRules
  import opened TickRules

  // ---------------------------------------------------------------- look

  function Digit(n: nat): (c: char)
    requires 1 <= n <= 9
    ensures '1' <= c <= '9'
  {
    ('0' as int + n) as char
  }

  /** The symbol shown to player `idx` for board position (gx, gy). */
  function Symbol(s: GameState, idx: nat, gx: int, gy: int): char
    requires IsRect(s.grid, s.width, s.height) && idx < |s.players|
  {
    var p := s.players[idx];
    if gx == p.x && gy == p.y then '@'
    else if !(0 <= gx < s.width && 0 <= gy < s.height) then '#'
    else match s.grid[gy][gx]
      case Empty => '.'
      case Wall => '#'
      case Obstruction => 'X'
      case Trail(o) => if o == idx then '|' else Digit(o % 9 + 1)
  }

  /** Symbols joined by single spaces. */
  function RenderRow(symbols: seq<char>): (row: string)
    ensures |row| == if symbols == [] then 0 else 2 * |symbols| - 1
  {
    if |symbols| <= 1 then symbols
    else RenderRow(symbols[..|symbols| - 1]) + [' ', symbols[|symbols| - 1]]
  }

  /** Appending a symbol appends a space and the symbol, or just the symbol to an empty row. */
  lemma RenderRowSnoc(symbols: seq<char>, c: char)
    ensures RenderRow(symbols + [c]) == if symbols == [] then [c] else RenderRow(symbols) + [' ', c]
  {
    assert (symbols + [c])[..|symbols|] == symbols;
  }

  /** A rendered row alternates symbols and spaces: symbol k sits at position 2k. */
  lemma {:induction false} RenderRowSpacing(symbols: seq<char>, k: nat)
    requires k < 2 * |symbols| - 1
    ensures RenderRow(symbols)[k] == if k % 2 == 0 then symbols[k / 2] else ' '
    decreases |symbols|
  {
    if |symbols| > 1 && k < 2 * |symbols| - 3 {
      RenderRowSpacing(symbols[..|symbols| - 1], k);
    }
  }

  /** The symbols of window row `dy` (from -r to r) around player `idx`. */
  function WindowSymbols(s: GameState, idx: nat, r: nat, dy: int): (syms: seq<char>)
    requires IsRect(s.grid, s.width, s.height) && idx < |s.players|
    ensures |syms| == 2 * r + 1
  {
    seq(2 * r + 1, k requires 0 <= k => Symbol(s, idx, s.players[idx].x + (k - r), s.players[idx].y + dy))
  }

  function Window(s: GameState, idx: nat, r: nat): (rows: seq<string>)
    requires IsRect(s.grid, s.width, s.height) && idx < |s.players|
    ensures |rows| == 2 * r + 1
  {
    seq(2 * r + 1, k requires 0 <= k => RenderRow(WindowSymbols(s, idx, r, k - r)))
  }

  /** Another player as listed under the window: name, whether alive, Manhattan distance. */
  datatype Rival = Rival(name: string, alive: bool, distance: nat)

  function RivalOf(me: Player, p: Player): Rival {
    Rival(p.name, p.alive, Abs(p.x - me.x) + Abs(p.y - me.y))
  }

  /** Every player but `idx`, in order. */
  function Rivals(s: GameState, idx: nat): (rs: seq<Rival>)
    requires idx < |s.players|
    ensures |rs| == |s.players| - 1
    ensures forall j :: 0 <= j < |s.players| && j != idx ==>
      rs[if j < idx then j else j - 1] == RivalOf(s.players[idx], s.players[j])
  {
    seq(|s.players| - 1, k requires 0 <= k < |s.players| - 1 =>
      RivalOf(s.players[idx], s.players[if k < idx then k else k + 1]))
  }

  /** What look() reports; the surrounding message text is not modelled. */
  datatype LookReport =
    | CrashedView(name: string, x: int, y: int, heading: Direction)
    | Sighted(name: string, x: int, y: int, heading: Direction, distance: nat, tick: nat,
              aliveCount: nat, total: nat, rows: seq<string>, rivals: seq<Rival>)

  function LookSpec(s: GameState, idx: nat, r: nat): (v: LookReport)
    requires IsRect(s.grid, s.width, s.height) && idx < |s.players|
    ensures var p := s.players[idx];
      v.name == p.name && v.x == p.x && v.y == p.y && v.heading == p.direction
    ensures v.Sighted? ==>
      v.distance == s.players[idx].distance && v.tick == s.tick && v.total == |s.players| &&
      v.aliveCount == |AliveSet(s.players)|
  {
    var p := s.players[idx];
    AliveIndicesCount(s.players);
    if !p.alive then CrashedView(p.name, p.x, p.y, p.direction)
    else Sighted(p.name, p.x, p.y, p.direction, p.distance, s.tick,
                 |AliveIndices(s.players)|, |s.players|, Window(s, idx, r), Rivals(s, idx))
  }

  /** A crashed player is told only where it is and that it crashed; an alive one gets a
      window of 2r+1 rows, each 2r+1 symbols separated by spaces, with itself in the middle,
      and one line for each other player. */
  lemma LookShape(s: GameState, idx: nat, r: nat)
    requires IsRect(s.grid, s.width, s.height) && idx < |s.players|
    ensures LookSpec(s, idx, r).CrashedView? <==> !s.players[idx].alive
    ensures LookSpec(s, idx, r).Sighted? ==>
      var v := LookSpec(s, idx, r);
      |v.rows| == 2 * r + 1 &&
      (forall k :: 0 <= k < |v.rows| ==> |v.rows[k]| == 4 * r + 1) &&
      v.rows[r][2 * r] == '@' &&
      |v.rivals| == |s.players| - 1
  {
    if s.players[idx].alive {
      assert LookSpec(s, idx, r).rows == Window(s, idx, r);
      WindowRowLengths(s, idx, r);
      LookCells(s, idx, r, r, 2 * r);
      SymbolMeaning(s, idx, s.players[idx].x, s.players[idx].y);
    }
  }

  /** Every window row holds 2r+1 symbols joined by single spaces. */
  lemma WindowRowLengths(s: GameState, idx: nat, r: nat)
    requires IsRect(s.grid, s.width, s.height) && idx < |s.players|
    ensures forall k :: 0 <= k < |Window(s, idx, r)| ==> |Window(s, idx, r)[k]| == 4 * r + 1
  {
    forall k | 0 <= k < |Window(s, idx, r)|
      ensures |Window(s, idx, r)[k]| == 4 * r + 1
    {
      WindowRow(s, idx, r, k);
    }
  }

  lemma WindowRow(s: GameState, idx: nat, r: nat, k: nat)
    requires IsRect(s.grid, s.width, s.height) && idx < |s.players| && k < 2 * r + 1
    ensures Window(s, idx, r)[k] == RenderRow(WindowSymbols(s, idx, r, k - r))
  {
  }

  /** For an alive viewer, column 2j of window row k shows the board position j - r columns
      and k - r rows away from it, and the odd columns are spaces. */
  lemma LookCells(s: GameState, idx: nat, r: nat, k: nat, j: nat)
    requires IsRect(s.grid, s.width, s.height) && idx < |s.players| && s.players[idx].alive
    requires k < 2 * r + 1 && j < 4 * r + 1
    ensures var v, p := LookSpec(s, idx, r), s.players[idx];
      k < |v.rows| && j < |v.rows[k]| &&
      v.rows[k][j] == if j % 2 == 0 then Symbol(s, idx, p.x + j / 2 - r, p.y + k - r) else ' '
  {
    var syms := WindowSymbols(s, idx, r, k - r);
    assert LookSpec(s, idx, r).rows == Window(s, idx, r);
    WindowRow(s, idx, r, k);
    RenderRowSpacing(syms, j);
    if j % 2 == 0 {
      assert syms[j / 2] == Symbol(s, idx, s.players[idx].x + (j / 2 - r), s.players[idx].y + (k - r));
    }
  }

  /** Each symbol names one kind of cell: `@` the viewer, `#` off the board or a wall, `.`
      empty, `X` an obstruction, `|` the viewer's own trail, and digit (k % 9) + 1 the trail of
      player k. */
  lemma SymbolMeaning(s: GameState, idx: nat, gx: int, gy: int)
    requires IsRect(s.grid, s.width, s.height) && idx < |s.players|
    ensures var c, p := Symbol(s, idx, gx, gy), s.players[idx];
      (c == '@' <==> gx == p.x && gy == p.y) &&
      ((gx, gy) != (p.x, p.y) && !(0 <= gx < s.width && 0 <= gy < s.height) ==> c == '#')
    ensures (gx, gy) != (s.players[idx].x, s.players[idx].y) && 0 <= gx < s.width && 0 <= gy < s.height ==>
      var c, cell := Symbol(s, idx, gx, gy), s.grid[gy][gx];
      (c == '#' <==> cell == Wall) &&
      (c == '.' <==> cell == Empty) &&
      (c == 'X' <==> cell == Obstruction) &&
      (c == '|' <==> cell == Trail(idx)) &&
      ('1' <= c <= '9' <==> cell.Trail? && cell.owner != idx) &&
      (cell.Trail? && cell.owner != idx ==> c == Digit(cell.owner % 9 + 1))
  {
  }

  // ---------------------------------------------------------------- to_web_state

  newtype byte = b: int | 0 <= b < 256

  /** The byte a cell is sent as; trail markers wrap modulo 256 like the source's cast. */
  function CellCode(c: Cell): (b: byte)
    ensures c == Empty <==> b == 0 && !(c.Trail? && c.owner >= 253)
    ensures c == Wall <==> b == 1 && !(c.Trail? && c.owner >= 253)
    ensures c == Obstruction <==> b == 2 && !(c.Trail? && c.owner >= 253)
    ensures c.Trail? && c.owner < 253 ==> b as int == 3 + c.owner
  {
    match c
    case Empty => 0
    case Wall => 1
    case Obstruction => 2
    case Trail(o) => ((3 + o) % 256) as byte
  }

  /** Reading a byte back as a cell. */
  function DecodeCell(b: byte): Cell {
    if b == 0 then Empty
    else if b == 1 then Wall
    else if b == 2 then Obstruction
    else Trail(b as nat - 3)
  }

  /** Cell codes are lossless for every trail marker below 253, and so for all of a match's
      at most eight players. */
  lemma CellCodeRoundTrip(c: Cell)
    requires c.Trail? ==> c.owner < 253
    ensures DecodeCell(CellCode(c)) == c
  {
  }

  datatype WebPlayer = WebPlayer(index: nat, name: string, x: int, y: int, alive: bool,
                                 direction: Direction, distance: nat, score: nat)

  /** The spectator snapshot; time stamps are not modelled. */
  datatype WebGame = WebGame(id: nat, width: nat, height: nat, grid: seq<seq<byte>>,
                             players: seq<WebPlayer>, status: Status, tick: nat,
                             courseName: string, courseLevel: nat, winner: Option<nat>)

  function WebPlayerOf(i: nat, p: Player): WebPlayer {
    WebPlayer(i, p.name, p.x, p.y, p.alive, p.direction, p.distance, p.score)
  }

  function Snapshot(s: GameState): (w: WebGame)
    ensures |w.grid| == |s.grid| && |w.players| == |s.players|
    ensures forall y :: 0 <= y < |s.grid| ==> |w.grid[y]| == |s.grid[y]|
  {
    WebGame(s.id, s.width, s.height,
            seq(|s.grid|, y requires 0 <= y < |s.grid| =>
              seq(|s.grid[y]|, x requires 0 <= x < |s.grid[y]| => CellCode(s.grid[y][x]))),
            seq(|s.players|, i requires 0 <= i < |s.players| => WebPlayerOf(i, s.players[i])),
            s.status, s.tick, s.courseName, s.courseLevel, s.winner)
  }

  /** The snapshot keeps player order, numbers player i as i, and every cell whose marker is
      below 253 can be read back from it. */
  lemma SnapshotFaithful(s: GameState)
    requires WellFormed(s)
    ensures var w := Snapshot(s);
      w.id == s.id && w.status == s.status && w.winner == s.winner && w.tick == s.tick &&
      w.width == s.width && w.height == s.height &&
      w.courseName == s.courseName && w.courseLevel == s.courseLevel &&
      (forall i :: 0 <= i < |s.players| ==>
        w.players[i].index == i && w.players[i].name == s.players[i].name &&
        w.players[i].x == s.players[i].x && w.players[i].y == s.players[i].y &&
        w.players[i].direction == s.players[i].direction && w.players[i].distance == s.players[i].distance &&
        w.players[i].alive == s.players[i].alive && w.players[i].score == s.players[i].score) &&
      (forall y, x :: 0 <= y < s.height && 0 <= x < s.width && (s.grid[y][x].Trail? ==> s.grid[y][x].owner < 253)
        ==> DecodeCell(w.grid[y][x]) == s.grid[y][x])
  {
    var w := Snapshot(s);
    forall y, x | 0 <= y < s.height && 0 <= x < s.width && (s.grid[y][x].Trail? ==> s.grid[y][x].owner < 253)
      ensures DecodeCell(w.grid[y][x]) == s.grid[y][x]
    {
      CellCodeRoundTrip(s.grid[y][x]);
    }
  }
}
