/** The course catalogue: five level templates, ordered by difficulty. */
module Courses {
  import opened Wrappers

  /** A board coordinate (column, row); course coordinates are unsigned. */
  type Coord = (nat, nat)

  datatype Course = Course(
    name: string,
    level: nat,
    width: nat,
    height: nat,
    maxTrailLength: nat,
    maxPlayers: nat,
    obstructions: seq<Coord>,
    walls: seq<Coord>)

  const CourseCount: nat := 5

  /** Every wall and obstruction coordinate lies on the course's own board. */
  predicate LayoutInBounds(c: Course) {
    (forall p :: p in c.walls ==> p.0 < c.width && p.1 < c.height) &&
    (forall p :: p in c.obstructions ==> p.0 < c.width && p.1 < c.height)
  }

  /** No obstruction sits on the outermost ring of the board. */
  predicate ObstructionsOffBorder(c: Course) {
    forall p :: p in c.obstructions ==> 0 < p.0 < c.width - 1 && 0 < p.1 < c.height - 1
  }

  /** The concatenation of `parts`, in order: what a loop that pushes `parts[k]` on its
      k-th pass leaves behind. */
  function Flatten<T>(parts: seq<seq<T>>): seq<T> {
    if |parts| == 0 then [] else Flatten(parts[..|parts| - 1]) + parts[|parts| - 1]
  }

  lemma {:induction false} FlattenMember<T>(parts: seq<seq<T>>, x: T)
    ensures x in Flatten(parts) <==> exists k :: 0 <= k < |parts| && x in parts[k]
  {
    if |parts| > 0 {
      var init := parts[..|parts| - 1];
      FlattenMember(init, x);
      assert forall k :: 0 <= k < |init| ==> init[k] == parts[k];
    }
  }

  /** One more pass of the loop appends that pass's part. */
  lemma FlattenSnoc<T>(parts: seq<seq<T>>, k: nat)
    requires k < |parts|
    ensures Flatten(parts[..k + 1]) == Flatten(parts[..k]) + parts[k]
  {
    assert parts[..k + 1][..k] == parts[..k];
  }

  // ---------------------------------------------------------------- Open Arena

  function OpenArena(): Course {
    Course("Open Arena", 1, 30, 30, 50, 4, [], [])
  }

  // ---------------------------------------------------------------- The Maze

  /** What pass `k` of the Maze's horizontal loop pushes: x = 8 + k on rows 10 and 25. */
  function MazeRowPass(k: nat): seq<Coord> {
    [(8 + k, 10), (8 + k, 25)]
  }

  function MazeRowPasses(): seq<seq<Coord>> {
    seq(14, k requires 0 <= k => MazeRowPass(k))
  }

  /** `n` consecutive cells of column `x`, starting at row `y0` and going down. */
  function Column(x: nat, y0: nat, n: nat): seq<Coord> {
    seq(n, k => (x, y0 + k))
  }

  function MazeWalls(): seq<Coord> {
    Flatten(MazeRowPasses()) + Column(15, 10, 10) + Column(25, 5, 10) + Column(8, 20, 10)
  }

  function TheMaze(): Course {
    Course("The Maze", 2, 40, 35, 80, 4, [], MazeWalls())
  }

  /** course_the_maze: the wall list is built by pushing inside four loops. */
  method BuildTheMaze() returns (c: Course)
    ensures c == TheMaze()
  {
    var walls: seq<Coord> := [];
    for x := 8 to 22
      invariant walls == Flatten(MazeRowPasses()[..x - 8])
    {
      FlattenSnoc(MazeRowPasses(), x - 8);
      walls := walls + [(x, 10), (x, 25)];
    }
    assert MazeRowPasses()[..14] == MazeRowPasses();
    ghost var rows := walls;
    for y := 10 to 20
      invariant walls == rows + Column(15, 10, y - 10)
    {
      walls := walls + [(15, y)];
    }
    ghost var first := walls;
    for y := 5 to 15
      invariant walls == first + Column(25, 5, y - 5)
    {
      walls := walls + [(25, y)];
    }
    ghost var second := walls;
    for y := 20 to 30
      invariant walls == second + Column(8, 20, y - 20)
    {
      walls := walls + [(8, y)];
    }
    c := Course("The Maze", 2, 40, 35, 80, 4, [], walls);
  }

  // ---------------------------------------------------------------- Narrow Corridors

  /** What pass `x` of the Corridors loop pushes: a cell on row 7 unless 10 <= x <= 15, then
      a cell on row 14 unless 30 <= x <= 40. */
  function CorridorPass(x: nat): seq<Coord> {
    (if x < 10 || x > 15 then [(x, 7)] else []) + (if x < 30 || x > 40 then [(x, 14)] else [])
  }

  function CorridorPasses(): seq<seq<Coord>> {
    seq(50, x requires 0 <= x => CorridorPass(x))
  }

  function CorridorWalls(): seq<Coord> {
    Flatten(CorridorPasses())
  }

  function NarrowCorridors(): Course {
    Course("Narrow Corridors", 3, 50, 22, 100, 4, [], CorridorWalls())
  }

  method BuildNarrowCorridors() returns (c: Course)
    ensures c == NarrowCorridors()
  {
    var walls: seq<Coord> := [];
    for x := 0 to 50
      invariant walls == Flatten(CorridorPasses()[..x])
    {
      FlattenSnoc(CorridorPasses(), x);
      if x < 10 || x > 15 {
        walls := walls + [(x, 7)];
      }
      if x < 30 || x > 40 {
        walls := walls + [(x, 14)];
      }
    }
    assert CorridorPasses()[..50] == CorridorPasses();
    c := Course("Narrow Corridors", 3, 50, 22, 100, 4, [], walls);
  }

  /** Row 7 is walled except for the gap 10 <= x <= 15, row 14 except for 30 <= x <= 40, and
      no other cell is a wall. */
  lemma CorridorGaps(p: Coord)
    ensures p in NarrowCorridors().walls <==>
      p.0 < 50 && ((p.1 == 7 && !(10 <= p.0 <= 15)) || (p.1 == 14 && !(30 <= p.0 <= 40)))
  {
    var parts := CorridorPasses();
    FlattenMember(parts, p);
    if p in Flatten(parts) {
      var k :| 0 <= k < 50 && p in parts[k];
      assert parts[k] == CorridorPass(k);
    }
    if p.0 < 50 && ((p.1 == 7 && !(10 <= p.0 <= 15)) || (p.1 == 14 && !(30 <= p.0 <= 40))) {
      assert parts[p.0] == CorridorPass(p.0);
      assert p in parts[p.0];
    }
  }

  // ---------------------------------------------------------------- The Gauntlet

  /** The 2x2 block of obstructions whose top-left cell is (x, y). */
  function Block(x: nat, y: nat): seq<Coord> {
    [(x, y), (x + 1, y), (x, y + 1), (x + 1, y + 1)]
  }

  /** What pass `i` of the outer Gauntlet loop pushes: x = 5 + 6i, with the inner loop
      pushing a block for each y = 5 + 6j, j < 5. */
  function GauntletPass(i: nat): seq<Coord> {
    Flatten(GauntletBlocks(i))
  }

  function GauntletBlocks(i: nat): seq<seq<Coord>> {
    seq(5, j requires 0 <= j => Block(5 + 6 * i, 5 + 6 * j))
  }

  function GauntletPasses(): seq<seq<Coord>> {
    seq(9, i requires 0 <= i => GauntletPass(i))
  }

  function GauntletField(): seq<Coord> {
    Flatten(GauntletPasses())
  }

  function TheGauntlet(): Course {
    Course("The Gauntlet", 4, 60, 40, 150, 6, GauntletField(), [])
  }

  /** course_the_gauntlet: `(5..55).step_by(6)` outside, `(5..35).step_by(6)` inside. */
  method BuildTheGauntlet() returns (c: Course)
    ensures c == TheGauntlet()
  {
    var obstructions: seq<Coord> := [];
    var x: nat := 5;
    ghost var i: nat := 0;
    while x < 55
      invariant x == 5 + 6 * i && i <= 9
      invariant obstructions == Flatten(GauntletPasses()[..i])
    {
      ghost var before := obstructions;
      ghost var blocks := GauntletBlocks(i);
      var y: nat := 5;
      ghost var j: nat := 0;
      while y < 35
        invariant y == 5 + 6 * j && j <= 5
        invariant obstructions == before + Flatten(blocks[..j])
      {
        FlattenSnoc(blocks, j);
        assert blocks[j] == Block(x, y);
        obstructions := obstructions + [(x, y), (x + 1, y), (x, y + 1), (x + 1, y + 1)];
        y, j := y + 6, j + 1;
      }
      assert j == 5;
      assert blocks[..5] == blocks;
      FlattenSnoc(GauntletPasses(), i);
      assert GauntletPasses()[i] == Flatten(blocks);
      x, i := x + 6, i + 1;
    }
    assert GauntletPasses()[..9] == GauntletPasses();
    c := Course("The Gauntlet", 4, 60, 40, 150, 6, obstructions, []);
  }

  /** Every Gauntlet obstruction lies in 5 <= x <= 54, 5 <= y <= 30. */
  lemma GauntletInside(p: Coord)
    requires p in GauntletField()
    ensures 5 <= p.0 <= 54 && 5 <= p.1 <= 30
  {
    var passes := GauntletPasses();
    FlattenMember(passes, p);
    var i :| 0 <= i < 9 && p in passes[i];
    assert passes[i] == GauntletPass(i);
    var blocks := GauntletBlocks(i);
    FlattenMember(blocks, p);
    var j :| 0 <= j < 5 && p in blocks[j];
    assert blocks[j] == Block(5 + 6 * i, 5 + 6 * j);
  }

  // ---------------------------------------------------------------- Chaos

  /** One random wall segment as drawn by course_chaos: its start, its orientation and its
      length. The random generator stands outside the model; its draws are a parameter. */
  datatype Segment = Segment(sx: nat, sy: nat, horizontal: bool, length: nat)

  /** The draws the generator can produce: 30 segments with 5 <= sx, sy < 70 and
      3 <= length < 10. */
  predicate ValidDraws(draws: seq<Segment>) {
    |draws| == 30 &&
    forall k :: 0 <= k < |draws| ==>
      5 <= draws[k].sx < 70 && 5 <= draws[k].sy < 70 && 3 <= draws[k].length < 10
  }

  /** The `i`-th cell of a segment. */
  function SegmentCell(s: Segment, i: nat): Coord {
    if s.horizontal then (s.sx + i, s.sy) else (s.sx, s.sy + i)
  }

  /** What pass `i` of a segment's loop pushes: its `i`-th cell, when both coordinates are
      below 79. */
  function SegmentPass(s: Segment, i: nat): seq<Coord> {
    var c := SegmentCell(s, i);
    if c.0 < 79 && c.1 < 79 then [c] else []
  }

  function SegmentWalls(s: Segment): seq<Coord> {
    Flatten(SegmentPasses(s))
  }

  function SegmentPasses(s: Segment): seq<seq<Coord>> {
    seq(s.length, i requires 0 <= i => SegmentPass(s, i))
  }

  function ChaosWalls(draws: seq<Segment>): seq<Coord> {
    Flatten(seq(|draws|, k requires 0 <= k < |draws| => SegmentWalls(draws[k])))
  }

  function Chaos(draws: seq<Segment>): Course {
    Course("Chaos", 5, 80, 80, 300, 8, [], ChaosWalls(draws))
  }

  /** course_chaos, with the generator's draws given one per segment. */
  method BuildChaos(draws: seq<Segment>) returns (c: Course)
    ensures c == Chaos(draws)
  {
    ghost var segments := seq(|draws|, k requires 0 <= k < |draws| => SegmentWalls(draws[k]));
    var walls: seq<Coord> := [];
    for k := 0 to |draws|
      invariant walls == Flatten(segments[..k])
    {
      var s := draws[k];
      ghost var before := walls;
      ghost var cells := SegmentPasses(s);
      for i := 0 to s.length
        invariant walls == before + Flatten(cells[..i])
      {
        FlattenSnoc(cells, i);
        var wx, wy := if s.horizontal then s.sx + i else s.sx, if s.horizontal then s.sy else s.sy + i;
        if wx < 79 && wy < 79 {
          walls := walls + [(wx, wy)];
        }
      }
      assert cells[..s.length] == cells;
      FlattenSnoc(segments, k);
    }
    assert segments[..|draws|] == segments;
    c := Course("Chaos", 5, 80, 80, 300, 8, [], walls);
  }

  /** Every Chaos wall satisfies x < 79 and y < 79, and with generator-produced draws also
      5 <= x and 5 <= y. */
  lemma ChaosInside(draws: seq<Segment>, p: Coord)
    requires p in ChaosWalls(draws)
    ensures p.0 < 79 && p.1 < 79
    ensures ValidDraws(draws) ==> 5 <= p.0 && 5 <= p.1
  {
    var segments := seq(|draws|, k requires 0 <= k < |draws| => SegmentWalls(draws[k]));
    FlattenMember(segments, p);
    var k :| 0 <= k < |draws| && p in segments[k];
    var cells := SegmentPasses(draws[k]);
    FlattenMember(cells, p);
    var i :| 0 <= i < draws[k].length && p in cells[i];
  }

  /** With generator-produced draws the `< 79` guard never drops a cell: a segment's walls
      are exactly its cells. */
  lemma SegmentGuardNeverDrops(s: Segment)
    requires 5 <= s.sx < 70 && 5 <= s.sy < 70 && s.length < 10
    ensures SegmentWalls(s) == seq(s.length, i requires 0 <= i => SegmentCell(s, i))
  {
    var cells := SegmentPasses(s);
    var n := 0;
    while n < s.length
      invariant n <= s.length
      invariant Flatten(cells[..n]) == seq(n, i requires 0 <= i => SegmentCell(s, i))
    {
      FlattenSnoc(cells, n);
      n := n + 1;
    }
    assert cells[..s.length] == cells;
  }

  // ---------------------------------------------------------------- catalogue

  /** all_courses: the five courses in level order. */
  function AllCourses(draws: seq<Segment>): (cs: seq<Course>)
    ensures |cs| == CourseCount
    ensures forall k :: 0 <= k < |cs| ==> cs[k].level == k + 1
    ensures forall k :: 0 <= k < |cs| ==> 4 <= cs[k].maxPlayers <= 8
    ensures forall k :: 0 <= k < |cs| ==> cs[k].width >= 30 && cs[k].height >= 22
  {
    [OpenArena(), TheMaze(), NarrowCorridors(), TheGauntlet(), Chaos(draws)]
  }

  /** The index get_course uses: `level.saturating_sub(1).min(len - 1)`. */
  function CourseIndex(level: nat): (k: nat)
    ensures k == Min(Max(level, 1), CourseCount) - 1
    ensures k < CourseCount
  {
    Min(if level == 0 then 0 else level - 1, CourseCount - 1)
  }

  /** get_course: the course of the given level, with the level clamped into 1..5. */
  function GetCourse(level: nat, draws: seq<Segment>): (c: Course)
    ensures c.level == Min(Max(level, 1), CourseCount)
    ensures level <= 1 ==> c == OpenArena()
    ensures level >= CourseCount ==> c == Chaos(draws)
    ensures 4 <= c.maxPlayers <= 8
    ensures c.width >= 30 && c.height >= 22
    ensures c == AllCourses(draws)[c.level - 1]
  {
    AllCourses(draws)[CourseIndex(level)]
  }

  /** Every course of the catalogue keeps its walls and obstructions on its board, and none
      has an obstruction on the border ring. */
  lemma CatalogueLayouts(draws: seq<Segment>, k: nat)
    requires k < CourseCount
    ensures LayoutInBounds(AllCourses(draws)[k])
    ensures ObstructionsOffBorder(AllCourses(draws)[k])
  {
    if k == 1 {
      var rows := MazeRowPasses();
      var a, b, c, d := Flatten(rows), Column(15, 10, 10), Column(25, 5, 10), Column(8, 20, 10);
      assert MazeWalls() == a + b + c + d;
      forall p | p in MazeWalls() ensures p.0 < 40 && p.1 < 35 {
        if p in a {
          FlattenMember(rows, p);
          var k :| 0 <= k < 14 && p in rows[k];
          assert rows[k] == MazeRowPass(k);
        } else if p in b {
          var i :| 0 <= i < |b| && b[i] == p;
        } else if p in c {
          var i :| 0 <= i < |c| && c[i] == p;
        } else {
          var i :| 0 <= i < |d| && d[i] == p;
        }
      }
    } else if k == 2 {
      forall p | p in CorridorWalls() ensures p.0 < 50 && p.1 < 22 {
        CorridorGaps(p);
      }
    } else if k == 3 {
      forall p | p in GauntletField() ensures 0 < p.0 < 59 && 0 < p.1 < 39 {
        GauntletInside(p);
      }
    } else if k == 4 {
      forall p | p in ChaosWalls(draws) ensures p.0 < 80 && p.1 < 80 {
        ChaosInside(draws, p);
      }
    }
  }
}
