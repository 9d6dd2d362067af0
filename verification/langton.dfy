/**
 Langton's Ant on a bounded map: the map constructor, the spawn marker,
 one step of the main loop and the loop itself. A step flips the cell
 under the ant, turns, and moves one cell; the loop stops as soon as the
 ant stands outside the map.
 */
module LangtonsAnt {
  import opened Common

  /** `create_map(width, height)`: `height` rows of `width` zeros. */
  function CreateMap(width: int, height: int): (m: Board)
    ensures |m| == Max0(height)
    ensures Rectangular(m, Max0(width))
    ensures forall i, j :: 0 <= i < |m| && 0 <= j < |m[i]| ==> m[i][j] == 0
  {
    Zeros(height, width)
  }

  /**
   `spawn_ant`: marks the middle cell with 2 when the first row is not empty.
   The source names the row count `map_width` and the first row's length
   `map_height`; the row count is non-zero whenever `map_state[0]` exists.
   */
  function SpawnAnt(m: Board): (r: Board)
    requires |m| > 0
    requires |m[0]| != 0 ==> |m[0]| / 2 < |m[|m| / 2]|
    ensures |r| == |m|
    ensures forall i :: 0 <= i < |m| ==> |r[i]| == |m[i]|
    ensures |m[0]| != 0 ==> r[|m| / 2][|m[0]| / 2] == 2
    ensures forall i, j :: 0 <= i < |m| && 0 <= j < |m[i]| && !(|m[0]| != 0 && i == |m| / 2 && j == |m[0]| / 2) ==> r[i][j] == m[i][j]
  {
    if |m[0]| != 0 then m[|m| / 2 := m[|m| / 2][|m[0]| / 2 := 2]] else m
  }

  /** On a fresh non-empty map the spawn marker is the only non-zero cell. */
  lemma SpawnOnFreshMap(width: int, height: int)
    requires 0 < width && 0 < height
    ensures var m := SpawnAnt(CreateMap(width, height));
      forall i, j :: 0 <= i < height && 0 <= j < width ==>
        (m[i][j] != 0 <==> i == height / 2 && j == width / 2) && (m[i][j] != 0 ==> m[i][j] == 2)
  {
  }

  /** Row and column steps for facings 0..3, as the `directions` list orders them. */
  const Directions: seq<(int, int)> := [(0, 1), (-1, 0), (0, -1), (1, 0)]

  /** The ant's state: the map, its row and column, and the index of its facing. */
  datatype Ant = Ant(grid: Board, row: int, col: int, facing: int)

  /** The map has the shape `create_map(width, height)` gives it. */
  predicate Fits(width: int, height: int, grid: Board)
  {
    |grid| == height && Rectangular(grid, width)
  }

  /** The loop's guard; row 0 counts as outside. */
  predicate InBounds(width: int, height: int, row: int, col: int)
  {
    0 < row < height && 0 <= col < width
  }

  /** One pass of the loop body: None when the guard fails and the loop breaks. */
  function Step(width: int, height: int, a: Ant): (r: Option<Ant>)
    requires Fits(width, height, a.grid)
    ensures r.None? <==> !InBounds(width, height, a.row, a.col)
    ensures r.Some? ==> Fits(width, height, r.value.grid)
    ensures r.Some? ==> 0 <= r.value.facing < 4
    ensures r.Some? && a.grid[a.row][a.col] == 0 ==>
      r.value.grid[a.row][a.col] == 1 && r.value.facing == (a.facing + 1) % 4
    ensures r.Some? && a.grid[a.row][a.col] != 0 ==>
      r.value.grid[a.row][a.col] == 0 && r.value.facing == (a.facing - 1) % 4
    ensures r.Some? ==> forall i, j :: 0 <= i < height && 0 <= j < width && (i != a.row || j != a.col) ==>
      r.value.grid[i][j] == a.grid[i][j]
    ensures r.Some? ==> (r.value.row - a.row, r.value.col - a.col) == Directions[r.value.facing]
    ensures r.Some? ==>
      (r.value.row == a.row && (r.value.col == a.col + 1 || r.value.col == a.col - 1)) ||
      (r.value.col == a.col && (r.value.row == a.row + 1 || r.value.row == a.row - 1))
  {
    if InBounds(width, height, a.row, a.col) then
      var current := a.grid[a.row][a.col];
      var written := if current == 0 then 1 else 0;
      var facing := if current == 0 then (a.facing + 1) % 4 else (a.facing - 1) % 4;
      var grid := a.grid[a.row := a.grid[a.row][a.col := written]];
      var (dx, dy) := Directions[facing];
      Some(Ant(grid, a.row + dx, a.col + dy, facing))
    else
      None
  }

  /**
   Undoes a step: backs the ant up against its facing, restores the cell
   and the previous facing. A cell the ant left at 1 was 0 before; one it
   left at 0 was 1.
   */
  function Unstep(width: int, height: int, a: Ant): (prev: Ant)
    requires Fits(width, height, a.grid)
    requires 0 <= a.facing < 4
    requires InBounds(width, height, a.row - Directions[a.facing].0, a.col - Directions[a.facing].1)
  {
    var r := a.row - Directions[a.facing].0;
    var c := a.col - Directions[a.facing].1;
    if a.grid[r][c] == 1 then
      Ant(a.grid[r := a.grid[r][c := 0]], r, c, (a.facing - 1) % 4)
    else
      Ant(a.grid[r := a.grid[r][c := 1]], r, c, (a.facing + 1) % 4)
  }

  /** On cells holding 0 or 1, a step loses no information: it can be undone exactly. */
  lemma StepReversible(width: int, height: int, a: Ant)
    requires Fits(width, height, a.grid)
    requires InBounds(width, height, a.row, a.col)
    requires 0 <= a.facing < 4
    requires a.grid[a.row][a.col] == 0 || a.grid[a.row][a.col] == 1
    ensures Step(width, height, a).Some?
    ensures var b := Step(width, height, a).value;
      InBounds(width, height, b.row - Directions[b.facing].0, b.col - Directions[b.facing].1) &&
      Unstep(width, height, b) == a
  {
    var b := Step(width, height, a).value;
    var prev := Unstep(width, height, b);
    assert prev.grid[a.row] == a.grid[a.row];
    assert prev.grid == a.grid;
  }

  /** The state the main loop starts from: a fresh map, the ant mid-map, facing 0. */
  function Initial(width: int, height: int): (a: Ant)
    ensures Fits(Max0(width), Max0(height), a.grid)
    ensures forall i, j :: 0 <= i < |a.grid| && 0 <= j < |a.grid[i]| ==> a.grid[i][j] == 0
    ensures a.row == width / 2 && a.col == height / 2
    ensures a.facing == 0
  {
    Ant(CreateMap(width, height), width / 2, height / 2, 0)
  }

  /** Up to `n` passes of the loop body, stopping early once the ant is outside. */
  function Iterate(width: int, height: int, a: Ant, n: nat): (r: Ant)
    requires Fits(width, height, a.grid)
    ensures Fits(width, height, r.grid)
    ensures 0 <= a.facing < 4 ==> 0 <= r.facing < 4
    decreases n
  {
    if n == 0 then a
    else
      match Step(width, height, a)
      case None => a
      case Some(next) => Iterate(width, height, next, n - 1)
  }

  /**
   The `for i in range(steps)` loop: returns the final state and the number
   of steps the ant actually took.
   */
  method Run(width: int, height: int, start: Ant, steps: int) returns (final: Ant, taken: nat)
    requires Fits(width, height, start.grid)
    ensures final == Iterate(width, height, start, Max0(steps))
    ensures taken <= Max0(steps)
    ensures taken < Max0(steps) ==> !InBounds(width, height, final.row, final.col)
    ensures Fits(width, height, final.grid)
  {
    final := start;
    taken := 0;
    while taken < Max0(steps)
      invariant taken <= Max0(steps)
      invariant Fits(width, height, final.grid)
      invariant Iterate(width, height, final, Max0(steps) - taken) == Iterate(width, height, start, Max0(steps))
    {
      match Step(width, height, final)
      case None =>
        return;
      case Some(next) =>
        final := next;
        taken := taken + 1;
    }
  }
}
