# Python-BrainTeasers cores in Dafny

A Dafny model of the pure computations inside four small Python demo
programs, each pulled out of its printing, sleeping or image-writing
wrapper:

- **Perlin noise** (`perlin.dfy`, module `PerlinNoise`): the permutation
  table (a shuffled `range(256)` appended to itself), the 1D and 2D
  lattice-gradient hashes, the quintic fade `smooth`, `lerp`, and the 1D
  and 2D noise evaluators. Python floats are idealised as exact `real`;
  Python's `int(x)` is modelled as truncation toward zero (`Trunc`) and
  Python's negative list indexing as `PyIndex`.
- **Game of Life** (`life.dfy`, module `GameOfLife`): `dead_state` and one
  generation step over `seq<seq<int>>` boards, in which only cells equal to
  1 are alive and the edges are not wrapped.
- **Board renderer** (`display.dfy`, module `GameOfLifeDisplay`):
  `render_board` as the list of lines it prints, together with a parser
  that reads 0/1 boards back.
- **Langton's Ant** (`langton.dfy`, module `LangtonsAnt`): `create_map`,
  `spawn_ant`, one pass of the main loop as `Step`, its inverse `Unstep`,
  and the loop itself as the method `Run` and the recursive reference
  `Iterate`.
- **ASCII shapes** (`shapes.dfy`, module `DrawShapes`): `draw_triangle`,
  `draw_pyramid` and `draw_square` as methods that return their lines.

`common.dfy` (module `Common`) holds what they share: `Option`, the
`Board` type, `'c' * n` (`Repeat`, empty for a negative count) and
`Zeros`, which is `rows` copies of `[0] * cols` appended in a `for` loop;
a negative `rows` gives no rows and a negative `cols` gives empty rows.

Python's `%` and `//` with a positive divisor agree with Dafny's Euclidean
`%` and `/`, so `% 256`, `% 4`, `(facing - 1) % 4` and `height // 2` are
written as they are in the source.

Three details of the noise code shape the model:
- The evaluators convert coordinates with `int(x)`, which truncates toward
  zero. For x ≥ 0 that is the floor; for negative x the model keeps the
  truncation, and the bounds and periodicity lemmas are stated for
  non-negative inputs only.
- `get_gradient_1d` indexes the table with the raw coordinate, with no
  `% 256`. The model mirrors Python's indexing, negative indices included.
- `Noise1D` therefore requires both table reads to be in range; outside
  that range the source raises IndexError.

## Model

| member | source | states |
|---|---|---|
| PerlinNoise.RangeCounts | PerlinNoise/main.py:13 | `list(range(n))` contains every value below n exactly once and nothing else |
| PerlinNoise.ShuffleContents | PerlinNoise/main.py:13-14 | a shuffle of `range(256)` has 256 entries, all in [0,256), each value exactly once |
| PerlinNoise.PermutationTable | PerlinNoise/main.py:13-15 | given a shuffle, the table has 512 entries, `p[i] == p[i+256]` for i < 256, its first half is the shuffle, every entry is in [0,256), each value occurs exactly once in the first 256 and exactly twice in the whole table |
| PerlinNoise.Gradient1D | PerlinNoise/main.py:32-41 | result is +1 exactly when the looked-up entry is even and -1 otherwise; the index must lie in [-len, len), with no modulo applied |
| PerlinNoise.Gradient1DDuplicated | PerlinNoise/main.py:36-41 | on a duplicated table, the 1D gradient at i + 256 equals the one at i for i in [0,256) |
| PerlinNoise.Gradient2D | PerlinNoise/main.py:43-62 | for every integer ix, iy, negatives included, both lookups are in range (it requires only 256 entries); the result is one of (1,1), (-1,1), (-1,-1), (1,-1), chosen in that order by the hash mod 4; the fall-through `else` is unreachable |
| PerlinNoise.Gradient2DPeriodic | PerlinNoise/main.py:48-50 | the 2D gradient is unchanged when ix or iy moves by any multiple of 256 |
| PerlinNoise.Trunc | PerlinNoise/main.py:69 | `int(x)` lies within 1 of x on the side of zero: floor for x ≥ 0 and ceiling for x < 0 |
| PerlinNoise.Lerp | PerlinNoise/main.py:19-23 | `lerp(a,b,0) == a` and `lerp(a,b,1) == b` |
| PerlinNoise.LerpBetween | PerlinNoise/main.py:19-23 | for t in [0,1] the result lies between a and b, whichever is larger |
| PerlinNoise.Smooth | PerlinNoise/main.py:25-30 | `smooth(0) == 0`, `smooth(1) == 1`, `smooth(1/2) == 1/2` |
| PerlinNoise.SmoothSymmetric | PerlinNoise/main.py:25-30 | the fade is point-symmetric: `smooth(1-t) == 1 - smooth(t)` |
| PerlinNoise.SmoothBounds | PerlinNoise/main.py:25-30 | the fade maps [0,1] into [0,1] |
| PerlinNoise.Cell1D | PerlinNoise/main.py:70-82 | the cell polynomial with base corner x0 vanishes at both of the cell's corners, x0 and x0 + 1 |
| PerlinNoise.Noise1D | PerlinNoise/main.py:64-84 | the 1D noise is 0 at every integer point whose two table reads are in range, because the distance to the base corner is 0 and `smooth(0) == 0` |
| PerlinNoise.Noise1DOnCell | PerlinNoise/main.py:69-84 | for n ≥ 0 and x in [n, n+1), the 1D noise is the polynomial of cell n |
| PerlinNoise.Noise1DContinuous | PerlinNoise/main.py:69-84 | neighbouring cells meet: the polynomial of cell n-1 evaluated at n equals the noise at n |
| PerlinNoise.Noise1DJumpsAtMinusOne | PerlinNoise/main.py:69-84 | below zero `int(x)` picks the corner nearer zero, so on (-1,0) the noise is the polynomial of cell 0, whose value at -1 is not the noise's value 0 there: the field jumps at -1 |
| PerlinNoise.Noise1DLatticeZero | PerlinNoise/main.py:69-84 | every integer i whose two table reads are in range lies in the evaluator's domain; the value 0 there is `Noise1D`'s own guarantee, so domain membership is all this adds |
| PerlinNoise.Noise1DBounded | PerlinNoise/main.py:64-84 | for x ≥ 0 the 1D noise lies in [-1,1] |
| PerlinNoise.Noise1DDuplicated | PerlinNoise/main.py:69-84 | on a duplicated table the 1D noise repeats with period 256 for x in [0,255) |
| PerlinNoise.Cell2D | PerlinNoise/main.py:95-124 | the blend of a cell's four corners vanishes at its top-left corner |
| PerlinNoise.Noise2D | PerlinNoise/main.py:86-126 | the 2D noise is 0 whenever both coordinates are integers, negative ones included: both fade weights are `smooth(0) == 0`, so only the top-left corner counts, and its distance is zero |
| PerlinNoise.Noise2DOnCell | PerlinNoise/main.py:90-126 | for non-negative integers ix, iy and (x, y) in [ix, ix+1) × [iy, iy+1), the 2D noise is the blend of cell (ix, iy) |
| PerlinNoise.Cell2DEdgeX | PerlinNoise/main.py:95-124 | horizontally neighbouring cells agree along their shared edge x = n, for every y |
| PerlinNoise.Cell2DEdgeY | PerlinNoise/main.py:95-124 | vertically neighbouring cells agree along their shared edge y = n, for every x |
| PerlinNoise.Noise2DBounded | PerlinNoise/main.py:105-126 | for x, y ≥ 0 each corner's dot product lies in [-2,2], so the 2D noise lies in [-2,2] too |
| PerlinNoise.CornerPeriodic | PerlinNoise/main.py:100-115 | a corner's dot product is unchanged when the corner and the sample point move together by 256 cells |
| PerlinNoise.Noise2DPeriodicX | PerlinNoise/main.py:90-126 | for x ≥ 0 the 2D noise is unchanged by x ↦ x + 256 |
| PerlinNoise.Noise2DPeriodicY | PerlinNoise/main.py:90-126 | for y ≥ 0 the 2D noise is unchanged by y ↦ y + 256 |
| GameOfLife.DeadState | GameOfLife/main.py:5-11 | `dead_state(h,w)` has max(h,0) rows, each of max(w,0) zeros |
| GameOfLife.NeighbourCount | GameOfLife/main.py:30-47 | the neighbour count is at most 8 |
| GameOfLife.CountLiveIsCardinality | GameOfLife/main.py:41-47 | over offsets without repeats, the counting loop's total equals the number of distinct offsets that reach an in-bounds cell equal to 1 |
| GameOfLife.NeighbourCountIsLiveNeighbours | GameOfLife/main.py:30-47 | the neighbour count is the size of the set of live in-bounds neighbours among the eight offsets |
| GameOfLife.Next | GameOfLife/main.py:24-59 | the corrected step keeps the board's height and width, and every output cell is 0 or 1; the input is a value and is left unchanged |
| GameOfLife.NextRule | GameOfLife/main.py:49-57 | a live cell becomes 1 exactly when it has 2 or 3 live neighbours; any other cell becomes 1 exactly when it has 3; otherwise the cell is 0 |
| GameOfLife.DeadBoardStaysDead | GameOfLife/main.py:24-59 | a board of zeros maps to itself |
| GameOfLife.NextAsWritten | GameOfLife/main.py:24-59 | the step as written returns width rows of height cells whenever it does not raise |
| GameOfLife.AsWrittenAgreesOnSquare | GameOfLife/main.py:25-28 | on a square board the step as written never raises and equals the corrected step |
| GameOfLife.AsWrittenOnDeadBoard | GameOfLife/main.py:28 | on a dead h×w board the step as written returns the dead w×h board |
| GameOfLife.AsWrittenTransposesDeadRow | GameOfLife/main.py:25-28 | `[[0,0]]` becomes `[[0],[0]]` as written and `[[0,0]]` when corrected |
| GameOfLife.AsWrittenCrashesOnLiveRow | GameOfLife/main.py:28-53 | on `[[1,1]]` the step as written raises IndexError |
| GameOfLifeDisplay.CellChar | GameOfLife/display.py:10-13 | a cell renders as a space exactly when it is 0, and as '#' otherwise |
| GameOfLifeDisplay.RowLine | GameOfLife/display.py:7-14 | a row line is '|', one character per cell, then '|', so its length is cells + 2 |
| GameOfLifeDisplay.RenderBoard | GameOfLife/display.py:3-16 | there are len(board)+2 lines: the first is len(board[0])+2 underscores, the last is as many dashes, and line i+1 is row i's framed line; on a rectangular board every line has length len(board[0])+2 |
| GameOfLifeDisplay.RowRoundTrip | GameOfLife/display.py:7-14 | a row of 0/1 cells can be read back from its line |
| GameOfLifeDisplay.RenderRoundTrip | GameOfLife/display.py:3-16 | the rendered lines of a 0/1 board parse back to the same board |
| LangtonsAnt.CreateMap | LangtonsAnt/main.py:4-10 | `create_map(w,h)` has max(h,0) rows, each of max(w,0) zeros |
| LangtonsAnt.SpawnAnt | LangtonsAnt/main.py:19-30 | when the first row is non-empty, the cell at [len(m)//2][len(m[0])//2] becomes 2; every other cell and every row length is unchanged |
| LangtonsAnt.SpawnOnFreshMap | LangtonsAnt/main.py:19-30 | on a fresh w×h map with w, h > 0, the spawn cell is the only non-zero cell, and it holds 2 |
| LangtonsAnt.Step | LangtonsAnt/main.py:51-74 | the step stops exactly when row ≤ 0, row ≥ height or the column is outside [0,width). On a 0 cell it writes 1 and sets facing to (facing+1) mod 4; on any other cell it writes 0 and sets facing to (facing-1) mod 4. Facing stays in [0,4), only the cell under the ant changes, and the ant moves one unit along one axis, as the directions table gives |
| LangtonsAnt.StepReversible | LangtonsAnt/main.py:53-71 | when the cell under the ant holds 0 or 1, `Unstep` recovers the exact previous state from the stepped one |
| LangtonsAnt.Initial | LangtonsAnt/main.py:46-48 | the loop starts on a fresh map of the given size whose every cell is 0, with the ant at row width//2, column height//2, facing 0 |
| LangtonsAnt.Iterate | LangtonsAnt/main.py:51-74 | repeated steps keep the map's shape, and keep the facing in [0,4) when it starts there |
| LangtonsAnt.Run | LangtonsAnt/main.py:51-74 | the loop equals the recursive reference `Iterate`, takes at most max(steps,0) steps, and stops early only once the ant is out of bounds |
| DrawShapes.DrawTriangle | DrawShapes/shapes.py:12-14 | there are max(h-1,0) lines, and the k-th line (1-based) is exactly k stars |
| DrawShapes.DrawPyramid | DrawShapes/shapes.py:16-21 | there are max(h//2,0) lines. Line k (0-based) is h//2-k spaces, then 2k+1 stars, then h//2-k spaces, so the margin never goes negative, and every line has length 2*(h//2)+1 |
| DrawShapes.DrawSquare | DrawShapes/shapes.py:23-25 | there are max(h,0) lines, each exactly h stars |

## Findings

| source | as written | input that shows it | evidently intended | confidence | as-written member | corrected member |
|---|---|---|---|---|---|---|
| GameOfLife/main.py:28 | `dead_state(width, height)` builds `width` rows of `height` cells | `[[0, 0]]` returns `[[0], [0]]`; `[[1, 1]]` raises IndexError | `dead_state(height, width)`, which keeps the board's shape | high (not executed) | GameOfLife.AsWrittenTransposesDeadRow | GameOfLife.Next |

`GameOfLife.NextAsWritten` models the step as written, and
`GameOfLife.AsWrittenCrashesOnLiveRow` exhibits the crash. The program only
runs square 20×20 boards, so `GameOfLife.AsWrittenAgreesOnSquare` shows that
the bug never shows up there. All other Game of Life properties are stated
about the corrected `GameOfLife.Next`.

## Left out

- Randomness: `random.seed`, `random.shuffle`, `random.random` and `random_state` are not modelled. The shuffled list is an input to `PerlinNoise.PermutationTable`, and the model makes no claim about seed reproducibility.
- Floating point: the noise functions are computed over exact reals, so rounding is not modelled.
- PerlinNoise.Smooth: monotonicity on [0,1] is not proved. Only the endpoint values, the symmetry and the [0,1] range are.
- PerlinNoise.Noise1D: requires both table reads to be in range; a coordinate whose `int(x)` or `int(x) + 1` falls outside [-len(p), len(p)) raises IndexError at PerlinNoise/main.py:36, through the calls at main.py:73. That crash is not modelled.
- PerlinNoise.Noise1DContinuous: the edge agreement holds at every lattice point in range, but it makes the field continuous only where the evaluator uses the cell left of n on (n-1, n), that is for n ≥ 1 together with `PerlinNoise.Noise1DOnCell`. For negative x `int(x)` rounds toward zero, and `PerlinNoise.Noise1DJumpsAtMinusOne` shows that the field is then discontinuous. The program only samples non-negative coordinates, so this is recorded rather than corrected. The same holds for the 2D edge lemmas.
- PerlinNoise.Noise1DBounded: the bound is proved for x ≥ 0 only, which covers every caller. Truncation makes negative inputs extrapolate.
- PerlinNoise.Noise2DBounded: the bound is proved for x, y ≥ 0 only, and is [-2,2], not a tighter range.
- Image and terminal output: `visualize_1d_noise`, `visualize_2d_noise`, their `int((v+0.7)*k)` colour and bar mappings, and PIL are left out. They are I/O plus float-to-int conversion.
- Screen and loop plumbing: `clear_screen`, `render_map` (it prints list reprs), `os.system`, `time.sleep`, and the infinite loop in the Game of Life `main` are left out.
- `decide_next_state` is left out because it is an empty stub.
- The `'\n'` separators printed by the shapes `main` are left out.
- Map size: the width and height of `LangtonsAnt.Step` are parameters, not the program's constants 60 and 60, and the map must have that shape, as `create_map(width, height)` builds it. The program's `main` never calls `spawn_ant`, so `SpawnAnt` is modelled on its own.
- GameOfLife.Next: requires a non-empty board whose rows are all at least as long as the first; on `[]` the source raises IndexError at GameOfLife/main.py:26, and when a later row is shorter than the first, at the neighbour read on main.py:44, where the row above reaches into it with a column bounded by the first row's width. Those crashes are not modelled.
- GameOfLife.NextAsWritten: has the same precondition, so it models only the IndexError from an out-of-range write, not the ones from reads of an empty board or a short row.
- GameOfLifeDisplay.RenderBoard: requires a non-empty board; `render_board([])` raises IndexError at GameOfLife/display.py:4, which is not modelled.
- LangtonsAnt.SpawnAnt: requires a non-empty map whose middle row reaches the spawn column; `spawn_ant([])` raises IndexError at LangtonsAnt/main.py:21, and a short middle row at main.py:27. Those crashes are not modelled.
- The Python functions mutate lists in place. The model returns new values, so "the input board is not modified" holds by construction.
