/**
 Conway's Game of Life on a bounded board: cells equal to 1 are alive,
 every other value is dead, and cells beyond the edges are absent.
 */
module GameOfLife {
  import opened Common

  /** `dead_state(height, width)`: `height` rows of `width` zeros. */
  function DeadState(height: int, width: int): (b: Board)
    ensures |b| == Max0(height)
    ensures Rectangular(b, Max0(width))
    ensures forall i, j :: 0 <= i < |b| && 0 <= j < |b[i]| ==> b[i][j] == 0
  {
    Zeros(height, width)
  }

  /** The eight neighbour offsets, in the order the step visits them. */
  const Offsets: seq<(int, int)> := [
    (-1, -1), (-1, 0), (-1, 1),
    (0, -1),           (0, 1),
    (1, -1),  (1, 0),  (1, 1)
  ]

  /** What the step reads: a first row fixes the width and no row is shorter. */
  predicate Readable(b: Board)
  {
    |b| > 0 && forall i :: 0 <= i < |b| ==> |b[0]| <= |b[i]|
  }

  function Width(b: Board): nat
    requires |b| > 0
  {
    |b[0]|
  }

  /** Cell (r, c) lies on the board and holds exactly 1. */
  predicate IsLive(b: Board, r: int, c: int)
    requires Readable(b)
  {
    0 <= r < |b| && 0 <= c < Width(b) && b[r][c] == 1
  }

  /** Counts the offsets in `offs` that lead from (r, c) to a live cell, front to back. */
  function CountLive(b: Board, offs: seq<(int, int)>, r: int, c: int): (n: nat)
    requires Readable(b)
    ensures n <= |offs|
  {
    if offs == [] then 0
    else (if IsLive(b, r + offs[0].0, c + offs[0].1) then 1 else 0) + CountLive(b, offs[1..], r, c)
  }

  /** The neighbour count the inner loop accumulates. */
  function NeighbourCount(b: Board, r: int, c: int): (n: nat)
    requires Readable(b)
    ensures n <= 8
  {
    CountLive(b, Offsets, r, c)
  }

  /** The live cells reached through the offsets in `offs`. */
  function LiveVia(b: Board, offs: seq<(int, int)>, r: int, c: int): set<(int, int)>
    requires Readable(b)
  {
    set o | o in offs && IsLive(b, r + o.0, c + o.1)
  }

  /** The live neighbours of (r, c), as a set of offsets. */
  function LiveNeighbours(b: Board, r: int, c: int): set<(int, int)>
    requires Readable(b)
  {
    LiveVia(b, Offsets, r, c)
  }

  /** The live set through a non-empty list splits into its head and its tail. */
  lemma LiveViaCons(b: Board, offs: seq<(int, int)>, r: int, c: int)
    requires Readable(b)
    requires offs != []
    ensures LiveVia(b, offs, r, c) ==
      LiveVia(b, offs[1..], r, c) + (if IsLive(b, r + offs[0].0, c + offs[0].1) then {offs[0]} else {})
  {
    var o := offs[0];
    var rest := offs[1..];
    assert forall x :: x in offs <==> x == o || x in rest;
  }

  /** Over a list without repeats, the sequential count is the size of the live set. */
  lemma {:induction false} CountLiveIsCardinality(b: Board, offs: seq<(int, int)>, r: int, c: int)
    requires Readable(b)
    requires forall i, j :: 0 <= i < j < |offs| ==> offs[i] != offs[j]
    ensures CountLive(b, offs, r, c) == |LiveVia(b, offs, r, c)|
  {
    if offs != [] {
      var rest := offs[1..];
      CountLiveIsCardinality(b, rest, r, c);
      assert forall k :: 0 <= k < |rest| ==> rest[k] == offs[k + 1];
      assert offs[0] !in rest;
      LiveViaCons(b, offs, r, c);
    }
  }

  /** The neighbour count equals the number of live cells among the eight neighbours. */
  lemma NeighbourCountIsLiveNeighbours(b: Board, r: int, c: int)
    requires Readable(b)
    ensures NeighbourCount(b, r, c) == |LiveNeighbours(b, r, c)|
  {
    CountLiveIsCardinality(b, Offsets, r, c);
  }

  /** The rule for one cell: survival on 2 or 3 neighbours, birth on exactly 3. */
  function NextCell(b: Board, r: int, c: int): int
    requires Readable(b)
    requires 0 <= r < |b| && 0 <= c < Width(b)
  {
    var n := NeighbourCount(b, r, c);
    if b[r][c] == 1 then
      if n < 2 || n > 3 then 0 else 1
    else
      if n == 3 then 1 else 0
  }

  /**
   `next_board_state`, with the fresh board built as `height` rows of
   `width` cells, so that every board the step reads keeps its shape.
   */
  function Next(b: Board): (nb: Board)
    requires Readable(b)
    ensures |nb| == |b|
    ensures Rectangular(nb, Width(b))
    ensures forall i, j :: 0 <= i < |nb| && 0 <= j < |nb[i]| ==> nb[i][j] == 0 || nb[i][j] == 1
  {
    seq(|b|, i requires 0 <= i < |b| => seq(Width(b), j requires 0 <= j < Width(b) => NextCell(b, i, j)))
  }

  /** Both directions of the survival and birth rules, counted over the live neighbour set. */
  lemma NextRule(b: Board, r: int, c: int)
    requires Readable(b)
    requires 0 <= r < |b| && 0 <= c < Width(b)
    ensures b[r][c] == 1 ==> (Next(b)[r][c] == 1 <==> 2 <= |LiveNeighbours(b, r, c)| <= 3)
    ensures b[r][c] != 1 ==> (Next(b)[r][c] == 1 <==> |LiveNeighbours(b, r, c)| == 3)
  {
    NeighbourCountIsLiveNeighbours(b, r, c);
  }

  /** A board with no live cell stays dead. */
  lemma DeadBoardStaysDead(height: int, width: int)
    requires 0 < height
    ensures Next(DeadState(height, width)) == DeadState(height, width)
  {
    var b := DeadState(height, width);
    var nb := Next(b);
    forall i | 0 <= i < |b|
      ensures nb[i] == b[i]
    {
      forall j | 0 <= j < Width(b)
        ensures nb[i][j] == b[i][j]
      {
        NeighbourCountIsLiveNeighbours(b, i, j);
        assert LiveNeighbours(b, i, j) == {};
      }
    }
  }

  /** A cell the step writes: a live cell, or a dead one with exactly three live neighbours. */
  predicate Writes(b: Board, r: int, c: int)
    requires Readable(b)
    requires 0 <= r < |b| && 0 <= c < Width(b)
  {
    b[r][c] == 1 || NeighbourCount(b, r, c) == 3
  }

  /**
   `next_board_state` with its argument order as written: the fresh board
   comes from `dead_state(width, height)`, so it has `width` rows of
   `height` cells. A write outside that board raises IndexError, modelled
   as None. Reads are kept in range by `Readable`, as for `Next`.
   */
  function NextAsWritten(b: Board): (r: Option<Board>)
    requires Readable(b)
    ensures r.Some? ==> |r.value| == Width(b) && Rectangular(r.value, |b|)
  {
    var height := |b|;
    var width := Width(b);
    if exists i, j :: 0 <= i < height && 0 <= j < width && Writes(b, i, j) && (i >= width || j >= height) then
      None
    else
      Some(seq(width, i requires 0 <= i => seq(height, j requires 0 <= j => if i < height && j < width then NextCell(b, i, j) else 0)))
  }

  /** On a square board the swapped arguments are harmless: both versions agree. */
  lemma AsWrittenAgreesOnSquare(b: Board)
    requires Readable(b)
    requires |b| == Width(b)
    ensures NextAsWritten(b) == Some(Next(b))
  {
    var n := |b|;
    assert !exists i, j :: 0 <= i < n && 0 <= j < n && Writes(b, i, j) && (i >= n || j >= n);
    var r := NextAsWritten(b);
    var nb := Next(b);
    assert |r.value| == |nb| == n;
    forall i | 0 <= i < n
      ensures r.value[i] == nb[i]
    {
      assert |r.value[i]| == |nb[i]| == n;
      forall j | 0 <= j < n
        ensures r.value[i][j] == nb[i][j]
      {
      }
    }
    assert r.value == nb;
  }

  /** A dead board gives no write, so the written step returns the transposed dead board. */
  lemma AsWrittenOnDeadBoard(height: int, width: int)
    requires 0 < height && 0 < width
    ensures NextAsWritten(DeadState(height, width)) == Some(DeadState(width, height))
  {
    var b := DeadState(height, width);
    forall i, j | 0 <= i < height && 0 <= j < width
      ensures !Writes(b, i, j) && NextCell(b, i, j) == 0
    {
      NeighbourCountIsLiveNeighbours(b, i, j);
      assert LiveNeighbours(b, i, j) == {};
    }
    assert !exists i, j :: 0 <= i < height && 0 <= j < width && Writes(b, i, j) && (i >= width || j >= height);
    var r := NextAsWritten(b).value;
    var d := DeadState(width, height);
    forall i | 0 <= i < width
      ensures r[i] == d[i]
    {
      forall j | 0 <= j < height
        ensures r[i][j] == d[i][j]
      {
      }
    }
    assert r == d;
  }

  /**
   On the dead one-by-two board the written step returns two rows of one
   cell: the shape comes back transposed, while the corrected step keeps it.
   */
  lemma AsWrittenTransposesDeadRow()
    ensures NextAsWritten([[0, 0]]) == Some([[0], [0]])
    ensures Next([[0, 0]]) == [[0, 0]]
  {
    var row := DeadState(1, 2);
    assert row[0] == [0, 0];
    assert row == [[0, 0]];
    var column := DeadState(2, 1);
    assert column[0] == [0] && column[1] == [0];
    assert column == [[0], [0]];
    AsWrittenOnDeadBoard(1, 2);
    DeadBoardStaysDead(1, 2);
  }

  /** On a one-row, two-column board with a live cell the written step raises IndexError. */
  lemma AsWrittenCrashesOnLiveRow()
    ensures NextAsWritten([[1, 1]]) == None
  {
    var live: Board := [[1, 1]];
    assert Writes(live, 0, 1);
  }
}
