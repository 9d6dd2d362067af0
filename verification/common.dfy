/**
 Shared vocabulary for the four demo programs: an optional value, the
 integer boards they all use, and the two Python list/string idioms that
 every program leans on (`[0] * n` and `'c' * n`, both empty when n <= 0).
 */
module Common {

  /** A value that may be absent: used for a loop that stops and for a crash. */
  datatype Option<+T> = None | Some(value: T)

  /** A board or map: a list of rows of integer cells. */
  type Board = seq<seq<int>>

  /** Python clamps a negative repetition count or range bound to zero. */
  function Max0(n: int): nat
  {
    if n < 0 then 0 else n
  }

  /** Python's `c * n` on a one-character string. */
  function Repeat(c: char, n: int): (s: string)
    ensures |s| == Max0(n)
    ensures forall k :: 0 <= k < |s| ==> s[k] == c
  {
    if n <= 0 then "" else [c] + Repeat(c, n - 1)
  }

  /** Every row of `b` has exactly `width` cells. */
  predicate Rectangular(b: Board, width: int)
  {
    forall i :: 0 <= i < |b| ==> |b[i]| == width
  }

  /** `rows` copies of `[0] * cols`, as built by a `for _ in range(rows)` loop. */
  function Zeros(rows: int, cols: int): (b: Board)
    ensures |b| == Max0(rows)
    ensures Rectangular(b, Max0(cols))
    ensures forall i, j :: 0 <= i < |b| && 0 <= j < |b[i]| ==> b[i][j] == 0
  {
    seq(Max0(rows), _ => seq(Max0(cols), _ => 0))
  }
}
