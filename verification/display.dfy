/**
 The Game of Life board renderer, as the list of lines it prints: a top
 rule of underscores, one framed line per row, a bottom rule of dashes.
 */
module GameOfLifeDisplay {
  import opened Common

  /** A cell equal to 0 is drawn as a space, any other value as '#'. */
  function CellChar(v: int): (ch: char)
    ensures ch == ' ' <==> v == 0
    ensures ch == ' ' || ch == '#'
  {
    if v == 0 then ' ' else '#'
  }

  /** One printed row: '|', a character per cell, '|'. */
  function RowLine(row: seq<int>): (s: string)
    ensures |s| == |row| + 2
    ensures s[0] == '|' && s[|s| - 1] == '|'
    ensures forall j :: 0 <= j < |row| ==> (s[j + 1] == ' ' <==> row[j] == 0)
    ensures forall j :: 0 <= j < |row| ==> (s[j + 1] == '#' <==> row[j] != 0)
  {
    "|" + seq(|row|, j requires 0 <= j < |row| => CellChar(row[j])) + "|"
  }

  /** `render_board`: the lines it prints, in order. */
  function RenderBoard(b: Board): (lines: seq<string>)
    requires |b| > 0
    ensures |lines| == |b| + 2
    ensures lines[0] == Repeat('_', |b[0]| + 2)
    ensures lines[|lines| - 1] == Repeat('-', |b[0]| + 2)
    ensures forall i :: 0 <= i < |b| ==> lines[i + 1] == RowLine(b[i])
    ensures Rectangular(b, |b[0]|) ==> forall i :: 0 <= i < |lines| ==> |lines[i]| == |b[0]| + 2
  {
    [Repeat('_', |b[0]| + 2)]
    + seq(|b|, i requires 0 <= i < |b| => RowLine(b[i]))
    + [Repeat('-', |b[0]| + 2)]
  }

  /** Reads the cells back from one framed row line. */
  function ParseRow(s: string): (row: seq<int>)
    requires 2 <= |s|
    ensures |row| == |s| - 2
  {
    seq(|s| - 2, j requires 0 <= j < |s| - 2 => if s[j + 1] == ' ' then 0 else 1)
  }

  /** Reads a board back from rendered lines, dropping the two rules. */
  function ParseBoard(lines: seq<string>): (b: Board)
    requires 2 <= |lines|
    requires forall i :: 0 < i < |lines| - 1 ==> 2 <= |lines[i]|
    ensures |b| == |lines| - 2
  {
    seq(|lines| - 2, i requires 0 <= i < |lines| - 2 => ParseRow(lines[i + 1]))
  }

  /** Every cell is 0 or 1, the values a Game of Life step produces. */
  predicate Binary(b: Board)
  {
    forall i, j :: 0 <= i < |b| && 0 <= j < |b[i]| ==> b[i][j] == 0 || b[i][j] == 1
  }

  /** A row line of 0/1 cells reads back as the row. */
  lemma RowRoundTrip(row: seq<int>)
    requires forall j :: 0 <= j < |row| ==> row[j] == 0 || row[j] == 1
    ensures ParseRow(RowLine(row)) == row
  {
    var back := ParseRow(RowLine(row));
    forall j | 0 <= j < |row|
      ensures back[j] == row[j]
    {
    }
  }

  /** Rendering loses nothing on a 0/1 board: the cells can be read back. */
  lemma RenderRoundTrip(b: Board)
    requires |b| > 0
    requires Binary(b)
    ensures ParseBoard(RenderBoard(b)) == b
  {
    var lines := RenderBoard(b);
    var back := ParseBoard(lines);
    forall i | 0 <= i < |b|
      ensures back[i] == b[i]
    {
      assert lines[i + 1] == RowLine(b[i]);
      RowRoundTrip(b[i]);
    }
  }
}
