/**
 The ASCII shapes, as the lists of lines the drawing functions print.
 */
module DrawShapes {
  import opened Common

  /** `draw_triangle`: lines of 1, 2, ..., height - 1 stars. */
  method DrawTriangle(height: int) returns (lines: seq<string>)
    ensures |lines| == Max0(height - 1)
    ensures forall k :: 0 <= k < |lines| ==> lines[k] == Repeat('*', k + 1)
  {
    lines := [];
    var i := 1;
    while i < height
      invariant 1 <= i <= if height < 1 then 1 else height
      invariant |lines| == i - 1
      invariant forall k :: 0 <= k < |lines| ==> lines[k] == Repeat('*', k + 1)
    {
      lines := lines + [Repeat('*', i)];
      i := i + 1;
    }
  }

  /**
   `draw_pyramid`: one line per odd width below `height`, each padded on
   both sides by a margin that starts at `height // 2` and shrinks by one.
   */
  method DrawPyramid(height: int) returns (lines: seq<string>)
    ensures |lines| == Max0(height / 2)
    ensures forall k :: 0 <= k < |lines| ==>
      lines[k] == Repeat(' ', height / 2 - k) + Repeat('*', 2 * k + 1) + Repeat(' ', height / 2 - k)
    ensures forall k :: 0 <= k < |lines| ==> |lines[k]| == 2 * (height / 2) + 1
  {
    var count := height / 2;
    lines := [];
    var i := 1;
    while i < height
      invariant 1 <= i <= if height < 1 then 1 else height
      invariant |lines| == i / 2
      invariant count == height / 2 - |lines|
      invariant forall k :: 0 <= k < |lines| ==>
        lines[k] == Repeat(' ', height / 2 - k) + Repeat('*', 2 * k + 1) + Repeat(' ', height / 2 - k)
    {
      if i % 2 != 0 {
        lines := lines + [Repeat(' ', count) + Repeat('*', i) + Repeat(' ', count)];
        count := count - 1;
      }
      i := i + 1;
    }
  }

  /** `draw_square`: `height` lines of `height` stars. */
  method DrawSquare(height: int) returns (lines: seq<string>)
    ensures |lines| == Max0(height)
    ensures forall k :: 0 <= k < |lines| ==> lines[k] == Repeat('*', height)
  {
    lines := [];
    var i := 1;
    while i < height + 1
      invariant 1 <= i <= if height < 0 then 1 else height + 1
      invariant |lines| == i - 1
      invariant forall k :: 0 <= k < |lines| ==> lines[k] == Repeat('*', height)
    {
      lines := lines + [Repeat('*', height)];
      i := i + 1;
    }
  }
}
