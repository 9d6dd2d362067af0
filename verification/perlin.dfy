/**
 Perlin-style gradient noise: the duplicated permutation table, the
 integer lattice-gradient hashes, the quintic fade curve, linear
 interpolation and the 1D and 2D evaluators. Floats are idealised as
 exact reals; the shuffle is an input.
 */
module PerlinNoise {

  /** The ordered list `list(range(n))`. */
  function Range(n: nat): (s: seq<int>)
    ensures |s| == n
    ensures forall i :: 0 <= i < n ==> s[i] == i
  {
    seq(n, i => i)
  }

  /** Every value below `n` occurs once in `range(n)`, and nothing else occurs. */
  lemma {:induction false} RangeCounts(n: nat, v: int)
    ensures multiset(Range(n))[v] == if 0 <= v < n then 1 else 0
  {
    if n > 0 {
      RangeCounts(n - 1, v);
      assert Range(n) == Range(n - 1) + [n - 1];
    }
  }

  /** What a shuffle of `range(256)` delivers: the same multiset in some order. */
  predicate IsShuffle(s: seq<int>)
  {
    multiset(s) == multiset(Range(256))
  }

  /** A shuffle holds 256 entries, each of 0..255 exactly once. */
  lemma ShuffleContents(s: seq<int>)
    requires IsShuffle(s)
    ensures |s| == 256
    ensures forall i :: 0 <= i < |s| ==> 0 <= s[i] < 256
    ensures forall v :: 0 <= v < 256 ==> multiset(s)[v] == 1
  {
    assert |s| == |multiset(s)| == |multiset(Range(256))| == 256;
    forall v | 0 <= v < 256
      ensures multiset(s)[v] == 1
    {
      RangeCounts(256, v);
    }
    forall i | 0 <= i < |s|
      ensures 0 <= s[i] < 256
    {
      assert s[i] in multiset(s);
      RangeCounts(256, s[i]);
    }
  }

  /** The table's defining shape: 512 entries whose second half repeats the first. */
  predicate IsTable(p: seq<int>)
  {
    |p| == 512 && forall i :: 0 <= i < 256 ==> p[i] == p[i + 256]
  }

  /** `generate_permutation_table`, with the shuffled list passed in. */
  function PermutationTable(shuffled: seq<int>): (p: seq<int>)
    requires IsShuffle(shuffled)
    ensures IsTable(p)
    ensures p[..256] == shuffled
    ensures forall i :: 0 <= i < |p| ==> 0 <= p[i] < 256
    ensures forall v :: 0 <= v < 256 ==> multiset(p[..256])[v] == 1
    ensures forall v :: 0 <= v < 256 ==> multiset(p)[v] == 2
  {
    ShuffleContents(shuffled);
    assert multiset(shuffled + shuffled) == multiset(shuffled) + multiset(shuffled);
    shuffled + shuffled
  }

  /** Python's `xs[i]`: a negative index counts back from the end. */
  function PyIndex(xs: seq<int>, i: int): int
    requires -|xs| <= i < |xs|
  {
    if i >= 0 then xs[i] else xs[|xs| + i]
  }

  /** `get_gradient_1d`: the table is indexed directly, without reduction. */
  function Gradient1D(i: int, p: seq<int>): (g: int)
    requires -|p| <= i < |p|
    ensures g == 1 || g == -1
    ensures g == 1 <==> PyIndex(p, i) % 2 == 0
  {
    if PyIndex(p, i) % 2 == 0 then 1 else -1
  }

  /** The four 2D gradients, in the order the hash selects them. */
  const Gradients: seq<(int, int)> := [(1, 1), (-1, 1), (-1, -1), (1, -1)]

  /** `get_gradient_2d`: both lookups are reduced modulo 256 first. */
  function Gradient2D(ix: int, iy: int, p: seq<int>): (g: (int, int))
    requires |p| >= 256
    ensures g in Gradients
    ensures g == Gradients[p[(p[ix % 256] + iy) % 256] % 4]
  {
    var x0 := p[ix % 256];
    var index := p[(x0 + iy) % 256];
    var gradient := index % 4;
    if gradient == 0 then (1, 1)
    else if gradient == 1 then (-1, 1)
    else if gradient == 2 then (-1, -1)
    else if gradient == 3 then (1, -1)
    else assert false; (0, 0)
  }

  lemma ModShift(a: int, k: int)
    ensures (a + 256 * k) % 256 == a % 256
  {
    var q := a / 256;
    var r := a % 256;
    assert a + 256 * k == 256 * (q + k) + r;
  }

  /** The 2D hash repeats every 256 lattice cells along both axes. */
  lemma Gradient2DPeriodic(ix: int, iy: int, k: int, m: int, p: seq<int>)
    requires |p| >= 256
    ensures Gradient2D(ix + 256 * k, iy + 256 * m, p) == Gradient2D(ix, iy, p)
  {
    ModShift(ix, k);
    var x0 := p[ix % 256];
    ModShift(x0 + iy, m);
    assert x0 + (iy + 256 * m) == (x0 + iy) + 256 * m;
  }

  /** The duplicated half of the table yields the same 1D gradients. */
  lemma Gradient1DDuplicated(i: int, p: seq<int>)
    requires IsTable(p)
    requires 0 <= i < 256
    ensures Gradient1D(i + 256, p) == Gradient1D(i, p)
  {
  }

  /** Python's `int(x)` on a float: truncation toward zero. */
  function Trunc(x: real): (n: int)
    ensures 0.0 <= x ==> n as real <= x < n as real + 1.0
    ensures x < 0.0 ==> n as real - 1.0 < x <= n as real
  {
    if x >= 0.0 then x.Floor else -((-x).Floor)
  }

  lemma MulNonNegative(a: real, b: real)
    requires 0.0 <= a && 0.0 <= b
    ensures 0.0 <= a * b
  {
  }

  lemma SquareNonNegative(a: real)
    ensures 0.0 <= a * a
  {
    if a < 0.0 {
      MulNonNegative(-a, -a);
    }
  }

  /** `lerp`: moves from `a` toward `b` by the fraction `t`. */
  function Lerp(a: real, b: real, t: real): (r: real)
    ensures t == 0.0 ==> r == a
    ensures t == 1.0 ==> r == b
  {
    a + t * (b - a)
  }

  /** For a fraction in [0, 1], `lerp` never leaves the interval between its endpoints. */
  lemma LerpBetween(a: real, b: real, t: real)
    requires 0.0 <= t <= 1.0
    ensures a <= b ==> a <= Lerp(a, b, t) <= b
    ensures b <= a ==> b <= Lerp(a, b, t) <= a
  {
    if a <= b {
      MulNonNegative(t, b - a);
      MulNonNegative(1.0 - t, b - a);
    } else {
      MulNonNegative(t, a - b);
      MulNonNegative(1.0 - t, a - b);
    }
  }

  /** `smooth`: the quintic fade 6t^5 - 15t^4 + 10t^3 in Horner form. */
  function Smooth(t: real): (r: real)
    ensures t == 0.0 ==> r == 0.0
    ensures t == 1.0 ==> r == 1.0
    ensures t == 0.5 ==> r == 0.5
  {
    t * t * t * (t * (t * 6.0 - 15.0) + 10.0)
  }

  /** The fade curve is point-symmetric about (1/2, 1/2). */
  lemma SmoothSymmetric(t: real)
    ensures Smooth(1.0 - t) == 1.0 - Smooth(t)
  {
    var u := 1.0 - t;
    assert u * u == 1.0 - 2.0 * t + t * t;
    assert u * u * u == 1.0 - 3.0 * t + 3.0 * t * t - t * t * t;
  }

  /** The fade is non-negative on the right half-line. */
  lemma SmoothNonNegative(t: real)
    requires 0.0 <= t
    ensures 0.0 <= Smooth(t)
  {
    var c := t * (t * 6.0 - 15.0) + 10.0;
    SquareNonNegative(t - 1.25);
    assert c == 6.0 * ((t - 1.25) * (t - 1.25)) + 0.625;
    MulNonNegative(t, t);
    MulNonNegative(t * t, t);
    MulNonNegative(t * t * t, c);
  }

  /** On [0, 1] the fade stays within [0, 1]. */
  lemma SmoothBounds(t: real)
    requires 0.0 <= t <= 1.0
    ensures 0.0 <= Smooth(t) <= 1.0
  {
    SmoothNonNegative(t);
    SmoothNonNegative(1.0 - t);
    SmoothSymmetric(t);
  }

  /** The two table reads of `generate_1d_noise` index within the list. */
  predicate InDomain1D(x: real, p: seq<int>)
  {
    -|p| <= Trunc(x) && Trunc(x) + 1 < |p|
  }

  /**
   The 1D field on the cell with base corner `x0`: the polynomial that
   `generate_1d_noise` evaluates once it has fixed `x0 = int(x)`. It
   vanishes at both corners of the cell.
   */
  function Cell1D(x0: int, x: real, p: seq<int>): (r: real)
    requires -|p| <= x0 && x0 + 1 < |p|
    ensures x == x0 as real ==> r == 0.0
    ensures x == (x0 + 1) as real ==> r == 0.0
  {
    var x1 := x0 + 1;
    var g0 := Gradient1D(x0, p);
    var g1 := Gradient1D(x1, p);
    var v0 := g0 as real * (x - x0 as real);
    var v1 := g1 as real * (x - x1 as real);
    var t := x - x0 as real;
    Lerp(v0, v1, Smooth(t))
  }

  /** `generate_1d_noise`: the cell polynomial of the truncated coordinate. */
  function Noise1D(x: real, p: seq<int>): (r: real)
    requires InDomain1D(x, p)
    ensures x == Trunc(x) as real ==> r == 0.0
  {
    Cell1D(Trunc(x), x, p)
  }

  /** For x in [n, n + 1) with n >= 0 the 1D field is the polynomial of cell n. */
  lemma Noise1DOnCell(n: nat, x: real, p: seq<int>)
    requires n as real <= x < n as real + 1.0
    requires n + 1 < |p|
    ensures InDomain1D(x, p)
    ensures Noise1D(x, p) == Cell1D(n, x, p)
  {
    assert Trunc(x) == n;
  }

  /**
   Neighbouring cells meet: the polynomial of the cell left of the lattice
   point n takes the field's own value there.
   */
  lemma Noise1DContinuous(n: int, p: seq<int>)
    requires -|p| <= n - 1 && n + 1 < |p|
    ensures InDomain1D(n as real, p)
    ensures Cell1D(n - 1, n as real, p) == Noise1D(n as real, p)
  {
    assert Trunc(n as real) == n;
  }

  /**
   Below zero truncation moves the cell base to the corner nearer zero, so
   the cells no longer meet: on (-1, 0) the field is the polynomial of cell
   0, which at -1 differs from the field's value 0 there.
   */
  lemma Noise1DJumpsAtMinusOne(p: seq<int>)
    requires 2 <= |p|
    ensures forall x: real :: -1.0 < x < 0.0 ==> InDomain1D(x, p) && Noise1D(x, p) == Cell1D(0, x, p)
    ensures InDomain1D(-1.0, p) && Noise1D(-1.0, p) == 0.0
    ensures Cell1D(0, -1.0, p) != 0.0
  {
    forall x: real | -1.0 < x < 0.0
      ensures Trunc(x) == 0
    {
    }
    assert Trunc(-1.0) == -1;
    var g0 := Gradient1D(0, p) as real;
    var g1 := Gradient1D(1, p) as real;
    assert Smooth(-1.0) == -31.0;
    assert Cell1D(0, -1.0, p) == -32.0 * g0 + 62.0 * g1;
  }

  /** For non-negative sample points the 1D field stays within [-1, 1]. */
  lemma Noise1DBounded(x: real, p: seq<int>)
    requires InDomain1D(x, p)
    requires 0.0 <= x
    ensures -1.0 <= Noise1D(x, p) <= 1.0
  {
    var x0 := Trunc(x);
    var t := x - x0 as real;
    var v0 := Gradient1D(x0, p) as real * t;
    var v1 := Gradient1D(x0 + 1, p) as real * (t - 1.0);
    assert -1.0 <= v0 <= 1.0 && -1.0 <= v1 <= 1.0;
    SmoothBounds(t);
    LerpBetween(v0, v1, Smooth(t));
  }

  /** Dot product of an integer gradient with a real offset. */
  function Dot(g: (int, int), dx: real, dy: real): real
  {
    g.0 as real * dx + g.1 as real * dy
  }

  /** The influence of lattice corner (ix, iy): its gradient dotted with the offset to (x, y). */
  function Corner(ix: int, iy: int, x: real, y: real, p: seq<int>): real
    requires |p| >= 256
  {
    Dot(Gradient2D(ix, iy, p), x - ix as real, y - iy as real)
  }

  /**
   The 2D field on the cell with top-left corner (ix0, iy0): the four corner
   influences blended along x, then along y, as `generate_2d_noise` does once
   it has fixed `ix0 = int(x)` and `iy0 = int(y)`. It vanishes at the cell's
   top-left corner.
   */
  function Cell2D(ix0: int, iy0: int, x: real, y: real, p: seq<int>): (r: real)
    requires |p| >= 256
    ensures x == ix0 as real && y == iy0 as real ==> r == 0.0
  {
    var dotTL := Corner(ix0, iy0, x, y, p);
    var dotTR := Corner(ix0 + 1, iy0, x, y, p);
    var dotBL := Corner(ix0, iy0 + 1, x, y, p);
    var dotBR := Corner(ix0 + 1, iy0 + 1, x, y, p);
    var smoothX := Smooth(x - ix0 as real);
    var smoothY := Smooth(y - iy0 as real);
    var top := Lerp(dotTL, dotTR, smoothX);
    var bottom := Lerp(dotBL, dotBR, smoothX);
    Lerp(top, bottom, smoothY)
  }

  /** `generate_2d_noise`: the cell blend around the truncated point. */
  function Noise2D(x: real, y: real, p: seq<int>): (r: real)
    requires |p| >= 256
    ensures x == Trunc(x) as real && y == Trunc(y) as real ==> r == 0.0
  {
    Cell2D(Trunc(x), Trunc(y), x, y, p)
  }

  /** For non-negative points in [ix, ix + 1) x [iy, iy + 1) the 2D field is the blend of that cell. */
  lemma Noise2DOnCell(ix: nat, iy: nat, x: real, y: real, p: seq<int>)
    requires ix as real <= x < ix as real + 1.0 && iy as real <= y < iy as real + 1.0
    requires |p| >= 256
    ensures Noise2D(x, y, p) == Cell2D(ix, iy, x, y, p)
  {
    assert Trunc(x) == ix && Trunc(y) == iy;
  }

  /** Horizontally neighbouring cells agree along their shared edge x = n. */
  lemma Cell2DEdgeX(n: int, iy0: int, y: real, p: seq<int>)
    requires |p| >= 256
    ensures Cell2D(n - 1, iy0, n as real, y, p) == Cell2D(n, iy0, n as real, y, p)
  {
    assert n as real - (n - 1) as real == 1.0;
    assert n as real - n as real == 0.0;
  }

  /** Vertically neighbouring cells agree along their shared edge y = n. */
  lemma Cell2DEdgeY(ix0: int, n: int, x: real, p: seq<int>)
    requires |p| >= 256
    ensures Cell2D(ix0, n - 1, x, n as real, p) == Cell2D(ix0, n, x, n as real, p)
  {
    assert n as real - (n - 1) as real == 1.0;
    assert n as real - n as real == 0.0;
  }

  /** A unit-diagonal gradient dotted with an offset of at most 1 per axis is at most 2 in size. */
  lemma DotBounded(g: (int, int), dx: real, dy: real)
    requires g in Gradients
    requires -1.0 <= dx <= 1.0 && -1.0 <= dy <= 1.0
    ensures -2.0 <= Dot(g, dx, dy) <= 2.0
  {
  }

  /** Interpolating twice between values in [-2, 2] with fractions in [0, 1] stays in [-2, 2]. */
  lemma LerpSquareBounded(a: real, b: real, c: real, d: real, s: real, t: real)
    requires -2.0 <= a <= 2.0 && -2.0 <= b <= 2.0 && -2.0 <= c <= 2.0 && -2.0 <= d <= 2.0
    requires 0.0 <= s <= 1.0 && 0.0 <= t <= 1.0
    ensures -2.0 <= Lerp(Lerp(a, b, s), Lerp(c, d, s), t) <= 2.0
  {
    LerpBetween(a, b, s);
    LerpBetween(c, d, s);
    LerpBetween(Lerp(a, b, s), Lerp(c, d, s), t);
  }

  /** For non-negative sample points the 2D field stays within [-2, 2]. */
  lemma Noise2DBounded(x: real, y: real, p: seq<int>)
    requires |p| >= 256
    requires 0.0 <= x && 0.0 <= y
    ensures -2.0 <= Noise2D(x, y, p) <= 2.0
  {
    var ix0 := Trunc(x);
    var iy0 := Trunc(y);
    var fx := x - ix0 as real;
    var fy := y - iy0 as real;
    DotBounded(Gradient2D(ix0, iy0, p), fx, fy);
    DotBounded(Gradient2D(ix0 + 1, iy0, p), x - (ix0 + 1) as real, fy);
    DotBounded(Gradient2D(ix0, iy0 + 1, p), fx, y - (iy0 + 1) as real);
    DotBounded(Gradient2D(ix0 + 1, iy0 + 1, p), x - (ix0 + 1) as real, y - (iy0 + 1) as real);
    SmoothBounds(fx);
    SmoothBounds(fy);
    LerpSquareBounded(
      Corner(ix0, iy0, x, y, p), Corner(ix0 + 1, iy0, x, y, p),
      Corner(ix0, iy0 + 1, x, y, p), Corner(ix0 + 1, iy0 + 1, x, y, p),
      Smooth(fx), Smooth(fy));
  }

  /** Every lattice point the 1D evaluator accepts is a zero of the 1D field. */
  lemma Noise1DLatticeZero(i: int, p: seq<int>)
    requires -|p| <= i && i + 1 < |p|
    ensures InDomain1D(i as real, p)
    ensures Noise1D(i as real, p) == 0.0
  {
    assert Trunc(i as real) == i;
  }

  /** A corner's influence is unchanged when corner and point move together by 256 cells. */
  lemma CornerPeriodic(ix: int, iy: int, x: real, y: real, k: int, m: int, p: seq<int>)
    requires |p| >= 256
    ensures Corner(ix + 256 * k, iy + 256 * m, x + 256.0 * k as real, y + 256.0 * m as real, p)
         == Corner(ix, iy, x, y, p)
  {
    Gradient2DPeriodic(ix, iy, k, m, p);
    assert (x + 256.0 * k as real) - (ix + 256 * k) as real == x - ix as real;
    assert (y + 256.0 * m as real) - (iy + 256 * m) as real == y - iy as real;
  }

  /** Shifting a non-negative sample point by 256 along x leaves the 2D field unchanged. */
  lemma Noise2DPeriodicX(x: real, y: real, p: seq<int>)
    requires |p| >= 256
    requires 0.0 <= x
    ensures Noise2D(x + 256.0, y, p) == Noise2D(x, y, p)
  {
    var ix0 := Trunc(x);
    var iy0 := Trunc(y);
    assert Trunc(x + 256.0) == ix0 + 256;
    assert x + 256.0 == x + 256.0 * 1 as real && y == y + 256.0 * 0 as real;
    CornerPeriodic(ix0, iy0, x, y, 1, 0, p);
    CornerPeriodic(ix0 + 1, iy0, x, y, 1, 0, p);
    CornerPeriodic(ix0, iy0 + 1, x, y, 1, 0, p);
    CornerPeriodic(ix0 + 1, iy0 + 1, x, y, 1, 0, p);
    assert (x + 256.0) - (ix0 + 256) as real == x - ix0 as real;
  }

  /** Shifting a non-negative sample point by 256 along y leaves the 2D field unchanged. */
  lemma Noise2DPeriodicY(x: real, y: real, p: seq<int>)
    requires |p| >= 256
    requires 0.0 <= y
    ensures Noise2D(x, y + 256.0, p) == Noise2D(x, y, p)
  {
    var ix0 := Trunc(x);
    var iy0 := Trunc(y);
    assert Trunc(y + 256.0) == iy0 + 256;
    assert y + 256.0 == y + 256.0 * 1 as real && x == x + 256.0 * 0 as real;
    CornerPeriodic(ix0, iy0, x, y, 0, 1, p);
    CornerPeriodic(ix0 + 1, iy0, x, y, 0, 1, p);
    CornerPeriodic(ix0, iy0 + 1, x, y, 0, 1, p);
    CornerPeriodic(ix0 + 1, iy0 + 1, x, y, 0, 1, p);
    assert (y + 256.0) - (iy0 + 256) as real == y - iy0 as real;
  }

  /** On a duplicated table the 1D field repeats with period 256 over the first half. */
  lemma Noise1DDuplicated(x: real, p: seq<int>)
    requires IsTable(p)
    requires 0.0 <= x < 255.0
    ensures InDomain1D(x, p) && InDomain1D(x + 256.0, p)
    ensures Noise1D(x + 256.0, p) == Noise1D(x, p)
  {
    var x0 := Trunc(x);
    assert Trunc(x + 256.0) == x0 + 256;
    Gradient1DDuplicated(x0, p);
    Gradient1DDuplicated(x0 + 1, p);
  }
}
