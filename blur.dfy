/** The box-blur engine: one in-place pass with edge-clamped neighbours, and the
    derivation of the three pass radii from the blur amount. */
module Blur {
  import opened Utils
  import opened Arith
  import opened Buffer

  // ---------------------------------------------------------------- sweeps

  /** The new value of pixel (x, y), computed from the image as it is now. */
  type PixelRule = (seq<Pixel>, nat, nat) -> Pixel

  /** The first n steps over row y of an in-place row-major sweep: each step
      overwrites the colour of one pixel with that of the rule applied to the CURRENT
      image, so it sees the neighbours earlier steps have already rewritten, and keeps
      the alpha the pixel had when its step began. */
  function SweepCols(g: seq<Pixel>, w: nat, h: nat, f: PixelRule, y: nat, n: nat): (t: seq<Pixel>)
    requires |g| == Area(w, h) && n <= w && y < h
    ensures |t| == |g|
  {
    if n == 0 then g
    else
      var prev := SweepCols(g, w, h, f, y, n - 1);
      CellBound(w, h, n - 1, y);
      var q := f(prev, n - 1, y);
      prev[Cell(w, n - 1, y) := Pixel(q.r, q.g, q.b, prev[Cell(w, n - 1, y)].alpha)]
  }

  /** The first m rows of the sweep. */
  function SweepRows(g: seq<Pixel>, w: nat, h: nat, f: PixelRule, m: nat): (t: seq<Pixel>)
    requires |g| == Area(w, h) && m <= h
    ensures |t| == |g|
  {
    if m == 0 then g else SweepCols(SweepRows(g, w, h, f, m - 1), w, h, f, m - 1, w)
  }

  /** a and b agree on every pixel's alpha. */
  ghost predicate SameAlpha(a: seq<Pixel>, b: seq<Pixel>)
  {
    |a| == |b| && forall k :: 0 <= k < |a| ==> a[k].alpha == b[k].alpha
  }

  lemma SameAlphaTrans(a: seq<Pixel>, b: seq<Pixel>, c: seq<Pixel>)
    requires SameAlpha(a, b) && SameAlpha(b, c)
    ensures SameAlpha(a, c)
  {
  }

  lemma {:induction false} ColsKeepAlpha(g: seq<Pixel>, w: nat, h: nat, f: PixelRule, y: nat, n: nat)
    requires |g| == Area(w, h) && n <= w && y < h
    ensures SameAlpha(SweepCols(g, w, h, f, y, n), g)
  {
    if n > 0 {
      ColsKeepAlpha(g, w, h, f, y, n - 1);
      CellBound(w, h, n - 1, y);
    }
  }

  lemma {:induction false} RowsKeepAlpha(g: seq<Pixel>, w: nat, h: nat, f: PixelRule, m: nat)
    requires |g| == Area(w, h) && m <= h
    ensures SameAlpha(SweepRows(g, w, h, f, m), g)
  {
    if m > 0 {
      var prev := SweepRows(g, w, h, f, m - 1);
      RowsKeepAlpha(g, w, h, f, m - 1);
      ColsKeepAlpha(prev, w, h, f, m - 1, w);
      SameAlphaTrans(SweepCols(prev, w, h, f, m - 1, w), prev, g);
    }
  }

  /** Every pixel of g is already what the rule would write. */
  ghost predicate Fixes(f: PixelRule, g: seq<Pixel>, w: nat, h: nat)
    requires |g| == Area(w, h)
  {
    forall x: nat, y: nat :: x < w && y < h && Cell(w, x, y) < |g| ==> f(g, x, y) == g[Cell(w, x, y)]
  }

  lemma {:induction false} FixedCols(g: seq<Pixel>, w: nat, h: nat, f: PixelRule, y: nat, n: nat)
    requires |g| == Area(w, h) && n <= w && y < h && Fixes(f, g, w, h)
    ensures SweepCols(g, w, h, f, y, n) == g
  {
    if n > 0 {
      FixedCols(g, w, h, f, y, n - 1);
      CellBound(w, h, n - 1, y);
    }
  }

  lemma {:induction false} FixedRows(g: seq<Pixel>, w: nat, h: nat, f: PixelRule, m: nat)
    requires |g| == Area(w, h) && m <= h && Fixes(f, g, w, h)
    ensures SweepRows(g, w, h, f, m) == g
  {
    if m > 0 {
      FixedRows(g, w, h, f, m - 1);
      FixedCols(g, w, h, f, m - 1, w);
    }
  }

  // ---------------------------------------------------------------- the box

  /** The largest radius whose colour totals fit the pass's u32 accumulators. */
  const MaxRadius: nat := 2051

  /** The radius and the image sides keep every coordinate of the pass inside i32
      and every colour total inside u32. */
  predicate InRange(w: nat, h: nat, r: nat)
  {
    r <= MaxRadius && w + r < 0x8000_0000 && h + r < 0x8000_0000
  }

  /** The i32-to-u32 cast on the coordinates the pass produces: a negative one wraps. */
  function AsU32(v: int): (u: nat)
    requires -0x8000_0000 <= v < 0x1_0000_0000
    ensures u < 0x1_0000_0000
  {
    if v < 0 then v + 0x1_0000_0000 else v
  }

  /** A neighbour coordinate as the pass computes it, `min(n - 1, max(0, v as u32))`:
      the cast turns a negative coordinate into a huge one, so it lands on the far edge. */
  function Clamp(v: int, n: nat): (c: nat)
    requires 0 < n <= 0x8000_0000 && -0x8000_0000 <= v < 0x1_0000_0000
    ensures c < n
    ensures v < 0 ==> c == n - 1
    ensures 0 <= v < n ==> c == v
    ensures n <= v ==> c == n - 1
  {
    var u := AsU32(v);
    if u < n - 1 then u else n - 1
  }

  /** Running colour totals of the pass (r_total, g_total, b_total). */
  datatype Totals = Totals(r: nat, g: nat, b: nat)

  /** Totals of the first n neighbours of row y, starting at column x0. */
  function RowTotals(g: seq<Pixel>, w: nat, h: nat, x0: int, y: nat, n: nat): (t: Totals)
    requires |g| == Area(w, h) && 0 < w <= 0x8000_0000 && y < h
    requires -0x8000_0000 <= x0 && x0 + n <= 0x1_0000_0000
    ensures t.r <= 255 * n && t.g <= 255 * n && t.b <= 255 * n
  {
    if n == 0 then Totals(0, 0, 0)
    else
      var t := RowTotals(g, w, h, x0, y, n - 1);
      var c := Clamp(x0 + n - 1, w);
      CellBound(w, h, c, y);
      var p := g[Cell(w, c, y)];
      Totals(t.r + p.r, t.g + p.g, t.b + p.b)
  }

  /** Totals of the first m rows of a box `side` neighbours wide with corner (x0, y0). */
  function BoxTotals(g: seq<Pixel>, w: nat, h: nat, x0: int, y0: int, side: nat, m: nat): Totals
    requires |g| == Area(w, h) && 0 < w <= 0x8000_0000 && 0 < h <= 0x8000_0000
    requires -0x8000_0000 <= x0 && x0 + side <= 0x1_0000_0000
    requires -0x8000_0000 <= y0 && y0 + m <= 0x1_0000_0000
  {
    if m == 0 then Totals(0, 0, 0)
    else
      var t := BoxTotals(g, w, h, x0, y0, side, m - 1);
      var row := RowTotals(g, w, h, x0, Clamp(y0 + m - 1, h), side);
      Totals(t.r + row.r, t.g + row.g, t.b + row.b)
  }

  /** Each channel of a box adds at most 255 per neighbour. */
  lemma {:induction false} BoxBound(g: seq<Pixel>, w: nat, h: nat, x0: int, y0: int, side: nat, m: nat)
    requires |g| == Area(w, h) && 0 < w <= 0x8000_0000 && 0 < h <= 0x8000_0000
    requires -0x8000_0000 <= x0 && x0 + side <= 0x1_0000_0000
    requires -0x8000_0000 <= y0 && y0 + m <= 0x1_0000_0000
    ensures var t := BoxTotals(g, w, h, x0, y0, side, m);
      t.r <= 255 * Area(side, m) && t.g <= 255 * Area(side, m) && t.b <= 255 * Area(side, m)
  {
    if m > 0 {
      BoxBound(g, w, h, x0, y0, side, m - 1);
    }
  }

  /** The truncated mean of `count` channel values adding up to `total`. */
  function Mean(total: nat, count: nat): byte
    requires 0 < count && total <= 255 * count
  {
    DivBound(total, count, 255);
    total / count
  }

  /** The pixel the pass writes at (x, y): the truncated mean of each colour over the
      (2r+1) x (2r+1) box around it (`Area(side, side)` neighbours), with the pixel's own
      alpha. */
  function Averaged(g: seq<Pixel>, w: nat, h: nat, r: nat, x: nat, y: nat): (p: Pixel)
    requires |g| == Area(w, h) && x < w && y < h && InRange(w, h, r)
    ensures Cell(w, x, y) < |g| && p.alpha == g[Cell(w, x, y)].alpha
  {
    CellBound(w, h, x, y);
    var side := 2 * r + 1;
    var t := BoxTotals(g, w, h, x - r, y - r, side, side);
    BoxBound(g, w, h, x - r, y - r, side, side);
    var count := Area(side, side);
    Pixel(Mean(t.r, count), Mean(t.g, count), Mean(t.b, count), g[Cell(w, x, y)].alpha)
  }

  /** `total_ct`, the number of neighbours in a box of radius r: `(2r+1)^2` on i32, cast
      to u32; both hold it, and 255 for each neighbour still fits u32. */
  function BoxCount(r: nat): (n: u32)
    requires r <= MaxRadius
    ensures n as int == Area(2 * r + 1, 2 * r + 1)
    ensures 0 < n && 255 * Area(2 * r + 1, 2 * r + 1) < 0x1_0000_0000
  {
    var side := 2 * r + 1;
    AreaValue(side, side);
    SquareMono(side, 2 * MaxRadius + 1);
    assert side * side >= side by { MulMono(1, side, side); }
    (side * side) as u32
  }

  /** After m < 2r+1 rows of the box, a whole row more (255 at most for each of its
      2r+1 neighbours) still fits u32. */
  lemma BoxRowFits(g: seq<Pixel>, w: nat, h: nat, r: nat, x0: int, y0: int, m: nat)
    requires |g| == Area(w, h) && 0 < w <= 0x8000_0000 && 0 < h <= 0x8000_0000 && r <= MaxRadius
    requires -0x8000_0000 <= x0 && x0 + 2 * r + 1 <= 0x1_0000_0000
    requires -0x8000_0000 <= y0 && y0 + 2 * r + 1 <= 0x1_0000_0000 && m < 2 * r + 1
    ensures var b := BoxTotals(g, w, h, x0, y0, 2 * r + 1, m);
      b.r + 255 * (2 * r + 1) < 0x1_0000_0000 && b.g + 255 * (2 * r + 1) < 0x1_0000_0000 &&
      b.b + 255 * (2 * r + 1) < 0x1_0000_0000
  {
    var side := 2 * r + 1;
    BoxBound(g, w, h, x0, y0, side, m);
    CellRowMono(side, m + 1, side);
    var count := BoxCount(r);
  }

  /** The next neighbour of a row: the pixel at the clamped (ix, y) extends the row's
      totals. */
  lemma RowStep(g: seq<Pixel>, w: nat, h: nat, x0: int, y: nat, n: nat, ix: int)
    requires |g| == Area(w, h) && 0 < w <= 0x8000_0000 && y < h
    requires -0x8000_0000 <= x0 && x0 + n + 1 <= 0x1_0000_0000 && ix == x0 + n
    ensures Cell(w, Clamp(ix, w), y) < |g|
    ensures var row := RowTotals(g, w, h, x0, y, n);
      var q := g[Cell(w, Clamp(ix, w), y)];
      RowTotals(g, w, h, x0, y, n + 1) == Totals(row.r + q.r, row.g + q.g, row.b + q.b)
  {
    CellBound(w, h, Clamp(ix, w), y);
  }

  /** Once the n = side neighbours of row m of the box are added up, the totals are
      those of m + 1 rows. */
  lemma BoxRowEnd(g: seq<Pixel>, w: nat, h: nat, x0: int, y0: int, side: nat, m: nat, n: nat, iy: int)
    requires |g| == Area(w, h) && 0 < w <= 0x8000_0000 && 0 < h <= 0x8000_0000
    requires -0x8000_0000 <= x0 && x0 + side <= 0x1_0000_0000
    requires -0x8000_0000 <= y0 && y0 + m + 1 <= 0x1_0000_0000 && iy == y0 + m && n == side
    ensures var b := BoxTotals(g, w, h, x0, y0, side, m);
      var row := RowTotals(g, w, h, x0, Clamp(iy, h), n);
      BoxTotals(g, w, h, x0, y0, side, m + 1) == Totals(b.r + row.r, b.g + row.g, b.b + row.b)
  {
  }

  /** Once all m = 2r+1 rows of the box are added up, dividing by `total_ct` gives the
      pass's pixel: every quotient is a byte, and the alpha is the pixel's own. */
  lemma BoxMean(g: seq<Pixel>, w: nat, h: nat, r: nat, x: nat, y: nat, m: nat, t: Totals)
    requires |g| == Area(w, h) && x < w && y < h && InRange(w, h, r) && m == 2 * r + 1
    requires t == BoxTotals(g, w, h, x - r, y - r, 2 * r + 1, m)
    ensures Cell(w, x, y) < |g|
    ensures t.r <= 255 * BoxCount(r) as int && t.g <= 255 * BoxCount(r) as int && t.b <= 255 * BoxCount(r) as int
    ensures Averaged(g, w, h, r, x, y) ==
      Pixel(Mean(t.r, BoxCount(r) as nat), Mean(t.g, BoxCount(r) as nat), Mean(t.b, BoxCount(r) as nat), g[Cell(w, x, y)].alpha)
  {
    CellBound(w, h, x, y);
    BoxBound(g, w, h, x - r, y - r, 2 * r + 1, m);
  }

  /** The rule of a box-blur pass of radius r. */
  function BoxRule(w: nat, h: nat, r: nat): PixelRule
  {
    (t: seq<Pixel>, x: nat, y: nat) =>
      if |t| == Area(w, h) && x < w && y < h && InRange(w, h, r) then Averaged(t, w, h, r, x, y)
      else Pixel(0, 0, 0, 0)
  }

  /** Step n of row y of a pass: pixel (n, y) takes the colours of its box in the image
      as the earlier steps left it. */
  lemma PassStep(g: seq<Pixel>, w: nat, h: nat, r: nat, y: nat, n: nat)
    requires |g| == Area(w, h) && InRange(w, h, r) && n < w && y < h
    ensures var prev := SweepCols(g, w, h, BoxRule(w, h, r), y, n);
      var a := Averaged(prev, w, h, r, n, y);
      Cell(w, n, y) < |prev| &&
      SweepCols(g, w, h, BoxRule(w, h, r), y, n + 1) == prev[Cell(w, n, y) := Pixel(a.r, a.g, a.b, prev[Cell(w, n, y)].alpha)]
  {
    CellBound(w, h, n, y);
  }

  /** One whole box-blur pass of radius r: row-major, in place. */
  function BlurPass(g: seq<Pixel>, w: nat, h: nat, r: nat): (t: seq<Pixel>)
    requires |g| == Area(w, h) && InRange(w, h, r)
    ensures |t| == |g|
  {
    SweepRows(g, w, h, BoxRule(w, h, r), h)
  }

  /** A pass never changes any pixel's alpha. */
  lemma BlurPassKeepsAlpha(g: seq<Pixel>, w: nat, h: nat, r: nat, x: nat, y: nat)
    requires |g| == Area(w, h) && InRange(w, h, r) && x < w && y < h
    ensures Cell(w, x, y) < |g| && BlurPass(g, w, h, r)[Cell(w, x, y)].alpha == g[Cell(w, x, y)].alpha
  {
    RowsKeepAlpha(g, w, h, BoxRule(w, h, r), h);
    CellBound(w, h, x, y);
  }

  /** With radius 0 the box around a pixel is the pixel alone. */
  lemma RadiusZeroAveraged(g: seq<Pixel>, w: nat, h: nat, x: nat, y: nat)
    requires |g| == Area(w, h) && InRange(w, h, 0) && x < w && y < h
    ensures Cell(w, x, y) < |g| && Averaged(g, w, h, 0, x, y) == g[Cell(w, x, y)]
  {
    CellBound(w, h, x, y);
    assert Clamp(x, w) == x && Clamp(y, h) == y;
    assert BoxTotals(g, w, h, x, y, 1, 1) == RowTotals(g, w, h, x, y, 1);
  }

  /** A pass of radius 0 is the identity: each box is the pixel itself. */
  lemma BlurRadiusZero(g: seq<Pixel>, w: nat, h: nat)
    requires |g| == Area(w, h) && InRange(w, h, 0)
    ensures BlurPass(g, w, h, 0) == g
  {
    forall x: nat, y: nat | x < w && y < h && Cell(w, x, y) < |g|
      ensures BoxRule(w, h, 0)(g, x, y) == g[Cell(w, x, y)]
    {
      RadiusZeroAveraged(g, w, h, x, y);
    }
    FixedRows(g, w, h, BoxRule(w, h, 0), h);
  }

  /** Every pixel of g is p. */
  ghost predicate Uniform(g: seq<Pixel>, w: nat, h: nat, p: Pixel)
    requires |g| == Area(w, h)
  {
    forall x: nat, y: nat :: x < w && y < h && Cell(w, x, y) < |g| ==> g[Cell(w, x, y)] == p
  }

  lemma {:induction false} UniformRow(g: seq<Pixel>, w: nat, h: nat, p: Pixel, x0: int, y: nat, n: nat)
    requires |g| == Area(w, h) && 0 < w <= 0x8000_0000 && y < h && Uniform(g, w, h, p)
    requires -0x8000_0000 <= x0 && x0 + n <= 0x1_0000_0000
    ensures var t := RowTotals(g, w, h, x0, y, n); t.r == p.r * n && t.g == p.g * n && t.b == p.b * n
  {
    if n > 0 {
      UniformRow(g, w, h, p, x0, y, n - 1);
      CellBound(w, h, Clamp(x0 + n - 1, w), y);
      Distrib(p.r, n - 1, 1);
      Distrib(p.g, n - 1, 1);
      Distrib(p.b, n - 1, 1);
    }
  }

  lemma {:induction false} UniformBox(g: seq<Pixel>, w: nat, h: nat, p: Pixel, x0: int, y0: int, side: nat, m: nat)
    requires |g| == Area(w, h) && 0 < w <= 0x8000_0000 && 0 < h <= 0x8000_0000 && Uniform(g, w, h, p)
    requires -0x8000_0000 <= x0 && x0 + side <= 0x1_0000_0000
    requires -0x8000_0000 <= y0 && y0 + m <= 0x1_0000_0000
    ensures var t := BoxTotals(g, w, h, x0, y0, side, m);
      t.r == p.r * Area(side, m) && t.g == p.g * Area(side, m) && t.b == p.b * Area(side, m)
  {
    if m > 0 {
      UniformBox(g, w, h, p, x0, y0, side, m - 1);
      UniformRow(g, w, h, p, x0, Clamp(y0 + m - 1, h), side);
      var prev := BoxTotals(g, w, h, x0, y0, side, m - 1);
      var row := RowTotals(g, w, h, x0, Clamp(y0 + m - 1, h), side);
      assert BoxTotals(g, w, h, x0, y0, side, m) == Totals(prev.r + row.r, prev.g + row.g, prev.b + row.b);
      ScaleSum(p.r, Area(side, m), Area(side, m - 1), side);
      ScaleSum(p.g, Area(side, m), Area(side, m - 1), side);
      ScaleSum(p.b, Area(side, m), Area(side, m - 1), side);
    }
  }

  /** Inside a uniform image every box averages to the common pixel. */
  lemma UniformAveraged(g: seq<Pixel>, w: nat, h: nat, r: nat, p: Pixel, x: nat, y: nat)
    requires |g| == Area(w, h) && InRange(w, h, r) && Uniform(g, w, h, p) && x < w && y < h
    ensures Averaged(g, w, h, r, x, y) == p
  {
    var side := 2 * r + 1;
    CellBound(w, h, x, y);
    UniformBox(g, w, h, p, x - r, y - r, side, side);
    var count := Area(side, side);
    MulDivCancel(p.r, count);
    MulDivCancel(p.g, count);
    MulDivCancel(p.b, count);
  }

  /** A uniform image is left exactly as it is, edges included. */
  lemma BlurUniform(g: seq<Pixel>, w: nat, h: nat, r: nat, p: Pixel)
    requires |g| == Area(w, h) && InRange(w, h, r) && Uniform(g, w, h, p)
    ensures BlurPass(g, w, h, r) == g
  {
    forall x: nat, y: nat | x < w && y < h && Cell(w, x, y) < |g|
      ensures BoxRule(w, h, r)(g, x, y) == g[Cell(w, x, y)]
    {
      UniformAveraged(g, w, h, r, p, x, y);
    }
    FixedRows(g, w, h, BoxRule(w, h, r), h);
  }

  // ---------------------------------------------------------------- the kernel

  /** Integer square root, the `floor` of the square root the kernel derivation takes. */
  function ISqrt(n: nat): (r: nat)
    ensures r * r <= n < (r + 1) * (r + 1)
  {
    if n == 0 then 0
    else
      var r := ISqrt(n - 1);
      if (r + 1) * (r + 1) <= n then
        assert (r + 1) * (r + 1) < (r + 2) * (r + 2) by { SquareMono(r + 1, r + 2); }
        r + 1
      else r
  }

  /** `ceil(num / den)`, the rounding the kernel derivation applies to its quotient. */
  function CeilDiv(num: int, den: int): (c: int)
    requires den != 0
    ensures den > 0 ==> (c - 1) * den < num <= c * den
    ensures den < 0 ==> c * den <= num < (c - 1) * den
  {
    if den > 0 then
      var q := (-num) / den;
      assert -num == q * den + (-num) % den;
      -q
    else
      var q := num / (-den);
      assert num == q * (-den) + num % (-den);
      -q
  }

  /** The three box sizes approximating a Gaussian of deviation sigma = amount:
      the ideal width `sqrt(12 sigma^2 / 3 + 1)` rounded down to wl, the number m of
      passes that use wl rather than wl + 2, in exact arithmetic. */
  function KernelSizes(amount: nat): (sizes: seq<int>)
    ensures |sizes| == 3
  {
    var wl := LowerWidth(amount);
    var m := LowerCount(amount);
    seq(3, i requires 0 <= i < 3 => if i < m then wl else wl + 2)
  }

  /** The ideal width `sqrt(12 sigma^2 / n + 1)` rounded down, for n = 3 passes. */
  function LowerWidth(amount: nat): nat
  {
    ISqrt(12 * amount * amount / 3 + 1)
  }

  /** `ceil((12 sigma^2 - n wl^2 - 4 n wl - 3 n) / (-4 wl - 4))` for n = 3 passes: how many
      passes use wl. */
  function LowerCount(amount: nat): int
  {
    var n := 3;
    var wl := LowerWidth(amount);
    CeilDiv(12 * amount * amount - n * wl * wl - 4 * n * wl - 3 * n, -4 * wl - 4)
  }

  /** The radius of a box of the given size, `(size - 1) / 2` on i32, whose division
      truncates toward zero. */
  function PassRadius(size: int): (r: int)
    ensures size >= 1 ==> 0 <= r && 2 * r <= size - 1 < 2 * r + 2
    ensures size < 1 ==> r <= 0 && 2 * r - 2 < size - 1 <= 2 * r
  {
    if size >= 1 then (size - 1) / 2 else -((1 - size) / 2)
  }

  /** The radius each of the three passes uses. */
  function Radius(amount: nat): nat
  {
    if amount == 0 then 0 else amount - 1
  }

  /** The rounded-down ideal width is 1 for amount 0 and 2 * amount otherwise. */
  lemma KernelWidth(amount: nat)
    ensures ISqrt(12 * amount * amount / 3 + 1) == if amount == 0 then 1 else 2 * amount
  {
    var n := 12 * amount * amount / 3 + 1;
    assert 12 * amount * amount == 3 * (4 * amount * amount);
    MulDivCancel(4 * amount * amount, 3);
    var r := if amount == 0 then 1 else 2 * amount;
    assert r * r <= n < (r + 1) * (r + 1);
    ISqrtUnique(n, r);
  }

  /** The integer square root is the only r with r^2 <= n < (r + 1)^2. */
  lemma ISqrtUnique(n: nat, r: nat)
    requires r * r <= n < (r + 1) * (r + 1)
    ensures ISqrt(n) == r
  {
    var s := ISqrt(n);
    if s < r {
      SquareMono(s + 1, r);
    } else if r < s {
      SquareMono(r + 1, s);
    }
  }

  /** The number of lower-width passes always comes out as 3. */
  lemma PassCount(amount: nat, wl: nat)
    requires wl == if amount == 0 then 1 else 2 * amount
    ensures CeilDiv(12 * amount * amount - 3 * wl * wl - 4 * 3 * wl - 3 * 3, -4 * wl - 4) == 3
  {
    var num := 12 * amount * amount - 3 * wl * wl - 4 * 3 * wl - 3 * 3;
    if amount == 0 {
      assert num == -24;
    } else {
      assert wl * wl == 4 * (amount * amount);
      assert num == -24 * amount - 9;
    }
    CeilUnique(num, -4 * wl - 4, 3);
  }

  /** All three passes use the lower width: the quotient always rounds up to 3. */
  lemma KernelSizesEqual(amount: nat)
    ensures var wl := if amount == 0 then 1 else 2 * amount;
      KernelSizes(amount) == [wl, wl, wl]
  {
    KernelWidth(amount);
    PassCount(amount, if amount == 0 then 1 else 2 * amount);
  }

  /** A negative-denominator ceiling is pinned down by its two bounds. */
  lemma CeilUnique(num: int, den: int, c: int)
    requires den < 0 && c * den <= num < (c - 1) * den
    ensures CeilDiv(num, den) == c
  {
    var d := CeilDiv(num, den);
    if d < c {
      MulMonoInt(d, c - 1, -den);
    } else if c < d {
      MulMonoInt(c, d - 1, -den);
    }
  }

  /** Every pass has radius `Radius(amount)`. */
  lemma PassRadii(amount: nat)
    ensures var sizes := KernelSizes(amount);
      PassRadius(sizes[0]) == Radius(amount) && PassRadius(sizes[1]) == Radius(amount) &&
      PassRadius(sizes[2]) == Radius(amount)
  {
    KernelSizesEqual(amount);
  }

  /** `blurred(amount)`: three box-blur passes of radius `Radius(amount)`. */
  function GaussianBlur(g: seq<Pixel>, w: nat, h: nat, amount: nat): (t: seq<Pixel>)
    requires |g| == Area(w, h) && InRange(w, h, Radius(amount))
    ensures |t| == |g|
  {
    var r := Radius(amount);
    BlurPass(BlurPass(BlurPass(g, w, h, r), w, h, r), w, h, r)
  }

  /** Amounts 0 and 1 give one-pixel boxes, so the image comes back unchanged. */
  lemma GaussianSmallAmount(g: seq<Pixel>, w: nat, h: nat, amount: nat)
    requires |g| == Area(w, h) && amount <= 1 && InRange(w, h, Radius(amount))
    ensures GaussianBlur(g, w, h, amount) == g
  {
    BlurRadiusZero(g, w, h);
  }

  /** The blur never changes alpha. */
  lemma GaussianKeepsAlpha(g: seq<Pixel>, w: nat, h: nat, amount: nat, x: nat, y: nat)
    requires |g| == Area(w, h) && InRange(w, h, Radius(amount)) && x < w && y < h
    ensures Cell(w, x, y) < |g| && GaussianBlur(g, w, h, amount)[Cell(w, x, y)].alpha == g[Cell(w, x, y)].alpha
  {
    var r := Radius(amount);
    var g1 := BlurPass(g, w, h, r);
    var g2 := BlurPass(g1, w, h, r);
    BlurPassKeepsAlpha(g, w, h, r, x, y);
    BlurPassKeepsAlpha(g1, w, h, r, x, y);
    BlurPassKeepsAlpha(g2, w, h, r, x, y);
  }

  /** A uniform image comes back unchanged from the blur. */
  lemma GaussianUniform(g: seq<Pixel>, w: nat, h: nat, amount: nat, p: Pixel)
    requires |g| == Area(w, h) && InRange(w, h, Radius(amount)) && Uniform(g, w, h, p)
    ensures GaussianBlur(g, w, h, amount) == g
  {
    BlurUniform(g, w, h, Radius(amount), p);
  }
}
