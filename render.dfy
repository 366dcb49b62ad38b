/** The out-of-place pixel loops shared by the owning image and its views: walk the
    image row by row, read each output pixel with `get_pixel`, push its four bytes. */
module Render {
  import opened Utils
  import opened Arith
  import opened Buffer
  import opened Transforms

  /** Pushing the bytes of the next pixel of f extends the prefix of f the buffer holds. */
  lemma Push(out: seq<byte>, f: seq<Pixel>, k: nat, p: Pixel)
    requires |out| == 4 * k && k < |f| && Grid(out) == f[..k] && p == f[k]
    ensures |out + [p.r, p.g, p.b, p.alpha]| == 4 * (k + 1)
    ensures Grid(out + [p.r, p.g, p.b, p.alpha]) == f[..k + 1]
  {
    GridAppend(out, p);
    assert f[..k + 1] == f[..k] + [f[k]];
  }

  /** The pixel `flipped` reads for output (i, j) is cell (i, j) of the flipped grid. */
  lemma FlippedRead(s: seq<byte>, w: nat, h: nat, horiz: bool, vert: bool, i: nat, j: nat)
    requires 4 * Area(w, h) <= |s| && i < w && j < h
    ensures var src := FlipSource(w, h, horiz, vert, i, j);
      Index(w, src.0, src.1) + 4 <= |s| && Cell(w, i, j) < Area(w, h) &&
      PixelAt(s, w, src.0, src.1) == Flipped(Grid(s[..4 * Area(w, h)]), w, h, horiz, vert)[Cell(w, i, j)]
  {
    var src := FlipSource(w, h, horiz, vert, i, j);
    PixelAtGrid(s, w, h, src.0, src.1);
    FlippedAt(Grid(s[..4 * Area(w, h)]), w, h, horiz, vert, i, j);
  }

  /** One step of the `flipped` loop: pushing the mirrored pixel of (i, j) extends the
      flipped prefix by one cell. */
  lemma FlipPush(s: seq<byte>, w: nat, h: nat, horiz: bool, vert: bool, i: nat, j: nat, out: seq<byte>, k: nat)
    requires 4 * Area(w, h) <= |s| && i < w && j < h && k == Cell(w, i, j) <= Area(w, h)
    requires |out| == 4 * k && Grid(out) == Flipped(Grid(s[..4 * Area(w, h)]), w, h, horiz, vert)[..k]
    ensures var src := FlipSource(w, h, horiz, vert, i, j);
      Index(w, src.0, src.1) + 4 <= |s| && k + 1 == Cell(w, i + 1, j) && k + 1 <= Area(w, h) &&
      var p := PixelAt(s, w, src.0, src.1);
      var next := out + [p.r, p.g, p.b, p.alpha];
      |next| == 4 * (k + 1) && Grid(next) == Flipped(Grid(s[..4 * Area(w, h)]), w, h, horiz, vert)[..k + 1]
  {
    var src := FlipSource(w, h, horiz, vert, i, j);
    FlippedRead(s, w, h, horiz, vert, i, j);
    CellNext(w, i, j);
    Push(out, Flipped(Grid(s[..4 * Area(w, h)]), w, h, horiz, vert), k, PixelAt(s, w, src.0, src.1));
  }

  /** The pixel `greyscale` writes for output (i, j) is cell (i, j) of the grey grid. */
  lemma GreyRead(s: seq<byte>, w: nat, h: nat, i: nat, j: nat)
    requires 4 * Area(w, h) <= |s| && i < w && j < h
    ensures Index(w, i, j) + 4 <= |s| && Cell(w, i, j) < Area(w, h) &&
      Grey(PixelAt(s, w, i, j)) == Greyscale(Grid(s[..4 * Area(w, h)]))[Cell(w, i, j)]
  {
    PixelAtGrid(s, w, h, i, j);
  }

  /** One step of the `greyscale` loop: pushing the luma of pixel (i, j) three times and its
      alpha once extends the grey prefix by one cell. */
  lemma GreyPush(s: seq<byte>, w: nat, h: nat, i: nat, j: nat, out: seq<byte>, k: nat)
    requires 4 * Area(w, h) <= |s| && i < w && j < h && k == Cell(w, i, j) <= Area(w, h)
    requires |out| == 4 * k && Grid(out) == Greyscale(Grid(s[..4 * Area(w, h)]))[..k]
    ensures Index(w, i, j) + 4 <= |s| && k + 1 == Cell(w, i + 1, j) && k + 1 <= Area(w, h)
    ensures var p := PixelAt(s, w, i, j);
      var next := out + [Luma(p), Luma(p), Luma(p), p.alpha];
      |next| == 4 * (k + 1) && Grid(next) == Greyscale(Grid(s[..4 * Area(w, h)]))[..k + 1]
  {
    GreyRead(s, w, h, i, j);
    CellNext(w, i, j);
    Push(out, Greyscale(Grid(s[..4 * Area(w, h)])), k, Grey(PixelAt(s, w, i, j)));
  }

  /** The `flipped` loop over a buffer of row stride w: output pixel (i, j) is the pixel of
      s at the mirrored coordinates the two flags select. */
  method FlippedBytes(s: seq<byte>, w: nat, h: nat, horiz: bool, vert: bool) returns (out: seq<byte>)
    requires 4 * Area(w, h) <= |s|
    ensures |out| == 4 * Area(w, h)
    ensures Grid(out) == Flipped(Grid(s[..4 * Area(w, h)]), w, h, horiz, vert)
  {
    ghost var f := Flipped(Grid(s[..4 * Area(w, h)]), w, h, horiz, vert);
    out := [];
    ghost var k := 0;
    var j := 0;
    while j < h
      invariant j <= h && k == Cell(w, 0, j) <= Area(w, h)
      invariant |out| == 4 * k && Grid(out) == f[..k]
    {
      var i := 0;
      while i < w
        invariant i <= w && k == Cell(w, i, j) <= Area(w, h)
        invariant |out| == 4 * k && Grid(out) == f[..k]
      {
        FlipPush(s, w, h, horiz, vert, i, j, out, k);
        // (w-i-1, h-j-1), (w-i-1, j), (i, h-j-1) or (i, j), as the flags select
        var src := FlipSource(w, h, horiz, vert, i, j);
        var p := PixelAt(s, w, src.0, src.1);
        out := out + [p.r, p.g, p.b, p.alpha];
        k := k + 1;
        i := i + 1;
      }
      CellRowEnd(w, j);
      CellRowMono(w, j + 1, h);
      j := j + 1;
    }
    assert f[..k] == f;
  }

  /** The `greyscale` loop: output pixel (i, j) is the grey of pixel (i, j). */
  method GreyscaleBytes(s: seq<byte>, w: nat, h: nat) returns (out: seq<byte>)
    requires 4 * Area(w, h) <= |s|
    ensures |out| == 4 * Area(w, h)
    ensures Grid(out) == Greyscale(Grid(s[..4 * Area(w, h)]))
  {
    ghost var f := Greyscale(Grid(s[..4 * Area(w, h)]));
    out := [];
    ghost var k := 0;
    var j := 0;
    while j < h
      invariant j <= h && k == Cell(w, 0, j) <= Area(w, h)
      invariant |out| == 4 * k && Grid(out) == f[..k]
    {
      var i := 0;
      while i < w
        invariant i <= w && k == Cell(w, i, j) <= Area(w, h)
        invariant |out| == 4 * k && Grid(out) == f[..k]
      {
        GreyPush(s, w, h, i, j, out, k);
        var p := PixelAt(s, w, i, j);
        var avg := Luma(p);
        assert Grey(p) == Pixel(avg, avg, avg, p.alpha);
        out := out + [avg, avg, avg, p.alpha];
        k := k + 1;
        i := i + 1;
      }
      CellRowEnd(w, j);
      CellRowMono(w, j + 1, h);
      j := j + 1;
    }
    assert f[..k] == f;
  }
}
