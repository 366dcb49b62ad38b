/** Row-major RGBA buffers: where a pixel's four bytes sit, and the buffer read as a
    grid of pixels. */
module Buffer {
  import opened Utils
  import opened Arith

  /** y whole rows of w pixels, then x more. */
  function RowMajor(w: nat, x: nat, y: nat): nat
    decreases y
  {
    if y == 0 then x else RowMajor(w, x, y - 1) + w
  }

  /** Position of pixel (x, y) among the pixels of a row-major image w pixels wide,
      `y*w + x` (see `CellValue`). */
  function Cell(w: nat, x: nat, y: nat): nat
  {
    RowMajor(w, x, y)
  }

  lemma {:induction false} RowMajorValue(w: nat, x: nat, y: nat)
    ensures RowMajor(w, x, y) == y * w + x
  {
    if y > 0 {
      RowMajorValue(w, x, y - 1);
      MulSucc(y - 1, w);
    }
  }

  lemma CellValue(w: nat, x: nat, y: nat)
    ensures Cell(w, x, y) == y * w + x
  {
    RowMajorValue(w, x, y);
  }

  /** Byte offset of pixel (x, y) in a buffer w pixels wide: four bytes per cell, that
      is `y*w*4 + 4*x` (see `IndexValue`). */
  function Index(w: nat, x: nat, y: nat): nat
  {
    4 * Cell(w, x, y)
  }

  lemma IndexValue(w: nat, x: nat, y: nat)
    ensures Index(w, x, y) == y * w * 4 + 4 * x
  {
    CellValue(w, x, y);
  }

  lemma {:induction false} RowMajorNext(w: nat, x: nat, y: nat)
    ensures RowMajor(w, x + 1, y) == RowMajor(w, x, y) + 1
  {
    if y > 0 {
      RowMajorNext(w, x, y - 1);
    }
  }

  /** The next pixel of a row is the next cell. */
  lemma CellNext(w: nat, x: nat, y: nat)
    ensures Cell(w, x + 1, y) == Cell(w, x, y) + 1
  {
    RowMajorNext(w, x, y);
  }

  lemma {:induction false} RowMajorShift(w: nat, x: nat, y: nat)
    ensures RowMajor(w, x, y) == RowMajor(w, 0, y) + x
  {
    if y > 0 {
      RowMajorShift(w, x, y - 1);
    }
  }

  /** Pixel x of row y is x cells past the start of the row. */
  lemma CellShift(w: nat, x: nat, y: nat)
    ensures Cell(w, x, y) == Cell(w, 0, y) + x
  {
    RowMajorShift(w, x, y);
  }

  /** Later rows start later. */
  lemma {:induction false} CellRowMono(w: nat, y: nat, y': nat)
    requires y <= y'
    ensures Cell(w, 0, y) <= Cell(w, 0, y')
  {
    if y < y' {
      CellRowMono(w, y, y' - 1);
    }
  }

  /** One past the end of row y is the start of row y + 1. */
  lemma {:induction false} CellRowEnd(w: nat, y: nat)
    ensures Cell(w, w, y) == Cell(w, 0, y + 1)
  {
    CellValue(w, w, y);
    CellValue(w, 0, y + 1);
    MulSucc(y, w);
  }

  /** The number of cells of a w*h image: the start of the row after the last,
      `w*h` (see `AreaValue`). */
  function Area(w: nat, h: nat): nat
  {
    Cell(w, 0, h)
  }

  lemma AreaValue(w: nat, h: nat)
    ensures Area(w, h) == w * h
  {
    CellValue(w, 0, h);
    assert h * w == w * h;
  }

  /** Number of bytes of a row-major RGBA buffer of dimensions `d`, `width*height*4`. */
  function ByteCount(d: Dimensions): nat
  {
    4 * Area(d.width, d.height)
  }

  /** Inside the image, a pixel's cell is below w*h and its bytes start at four times it. */
  lemma CellBound(w: nat, h: nat, x: nat, y: nat)
    requires x < w && y < h
    ensures Cell(w, x, y) < Area(w, h)
    ensures Index(w, x, y) == 4 * Cell(w, x, y)
    ensures Index(w, x, y) + 4 <= 4 * Area(w, h)
  {
    CellShift(w, x, y);
    CellRowMono(w, y + 1, h);
  }

  /** A cell of a w*h image splits back into its column and row. */
  lemma Locate(w: nat, h: nat, k: nat)
    requires k < Area(w, h)
    ensures w > 0 && k % w < w && k / w < h
    ensures Cell(w, k % w, k / w) == k
  {
    AreaValue(w, h);
    assert w * h == h * w;
    DivLess(k, w, h);
    CellValue(w, k % w, k / w);
  }

  /** The column and row of a cell are recovered from it. */
  lemma Decompose(w: nat, x: nat, y: nat)
    requires x < w
    ensures Cell(w, x, y) / w == y && Cell(w, x, y) % w == x
  {
    CellValue(w, x, y);
    DivModUnique(y * w + x, w, y, x);
  }

  /** The buffer read four bytes at a time: cell k holds bytes 4k .. 4k+3 as r, g, b,
      alpha. Trailing bytes short of a whole pixel are not part of any cell. */
  function Grid(s: seq<byte>): (g: seq<Pixel>)
    ensures |g| == |s| / 4
  {
    seq(|s| / 4, k requires 0 <= k < |s| / 4 => Pixel(s[4 * k], s[4 * k + 1], s[4 * k + 2], s[4 * k + 3]))
  }

  /** The pixel at (x, y) of a w*h buffer is made of the four bytes at its byte offset. */
  lemma GridAt(s: seq<byte>, w: nat, h: nat, x: nat, y: nat)
    requires |s| == 4 * Area(w, h) && x < w && y < h
    ensures Index(w, x, y) + 4 <= |s| && Cell(w, x, y) < |Grid(s)|
    ensures var i := Index(w, x, y);
      Grid(s)[Cell(w, x, y)] == Pixel(s[i], s[i + 1], s[i + 2], s[i + 3])
  {
    CellBound(w, h, x, y);
  }

  /** A buffer is determined by its grid. */
  lemma GridInjective(a: seq<byte>, b: seq<byte>)
    requires |a| == |b| && |a| % 4 == 0 && Grid(a) == Grid(b)
    ensures a == b
  {
    forall k | 0 <= k < |a|
      ensures a[k] == b[k]
    {
      var m := k / 4;
      assert Grid(a)[m] == Grid(b)[m];
    }
  }

  /** Writing a pixel's four bytes at offset 4c writes cell c of the grid and nothing else. */
  lemma GridWrite(s: seq<byte>, c: nat, p: Pixel)
    requires |s| % 4 == 0 && c < |s| / 4
    ensures var t := s[4 * c := p.r][4 * c + 1 := p.g][4 * c + 2 := p.b][4 * c + 3 := p.alpha];
      |t| == |s| && Grid(t) == Grid(s)[c := p]
  {
    var t := s[4 * c := p.r][4 * c + 1 := p.g][4 * c + 2 := p.b][4 * c + 3 := p.alpha];
    assert Grid(t)[c] == p;
    forall k | 0 <= k < |s| / 4 && k != c
      ensures Grid(t)[k] == Grid(s)[k]
    {
    }
  }

  /** Two w*h grids that agree at every (x, y) are equal. */
  lemma GridExtensional(a: seq<Pixel>, b: seq<Pixel>, w: nat, h: nat)
    requires |a| == Area(w, h) && |b| == Area(w, h)
    requires forall x: nat, y: nat :: x < w && y < h && Cell(w, x, y) < Area(w, h) ==> a[Cell(w, x, y)] == b[Cell(w, x, y)]
    ensures a == b
  {
    forall k | 0 <= k < Area(w, h)
      ensures a[k] == b[k]
    {
      Locate(w, h, k);
      assert a[Cell(w, k % w, k / w)] == b[Cell(w, k % w, k / w)];
    }
  }

  /** The pixel `get_pixel` reads for (x, y) of a buffer with row stride w: the four
      bytes from offset `y*w*4 + 4*x`. */
  function PixelAt(s: seq<byte>, w: nat, x: nat, y: nat): (p: Pixel)
    requires Index(w, x, y) + 4 <= |s|
    ensures Cell(w, x, y) < |Grid(s)| && p == Grid(s)[Cell(w, x, y)]
  {
    var i := Index(w, x, y);
    Pixel(s[i], s[i + 1], s[i + 2], s[i + 3])
  }

  /** Inside a w*h image held in the first w*h*4 bytes of s, `PixelAt` is the grid cell. */
  lemma PixelAtGrid(s: seq<byte>, w: nat, h: nat, x: nat, y: nat)
    requires 4 * Area(w, h) <= |s| && x < w && y < h
    ensures Index(w, x, y) + 4 <= |s| && Cell(w, x, y) < Area(w, h)
    ensures PixelAt(s, w, x, y) == Grid(s[..4 * Area(w, h)])[Cell(w, x, y)]
  {
    GridAt(s[..4 * Area(w, h)], w, h, x, y);
  }

  /** Appending a pixel's four bytes appends the pixel to the grid. */
  lemma GridAppend(s: seq<byte>, p: Pixel)
    requires |s| % 4 == 0
    ensures Grid(s + [p.r, p.g, p.b, p.alpha]) == Grid(s) + [p]
  {
    var t := s + [p.r, p.g, p.b, p.alpha];
    assert |t| / 4 == |s| / 4 + 1;
    forall k | 0 <= k < |s| / 4
      ensures Grid(t)[k] == Grid(s)[k]
    {
      assert t[4 * k + 3] == s[4 * k + 3];
    }
    assert Grid(t)[|s| / 4] == p;
  }
}
