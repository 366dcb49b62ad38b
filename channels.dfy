/** The channel matrices of the image loader: a raw RGBA buffer split into one
    `height x width` matrix of bytes per colour, rows first. */
module Channels {
  import opened Utils
  import opened Buffer

  /** The errors the loader reports. */
  datatype ImageError = InvalidFormat | ParseError

  datatype Result<T> = Ok(value: T) | Err(error: ImageError)

  /** A matrix of bytes: `height` rows of `width` bytes. */
  type Matrix = seq<seq<byte>>

  /** The three colour matrices of an image. */
  datatype RGB = RGB(rChannel: Matrix, gChannel: Matrix, bChannel: Matrix)

  /** Byte k of the buffer, or 0 past its end. */
  function ByteOr(px: seq<byte>, k: nat): byte
  {
    if k < |px| then px[k] else 0
  }

  /** The first n entries of row y of channel c (0, 1, 2 for r, g, b): byte c of each
      pixel, four bytes per pixel, with row stride w. */
  function PlaneRow(px: seq<byte>, w: nat, y: nat, c: nat, n: nat): (row: seq<byte>)
    ensures |row| == n
  {
    seq(n, x requires 0 <= x < n => ByteOr(px, 4 * Cell(w, x, y) + c))
  }

  /** The first h rows of channel c. */
  function Plane(px: seq<byte>, w: nat, h: nat, c: nat): (m: Matrix)
    ensures |m| == h
  {
    seq(h, y requires 0 <= y < h => PlaneRow(px, w, y, c, w))
  }

  /** The reads all fall inside the buffer: the last one, the blue byte of the last
      pixel, is at `4*w*h - 2`; the last pixel's alpha byte is never read. */
  predicate ChannelsFit(n: nat, w: nat, h: nat)
  {
    Area(w, h) == 0 || 4 * Area(w, h) <= n + 1
  }

  /** `extract_channels(pixel_vec, w, h)`: walks the pixels row by row with a byte
      counter that moves four bytes per pixel, pushes the red, green and blue bytes onto
      the current row of each matrix and skips alpha; the first read past the end of
      the buffer reports `ParseError`. */
  method ExtractChannels(pixelVec: seq<byte>, w: nat, h: nat) returns (res: Result<(Matrix, Matrix, Matrix)>)
    ensures res.Ok? <==> ChannelsFit(|pixelVec|, w, h)
    ensures res.Ok? ==> res.value == (Plane(pixelVec, w, h, 0), Plane(pixelVec, w, h, 1), Plane(pixelVec, w, h, 2))
    ensures res.Err? ==> res.error == ParseError
  {
    var r: Matrix, g: Matrix, b: Matrix := [], [], [];
    var counter := 0;
    var i := 0;
    while i < h
      invariant i <= h && counter == 4 * Cell(w, 0, i)
      invariant counter == 0 || counter <= |pixelVec| + 1
      invariant r == Plane(pixelVec, w, i, 0) && g == Plane(pixelVec, w, i, 1) && b == Plane(pixelVec, w, i, 2)
    {
      var rowR: seq<byte>, rowG: seq<byte>, rowB: seq<byte> := [], [], [];
      var j := 0;
      while j < w
        invariant j <= w && counter == 4 * Cell(w, j, i)
        invariant counter == 0 || counter <= |pixelVec| + 1
        invariant rowR == PlaneRow(pixelVec, w, i, 0, j) && rowG == PlaneRow(pixelVec, w, i, 1, j)
        invariant rowB == PlaneRow(pixelVec, w, i, 2, j)
      {
        ghost var k := counter;
        ReadStep(pixelVec, w, h, i, j, k);
        if counter >= |pixelVec| {
          return Err(ParseError);
        }
        rowR := rowR + [pixelVec[counter]];
        counter := counter + 1;
        if counter >= |pixelVec| {
          return Err(ParseError);
        }
        rowG := rowG + [pixelVec[counter]];
        counter := counter + 1;
        if counter >= |pixelVec| {
          return Err(ParseError);
        }
        rowB := rowB + [pixelVec[counter]];
        counter := counter + 1;
        counter := counter + 1;
        j := j + 1;
      }
      CellRowEnd(w, i);
      RowsStep(pixelVec, w, i);
      r, g, b := r + [rowR], g + [rowG], b + [rowB];
      i := i + 1;
    }
    res := Ok((r, g, b));
  }

  /** Reading the three colour bytes of pixel (j, i) at counter k: a byte past the end
      means the buffer does not fit, and the reads that succeed extend the rows. */
  lemma ReadStep(px: seq<byte>, w: nat, h: nat, i: nat, j: nat, k: nat)
    requires i < h && j < w && k == 4 * Cell(w, j, i)
    ensures 4 * Cell(w, j + 1, i) == k + 4
    ensures k >= |px| || k + 1 >= |px| || k + 2 >= |px| ==> !ChannelsFit(|px|, w, h)
    ensures k < |px| ==> PlaneRow(px, w, i, 0, j + 1) == PlaneRow(px, w, i, 0, j) + [px[k]]
    ensures k + 1 < |px| ==> PlaneRow(px, w, i, 1, j + 1) == PlaneRow(px, w, i, 1, j) + [px[k + 1]]
    ensures k + 2 < |px| ==> PlaneRow(px, w, i, 2, j + 1) == PlaneRow(px, w, i, 2, j) + [px[k + 2]]
  {
    CellBound(w, h, j, i);
    CellNext(w, j, i);
  }

  /** A whole row more of each channel. */
  lemma RowsStep(px: seq<byte>, w: nat, i: nat)
    ensures Plane(px, w, i + 1, 0) == Plane(px, w, i, 0) + [PlaneRow(px, w, i, 0, w)]
    ensures Plane(px, w, i + 1, 1) == Plane(px, w, i, 1) + [PlaneRow(px, w, i, 1, w)]
    ensures Plane(px, w, i + 1, 2) == Plane(px, w, i, 2) + [PlaneRow(px, w, i, 2, w)]
  {
  }

  /** `RGB::new`: the three matrices of `extract_channels`, any failure reported as
      `ParseError`. */
  method NewRGB(rawPixel: seq<byte>, w: nat, h: nat) returns (res: Result<RGB>)
    ensures res.Ok? <==> ChannelsFit(|rawPixel|, w, h)
    ensures res.Ok? ==> res.value == RGB(Plane(rawPixel, w, h, 0), Plane(rawPixel, w, h, 1), Plane(rawPixel, w, h, 2))
    ensures res.Err? ==> res.error == ParseError
  {
    var channels := ExtractChannels(rawPixel, w, h);
    match channels {
      case Ok(v) => res := Ok(RGB(v.0, v.1, v.2));
      case Err(_) => res := Err(ParseError);
    }
  }

  /** A whole RGBA buffer of a w*h image always parses. */
  lemma WholeBufferFits(px: seq<byte>, w: nat, h: nat)
    requires |px| == ByteCount(Dimensions(w, h))
    ensures ChannelsFit(|px|, w, h)
  {
  }

  /** The buffer may be short by exactly its last byte, never by two. */
  lemma FitThreshold(w: nat, h: nat)
    requires 0 < Area(w, h)
    ensures ChannelsFit(4 * Area(w, h) - 1, w, h)
    ensures !ChannelsFit(4 * Area(w, h) - 2, w, h)
  {
  }

  /** On a whole buffer, entry (y, x) of each matrix is the matching colour of grid
      cell (x, y). */
  lemma PlaneAtGrid(px: seq<byte>, w: nat, h: nat, x: nat, y: nat)
    requires |px| == ByteCount(Dimensions(w, h)) && x < w && y < h
    ensures Cell(w, x, y) < |Grid(px)|
    ensures var p := Grid(px)[Cell(w, x, y)];
      Plane(px, w, h, 0)[y][x] == p.r && Plane(px, w, h, 1)[y][x] == p.g && Plane(px, w, h, 2)[y][x] == p.b
  {
    GridAt(px, w, h, x, y);
  }

  /** Once the buffer fits, the bytes from the last pixel's alpha byte on never reach
      the matrices: two fitting buffers that agree on their first `4*w*h - 1` bytes give
      the same channels. */
  lemma PlaneIgnoresTail(px: seq<byte>, px': seq<byte>, w: nat, h: nat, c: nat)
    requires ChannelsFit(|px|, w, h) && ChannelsFit(|px'|, w, h) && c < 3
    requires 0 < Area(w, h) ==> px[..4 * Area(w, h) - 1] == px'[..4 * Area(w, h) - 1]
    ensures Plane(px, w, h, c) == Plane(px', w, h, c)
  {
    forall y, x | 0 <= y < h && 0 <= x < w
      ensures Plane(px, w, h, c)[y][x] == Plane(px', w, h, c)[y][x]
    {
      CellBound(w, h, x, y);
      var k := 4 * Cell(w, x, y) + c;
      assert px[k] == px[..4 * Area(w, h) - 1][k];
      assert px'[k] == px'[..4 * Area(w, h) - 1][k];
    }
    forall y | 0 <= y < h
      ensures Plane(px, w, h, c)[y] == Plane(px', w, h, c)[y]
    {
    }
  }
}
