/** The owning image: dimensions and a row-major RGBA buffer it updates in place, and
    the free function `box_blur` that runs one blur pass over it. */
module Owned {
  import opened Utils
  import opened Arith
  import opened Buffer
  import opened Transforms
  import opened Blur
  import opened Render
  import Slice

  /** The first n cells of g are the grey pixels of g0's, the rest are g0's. */
  ghost predicate GreyUpTo(g: seq<Pixel>, g0: seq<Pixel>, n: nat)
  {
    |g| == |g0| && forall k :: 0 <= k < |g| ==> g[k] == (if k < n then Grey(g0[k]) else g0[k])
  }

  /** One step of `greyscale_mut`: cell n becomes grey. */
  lemma GreyUpToStep(g: seq<Pixel>, g0: seq<Pixel>, n: nat)
    requires GreyUpTo(g, g0, n) && n < |g|
    ensures g[n] == g0[n]
    ensures GreyUpTo(g[n := Grey(g0[n])], g0, n + 1)
  {
  }

  /** Once every cell is handled, the image is the greyscale of the original. */
  lemma GreyUpToDone(g: seq<Pixel>, g0: seq<Pixel>)
    requires GreyUpTo(g, g0, |g0|)
    ensures g == Greyscale(g0)
  {
  }

  class OwnedImage {
    var dims: Dimensions
    var pixels: array<byte>

    /** The buffer holds exactly width*height*4 bytes. `new` does not check this, so it
        is an invariant the callers establish. */
    ghost predicate Valid()
      reads this
    {
      pixels.Length == ByteCount(dims)
    }

    /** The buffer read as a grid of width*height pixels. */
    ghost function Contents(): (g: seq<Pixel>)
      reads this, pixels
      requires Valid()
      ensures |g| == Area(dims.width, dims.height)
    {
      Grid(pixels[..])
    }

    /** `OwnedImage::new`: takes the dimensions and the buffer as they are. */
    constructor (dims: Dimensions, pixels: seq<byte>)
      ensures this.dims == dims && this.pixels[..] == pixels && fresh(this.pixels)
      ensures Valid() <==> |pixels| == ByteCount(dims)
    {
      this.dims := dims;
      this.pixels := new byte[|pixels|](i requires 0 <= i < |pixels| => pixels[i]);
    }

    /** `get_pixel`: the four bytes at `y*width*4 + 4*x`, that is cell (x, y) of the grid. */
    function GetPixel(x: nat, y: nat): (p: Pixel)
      reads this, pixels
      requires Valid() && x < dims.width && y < dims.height
      ensures Cell(dims.width, x, y) < Area(dims.width, dims.height)
      ensures p == Contents()[Cell(dims.width, x, y)]
    {
      GridAt(pixels[..], dims.width, dims.height, x, y);
      var i := Index(dims.width, x, y);
      Pixel(pixels[i], pixels[i + 1], pixels[i + 2], pixels[i + 3])
    }

    /** `set_pixel`: writes the four bytes of cell (x, y); a later `get_pixel` there returns
        `pix`, and every other cell and byte is as it was. */
    method SetPixel(x: nat, y: nat, pix: Pixel)
      requires Valid() && x < dims.width && y < dims.height
      modifies pixels
      ensures Valid()
      ensures GetPixel(x, y) == pix
      ensures Contents() == old(Contents())[Cell(dims.width, x, y) := pix]
      ensures forall k :: 0 <= k < pixels.Length && !(Index(dims.width, x, y) <= k < Index(dims.width, x, y) + 4) ==>
        pixels[k] == old(pixels[k])
    {
      var w, h := dims.width, dims.height;
      var i := Index(w, x, y);
      CellBound(w, h, x, y);
      ghost var before := pixels[..];
      ghost var after: seq<byte> := before[i := pix.r][i + 1 := pix.g][i + 2 := pix.b][i + 3 := pix.alpha];
      GridWrite(before, Cell(w, x, y), pix);
      pixels[i] := pix.r;
      pixels[i + 1] := pix.g;
      pixels[i + 2] := pix.b;
      pixels[i + 3] := pix.alpha;
      assert pixels[..] == after;
    }

    /** `crop`: a view on this image's buffer, clamped to the image, that reads only
        inside the buffer. `crop_mut` builds the same view. */
    function Crop(x: nat, y: nat, req: Dimensions): (s: Slice.ImageSlice)
      reads this, pixels
      requires Valid()
      ensures s.pixels == pixels[..] && s.spec.size == (dims.width, dims.height)
      ensures s.spec.offset.0 + s.spec.dims.width <= dims.width
      ensures s.spec.offset.1 + s.spec.dims.height <= dims.height
      ensures Slice.ReadsInBounds(s)
      ensures var c := Slice.ClampWindow(dims, x, y, req);
        s.spec.offset == (c.x, c.y) && s.spec.dims == c.dims
    {
      Slice.OwnerCropReadsInBounds(pixels[..], dims, x, y, req);
      Slice.OwnerCrop(pixels[..], dims, x, y, req)
    }

    /** `flipped`: a new image of the same dimensions holding the flipped grid. */
    method Flipped(horiz: bool, vert: bool) returns (img: OwnedImage)
      requires Valid()
      ensures fresh(img) && fresh(img.pixels) && img.Valid() && img.dims == dims
      ensures Grid(img.pixels[..]) == Transforms.Flipped(Grid(pixels[..]), dims.width, dims.height, horiz, vert)
    {
      var out := FlippedBytes(pixels[..], dims.width, dims.height, horiz, vert);
      assert pixels[..][..4 * Area(dims.width, dims.height)] == pixels[..];
      img := new OwnedImage(Dimensions(dims.width, dims.height), out);
    }

    /** `greyscale`: a new image of the same dimensions holding the grey grid. */
    method Greyscale() returns (img: OwnedImage)
      requires Valid()
      ensures fresh(img) && fresh(img.pixels) && img.Valid() && img.dims == dims
      ensures Grid(img.pixels[..]) == Transforms.Greyscale(Grid(pixels[..]))
    {
      var out := GreyscaleBytes(pixels[..], dims.width, dims.height);
      assert pixels[..][..4 * Area(dims.width, dims.height)] == pixels[..];
      img := new OwnedImage(Dimensions(dims.width, dims.height), out);
    }

    /** The body of the `flip` loop: saves pixel (x, y), reads pixel (x', y'), writes the
        saved pixel at (x', y') and the read one at (x, y), which exchanges the two cells. */
    method Exchange(x: nat, y: nat, x': nat, y': nat)
      requires Valid() && x < dims.width && y < dims.height && x' < dims.width && y' < dims.height
      modifies pixels
      ensures Valid()
      ensures Cell(dims.width, x, y) < |old(Contents())| && Cell(dims.width, x', y') < |old(Contents())|
      ensures Contents() == Swap(old(Contents()), Cell(dims.width, x, y), Cell(dims.width, x', y'))
    {
      var saved := GetPixel(x, y);
      var p := GetPixel(x', y');
      SetPixel(x', y', saved);
      SetPixel(x, y, p);
    }

    /** `flip`: swaps each pixel of the left half (middle column included) with its
        mirror, in row order, on the buffer itself; the result is `FlippedInPlace`,
        which differs from `flipped` as the lemmas beside it say. With neither flag set
        every row loop stops at once. */
    method Flip(horiz: bool, vert: bool)
      requires Valid()
      modifies pixels
      ensures Valid()
      ensures Contents() == FlippedInPlace(old(Contents()), dims.width, dims.height, horiz, vert)
    {
      var width, height := dims.width, dims.height;
      ghost var orig := Contents();
      InPlaceAfterStart(orig, width, height, horiz, vert);
      var j := 0;
      while j < height
        invariant j <= height
        invariant Contents() == InPlaceAfter(orig, width, height, horiz, vert, j, 0)
      {
        var i := 0;
        while i < (width + 1) / 2
          invariant i <= (width + 1) / 2
          invariant Contents() == InPlaceAfter(orig, width, height, horiz, vert, j, i)
        {
          InPlaceAfterStep(orig, width, height, horiz, vert, j, i);
          if !horiz && !vert {
            break;
          }
          // the mirror: (width-i-1, height-j-1), (width-i-1, j) or (i, height-j-1)
          var q := FlipSource(width, height, horiz, vert, i, j);
          Exchange(i, j, q.0, q.1);
          i := i + 1;
        }
        InPlaceAfterNextRow(orig, width, height, horiz, vert, j, i);
        j := j + 1;
      }
    }

    /** `greyscale_mut`: replaces every pixel, in row order, by its grey pixel. */
    method GreyscaleMut()
      requires Valid()
      modifies pixels
      ensures Valid()
      ensures Contents() == Transforms.Greyscale(old(Contents()))
    {
      var width, height := dims.width, dims.height;
      ghost var g0 := Contents();
      ghost var k := 0;
      var j := 0;
      while j < height
        invariant j <= height && k == Cell(width, 0, j) <= Area(width, height)
        invariant GreyUpTo(Contents(), g0, k)
      {
        var i := 0;
        while i < width
          invariant i <= width && k == Cell(width, i, j) <= Area(width, height)
          invariant GreyUpTo(Contents(), g0, k)
        {
          var p := GetPixel(i, j);
          var avg := Luma(p);
          GreyUpToStep(Contents(), g0, k);
          SetPixel(i, j, Pixel(avg, avg, avg, p.alpha));
          CellNext(width, i, j);
          k := k + 1;
          i := i + 1;
        }
        CellRowEnd(width, j);
        CellRowMono(width, j + 1, height);
        j := j + 1;
      }
      GreyUpToDone(Contents(), g0);
    }

    /** The inner loops of `box_blur` at (x, y): adds up, in u32 accumulators, the
        colours of the (2r+1) x (2r+1) neighbours row by row, each coordinate clamped to
        the image after its i32-to-u32 cast, and divides each total by `total_ct`; the
        alpha is that of pixel (x, y) itself. */
    method BoxAverage(r: nat, x: nat, y: nat) returns (p: Pixel)
      requires Valid() && InRange(dims.width, dims.height, r) && x < dims.width && y < dims.height
      ensures p == Averaged(Contents(), dims.width, dims.height, r, x, y)
    {
      var initial := GetPixel(x, y);
      var totalCt := BoxCount(r);
      var rTotal: u32, gTotal: u32, bTotal: u32 := 0, 0, 0;
      ghost var m := 0;
      var iy := y - r;
      while iy < y + r + 1
        invariant iy == y - r + m && m <= 2 * r + 1
        invariant BoxTotals(Contents(), dims.width, dims.height, x - r, y - r, 2 * r + 1, m) ==
          Totals(rTotal as nat, gTotal as nat, bTotal as nat)
      {
        rTotal, gTotal, bTotal := AddRow(r, x, y, iy, m, rTotal, gTotal, bTotal);
        iy, m := iy + 1, m + 1;
      }
      BoxMean(Contents(), dims.width, dims.height, r, x, y, m, Totals(rTotal as nat, gTotal as nat, bTotal as nat));
      p := Pixel(Mean(rTotal as nat, totalCt as nat), Mean(gTotal as nat, totalCt as nat),
        Mean(bTotal as nat, totalCt as nat), initial.alpha);
    }

    /** One pass of the `iy` loop of `box_blur`: adds to the u32 accumulators the colours
        of the 2r+1 neighbours x-r .. x+r of row iy (row m of the box around (x, y)),
        each coordinate clamped after its cast. */
    method AddRow(r: nat, x: nat, y: nat, iy: int, ghost m: nat, r0: u32, g0: u32, b0: u32)
      returns (rTotal: u32, gTotal: u32, bTotal: u32)
      requires Valid() && InRange(dims.width, dims.height, r) && x < dims.width && y < dims.height
      requires iy == y - r + m && m < 2 * r + 1
      requires BoxTotals(Contents(), dims.width, dims.height, x - r, y - r, 2 * r + 1, m) ==
        Totals(r0 as nat, g0 as nat, b0 as nat)
      ensures BoxTotals(Contents(), dims.width, dims.height, x - r, y - r, 2 * r + 1, m + 1) ==
        Totals(rTotal as nat, gTotal as nat, bTotal as nat)
    {
      var cy := Clamp(iy, dims.height);
      BoxRowFits(Contents(), dims.width, dims.height, r, x - r, y - r, m);
      rTotal, gTotal, bTotal := r0, g0, b0;
      ghost var n := 0;
      var ix := x - r;
      while ix < x + r + 1
        invariant ix == x - r + n && n <= 2 * r + 1
        invariant var row := RowTotals(Contents(), dims.width, dims.height, x - r, cy, n);
          rTotal as int == r0 as int + row.r && gTotal as int == g0 as int + row.g && bTotal as int == b0 as int + row.b
      {
        var cx := Clamp(ix, dims.width);
        RowStep(Contents(), dims.width, dims.height, x - r, cy, n, ix);
        var q := GetPixel(cx, cy);
        rTotal := rTotal + q.r as u32;
        bTotal := bTotal + q.b as u32;
        gTotal := gTotal + q.g as u32;
        ix, n := ix + 1, n + 1;
      }
      BoxRowEnd(Contents(), dims.width, dims.height, x - r, y - r, 2 * r + 1, m, n, iy);
    }

    /** `blur`: three in-place box-blur passes with the radii `(size - 1) / 2` of the
        kernel sizes, which all come out as `Radius(amount)`. */
    method Blur(amount: nat)
      requires Valid() && InRange(dims.width, dims.height, Radius(amount))
      modifies pixels
      ensures Valid()
      ensures Contents() == GaussianBlur(old(Contents()), dims.width, dims.height, amount)
    {
      var w, h := dims.width, dims.height;
      var sizes := BoxSizes(amount);
      PassRadii(amount);
      BoxBlur(this, w, h, PassRadius(sizes[0]));
      BoxBlur(this, w, h, PassRadius(sizes[1]));
      BoxBlur(this, w, h, PassRadius(sizes[2]));
    }

    /** `blurred`: a new image holding a copy of the buffer, blurred; this one is left
        as it was. */
    method Blurred(amount: nat) returns (img: OwnedImage)
      requires Valid() && InRange(dims.width, dims.height, Radius(amount))
      ensures fresh(img) && fresh(img.pixels) && img.Valid() && img.dims == dims
      ensures img.Contents() == GaussianBlur(Contents(), dims.width, dims.height, amount)
    {
      img := new OwnedImage(Dimensions(dims.width, dims.height), pixels[..]);
      img.Blur(amount);
    }

    /** `blur_from`: copies the source's dimensions and buffer, then blurs in place. */
    method BlurFrom(amount: nat, d: Dimensions, px: seq<byte>)
      requires |px| == ByteCount(d) && InRange(d.width, d.height, Radius(amount))
      modifies this
      ensures Valid() && dims == d && fresh(pixels)
      ensures Contents() == GaussianBlur(Grid(px), d.width, d.height, amount)
    {
      CopyFrom(d, px);
      Blur(amount);
    }

    /** `flip_from`: copies the source's dimensions and buffer, then flips in place. */
    method FlipFrom(horiz: bool, vert: bool, d: Dimensions, px: seq<byte>)
      requires |px| == ByteCount(d)
      modifies this
      ensures Valid() && dims == d && fresh(pixels)
      ensures Contents() == FlippedInPlace(Grid(px), d.width, d.height, horiz, vert)
    {
      CopyFrom(d, px);
      Flip(horiz, vert);
    }

    /** `copy_from`: takes the source's dimensions and a fresh copy of its `pixels()`,
        whatever this image held before. */
    method CopyFrom(d: Dimensions, px: seq<byte>)
      modifies this
      ensures dims == d && pixels[..] == px && fresh(pixels)
      ensures Valid() <==> |px| == ByteCount(d)
    {
      dims := Dimensions(d.width, d.height);
      pixels := new byte[|px|](i requires 0 <= i < |px| => px[i]);
    }
  }

  /** The kernel sizes `blur` and `blurred` push, one per pass: `wl` for the passes
      below m, `wu` for the others. */
  method BoxSizes(amount: nat) returns (sizes: seq<int>)
    ensures sizes == KernelSizes(amount)
  {
    var wl := LowerWidth(amount);
    var wu := wl + 2;
    var m := LowerCount(amount);
    sizes := [];
    var i := 0;
    while i < 3
      invariant i <= 3 && |sizes| == i
      invariant forall k :: 0 <= k < i ==> sizes[k] == if k < m then wl else wu
    {
      if i < m {
        sizes := sizes + [wl];
      } else {
        sizes := sizes + [wu];
      }
      i := i + 1;
    }
    assert sizes[0] == KernelSizes(amount)[0] && sizes[1] == KernelSizes(amount)[1] && sizes[2] == KernelSizes(amount)[2];
  }

  /** `box_blur(image, w, h, r)`: one pass over the image in row-major order, each
      pixel replaced in place by the average of its box of radius r, so that later
      pixels see the already blurred ones before them. */
  method BoxBlur(image: OwnedImage, w: nat, h: nat, r: int)
    requires image.Valid() && w == image.dims.width && h == image.dims.height
    requires 0 <= r && InRange(w, h, r)
    modifies image.pixels
    ensures image.Valid()
    ensures image.Contents() == BlurPass(old(image.Contents()), w, h, r)
  {
    ghost var g0 := image.Contents();
    var j := 0;
    while j < h
      invariant j <= h
      invariant image.Contents() == SweepRows(g0, w, h, BoxRule(w, h, r), j)
    {
      ghost var row0 := image.Contents();
      var i := 0;
      while i < w
        invariant i <= w
        invariant image.Contents() == SweepCols(row0, w, h, BoxRule(w, h, r), j, i)
      {
        var initial := image.GetPixel(i, j);
        var p := image.BoxAverage(r, i, j);
        PassStep(row0, w, h, r, j, i);
        image.SetPixel(i, j, Pixel(p.r, p.g, p.b, initial.alpha));
        i := i + 1;
      }
      j := j + 1;
    }
  }
}
