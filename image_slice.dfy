/** A view on an image's bytes: the backing buffer, shared with the image it was cut
    from, and a `SliceSpec` saying where the view lies. `ImageSliceMut` has the same
    fields and the same code, so one datatype stands for both. */
module Slice {
  import opened Utils
  import opened Arith
  import opened Buffer

  /** A view: the whole backing buffer and the spec of the part it shows. Its
      `dimensions()` are `spec.dims`. */
  datatype ImageSlice = ImageSlice(pixels: seq<byte>, spec: SliceSpec)

  /** A clamped crop rectangle: its corner and its dimensions. */
  datatype Window = Window(x: nat, y: nat, dims: Dimensions)

  function Min(a: nat, b: nat): nat
  {
    if a <= b then a else b
  }

  /** The clamping every `crop` applies: the corner is pulled inside the image, then the
      requested size is cut back to what is left to the right of and below the corner.
      A crop therefore never fails. */
  function ClampWindow(img: Dimensions, x: nat, y: nat, req: Dimensions): (c: Window)
    ensures c.x <= img.width && c.y <= img.height
    ensures c.x + c.dims.width <= img.width && c.y + c.dims.height <= img.height
    ensures c.x == (if x <= img.width then x else img.width)
    ensures c.y == (if y <= img.height then y else img.height)
    ensures c.dims.width <= req.width && c.dims.height <= req.height
    ensures c.dims.width == req.width || c.x + c.dims.width == img.width
    ensures c.dims.height == req.height || c.y + c.dims.height == img.height
  {
    var x' := Min(img.width, x);
    var y' := Min(img.height, y);
    Window(x', y', Dimensions(Min(req.width, img.width - x'), Min(req.height, img.height - y')))
  }

  /** `OwnedImage::crop` on a buffer `pixels` of dimensions `dims`: the clamped corner
      stored in pixel units, the image's size, the clamped dimensions. */
  function OwnerCrop(pixels: seq<byte>, dims: Dimensions, x: nat, y: nat, req: Dimensions): (s: ImageSlice)
    ensures s.pixels == pixels && s.spec.size == (dims.width, dims.height)
    ensures var c := ClampWindow(dims, x, y, req);
      s.spec.offset == (c.x, c.y) && s.spec.dims == c.dims
  {
    var c := ClampWindow(dims, x, y, req);
    ImageSlice(pixels, SliceSpec((c.x, c.y), (dims.width, dims.height), c.dims))
  }

  /** `ImageSlice::crop`: clamped against the view's own dimensions, the corner stored
      multiplied by 4, the view's dimensions recorded as the size, the same backing. */
  function Crop(s: ImageSlice, x: nat, y: nat, req: Dimensions): (r: ImageSlice)
    ensures r.pixels == s.pixels
    ensures r.spec.size == (s.spec.dims.width, s.spec.dims.height)
    ensures r.spec.offset.0 % 4 == 0 && r.spec.offset.1 % 4 == 0
    ensures r.spec.offset.0 / 4 + r.spec.dims.width <= s.spec.dims.width
    ensures r.spec.offset.1 / 4 + r.spec.dims.height <= s.spec.dims.height
    ensures r.spec.dims.width <= req.width && r.spec.dims.height <= req.height
    ensures var c := ClampWindow(s.spec.dims, x, y, req);
      r.spec.offset == (4 * c.x, 4 * c.y) && r.spec.dims == c.dims
  {
    var c := ClampWindow(s.spec.dims, x, y, req);
    DivModUnique(4 * c.x, 4, c.x, 0);
    DivModUnique(4 * c.y, 4, c.y, 0);
    ImageSlice(s.pixels, SliceSpec((c.x * 4, c.y * 4), (s.spec.dims.width, s.spec.dims.height), c.dims))
  }

  // ---------------------------------------------------------------- pixel access

  /** The window `get_pixel` accepts without reporting an error: its height is taken
      from `dims.width`. The report does not stop the read, so nothing depends on it. */
  predicate InWindow(spec: SliceSpec, x: nat, y: nat)
    ensures InWindow(spec, x, y) <==>
      spec.offset.0 <= x < spec.offset.0 + spec.dims.width && spec.offset.1 <= y < spec.offset.1 + spec.dims.width
  {
    var w := spec.dims.width;
    var h := spec.dims.width;
    !(x < spec.offset.0 || y < spec.offset.1 || x >= w + spec.offset.0 || y >= h + spec.offset.1)
  }

  /** The view's `get_pixel`: four bytes at `y*dims.width*4 + 4*x` of the backing buffer,
      with the view's width as the stride and no offset. */
  function GetPixel(s: ImageSlice, x: nat, y: nat): (p: Pixel)
    requires Index(s.spec.dims.width, x, y) + 4 <= |s.pixels|
    ensures Cell(s.spec.dims.width, x, y) < |Grid(s.pixels)| && p == Grid(s.pixels)[Cell(s.spec.dims.width, x, y)]
  {
    PixelAt(s.pixels, s.spec.dims.width, x, y)
  }

  /** Inside the view's own dimensions, `get_pixel` reads the grid of the first
      width*height*4 backing bytes, whatever the offset. */
  lemma GetPixelGrid(s: ImageSlice, x: nat, y: nat)
    requires var d := s.spec.dims; 4 * Area(d.width, d.height) <= |s.pixels| && x < d.width && y < d.height
    ensures var d := s.spec.dims;
      Index(d.width, x, y) + 4 <= |s.pixels| && Cell(d.width, x, y) < Area(d.width, d.height) &&
      GetPixel(s, x, y) == Grid(s.pixels[..4 * Area(d.width, d.height)])[Cell(d.width, x, y)]
  {
    PixelAtGrid(s.pixels, s.spec.dims.width, s.spec.dims.height, x, y);
  }

  /** For the full crop of an image at (0, 0) the view's `get_pixel` is the image's
      addressing, and its window check agrees with the image's bounds exactly when the
      image is square. */
  lemma FullCropGetPixel(pixels: seq<byte>, dims: Dimensions, x: nat, y: nat)
    requires |pixels| == ByteCount(dims) && x < dims.width && y < dims.height
    ensures var s := OwnerCrop(pixels, dims, 0, 0, dims);
      Index(dims.width, x, y) + 4 <= |pixels| && Cell(dims.width, x, y) < |Grid(pixels)| &&
      GetPixel(s, x, y) == Grid(pixels)[Cell(dims.width, x, y)] &&
      (InWindow(s.spec, x, y) <==> y < dims.width)
  {
    var s := OwnerCrop(pixels, dims, 0, 0, dims);
    assert s.spec.dims == dims;
    assert pixels[..4 * Area(dims.width, dims.height)] == pixels;
    GetPixelGrid(s, x, y);
  }

  /** The window check rejects a genuine pixel of a view taller than it is wide. */
  lemma WindowUsesWidth()
    ensures var spec := SliceSpec((0, 0), (1, 2), Dimensions(1, 2));
      !InWindow(spec, 0, 1)
  {
  }

  // ---------------------------------------------------------------- materialisation

  /** Backing offset of row j of the view as `pixels()` computes it,
      `w*j*4 + off_x + off_y*w*4` with w the recorded size's width: the x offset is
      added as a byte count while the y offset is scaled as a row count. */
  function RowStart(s: ImageSlice, j: nat): nat
  {
    var w := s.spec.size.0;
    w * j * 4 + s.spec.offset.0 + s.spec.offset.1 * w * 4
  }

  /** Row j of a view is read from row `off_y + j` of an image of the recorded width,
      `off_x` bytes in. */
  lemma RowStartValue(s: ImageSlice, j: nat)
    ensures RowStart(s, j) == s.spec.size.0 * 4 * (s.spec.offset.1 + j) + s.spec.offset.0
  {
    RowOffset(s.spec.size.0, s.spec.offset.1, j);
  }

  lemma RowStartMono(s: ImageSlice, j: nat, j': nat)
    requires j <= j'
    ensures RowStart(s, j) <= RowStart(s, j')
  {
    MulMono(j, j', s.spec.size.0);
    assert s.spec.size.0 * j == j * s.spec.size.0 && s.spec.size.0 * j' == j' * s.spec.size.0;
  }

  /** Every backing byte `pixels()` reads exists: the last row ends inside the buffer. */
  predicate ReadsInBounds(s: ImageSlice)
  {
    var d := s.spec.dims;
    d.width == 0 || d.height == 0 || RowStart(s, d.height - 1) + d.width * 4 <= |s.pixels|
  }

  /** Byte i of row j of the view lies in the backing buffer. */
  lemma RowByteInBounds(s: ImageSlice, j: nat, i: nat)
    requires ReadsInBounds(s) && j < s.spec.dims.height && i < s.spec.dims.width * 4
    ensures RowStart(s, j) + i < |s.pixels|
  {
    RowStartMono(s, j, s.spec.dims.height - 1);
  }

  /** Row j of the view as `pixels()` copies it: `4*width` bytes from the row start. */
  function Row(s: ImageSlice, j: nat): (row: seq<byte>)
    requires ReadsInBounds(s) && j < s.spec.dims.height
    ensures |row| == s.spec.dims.width * 4
  {
    seq(s.spec.dims.width * 4, i requires 0 <= i < s.spec.dims.width * 4 =>
      RowByteInBounds(s, j, i);
      s.pixels[RowStart(s, j) + i])
  }

  /** The first n rows of the view, one after the other: n rows of `4*width` bytes
      (`Cell(4*width, 0, n)` is `n*4*width`). */
  function Rows(s: ImageSlice, n: nat): (m: seq<byte>)
    requires ReadsInBounds(s) && n <= s.spec.dims.height
    ensures |m| == Cell(s.spec.dims.width * 4, 0, n)
  {
    if n == 0 then [] else Rows(s, n - 1) + Row(s, n - 1)
  }

  /** n rows of w pixels are n rows of 4*w bytes. */
  lemma {:induction false} ByteRows(w: nat, n: nat)
    ensures 4 * Cell(w, 0, n) == Cell(w * 4, 0, n)
  {
    if n > 0 {
      ByteRows(w, n - 1);
    }
  }

  lemma ByteCountValue(d: Dimensions)
    ensures ByteCount(d) == d.width * 4 * d.height
  {
    AreaValue(d.width, d.height);
    assert 4 * (d.width * d.height) == d.width * 4 * d.height;
  }

  lemma ByteCountRows(d: Dimensions)
    ensures ByteCount(d) == Cell(d.width * 4, 0, d.height)
  {
    ByteRows(d.width, d.height);
  }

  /** What `pixels()` returns: all rows of the view. */
  function Materialised(s: ImageSlice): (m: seq<byte>)
    requires ReadsInBounds(s)
    ensures |m| == ByteCount(s.spec.dims)
  {
    ByteCountRows(s.spec.dims);
    Rows(s, s.spec.dims.height)
  }

  /** Byte i of row j sits at position j*4*width + i of every longer prefix of rows. */
  lemma {:induction false} RowsAt(s: ImageSlice, n: nat, j: nat, i: nat)
    requires ReadsInBounds(s) && n <= s.spec.dims.height && j < n && i < s.spec.dims.width * 4
    ensures var rw := s.spec.dims.width * 4;
      Cell(rw, i, j) < |Rows(s, n)| && Rows(s, n)[Cell(rw, i, j)] == Row(s, j)[i]
  {
    var rw := s.spec.dims.width * 4;
    if j < n - 1 {
      RowsAt(s, n - 1, j, i);
    } else {
      CellShift(rw, i, j);
    }
  }

  /** Byte i of row j of the materialised buffer is byte i of `Row(s, j)`. */
  lemma MaterialisedAtRow(s: ImageSlice, j: nat, i: nat)
    requires ReadsInBounds(s) && j < s.spec.dims.height && i < s.spec.dims.width * 4
    ensures var rw := s.spec.dims.width * 4;
      Cell(rw, i, j) < |Materialised(s)| && Materialised(s)[Cell(rw, i, j)] == Row(s, j)[i]
  {
    RowsAt(s, s.spec.dims.height, j, i);
  }

  lemma SliceIs(m: seq<byte>, a: nat, n: nat, row: seq<byte>)
    requires a + n <= |m| && |row| == n
    requires forall i :: 0 <= i < n ==> m[a + i] == row[i]
    ensures m[a .. a + n] == row
  {
  }

  /** Row j sits at positions j*4*width .. (j+1)*4*width of the materialised buffer. */
  lemma MaterialisedHoldsRow(s: ImageSlice, j: nat)
    requires ReadsInBounds(s) && j < s.spec.dims.height
    ensures var rw := s.spec.dims.width * 4;
      Cell(rw, 0, j) + rw == Cell(rw, 0, j + 1) <= |Materialised(s)| &&
      Materialised(s)[Cell(rw, 0, j) .. Cell(rw, 0, j + 1)] == Row(s, j)
  {
    var rw := s.spec.dims.width * 4;
    CellShift(rw, rw, j);
    CellRowEnd(rw, j);
    CellRowMono(rw, j + 1, s.spec.dims.height);
    ByteCountRows(s.spec.dims);
    forall i | 0 <= i < rw
      ensures Materialised(s)[Cell(rw, 0, j) + i] == Row(s, j)[i]
    {
      MaterialisedAtRow(s, j, i);
      CellShift(rw, i, j);
    }
    SliceIs(Materialised(s), Cell(rw, 0, j), rw, Row(s, j));
  }

  /** A non-empty row is the `4*width` backing bytes from its row start. */
  lemma RowIsSlice(s: ImageSlice, j: nat)
    requires ReadsInBounds(s) && j < s.spec.dims.height && s.spec.dims.width > 0
    ensures RowStart(s, j) + s.spec.dims.width * 4 <= |s.pixels|
    ensures Row(s, j) == s.pixels[RowStart(s, j) .. RowStart(s, j) + s.spec.dims.width * 4]
  {
    RowByteInBounds(s, j, s.spec.dims.width * 4 - 1);
  }

  /** Row j of the materialised buffer is the `4*width` backing bytes from the row start. */
  lemma MaterialisedRow(s: ImageSlice, j: nat)
    requires ReadsInBounds(s) && j < s.spec.dims.height && s.spec.dims.width > 0
    ensures var rw := s.spec.dims.width * 4;
      Cell(rw, 0, j) + rw <= |Materialised(s)| && RowStart(s, j) + rw <= |s.pixels| &&
      Materialised(s)[Cell(rw, 0, j) .. Cell(rw, 0, j) + rw] == s.pixels[RowStart(s, j) .. RowStart(s, j) + rw]
  {
    MaterialisedHoldsRow(s, j);
    RowIsSlice(s, j);
  }

  /** Materialised byte `j*width*4 + i` is backing byte `size.0*4*(off_y + j) + off_x + i`. */
  lemma MaterialisedAt(s: ImageSlice, j: nat, i: nat)
    requires ReadsInBounds(s) && j < s.spec.dims.height && i < s.spec.dims.width * 4
    ensures var w := s.spec.size.0;
      Cell(s.spec.dims.width * 4, i, j) < |Materialised(s)| &&
      w * 4 * (s.spec.offset.1 + j) + s.spec.offset.0 + i < |s.pixels| &&
      Materialised(s)[Cell(s.spec.dims.width * 4, i, j)] == s.pixels[w * 4 * (s.spec.offset.1 + j) + s.spec.offset.0 + i]
  {
    MaterialisedAtRow(s, j, i);
    RowByteInBounds(s, j, i);
    RowOffset(s.spec.size.0, s.spec.offset.1, j);
  }

  /** `pixels()`: for each row, compute its backing offset, then push its `4*width` bytes. */
  method Pixels(s: ImageSlice) returns (buffer: seq<byte>)
    requires ReadsInBounds(s)
    ensures buffer == Materialised(s)
  {
    var offX, offY := s.spec.offset.0, s.spec.offset.1;
    var w := s.spec.size.0;
    var dims := s.spec.dims;
    buffer := [];
    var j := 0;
    while j < dims.height
      invariant j <= dims.height
      invariant buffer == Rows(s, j)
    {
      var offset := w * j * 4 + offX + offY * w * 4;
      ghost var row := Row(s, j);
      var i := 0;
      while i < dims.width * 4
        invariant i <= dims.width * 4
        invariant buffer == Rows(s, j) + row[..i]
      {
        RowByteInBounds(s, j, i);
        assert row[..i + 1] == row[..i] + [s.pixels[offset + i]];
        buffer := buffer + [s.pixels[offset + i]];
        i := i + 1;
      }
      assert row[..i] == row;
      j := j + 1;
    }
  }

  // ---------------------------------------------------------------- crops of an image

  /** A crop of an image reads only inside the image's buffer, because the unscaled x
      offset plus four bytes per pixel never passes the end of a row. */
  lemma OwnerCropReadsInBounds(pixels: seq<byte>, dims: Dimensions, x: nat, y: nat, req: Dimensions)
    requires |pixels| == ByteCount(dims)
    ensures ReadsInBounds(OwnerCrop(pixels, dims, x, y, req))
  {
    var s := OwnerCrop(pixels, dims, x, y, req);
    var c := ClampWindow(dims, x, y, req);
    var W := dims.width;
    if c.dims.width > 0 && c.dims.height > 0 {
      var last := c.y + c.dims.height - 1;
      RowStartValue(s, c.dims.height - 1);
      RowEndFits(W, dims.height, last, c.x, c.dims.width);
      ByteCountValue(dims);
    }
  }

  /** Row j of a materialised crop is `4*w'` bytes of image row y' + j, starting x' BYTES
      into that row (not x' pixels): in a buffer of rows of `4*W` bytes that is byte x'
      of row y' + j. For a crop at column 0 these are the first pixels of
      the row. */
  lemma OwnerCropRow(pixels: seq<byte>, dims: Dimensions, x: nat, y: nat, req: Dimensions, j: nat)
    requires |pixels| == ByteCount(dims)
    requires j < ClampWindow(dims, x, y, req).dims.height && ClampWindow(dims, x, y, req).dims.width > 0
    ensures var s := OwnerCrop(pixels, dims, x, y, req);
      var c := ClampWindow(dims, x, y, req);
      var rw := c.dims.width * 4;
      var start := Cell(dims.width * 4, c.x, c.y + j);
      ReadsInBounds(s) && Cell(rw, 0, j) + rw <= |Materialised(s)| && start + rw <= |pixels| &&
      Materialised(s)[Cell(rw, 0, j) .. Cell(rw, 0, j) + rw] == pixels[start .. start + rw]
  {
    OwnerCropReadsInBounds(pixels, dims, x, y, req);
    var s := OwnerCrop(pixels, dims, x, y, req);
    var c := ClampWindow(dims, x, y, req);
    MaterialisedRow(s, j);
    RowOffset(dims.width, c.y, j);
    CellValue(dims.width * 4, c.x, c.y + j);
    assert (c.y + j) * (dims.width * 4) == dims.width * 4 * (c.y + j);
  }

  /** In a view at offset (0, 0) whose recorded width is its own, row j starts at byte
      j*4*width, right after the rows before it. */
  lemma ContiguousRow(s: ImageSlice, j: nat)
    requires ReadsInBounds(s) && s.spec.offset == (0, 0) && s.spec.size.0 == s.spec.dims.width
    requires j < s.spec.dims.height
    ensures var rw := s.spec.dims.width * 4;
      Cell(rw, 0, j) + rw <= |s.pixels| && Row(s, j) == s.pixels[Cell(rw, 0, j) .. Cell(rw, 0, j) + rw]
  {
    var rw := s.spec.dims.width * 4;
    CellValue(rw, 0, j);
    assert RowStart(s, j) == j * rw;
    if rw > 0 {
      RowIsSlice(s, j);
    }
  }

  lemma PrefixConcat(p: seq<byte>, a: nat, r: nat)
    requires a + r <= |p|
    ensures p[..a + r] == p[..a] + p[a .. a + r]
  {
  }

  /** A view at offset (0, 0) whose recorded width is its own reads its rows back to back:
      its first n rows are the first n*4*width backing bytes. */
  lemma {:induction false} ContiguousRows(s: ImageSlice, n: nat)
    requires ReadsInBounds(s) && s.spec.offset == (0, 0) && s.spec.size.0 == s.spec.dims.width
    requires n <= s.spec.dims.height
    ensures Cell(s.spec.dims.width * 4, 0, n) <= |s.pixels|
    ensures Rows(s, n) == s.pixels[..Cell(s.spec.dims.width * 4, 0, n)]
  {
    if n > 0 {
      var rw := s.spec.dims.width * 4;
      ContiguousRows(s, n - 1);
      ContiguousRow(s, n - 1);
      PrefixConcat(s.pixels, Cell(rw, 0, n - 1), rw);
    }
  }

  /** Cropping a whole image at (0, 0) and materialising gives back its buffer. */
  lemma FullCropMaterialises(pixels: seq<byte>, dims: Dimensions)
    requires |pixels| == ByteCount(dims)
    ensures ReadsInBounds(OwnerCrop(pixels, dims, 0, 0, dims))
    ensures Materialised(OwnerCrop(pixels, dims, 0, 0, dims)) == pixels
  {
    OwnerCropReadsInBounds(pixels, dims, 0, 0, dims);
    var s := OwnerCrop(pixels, dims, 0, 0, dims);
    assert s.spec.dims == dims;
    ByteCountRows(dims);
    ContiguousRows(s, dims.height);
  }

  /** The crop from the example: a 4x4 image cropped at (2, 2) to 4x4 gives a 2x2 view. */
  lemma CropExample(pixels: seq<byte>)
    requires |pixels| == 64
    ensures OwnerCrop(pixels, Dimensions(4, 4), 2, 2, Dimensions(4, 4)).spec.dims == Dimensions(2, 2)
  {
  }

  // ---------------------------------------------------------------- crops of a view

  /** Row j of a view's crop starts `4*(c.y + j)` rows of the view's width into the
      backing buffer, plus `4*c.x` bytes: the stored offset, already scaled by 4, counts
      as bytes in x (c.x pixels) but as rows in y (4*c.y rows). */
  lemma CropRowStart(s: ImageSlice, x: nat, y: nat, req: Dimensions, j: nat)
    ensures var c := ClampWindow(s.spec.dims, x, y, req);
      RowStart(Crop(s, x, y, req), j) == s.spec.dims.width * 4 * (4 * c.y + j) + 4 * c.x
  {
    var c := ClampWindow(s.spec.dims, x, y, req);
    RowOffset(s.spec.dims.width, 4 * c.y, j);
  }

  /** Byte i of row j that `pixels()` copies out of a view's crop is backing byte
      `dw*4*(4*c.y + j) + 4*c.x + i`, with dw the view's width: byte `4*c.x + i` of row
      `4*c.y + j` in rows of `4*dw` bytes. */
  lemma CropMaterialisedAt(s: ImageSlice, x: nat, y: nat, req: Dimensions, j: nat, i: nat)
    requires ReadsInBounds(Crop(s, x, y, req))
    requires var c := ClampWindow(s.spec.dims, x, y, req); j < c.dims.height && i < c.dims.width * 4
    ensures var c := ClampWindow(s.spec.dims, x, y, req);
      var at := Cell(s.spec.dims.width * 4, 4 * c.x + i, 4 * c.y + j);
      Cell(c.dims.width * 4, i, j) < |Materialised(Crop(s, x, y, req))| && at < |s.pixels| &&
      Materialised(Crop(s, x, y, req))[Cell(c.dims.width * 4, i, j)] == s.pixels[at]
  {
    var c := ClampWindow(s.spec.dims, x, y, req);
    var dw := s.spec.dims.width;
    MaterialisedAt(Crop(s, x, y, req), j, i);
    CellValue(dw * 4, 4 * c.x + i, 4 * c.y + j);
    assert (4 * c.y + j) * (dw * 4) == dw * 4 * (4 * c.y + j);
  }

  /** Cropping the full view of a 4x4 image one row down gives a 4x3 view whose last row
      `pixels()` would read from byte 96 of the 64-byte buffer. */
  lemma CropOverruns(pixels: seq<byte>)
    requires |pixels| == 64
    ensures var full := OwnerCrop(pixels, Dimensions(4, 4), 0, 0, Dimensions(4, 4));
      var r := Crop(full, 0, 1, Dimensions(4, 4));
      r.spec.dims == Dimensions(4, 3) && RowStart(r, 2) == 96 && !ReadsInBounds(r)
  {
  }
}
