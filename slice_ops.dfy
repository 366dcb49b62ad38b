/** The operations of a view that build a new owned image: `flipped` and `greyscale`
    read through the view's `get_pixel` (the view's width as the row stride, no offset),
    `blurred` blurs a copy of the view's `pixels()`. */
module SliceOps {
  import opened Utils
  import opened Buffer
  import opened Transforms
  import opened Blur
  import opened Render
  import opened Slice
  import Owned

  /** `flipped` of a view: the view's dimensions, and the mirror image of the grid its
      `get_pixel` reads. */
  method Flipped(s: ImageSlice, horiz: bool, vert: bool) returns (img: Owned.OwnedImage)
    requires var d := s.spec.dims; 4 * Area(d.width, d.height) <= |s.pixels|
    ensures fresh(img) && fresh(img.pixels) && img.Valid() && img.dims == s.spec.dims
    ensures var d := s.spec.dims;
      img.Contents() == Transforms.Flipped(Grid(s.pixels[..4 * Area(d.width, d.height)]), d.width, d.height, horiz, vert)
  {
    var width, height := s.spec.dims.width, s.spec.dims.height;
    var out := FlippedBytes(s.pixels, width, height, horiz, vert);
    img := new Owned.OwnedImage(Dimensions(width, height), out);
  }

  /** `greyscale` of a view: the view's dimensions, and the grey of each pixel its
      `get_pixel` reads. */
  method Greyscale(s: ImageSlice) returns (img: Owned.OwnedImage)
    requires var d := s.spec.dims; 4 * Area(d.width, d.height) <= |s.pixels|
    ensures fresh(img) && fresh(img.pixels) && img.Valid() && img.dims == s.spec.dims
    ensures var d := s.spec.dims;
      img.Contents() == Transforms.Greyscale(Grid(s.pixels[..4 * Area(d.width, d.height)]))
  {
    var width, height := s.spec.dims.width, s.spec.dims.height;
    var out := GreyscaleBytes(s.pixels, width, height);
    img := new Owned.OwnedImage(Dimensions(width, height), out);
  }

  /** The bytes `pixels()` copies out, read as a grid of the view's dimensions. */
  function PixelsGrid(s: ImageSlice): (g: seq<Pixel>)
    requires ReadsInBounds(s)
    ensures |g| == Area(s.spec.dims.width, s.spec.dims.height)
  {
    Grid(Materialised(s))
  }

  /** `blurred` of a view: a new image of the view's dimensions over a copy of its
      `pixels()`, then the three box-blur passes. */
  method Blurred(s: ImageSlice, amount: nat) returns (img: Owned.OwnedImage)
    requires ReadsInBounds(s) && InRange(s.spec.dims.width, s.spec.dims.height, Radius(amount))
    ensures fresh(img) && fresh(img.pixels) && img.Valid() && img.dims == s.spec.dims
    ensures img.Contents() == GaussianBlur(PixelsGrid(s), s.spec.dims.width, s.spec.dims.height, amount)
  {
    var sizes := Owned.BoxSizes(amount);
    PassRadii(amount);
    var w, h := s.spec.dims.width, s.spec.dims.height;
    var px := Pixels(s);
    img := new Owned.OwnedImage(Dimensions(w, h), px);
    Owned.BoxBlur(img, w, h, PassRadius(sizes[0]));
    Owned.BoxBlur(img, w, h, PassRadius(sizes[1]));
    Owned.BoxBlur(img, w, h, PassRadius(sizes[2]));
  }
}
