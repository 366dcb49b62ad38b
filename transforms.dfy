/** Reference definitions of the per-pixel transforms on the pixel grid: greyscale,
    out-of-place flip, and the arrangement the in-place flip loop leaves behind. */
module Transforms {
  import opened Utils
  import opened Buffer

  // ---------------------------------------------------------------- greyscale

  function Min3(a: int, b: int, c: int): int
  {
    if a <= b && a <= c then a else if b <= c then b else c
  }

  function Max3(a: int, b: int, c: int): int
  {
    if a >= b && a >= c then a else if b >= c then b else c
  }

  /** Luma with the 0.299/0.587/0.114 weights, truncated like the `as u8` cast:
      it lies between the darkest and the brightest channel, so the cast never wraps. */
  function Luma(p: Pixel): (l: byte)
    ensures Min3(p.r, p.g, p.b) <= l <= Max3(p.r, p.g, p.b)
  {
    (299 * p.r + 587 * p.g + 114 * p.b) / 1000
  }

  /** The grey pixel replacing p: luma in all three colour channels, alpha kept. */
  function Grey(p: Pixel): (q: Pixel)
    ensures q.r == q.g == q.b == Luma(p) && q.alpha == p.alpha
  {
    var l := Luma(p);
    Pixel(l, l, l, p.alpha)
  }

  /** A pixel whose three colour channels agree is its own grey. */
  lemma GreyOfGrey(p: Pixel)
    requires p.r == p.g == p.b
    ensures Grey(p) == p
  {
    assert 299 * p.r + 587 * p.g + 114 * p.b == 1000 * p.r;
  }

  /** The greyscale image: every pixel replaced by its grey, in place or not. */
  function Greyscale(g: seq<Pixel>): (r: seq<Pixel>)
    ensures |r| == |g|
  {
    seq(|g|, k requires 0 <= k < |g| => Grey(g[k]))
  }

  /** Greyscale output is grey everywhere and keeps every alpha. */
  lemma GreyscaleIsGrey(g: seq<Pixel>)
    ensures forall k :: 0 <= k < |g| ==>
      Greyscale(g)[k].r == Greyscale(g)[k].g == Greyscale(g)[k].b && Greyscale(g)[k].alpha == g[k].alpha
  {
  }

  /** An image that is already grey is left as it is; so greyscale is idempotent. */
  lemma GreyscaleIdempotent(g: seq<Pixel>)
    ensures Greyscale(Greyscale(g)) == Greyscale(g)
  {
    forall k | 0 <= k < |g|
      ensures Greyscale(Greyscale(g))[k] == Greyscale(g)[k]
    {
      GreyOfGrey(Greyscale(g)[k]);
    }
  }

  // ---------------------------------------------------------------- flip

  /** The pixel that out-of-place `flipped` copies into (x, y); also the partner
      that the in-place `flip` swaps (x, y) with. */
  function FlipSource(w: nat, h: nat, horiz: bool, vert: bool, x: nat, y: nat): (src: (nat, nat))
    requires x < w && y < h
    ensures src.0 < w && src.1 < h
    ensures src.0 == (if horiz then w - 1 - x else x)
    ensures src.1 == (if vert then h - 1 - y else y)
  {
    (if horiz then w - 1 - x else x, if vert then h - 1 - y else y)
  }

  lemma FlipSourceInvolution(w: nat, h: nat, horiz: bool, vert: bool, x: nat, y: nat)
    requires x < w && y < h
    ensures var s := FlipSource(w, h, horiz, vert, x, y);
      FlipSource(w, h, horiz, vert, s.0, s.1) == (x, y)
  {
  }

  /** The image that out-of-place `flipped` builds. */
  function Flipped(g: seq<Pixel>, w: nat, h: nat, horiz: bool, vert: bool): (r: seq<Pixel>)
    requires |g| == Area(w, h)
    ensures |r| == |g|
  {
    seq(|g|, k requires 0 <= k < |g| =>
      Locate(w, h, k);
      var src := FlipSource(w, h, horiz, vert, k % w, k / w);
      CellBound(w, h, src.0, src.1);
      g[Cell(w, src.0, src.1)])
  }

  lemma FlippedAt(g: seq<Pixel>, w: nat, h: nat, horiz: bool, vert: bool, x: nat, y: nat)
    requires |g| == Area(w, h) && x < w && y < h
    ensures var src := FlipSource(w, h, horiz, vert, x, y);
      Cell(w, x, y) < |g| && Cell(w, src.0, src.1) < |g| &&
      Flipped(g, w, h, horiz, vert)[Cell(w, x, y)] == g[Cell(w, src.0, src.1)]
  {
    var src := FlipSource(w, h, horiz, vert, x, y);
    CellBound(w, h, x, y);
    CellBound(w, h, src.0, src.1);
    Decompose(w, x, y);
  }

  /** Flipping twice with the same flags gives back the original image. */
  lemma {:induction false} FlipTwice(g: seq<Pixel>, w: nat, h: nat, horiz: bool, vert: bool)
    requires |g| == Area(w, h)
    ensures Flipped(Flipped(g, w, h, horiz, vert), w, h, horiz, vert) == g
  {
    var once := Flipped(g, w, h, horiz, vert);
    forall x: nat, y: nat | x < w && y < h && Cell(w, x, y) < Area(w, h)
      ensures Flipped(once, w, h, horiz, vert)[Cell(w, x, y)] == g[Cell(w, x, y)]
    {
      var src := FlipSource(w, h, horiz, vert, x, y);
      FlippedAt(once, w, h, horiz, vert, x, y);
      FlippedAt(g, w, h, horiz, vert, src.0, src.1);
    }
    GridExtensional(Flipped(once, w, h, horiz, vert), g, w, h);
  }

  /** Flips compose: a flip followed by another flips along the axes named by exactly one of them. */
  lemma {:induction false} FlipCompose(g: seq<Pixel>, w: nat, h: nat, h1: bool, v1: bool, h2: bool, v2: bool)
    requires |g| == Area(w, h)
    ensures Flipped(Flipped(g, w, h, h1, v1), w, h, h2, v2) == Flipped(g, w, h, h1 != h2, v1 != v2)
  {
    var once := Flipped(g, w, h, h1, v1);
    forall x: nat, y: nat | x < w && y < h && Cell(w, x, y) < Area(w, h)
      ensures Flipped(once, w, h, h2, v2)[Cell(w, x, y)] == Flipped(g, w, h, h1 != h2, v1 != v2)[Cell(w, x, y)]
    {
      var src := FlipSource(w, h, h2, v2, x, y);
      FlippedAt(once, w, h, h2, v2, x, y);
      FlippedAt(g, w, h, h1, v1, src.0, src.1);
      FlippedAt(g, w, h, h1 != h2, v1 != v2, x, y);
    }
    GridExtensional(Flipped(once, w, h, h2, v2), Flipped(g, w, h, h1 != h2, v1 != v2), w, h);
  }

  // ---------------------------------------------------------------- in-place flip

  /** Whether the in-place loop has already visited (x, y) when it is about to
      handle column i of row j: rows before j up to column ceil(w/2), then row j up to i. */
  predicate Visited(w: nat, j: nat, i: nat, x: nat, y: nat)
  {
    (y < j && x < (w + 1) / 2) || (y == j && x < i)
  }

  /** Where the value now held by (x, y) came from, at that point of the loop: a pixel
      has traded places with its partner exactly when one of the two has been visited. */
  function InPlaceSource(w: nat, h: nat, horiz: bool, vert: bool, j: nat, i: nat, x: nat, y: nat): (src: (nat, nat))
    requires x < w && y < h
    ensures src.0 < w && src.1 < h
  {
    var q := FlipSource(w, h, horiz, vert, x, y);
    if Visited(w, j, i, x, y) != Visited(w, j, i, q.0, q.1) then q else (x, y)
  }

  /** Cell (x, y) of g holds the pixel of orig the loop has moved there by (j, i). */
  predicate HoldsSource(g: seq<Pixel>, orig: seq<Pixel>, w: nat, h: nat, horiz: bool, vert: bool, j: nat, i: nat, x: nat, y: nat)
  {
    x < w && y < h &&
    var src := InPlaceSource(w, h, horiz, vert, j, i, x, y);
    Cell(w, x, y) < |g| && Cell(w, src.0, src.1) < |orig| &&
    g[Cell(w, x, y)] == orig[Cell(w, src.0, src.1)]
  }

  /** g is orig rearranged as the loop has done it so far. */
  ghost predicate InPlaceState(g: seq<Pixel>, orig: seq<Pixel>, w: nat, h: nat, horiz: bool, vert: bool, j: nat, i: nat)
  {
    && |g| == Area(w, h) && |orig| == Area(w, h)
    && forall x: nat, y: nat :: x < w && y < h ==> HoldsSource(g, orig, w, h, horiz, vert, j, i, x, y)
  }

  /** The image with cells c and c' exchanged, as one loop step leaves it: the saved
      pixel of c goes to c', then the pixel read from c' goes to c. */
  function Swap(g: seq<Pixel>, c: nat, c': nat): (t: seq<Pixel>)
    requires c < |g| && c' < |g|
    ensures |t| == |g|
    ensures t[c] == g[c'] && t[c'] == g[c]
    ensures forall k :: 0 <= k < |g| && k != c && k != c' ==> t[k] == g[k]
  {
    g[c' := g[c]][c := g[c']]
  }

  lemma InPlaceStart(orig: seq<Pixel>, w: nat, h: nat, horiz: bool, vert: bool)
    requires |orig| == Area(w, h)
    ensures InPlaceState(orig, orig, w, h, horiz, vert, 0, 0)
  {
    forall x: nat, y: nat | x < w && y < h
      ensures HoldsSource(orig, orig, w, h, horiz, vert, 0, 0, x, y)
    {
      CellBound(w, h, x, y);
    }
  }

  /** How one step moves the source of (x, y): the pixel just visited and its partner
      trade sources, every other pixel keeps its own. */
  lemma InPlaceSourceStep(w: nat, h: nat, horiz: bool, vert: bool, j: nat, i: nat, x: nat, y: nat)
    requires j < h && i < w && x < w && y < h
    ensures var q := FlipSource(w, h, horiz, vert, i, j);
      InPlaceSource(w, h, horiz, vert, j, i + 1, x, y) ==
        if (x, y) == (i, j) then InPlaceSource(w, h, horiz, vert, j, i, q.0, q.1)
        else if (x, y) == q then InPlaceSource(w, h, horiz, vert, j, i, i, j)
        else InPlaceSource(w, h, horiz, vert, j, i, x, y)
  {
    FlipSourceInvolution(w, h, horiz, vert, x, y);
    FlipSourceInvolution(w, h, horiz, vert, i, j);
  }

  /** One step seen at a single pixel (x, y), from what the state says at (x, y), at the
      visited pixel and at its partner. */
  lemma InPlaceStepAt(g: seq<Pixel>, orig: seq<Pixel>, w: nat, h: nat, horiz: bool, vert: bool,
                      j: nat, i: nat, x: nat, y: nat)
    requires |g| == Area(w, h) && |orig| == Area(w, h)
    requires j < h && i < w && x < w && y < h
    requires var q := FlipSource(w, h, horiz, vert, i, j);
      HoldsSource(g, orig, w, h, horiz, vert, j, i, i, j) &&
      HoldsSource(g, orig, w, h, horiz, vert, j, i, q.0, q.1) &&
      HoldsSource(g, orig, w, h, horiz, vert, j, i, x, y)
    ensures var q := FlipSource(w, h, horiz, vert, i, j);
      Cell(w, i, j) < |g| && Cell(w, q.0, q.1) < |g| &&
      HoldsSource(Swap(g, Cell(w, i, j), Cell(w, q.0, q.1)), orig, w, h, horiz, vert, j, i + 1, x, y)
  {
    var q := FlipSource(w, h, horiz, vert, i, j);
    var c, c' := Cell(w, i, j), Cell(w, q.0, q.1);
    Decompose(w, i, j);
    Decompose(w, q.0, q.1);
    Decompose(w, x, y);
    InPlaceSourceStep(w, h, horiz, vert, j, i, x, y);
  }

  /** One iteration of the inner loop: swap (i, j) with its partner. */
  lemma InPlaceStep(g: seq<Pixel>, orig: seq<Pixel>, w: nat, h: nat, horiz: bool, vert: bool, j: nat, i: nat)
    requires InPlaceState(g, orig, w, h, horiz, vert, j, i)
    requires j < h && i < (w + 1) / 2
    ensures i < w
    ensures var q := FlipSource(w, h, horiz, vert, i, j);
      Cell(w, i, j) < |g| && Cell(w, q.0, q.1) < |g| &&
      InPlaceState(Swap(g, Cell(w, i, j), Cell(w, q.0, q.1)), orig, w, h, horiz, vert, j, i + 1)
  {
    var q := FlipSource(w, h, horiz, vert, i, j);
    CellBound(w, h, i, j);
    CellBound(w, h, q.0, q.1);
    var t := Swap(g, Cell(w, i, j), Cell(w, q.0, q.1));
    assert HoldsSource(g, orig, w, h, horiz, vert, j, i, i, j);
    assert HoldsSource(g, orig, w, h, horiz, vert, j, i, q.0, q.1);
    var next := i + 1;
    forall x: nat, y: nat | x < w && y < h
      ensures HoldsSource(t, orig, w, h, horiz, vert, j, next, x, y)
    {
      assert HoldsSource(g, orig, w, h, horiz, vert, j, i, x, y);
      InPlaceStepAt(g, orig, w, h, horiz, vert, j, i, x, y);
    }
  }

  /** The end of a row's inner loop is the start of the next row. */
  lemma InPlaceNextRow(g: seq<Pixel>, orig: seq<Pixel>, w: nat, h: nat, horiz: bool, vert: bool, j: nat, i: nat)
    requires InPlaceState(g, orig, w, h, horiz, vert, j, i)
    requires i == (w + 1) / 2 || (!horiz && !vert)
    ensures InPlaceState(g, orig, w, h, horiz, vert, j + 1, 0)
  {
    var next := j + 1;
    forall x: nat, y: nat | x < w && y < h
      ensures HoldsSource(g, orig, w, h, horiz, vert, next, 0, x, y)
    {
      assert HoldsSource(g, orig, w, h, horiz, vert, j, i, x, y);
      assert InPlaceSource(w, h, horiz, vert, j, i, x, y) == InPlaceSource(w, h, horiz, vert, j + 1, 0, x, y);
    }
  }

  /** The image as the loop has rearranged it when it is about to handle column i of row j. */
  function InPlaceAfter(g: seq<Pixel>, w: nat, h: nat, horiz: bool, vert: bool, j: nat, i: nat): (r: seq<Pixel>)
    requires |g| == Area(w, h)
    ensures |r| == |g|
  {
    seq(|g|, k requires 0 <= k < |g| =>
      Locate(w, h, k);
      var src := InPlaceSource(w, h, horiz, vert, j, i, k % w, k / w);
      CellBound(w, h, src.0, src.1);
      g[Cell(w, src.0, src.1)])
  }

  /** The image that the in-place `flip` leaves behind: every row handled. */
  function FlippedInPlace(g: seq<Pixel>, w: nat, h: nat, horiz: bool, vert: bool): (r: seq<Pixel>)
    requires |g| == Area(w, h)
    ensures |r| == |g|
  {
    InPlaceAfter(g, w, h, horiz, vert, h, 0)
  }

  /** `InPlaceAfter` is the one image in the state the loop describes at (j, i). */
  lemma {:induction false} InPlaceAfterState(orig: seq<Pixel>, w: nat, h: nat, horiz: bool, vert: bool, j: nat, i: nat)
    requires |orig| == Area(w, h)
    ensures InPlaceState(InPlaceAfter(orig, w, h, horiz, vert, j, i), orig, w, h, horiz, vert, j, i)
  {
    var f := InPlaceAfter(orig, w, h, horiz, vert, j, i);
    forall x: nat, y: nat | x < w && y < h
      ensures HoldsSource(f, orig, w, h, horiz, vert, j, i, x, y)
    {
      CellBound(w, h, x, y);
      Decompose(w, x, y);
      var src := InPlaceSource(w, h, horiz, vert, j, i, x, y);
      CellBound(w, h, src.0, src.1);
      var k := Cell(w, x, y);
      assert k % w == x && k / w == y;
      assert f[k] == orig[Cell(w, src.0, src.1)];
    }
  }

  lemma {:induction false} InPlaceStateAfter(g: seq<Pixel>, orig: seq<Pixel>, w: nat, h: nat, horiz: bool, vert: bool, j: nat, i: nat)
    requires InPlaceState(g, orig, w, h, horiz, vert, j, i)
    ensures g == InPlaceAfter(orig, w, h, horiz, vert, j, i)
  {
    var f := InPlaceAfter(orig, w, h, horiz, vert, j, i);
    forall x: nat, y: nat | x < w && y < h && Cell(w, x, y) < Area(w, h)
      ensures g[Cell(w, x, y)] == f[Cell(w, x, y)]
    {
      assert HoldsSource(g, orig, w, h, horiz, vert, j, i, x, y);
      Decompose(w, x, y);
    }
    GridExtensional(g, f, w, h);
  }

  /** Before the first step nothing has moved. */
  lemma InPlaceAfterStart(orig: seq<Pixel>, w: nat, h: nat, horiz: bool, vert: bool)
    requires |orig| == Area(w, h)
    ensures InPlaceAfter(orig, w, h, horiz, vert, 0, 0) == orig
  {
    InPlaceStart(orig, w, h, horiz, vert);
    InPlaceStateAfter(orig, orig, w, h, horiz, vert, 0, 0);
  }

  /** One step of the inner loop exchanges (i, j) with its mirror and moves on to i + 1. */
  lemma InPlaceAfterStep(orig: seq<Pixel>, w: nat, h: nat, horiz: bool, vert: bool, j: nat, i: nat)
    requires |orig| == Area(w, h) && j < h && i < (w + 1) / 2
    ensures i < w
    ensures var q := FlipSource(w, h, horiz, vert, i, j);
      Cell(w, i, j) < Area(w, h) && Cell(w, q.0, q.1) < Area(w, h) &&
      Swap(InPlaceAfter(orig, w, h, horiz, vert, j, i), Cell(w, i, j), Cell(w, q.0, q.1))
        == InPlaceAfter(orig, w, h, horiz, vert, j, i + 1)
  {
    var g := InPlaceAfter(orig, w, h, horiz, vert, j, i);
    InPlaceAfterState(orig, w, h, horiz, vert, j, i);
    InPlaceStep(g, orig, w, h, horiz, vert, j, i);
    var q := FlipSource(w, h, horiz, vert, i, j);
    InPlaceStateAfter(Swap(g, Cell(w, i, j), Cell(w, q.0, q.1)), orig, w, h, horiz, vert, j, i + 1);
  }

  /** A row is finished at the middle column, or at once when neither flag is set. */
  lemma InPlaceAfterNextRow(orig: seq<Pixel>, w: nat, h: nat, horiz: bool, vert: bool, j: nat, i: nat)
    requires |orig| == Area(w, h)
    requires i == (w + 1) / 2 || (!horiz && !vert)
    ensures InPlaceAfter(orig, w, h, horiz, vert, j, i) == InPlaceAfter(orig, w, h, horiz, vert, j + 1, 0)
  {
    var g := InPlaceAfter(orig, w, h, horiz, vert, j, i);
    InPlaceAfterState(orig, w, h, horiz, vert, j, i);
    InPlaceNextRow(g, orig, w, h, horiz, vert, j, i);
    InPlaceStateAfter(g, orig, w, h, horiz, vert, j + 1, 0);
  }

  lemma InPlaceSourceFinal(w: nat, h: nat, horiz: bool, vert: bool, x: nat, y: nat)
    requires x < w && y < h
    ensures InPlaceSource(w, h, horiz, vert, h, 0, x, y) ==
      if horiz && !(vert && 2 * x + 1 == w) then FlipSource(w, h, horiz, vert, x, y) else (x, y)
  {
    var q := FlipSource(w, h, horiz, vert, x, y);
    assert Visited(w, h, 0, x, y) == (x < (w + 1) / 2);
    assert Visited(w, h, 0, q.0, q.1) == (q.0 < (w + 1) / 2);
    if horiz {
      if 2 * x + 1 == w {
        assert q.0 == x;
      } else {
        assert (x < (w + 1) / 2) != (w - 1 - x < (w + 1) / 2);
      }
    }
  }

  /** The closed form: the in-place flip moves pixels like `flipped` when horiz is set,
      except that with both flags the middle column of an odd-width image stays put;
      without horiz every pixel stays put. */
  lemma FlippedInPlaceAt(g: seq<Pixel>, w: nat, h: nat, horiz: bool, vert: bool, x: nat, y: nat)
    requires |g| == Area(w, h) && x < w && y < h
    ensures Cell(w, x, y) < |g|
    ensures FlippedInPlace(g, w, h, horiz, vert)[Cell(w, x, y)] ==
      if horiz && !(vert && 2 * x + 1 == w) then
        Flipped(g, w, h, horiz, vert)[Cell(w, x, y)]
      else g[Cell(w, x, y)]
  {
    CellBound(w, h, x, y);
    Decompose(w, x, y);
    InPlaceSourceFinal(w, h, horiz, vert, x, y);
    FlippedAt(g, w, h, horiz, vert, x, y);
  }

  /** (false, false) and (false, true) leave the image as it is: the first breaks out
      of every row, the second swaps every vertical pair twice. */
  lemma {:induction false} FlipInPlaceNoHoriz(g: seq<Pixel>, w: nat, h: nat, vert: bool)
    requires |g| == Area(w, h)
    ensures FlippedInPlace(g, w, h, false, vert) == g
  {
    forall x: nat, y: nat | x < w && y < h && Cell(w, x, y) < Area(w, h)
      ensures FlippedInPlace(g, w, h, false, vert)[Cell(w, x, y)] == g[Cell(w, x, y)]
    {
      FlippedInPlaceAt(g, w, h, false, vert, x, y);
    }
    GridExtensional(FlippedInPlace(g, w, h, false, vert), g, w, h);
  }

  /** (true, false) in place agrees with out-of-place `flipped`. */
  lemma {:induction false} FlipInPlaceHorizontal(g: seq<Pixel>, w: nat, h: nat)
    requires |g| == Area(w, h)
    ensures FlippedInPlace(g, w, h, true, false) == Flipped(g, w, h, true, false)
  {
    forall x: nat, y: nat | x < w && y < h && Cell(w, x, y) < Area(w, h)
      ensures FlippedInPlace(g, w, h, true, false)[Cell(w, x, y)] == Flipped(g, w, h, true, false)[Cell(w, x, y)]
    {
      FlippedInPlaceAt(g, w, h, true, false, x, y);
    }
    GridExtensional(FlippedInPlace(g, w, h, true, false), Flipped(g, w, h, true, false), w, h);
  }

  /** (true, true) in place agrees with `flipped` when the width is even. */
  lemma {:induction false} FlipInPlaceBothEven(g: seq<Pixel>, w: nat, h: nat)
    requires |g| == Area(w, h) && w % 2 == 0
    ensures FlippedInPlace(g, w, h, true, true) == Flipped(g, w, h, true, true)
  {
    forall x: nat, y: nat | x < w && y < h && Cell(w, x, y) < Area(w, h)
      ensures FlippedInPlace(g, w, h, true, true)[Cell(w, x, y)] == Flipped(g, w, h, true, true)[Cell(w, x, y)]
    {
      FlippedInPlaceAt(g, w, h, true, true, x, y);
    }
    GridExtensional(FlippedInPlace(g, w, h, true, true), Flipped(g, w, h, true, true), w, h);
  }
}
