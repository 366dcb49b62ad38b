# RGBA image buffers, crops, flips, greyscale and box blur

This project models the core of a small Rust image library and proves properties of that model.

**Images.** An `OwnedImage` holds its `Dimensions` and a row-major buffer of RGBA bytes, four per pixel. Pixel (x, y) starts at byte `y*w*4 + 4*x`. The model makes this a class over an `array<byte>`. `Contents()` reads the buffer as a grid of `w*h` pixels. Every in-place operation is proved against a function of that grid: `SetPixel`, `Flip`, `GreyscaleMut`, the `box_blur` pass and `Blur`.

**Views.** An `ImageSlice` shares the buffer of the image it was cut from. A `SliceSpec` records where the view lies: its offset, the backing size and the view's own dimensions. `ImageSliceMut` has the same fields and the same code, so one datatype stands for both. The model covers:
- the view's `get_pixel`;
- `pixels()`, which copies the view out into a new buffer row by row;
- `crop`;
- `flipped`, `greyscale` and `blurred`, which build a new owned image.

**Channels.** The loader's `extract_channels` splits a raw RGBA vector into three `h x w` byte matrices. It fails with `ParseError` on a short buffer. `RGB::new` wraps the result.

The model follows the code as written, including eight behaviours a reader of the code might not expect:
- **Luma is truncated.** The `as u8` cast truncates the weighted sum rather than rounding it. Luma is modelled as `(299r + 587g + 114b) / 1000`.
- **`box_blur` reads and writes one buffer.** Later pixels of a pass see neighbours already blurred in that pass, not a snapshot of the image before it. `Blur.SweepCols`/`Blur.SweepRows` follow the code's row-major order exactly.
- **Negative neighbours wrap.** A negative coordinate is cast to u32 before it is clamped, so it lands on the far edge (`w-1`, `h-1`), not the near one (`Blur.Clamp`).
- **In-place `flip` differs from `flipped`.** The loop runs over every row, so vertical pairs are swapped twice. `(false, true)` is therefore a no-op, and `(true, true)` matches `flipped` only for even widths (`Transforms.FlippedInPlaceAt`).
- **`new` does not check the buffer length.** The class invariant `Valid()` is therefore a precondition.
- **Errors do not stop anything.** An out-of-range `get_pixel`/`set_pixel` prints an error and goes on to index. The model makes the bounds preconditions.
- **A view's `get_pixel` misreads its spec.** It takes the height from `dims.width`. It uses the view's width as the row stride and ignores the offset.
- **Slice offsets use two units.** `OwnedImage::crop` stores the offset in pixels and `ImageSlice::crop` stores it multiplied by 4. `pixels()` adds the x offset as a byte count and the y offset as a row count. So an owner's crop starts x bytes into its row (`Slice.OwnerCropRow`), and a view's crop starts `4*y` rows down (`Slice.CropMaterialisedAt`); cropping the full view of a 4x4 image one row down already reads past the buffer (`Slice.CropOverruns`).

The kernel sizes of `blur`/`blurred` are computed exactly, with an integer square root and an exact ceiling. All three sizes come out equal, so every pass has radius `Radius(amount)`: 0 for amounts 0 and 1, `amount - 1` above that.

## Model

| member | source | states |
|---|---|---|
| Buffer.CellValue | src/OwnedImage.rs:53 | a pixel's cell is `y*w + x` |
| Buffer.IndexValue | src/OwnedImage.rs:53 | a pixel's byte offset is `y*w*4 + 4*x` |
| Buffer.CellBound | src/OwnedImage.rs:50-53 | inside the image, the cell is below `w*h` and its four bytes are inside the `w*h*4` buffer |
| Buffer.GridAt | src/OwnedImage.rs:53-59 | grid cell (x, y) is made of the four bytes at the pixel's byte offset |
| Buffer.GridWrite | src/OwnedImage.rs:68-72 | writing four bytes at a pixel's offset changes that grid cell and no other |
| Buffer.PixelAt | src/OwnedImage.rs:53-59 | the pixel read at (x, y) with stride w is grid cell `Cell(w, x, y)` of the buffer's whole pixels |
| Buffer.PixelAtGrid | src/ImageSlice.rs:37-43 | with stride w, the read at (x, y) is grid cell (x, y) of the first `w*h*4` bytes |
| Buffer.GridAppend | src/OwnedImage.rs:153-156 | pushing a pixel's four bytes appends that pixel to the grid |
| Owned.OwnedImage.constructor | src/OwnedImage.rs:29-34 | takes the dimensions and buffer unchanged; the class invariant holds exactly when the length is `w*h*4` |
| Owned.OwnedImage.GetPixel | src/OwnedImage.rs:46-60 | inside the image, returns grid cell (x, y) |
| Owned.OwnedImage.SetPixel | src/OwnedImage.rs:62-73 | afterwards `get_pixel(x, y)` is the written pixel, the grid changes only at (x, y), and every byte outside the pixel's four is unchanged |
| Owned.OwnedImage.Crop | src/OwnedImage.rs:89-102 | a view on the same buffer with the image's size, whose offset is the clamped corner in pixels and whose dimensions are the clamped size; the window stays inside the image and every byte `pixels()` reads exists |
| Owned.OwnedImage.Flipped | src/OwnedImage.rs:135-161 | a fresh image of the same dimensions whose grid is the mirror image `Transforms.Flipped` |
| Owned.OwnedImage.Greyscale | src/OwnedImage.rs:163-182 | a fresh image of the same dimensions whose grid is `Transforms.Greyscale` of this one |
| Owned.OwnedImage.Exchange | src/OwnedImage.rs:237-252 | the save, read and two writes of one flip step exchange the two pixels and leave every other one |
| Owned.OwnedImage.Flip | src/OwnedImage.rs:231-255 | the grid becomes `FlippedInPlace` of the old grid; the dimensions do not change |
| Transforms.FlippedInPlace | src/OwnedImage.rs:231-255 | the grid the in-place `flip` loop leaves: the same number of pixels; `Transforms.FlippedInPlaceAt` gives every pixel's source |
| Owned.OwnedImage.GreyscaleMut | src/OwnedImage.rs:257-274 | the grid becomes exactly what `greyscale()` of the old image returns |
| Owned.OwnedImage.BoxAverage | src/OwnedImage.rs:299-320 | the u32 totals never overflow, and the pixel written at (x, y) is `Blur.Averaged` of the current grid |
| Owned.OwnedImage.AddRow | src/OwnedImage.rs:304-314 | one `iy` iteration adds exactly the clamped row of 2r+1 neighbours to the running totals, without overflow |
| Owned.OwnedImage.Blur | src/OwnedImage.rs:204-229 | three in-place passes: the grid becomes `GaussianBlur` of the old grid |
| Owned.OwnedImage.Blurred | src/OwnedImage.rs:104-133 | a fresh image of the same dimensions holding `GaussianBlur` of this grid; this image is unchanged |
| Owned.OwnedImage.CopyFrom | src/OwnedImage.rs:286-292 | the dimensions and buffer become the source's, whatever they were before; the invariant holds exactly when they match |
| Owned.OwnedImage.BlurFrom | src/OwnedImage.rs:276-279 | the result is the blurred grid of the source's buffer, with the source's dimensions |
| Owned.OwnedImage.FlipFrom | src/OwnedImage.rs:281-284 | the result is the in-place flip of the source's buffer, with the source's dimensions |
| Owned.BoxSizes | src/OwnedImage.rs:214-221 | the three pushed sizes are `KernelSizes(amount)` |
| Owned.BoxBlur | src/OwnedImage.rs:296-324 | rewriting pixels in row-major order, the grid becomes `BlurPass` of the old grid |
| Blur.BlurPass | src/OwnedImage.rs:296-324 | the grid one `box_blur` pass leaves: the same number of pixels; `Owned.BoxBlur`, `Blur.BlurPassKeepsAlpha`, `Blur.BlurUniform` and `Blur.BlurRadiusZero` state what it holds |
| Owned.GreyUpToDone | src/OwnedImage.rs:261-273 | once every cell has been replaced by its grey, the grid is `Greyscale` of the original |
| Render.FlippedBytes | src/OwnedImage.rs:139-158 | the pushed buffer has `w*h*4` bytes, and its grid is the mirror image of the grid read with stride w |
| Render.GreyscaleBytes | src/OwnedImage.rs:167-179 | the pushed buffer has `w*h*4` bytes, and its grid is the greyscale of the grid read with stride w |
| Transforms.Luma | src/OwnedImage.rs:172-173 | the luma lies between the smallest and the largest colour channel |
| Transforms.Grey | src/OwnedImage.rs:264-271 | all three colour channels are the luma, and alpha is kept |
| Transforms.GreyOfGrey | src/OwnedImage.rs:172-173 | under the exact luma, a pixel whose channels agree is its own grey (not so for the f32 code; see "Left out") |
| Transforms.GreyscaleIsGrey | src/OwnedImage.rs:163-182 | every output pixel has `r == g == b` and the input's alpha |
| Transforms.GreyscaleIdempotent | src/OwnedImage.rs:163-182 | under the exact luma, greyscale twice is greyscale once (not so for the f32 code; see "Left out") |
| Transforms.FlipSource | src/OwnedImage.rs:144-152 | the source pixel is `(w-1-i or i, h-1-j or j)` as the flags select, and lies inside the image |
| Transforms.FlipSourceInvolution | src/OwnedImage.rs:144-152 | mirroring a pixel twice gives it back |
| Transforms.FlippedAt | src/OwnedImage.rs:141-158 | output pixel (i, j) of `flipped` is the source pixel at its mirrored coordinates |
| Transforms.FlipTwice | src/OwnedImage.rs:135-161 | `flipped` twice with the same flags gives back the original grid |
| Transforms.FlipCompose | src/OwnedImage.rs:135-161 | two flips compose into the flip along the axes named by exactly one of them |
| Transforms.Swap | src/OwnedImage.rs:237-252 | the two cells trade places and every other cell stays |
| Transforms.InPlaceStep | src/OwnedImage.rs:236-253 | one swap keeps every pixel's value the one the loop has moved there so far |
| Transforms.InPlaceNextRow | src/OwnedImage.rs:235-254 | the end of a row, at the middle column or at the `break`, is the start of the next row |
| Transforms.InPlaceStateAfter | src/OwnedImage.rs:235-254 | the loop's state at (j, i) determines the grid |
| Transforms.InPlaceAfterStep | src/OwnedImage.rs:236-253 | one inner iteration exchanges (i, j) with its mirror |
| Transforms.InPlaceAfterNextRow | src/OwnedImage.rs:249-251 | with neither flag set the `break` ends the row at once |
| Transforms.InPlaceSourceFinal | src/OwnedImage.rs:231-255 | after all rows, pixel (x, y) holds the mirror's pixel when `horiz` is set, except the middle column when both flags are set; otherwise its own |
| Transforms.FlippedInPlaceAt | src/OwnedImage.rs:231-255 | pixel by pixel, in-place `flip` agrees with `flipped` when `horiz` is set, except the middle column of an odd width when both flags are set; otherwise it keeps the pixel |
| Transforms.FlipInPlaceNoHoriz | src/OwnedImage.rs:231-255 | `flip(false, false)` and `flip(false, true)` leave the image unchanged |
| Transforms.FlipInPlaceHorizontal | src/OwnedImage.rs:231-255 | `flip(true, false)` in place equals `flipped(true, false)` |
| Transforms.FlipInPlaceBothEven | src/OwnedImage.rs:231-255 | `flip(true, true)` in place equals `flipped(true, true)` when the width is even |
| Blur.AsU32 | src/OwnedImage.rs:306-307 | the i32-to-u32 cast of a neighbour coordinate lands below 2^32 |
| Blur.Clamp | src/OwnedImage.rs:306-307 | every neighbour read is inside the image: a coordinate inside is kept, and one below 0 or past the end goes to the last column or row |
| Blur.RowTotals | src/OwnedImage.rs:305-313 | the totals of n neighbours of a row are at most `255*n` per channel |
| Blur.BoxBound | src/OwnedImage.rs:304-314 | the totals of m rows of a box are at most 255 per neighbour |
| Blur.BoxCount | src/OwnedImage.rs:300 | `total_ct` is the neighbour count `(2r+1)^2`, and 255 for each neighbour fits u32 |
| Blur.BoxRowFits | src/OwnedImage.rs:304-313 | adding one more row of the box to the totals cannot overflow u32 |
| Blur.RowStep | src/OwnedImage.rs:305-313 | the clamped pixel at the next `ix` extends the row totals |
| Blur.BoxRowEnd | src/OwnedImage.rs:304-314 | after a whole row the totals are those of one row more |
| Blur.BoxMean | src/OwnedImage.rs:315-320 | each total is at most `255 * total_ct`, so the `as u8` casts keep the quotients, and the written pixel is `Averaged` |
| Blur.Averaged | src/OwnedImage.rs:315-320 | the written pixel keeps the alpha of the pixel it replaces |
| Blur.PassStep | src/OwnedImage.rs:297-322 | one more pixel of a row is replaced by its average over the grid as the pass has left it |
| Blur.ColsKeepAlpha | src/OwnedImage.rs:315-320 | a sweep along a row never changes an alpha |
| Blur.RowsKeepAlpha | src/OwnedImage.rs:297-323 | a sweep over rows never changes an alpha |
| Blur.BlurPassKeepsAlpha | src/OwnedImage.rs:296-324 | `box_blur` leaves every pixel's alpha unchanged |
| Blur.FixedRows | src/OwnedImage.rs:297-323 | a pass whose rule returns every pixel unchanged leaves the grid as it is |
| Blur.RadiusZeroAveraged | src/OwnedImage.rs:300-320 | with radius 0 every pixel's average is the pixel itself |
| Blur.BlurRadiusZero | src/OwnedImage.rs:296-324 | `box_blur` with radius 0 is the identity |
| Blur.UniformRow | src/OwnedImage.rs:305-313 | on a one-colour image a row of n neighbours totals n times the colour |
| Blur.UniformBox | src/OwnedImage.rs:304-314 | on a one-colour image a box of m rows totals `m*side` times the colour |
| Blur.UniformAveraged | src/OwnedImage.rs:315-320 | on a one-colour image every average is the pixel itself |
| Blur.BlurUniform | src/OwnedImage.rs:296-324 | `box_blur` leaves a one-colour image identical, edges included |
| Blur.ISqrt | src/OwnedImage.rs:107-108 | the integer square root r satisfies `r^2 <= n < (r+1)^2` |
| Blur.ISqrtUnique | src/OwnedImage.rs:107-108 | only one r satisfies those bounds |
| Blur.CeilDiv | src/OwnedImage.rs:111-112 | the ceiling of a quotient, for either sign of the divisor |
| Blur.CeilUnique | src/OwnedImage.rs:111-112 | the ceiling is pinned down by its two bounds |
| Blur.KernelWidth | src/OwnedImage.rs:107-108 | `wl = floor(sqrt(4 sigma^2 + 1))` is 1 for amount 0 and `2*amount` otherwise |
| Blur.PassCount | src/OwnedImage.rs:111-112 | `m = ceil(mideal)` is always 3 |
| Blur.KernelSizesEqual | src/OwnedImage.rs:114-121 | all three sizes equal `wl` |
| Blur.PassRadii | src/OwnedImage.rs:226-228 | every pass radius `(size-1)/2` equals `Radius(amount)` |
| Blur.PassRadius | src/OwnedImage.rs:226-228 | `(size-1)/2` with i32 division truncating toward zero: for a positive size, `2r <= size-1 < 2r+2`; otherwise the quotient rounds up toward 0 |
| Blur.KernelSizes | src/OwnedImage.rs:205-221 | `blur` computes three box sizes; `Blur.KernelSizesEqual` shows they are all `wl` |
| Blur.GaussianBlur | src/OwnedImage.rs:204-229 | three `box_blur` passes with the three radii: the same number of pixels; `Blur.GaussianSmallAmount`, `Blur.GaussianKeepsAlpha` and `Blur.GaussianUniform` state what it holds |
| Blur.GaussianSmallAmount | src/OwnedImage.rs:204-229 | amounts 0 and 1 leave the image unchanged |
| Blur.GaussianKeepsAlpha | src/OwnedImage.rs:204-229 | the blur never changes an alpha |
| Blur.GaussianUniform | src/OwnedImage.rs:204-229 | the blur leaves a one-colour image unchanged |
| Slice.ClampWindow | src/OwnedImage.rs:90-95 | the corner is `min(W, x)`, `min(H, y)`; the dimensions are at most the request, stop at the image's edge, and are cut only there |
| Slice.OwnerCrop | src/OwnedImage.rs:89-102 | an owner's crop keeps the buffer, records the image's size and stores the clamped corner in pixels |
| Slice.CropExample | src/OwnedImage.rs:89-102 | cropping a 4x4 image at (2, 2) to 4x4 gives a 2x2 view |
| Slice.Crop | src/ImageSlice.rs:98-111 | a view's crop keeps the backing buffer, records the view's dimensions as the size, stores the clamped corner times 4 as the offset and the clamped size as the dimensions, and stays inside the view |
| Slice.CropRowStart | src/ImageSlice.rs:88-91 | row j of a view's crop starts at backing byte `dw*4*(4*c.y + j) + 4*c.x`: c.x pixels across but 4*c.y rows down |
| Slice.CropMaterialisedAt | src/ImageSlice.rs:88-111 | byte i of row j copied out of a view's crop is backing byte `dw*4*(4*c.y + j) + 4*c.x + i` |
| Slice.CropOverruns | src/ImageSlice.rs:88-111 | the full view of a 4x4 image cropped one row down gives a 4x3 view whose last row would be read from byte 96 of 64 |
| Slice.GetPixel | src/ImageSlice.rs:28-44 | the pixel is grid cell `Cell(dims.width, x, y)` of the whole backing buffer: the view's width is the stride and the offset is ignored |
| Slice.GetPixelGrid | src/ImageSlice.rs:37-43 | inside the view's dimensions, `get_pixel` is a grid cell of the first `w*h*4` backing bytes, whatever the offset |
| Slice.FullCropGetPixel | src/ImageSlice.rs:28-44 | for the full crop at (0, 0), `get_pixel` is the owner's addressing, and its window check passes exactly when `y < width` |
| Slice.WindowUsesWidth | src/ImageSlice.rs:30-35 | the window check rejects a real pixel of a view taller than it is wide |
| Slice.InWindow | src/ImageSlice.rs:30-35 | the view's `get_pixel` accepts (x, y) exactly when it lies in the `width x width` square at the offset |
| Slice.RowByteInBounds | src/ImageSlice.rs:89-91 | every byte `pixels()` reads is inside the backing buffer |
| Slice.RowStartValue | src/ImageSlice.rs:89 | row j of a view is read from backing byte `W*4*(off_y + j) + off_x`: row `off_y + j` of the recorded size, `off_x` bytes in |
| Slice.Materialised | src/ImageSlice.rs:81-96 | `pixels()` returns exactly `dims.width*dims.height*4` bytes |
| Slice.MaterialisedAt | src/ImageSlice.rs:88-93 | copied byte `j*dw*4 + i` is backing byte `W*4*(off_y + j) + off_x + i` |
| Slice.MaterialisedRow | src/ImageSlice.rs:88-93 | each copied row is one contiguous run of the backing buffer |
| Slice.Pixels | src/ImageSlice.rs:81-96 | the row-by-row copy loop returns `Materialised` |
| Slice.OwnerCropReadsInBounds | src/ImageSlice.rs:89-91 | an owner's crop of a `W*H*4` buffer reads only inside that buffer |
| Slice.OwnerCropRow | src/ImageSlice.rs:88-93 | row j of an owner's crop is the buffer's row `y + j`, from byte x on |
| Slice.ContiguousRows | src/ImageSlice.rs:88-93 | a view at (0, 0) as wide as its backing copies out a prefix of the buffer |
| Slice.FullCropMaterialises | src/ImageSlice.rs:81-96 | cropping an image to its full size and copying it out gives back its buffer |
| SliceOps.Flipped | src/ImageSlice.rs:144-170 | a fresh image with the view's dimensions whose grid is the mirror of what the view's `get_pixel` reads |
| SliceOps.Greyscale | src/ImageSlice.rs:172-191 | a fresh image with the view's dimensions whose grid is the greyscale of what the view's `get_pixel` reads |
| SliceOps.Blurred | src/ImageSlice.rs:113-142 | a fresh image with the view's dimensions holding the three-pass blur of `pixels()` |
| Channels.ExtractChannels | src/image.rs:49-91 | succeeds exactly when every read is inside the buffer (`4*w*h - 2 < len`, or no pixels); then r, g, b are the `h x w` matrices of bytes 0, 1, 2 of each pixel; otherwise `ParseError` |
| Channels.ReadStep | src/image.rs:62-80 | a failed read means the buffer does not fit, and a read that succeeds extends its row |
| Channels.NewRGB | src/image.rs:36-46 | succeeds exactly when `extract_channels` does, keeps the three matrices, and reports any failure as `ParseError` |
| Channels.Plane | src/image.rs:56-86 | each matrix has h rows |
| Channels.PlaneRow | src/image.rs:61-82 | each row has w entries |
| Channels.WholeBufferFits | src/image.rs:49-91 | a whole `w*h*4` buffer always parses |
| Channels.FitThreshold | src/image.rs:62-80 | a buffer may be short by its final alpha byte but not by two bytes |
| Channels.PlaneAtGrid | src/image.rs:62-80 | on a whole buffer, `r[y][x]`, `g[y][x]`, `b[y][x]` are the colours of pixel (x, y) |
| Channels.PlaneIgnoresTail | src/image.rs:54-86 | bytes from index `4*w*h - 1` on never affect the matrices |

## Left out

- Codec I/O is not modelled: `rust_image::open`, `save_buffer`, `utils::import`, `save_image`, `OwnedImage::import`, `image::import` and `Image::new`. They call an external decoding library.
- Printing is not modelled: `dispatch_error` and the two `println!` calls of `extract_channels` only print.
- `src/main.rs` is an example driver, and `src/traits.rs` only declares the interfaces. Its default `blur_from`/`flip_from` are overridden by the owner's own. The `unimplemented!()` methods of the draft `Image` have no behaviour.
- Lifetimes and borrow exclusivity are not modelled: they have no behaviour at run time. A view is a value holding the backing bytes.
- `dimensions()` of an image and of a view is a plain field read (`dims`, `spec.dims`). The owner's `pixels()` is the buffer's contents (`pixels[..]`), and `get_pixels`/`get_pixels_mut` are private accessors. None of these has a member of its own.
- `crop_mut` builds exactly the view `crop` builds, so `Owned.OwnedImage.Crop` stands for both.
- Owned.OwnedImage.GetPixel: requires x < width and y < height. Out of range, the code prints an error and indexes anyway, which reads another pixel or panics.
- Owned.OwnedImage.SetPixel: requires x < width and y < height, for the same reason.
- Slice.GetPixel: requires the four bytes read to be inside the backing buffer; a read past the end panics.
- Transforms.Luma: `0.299*r + 0.587*g + 0.114*b` in f32, truncated, is modelled as the exact `(299r + 587g + 114b) / 1000`. The two differ where f32 rounding crosses an integer: in single precision the sum for (37, 37, 37) is 36.999996, which truncates to 36, so for the code the luma can fall below the smallest channel.
- Transforms.GreyOfGrey: holds for the exact luma only. For the f32 code the grey pixel (37, 37, 37) greys to (36, 36, 36).
- Transforms.GreyscaleIdempotent: holds for the exact luma only. For the f32 code a 1x1 image (40, 37, 30, a) greys to (37, 37, 37, a) and then to (36, 36, 36, a).
- Blur.KernelSizes: the f32 `sqrt`, `floor` and `ceil` are computed exactly. For very large amounts f32 rounding of `sigma*sigma` could give other sizes.
- Blur.InRange: the blur's i32 coordinates and u32 totals are proved not to overflow only under this precondition: radius at most 2051, and `w + r` and `h + r` below 2^31. Larger images or radii, where the code would wrap or panic, are not modelled.
- Owned.OwnedImage.GetPixel: the u32 offset `y*w*4 + 4*x` is computed on unbounded integers, as is the same offset in `Owned.OwnedImage.SetPixel` (src/OwnedImage.rs:68), in the view's `Slice.GetPixel` (src/ImageSlice.rs:37) and the row start of `pixels()` (`Slice.RowStartValue`) (src/ImageSlice.rs:89); a buffer whose byte offsets pass 2^32, where the code would wrap or panic, is not modelled.
- Owned.BoxBlur: takes `w` and `h` equal to the image's dimensions, as every caller passes. Other values are not modelled.
- Owned.OwnedImage.CopyFrom: the source `impl Image` is given as the two values the code reads from it, `dimensions()` and `pixels()`.
- Owned.OwnedImage.BlurFrom: the source is given as its dimensions and buffer, as for `CopyFrom`, and must match for the blur's reads to stay in bounds.
- Owned.OwnedImage.FlipFrom: the source is given as its dimensions and buffer, as for `CopyFrom`, and must match for the flip's reads to stay in bounds.
- Slice.Pixels: requires `ReadsInBounds`, every copied row inside the backing buffer; otherwise `pixels()` indexes past the buffer and panics. A view's crop can produce such a view (`Slice.CropOverruns`).
- Slice.Materialised: requires `ReadsInBounds`, for the same reason as `Slice.Pixels`; the panic is not modelled.
- SliceOps.Blurred: requires `ReadsInBounds`, because it copies the view out with `pixels()`; on a view whose rows run off the buffer the code panics, which is not modelled.
- SliceOps.Flipped: requires the view's `w*h*4` reads to lie inside the backing buffer; otherwise the code panics.
- SliceOps.Greyscale: requires the view's `w*h*4` reads to lie inside the backing buffer; otherwise the code panics.
