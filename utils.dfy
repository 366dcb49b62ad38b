/** Value records shared by the owning image and its views. */
module Utils {

  /** One 8-bit channel value. */
  type byte = b: int | 0 <= b < 256

  /** An unsigned 32-bit integer: arithmetic that leaves the range is a verification error. */
  newtype u32 = n: int | 0 <= n < 0x1_0000_0000

  /** Width and height of an image or of a view, in pixels. */
  datatype Dimensions = Dimensions(width: nat, height: nat)

  /** An RGBA pixel. */
  datatype Pixel = Pixel(r: byte, g: byte, b: byte, alpha: byte)

  /** Describes a view: where it starts (`offset`), the dimensions of the
      image it was cut from (`size`) and its own dimensions (`dims`). */
  datatype SliceSpec = SliceSpec(offset: (nat, nat), size: (nat, nat), dims: Dimensions)

}
