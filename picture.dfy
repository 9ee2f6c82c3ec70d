/**
 * The few image operations the collage builder relies on: an RGB pixel, a
 * `w` x `h` block of pixels standing for an image already resized to the
 * cell size, and pasting such a block onto a canvas at a given offset.
 * The canvas is addressed as `canvas[x, y]`: column x, row y.
 */
module Picture {

  /** One 8-bit colour channel. */
  newtype Channel = c: int | 0 <= c < 256

  datatype Pixel = Rgb(red: Channel, green: Channel, blue: Channel)

  /** The background colour of a new collage. */
  const White: Pixel := Rgb(255, 255, 255)

  /** An image as rows of pixels: `img[b][a]` is the pixel in column a of row b. */
  type Block = seq<seq<Pixel>>

  /** `img` is exactly `w` pixels wide and `h` pixels high. */
  predicate IsBlock(img: Block, w: nat, h: nat)
  {
    |img| == h && forall b :: 0 <= b < h ==> |img[b]| == w
  }

  /** Pastes `img` with its top-left corner at (x, y), overwriting the canvas
      pixels under it. Parts of the image that fall outside the canvas are
      dropped; every canvas pixel outside the image's rectangle is unchanged. */
  method Paste(canvas: array2<Pixel>, img: Block, w: nat, h: nat, x: int, y: int)
    requires IsBlock(img, w, h)
    modifies canvas
    ensures forall i, j :: 0 <= i < canvas.Length0 && 0 <= j < canvas.Length1 ==>
      canvas[i, j] == (if x <= i < x + w && y <= j < y + h then img[j - y][i - x] else old(canvas[i, j]))
  {
    var b := 0;
    while b < h
      invariant 0 <= b <= h
      invariant forall i, j :: 0 <= i < canvas.Length0 && 0 <= j < canvas.Length1 ==>
        canvas[i, j] == (if x <= i < x + w && y <= j < y + b then img[j - y][i - x] else old(canvas[i, j]))
    {
      var a := 0;
      while a < w
        invariant 0 <= a <= w
        invariant forall i, j :: 0 <= i < canvas.Length0 && 0 <= j < canvas.Length1 ==>
          canvas[i, j] == (if (x <= i < x + w && y <= j < y + b) || (x <= i < x + a && j == y + b)
                           then img[j - y][i - x] else old(canvas[i, j]))
      {
        if 0 <= x + a < canvas.Length0 && 0 <= y + b < canvas.Length1 {
          canvas[x + a, y + b] := img[b][a];
        }
        a := a + 1;
      }
      b := b + 1;
    }
  }
}
