/**
 * The image buffer the transforms work on: a height x width grid of pixels,
 * each pixel holding three unsigned 8-bit samples in RGB order (a numpy
 * array of shape (height, width, 3) and dtype uint8).
 */
module Images {

  /** An unsigned 8-bit sample. */
  type Sample = x: int | 0 <= x < 256

  /** Number of samples per pixel. */
  const Channels: nat := 3

  /** One pixel: a sequence of Channels samples. */
  type Pixel = seq<Sample>

  predicate ValidPixel(p: Pixel) {
    |p| == Channels
  }

  datatype Image = Image(height: nat, width: nat, pixels: seq<seq<Pixel>>) {

    /** The buffer has exactly height rows of width pixels of Channels samples. */
    predicate Valid() {
      |pixels| == height &&
      forall i | 0 <= i < height ::
        |pixels[i]| == width &&
        forall j | 0 <= j < width :: ValidPixel(pixels[i][j])
    }

    predicate SameShape(other: Image) {
      height == other.height && width == other.width
    }

    function PixelAt(i: nat, j: nat): (p: Pixel)
      requires Valid() && i < height && j < width
      ensures ValidPixel(p)
    {
      pixels[i][j]
    }

    /** The sample at row i, column j, channel c. */
    function At(i: nat, j: nat, c: nat): Sample
      requires Valid() && i < height && j < width && c < Channels
    {
      pixels[i][j][c]
    }
  }

  /** Two well-formed images of the same shape that agree on every sample are equal. */
  lemma Extensionality(a: Image, b: Image)
    requires a.Valid() && b.Valid() && a.SameShape(b)
    requires forall i, j, c | 0 <= i < a.height && 0 <= j < a.width && 0 <= c < Channels ::
               a.At(i, j, c) == b.At(i, j, c)
    ensures a == b
  {
    forall i | 0 <= i < a.height
      ensures a.pixels[i] == b.pixels[i]
    {
      forall j | 0 <= j < a.width
        ensures a.pixels[i][j] == b.pixels[i][j]
      {
        forall c | 0 <= c < Channels
          ensures a.pixels[i][j][c] == b.pixels[i][j][c]
        {
          assert a.At(i, j, c) == b.At(i, j, c);
        }
      }
    }
  }
}
