/**
 * The per-image transforms: channel isolation, the negative effect and the
 * constant-colour border. Each takes a 3-channel 8-bit image and produces a
 * new one; none changes its input.
 */
module ImageProcessing {
  import opened Images
  import Bitwise

  datatype Option<T> = None | Some(value: T)

  // ---------------------------------------------------------------------------
  // Channel isolation
  // ---------------------------------------------------------------------------

  /** The channel names that select one channel, with the channel's index. */
  const ChannelMap: map<string, nat> := map["red" := 0, "green" := 1, "blue" := 2]

  /** Looks a channel name up; every name outside the map gives None. */
  function ChannelIndex(channel: string): (k: Option<nat>)
    ensures k == Some(0) <==> channel == "red"
    ensures k == Some(1) <==> channel == "green"
    ensures k == Some(2) <==> channel == "blue"
    ensures k.Some? ==> k.value < Channels
  {
    if channel in ChannelMap then Some(ChannelMap[channel]) else None
  }

  /** The image with every channel except k set to zero. */
  function KeepChannel(img: Image, k: nat): (r: Image)
    requires img.Valid() && k < Channels
    ensures r.Valid() && r.SameShape(img)
  {
    Image(img.height, img.width,
      seq(img.height, i requires 0 <= i < img.height =>
        seq(img.width, j requires 0 <= j < img.width =>
          seq(Channels, c requires 0 <= c < Channels =>
            if c == k then img.pixels[i][j][c] else 0))))
  }

  /**
   * What apply_channel returns for a channel name: the image itself for
   * "original" and for every name that selects no channel, otherwise the
   * image with only the selected channel kept.
   */
  function ChannelView(img: Image, channel: string): (r: Image)
    requires img.Valid()
    ensures r.Valid() && r.SameShape(img)
  {
    if channel == "original" then img
    else match ChannelIndex(channel)
      case None => img
      case Some(k) => KeepChannel(img, k)
  }

  /** "original", and any name other than "red", "green" and "blue", give a copy of the image. */
  lemma ChannelViewCopies(img: Image, channel: string)
    requires img.Valid()
    requires channel !in {"red", "green", "blue"}
    ensures ChannelView(img, channel) == img
  {
  }

  /**
   * For a channel that selects index k, the result keeps channel k of every
   * pixel and holds 0 in every other channel.
   */
  lemma ChannelViewIsolates(img: Image, channel: string, k: nat)
    requires img.Valid()
    requires ChannelIndex(channel) == Some(k)
    ensures var r := ChannelView(img, channel);
      forall i, j, c | 0 <= i < img.height && 0 <= j < img.width && 0 <= c < Channels ::
        r.At(i, j, c) == if c == k then img.At(i, j, c) else 0
  {
  }

  /** Isolating a channel a second time changes nothing. */
  lemma ChannelViewIdempotent(img: Image, channel: string)
    requires img.Valid()
    ensures ChannelView(ChannelView(img, channel), channel) == ChannelView(img, channel)
  {
    var v := ChannelView(img, channel);
    match ChannelIndex(channel)
    case None =>
    case Some(k) =>
      Extensionality(ChannelView(v, channel), v);
  }

  /** Isolating two different channels one after the other leaves an all-zero image. */
  lemma ChannelViewsDisjoint(img: Image, first: string, second: string, k1: nat, k2: nat)
    requires img.Valid()
    requires ChannelIndex(first) == Some(k1) && ChannelIndex(second) == Some(k2) && k1 != k2
    ensures var r := ChannelView(ChannelView(img, first), second);
      forall i, j, c | 0 <= i < img.height && 0 <= j < img.width && 0 <= c < Channels ::
        r.At(i, j, c) == 0
  {
    var v := ChannelView(img, first);
    ChannelViewIsolates(img, first, k1);
    ChannelViewIsolates(v, second, k2);
  }

  /**
   * Reassembles an image from three images by taking channel 0 from the
   * first, channel 1 from the second and channel 2 from the third.
   */
  function MergeChannels(red: Image, green: Image, blue: Image): (r: Image)
    requires red.Valid() && green.Valid() && blue.Valid()
    requires red.SameShape(green) && red.SameShape(blue)
    ensures r.Valid() && r.SameShape(red)
  {
    Image(red.height, red.width,
      seq(red.height, i requires 0 <= i < red.height =>
        seq(red.width, j requires 0 <= j < red.width =>
          [red.pixels[i][j][0], green.pixels[i][j][1], blue.pixels[i][j][2]])))
  }

  /** The red, green and blue views together lose nothing of the image. */
  lemma ChannelViewsRecompose(img: Image)
    requires img.Valid()
    ensures MergeChannels(ChannelView(img, "red"), ChannelView(img, "green"), ChannelView(img, "blue")) == img
  {
    var m := MergeChannels(ChannelView(img, "red"), ChannelView(img, "green"), ChannelView(img, "blue"));
    forall i, j, c | 0 <= i < img.height && 0 <= j < img.width && 0 <= c < Channels
      ensures m.At(i, j, c) == img.At(i, j, c)
    {
    }
    Extensionality(m, img);
  }

  /** The image held by a height x width x Channels array. */
  ghost function Contents(a: array3<Sample>): (m: Image)
    requires a.Length2 == Channels
    reads a
    ensures m.Valid() && m.height == a.Length0 && m.width == a.Length1
    ensures forall i, j, c | 0 <= i < a.Length0 && 0 <= j < a.Length1 && 0 <= c < Channels ::
              m.At(i, j, c) == a[i, j, c]
  {
    Image(a.Length0, a.Length1,
      seq(a.Length0, i requires 0 <= i < a.Length0 reads a =>
        seq(a.Length1, j requires 0 <= j < a.Length1 reads a =>
          seq(Channels, c requires 0 <= c < Channels reads a => a[i, j, c]))))
  }

  /** A new array with the same shape and samples as img. */
  method Copy(img: array3<Sample>) returns (output: array3<Sample>)
    requires img.Length2 == Channels
    ensures fresh(output)
    ensures output.Length2 == Channels
    ensures Contents(output) == Contents(img)
  {
    output := new Sample[img.Length0, img.Length1, Channels](
      (i, j, c) requires 0 <= i < img.Length0 && 0 <= j < img.Length1 && 0 <= c < Channels reads img =>
        img[i, j, c]);
    Extensionality(Contents(output), Contents(img));
  }

  /**
   * apply_channel: a fresh buffer. For a name that selects channel k it starts
   * all zero and channel k is then copied from img; for any other name it is
   * a copy of img.
   */
  method ApplyChannel(img: array3<Sample>, channel: string) returns (output: array3<Sample>)
    requires img.Length2 == Channels
    ensures fresh(output)
    ensures output.Length2 == Channels
    ensures Contents(output) == ChannelView(Contents(img), channel)
  {
    if channel == "original" {
      output := Copy(img);
      return;
    }
    var idx := ChannelIndex(channel);
    if idx.None? {
      output := Copy(img);
      return;
    }
    var k := idx.value;
    var h, w := img.Length0, img.Length1;
    output := new Sample[h, w, Channels]((i, j, c) => 0);
    for i := 0 to h
      invariant forall i', j', c | 0 <= i' < h && 0 <= j' < w && 0 <= c < Channels ::
                  output[i', j', c] == if c == k && i' < i then img[i', j', c] else 0
    {
      for j := 0 to w
        invariant forall i', j', c | 0 <= i' < h && 0 <= j' < w && 0 <= c < Channels ::
                    output[i', j', c] ==
                      if c == k && (i' < i || (i' == i && j' < j)) then img[i', j', c] else 0
      {
        output[i, j, k] := img[i, j, k];
      }
    }
    ghost var expected := ChannelView(Contents(img), channel);
    ChannelViewIsolates(Contents(img), channel, k);
    Extensionality(Contents(output), expected);
  }

  // ---------------------------------------------------------------------------
  // Negative effect
  // ---------------------------------------------------------------------------

  /** negative_effect: the bitwise NOT of every sample. */
  function NegativeEffect(img: Image): (r: Image)
    requires img.Valid()
    ensures r.Valid() && r.SameShape(img)
    ensures forall i, j, c | 0 <= i < img.height && 0 <= j < img.width && 0 <= c < Channels ::
              r.At(i, j, c) == 255 - img.At(i, j, c)
  {
    Image(img.height, img.width,
      seq(img.height, i requires 0 <= i < img.height =>
        seq(img.width, j requires 0 <= j < img.width =>
          seq(Channels, c requires 0 <= c < Channels =>
            Bitwise.ComplementByte(img.pixels[i][j][c]) as Sample))))
  }

  /** Applying the negative effect twice gives the image back. */
  lemma NegativeInvolution(img: Image)
    requires img.Valid()
    ensures NegativeEffect(NegativeEffect(img)) == img
  {
    Extensionality(NegativeEffect(NegativeEffect(img)), img);
  }

  // ---------------------------------------------------------------------------
  // Constant border
  // ---------------------------------------------------------------------------

  /** The default border colour, (128, 0, 128). */
  const DefaultBorderColor: Pixel := [128, 0, 128]

  /** True when (i, j) of the bordered image falls on the original image. */
  predicate InInterior(img: Image, size: nat, i: nat, j: nat) {
    size <= i < size + img.height && size <= j < size + img.width
  }

  /** The pixel at (i, j) of img bordered by size pixels of color. */
  function BorderedPixel(img: Image, size: nat, color: Pixel, i: nat, j: nat): (p: Pixel)
    requires img.Valid() && ValidPixel(color)
    ensures ValidPixel(p)
  {
    if InInterior(img, size, i, j) then img.PixelAt(i - size, j - size) else color
  }

  /**
   * add_border: the image surrounded on all four sides by size pixels of
   * color, the same size on every side.
   */
  function AddBorder(img: Image, size: nat, color: Pixel := DefaultBorderColor): (r: Image)
    requires img.Valid() && ValidPixel(color)
    ensures r.Valid()
    ensures r.height == img.height + 2 * size && r.width == img.width + 2 * size
  {
    Image(img.height + 2 * size, img.width + 2 * size,
      seq(img.height + 2 * size, i requires 0 <= i < img.height + 2 * size =>
        seq(img.width + 2 * size, j requires 0 <= j < img.width + 2 * size =>
          BorderedPixel(img, size, color, i, j))))
  }

  /** The rows top..top+h-1 and columns left..left+w-1 of img. */
  function Crop(img: Image, top: nat, left: nat, h: nat, w: nat): (r: Image)
    requires img.Valid() && top + h <= img.height && left + w <= img.width
    ensures r.Valid() && r.height == h && r.width == w
    ensures forall i, j | 0 <= i < h && 0 <= j < w :: r.PixelAt(i, j) == img.PixelAt(top + i, left + j)
  {
    Image(h, w,
      seq(h, i requires 0 <= i < h =>
        seq(w, j requires 0 <= j < w => img.pixels[top + i][left + j])))
  }

  /** The sub-grid at offset (size, size) with the image's shape is the image. */
  lemma AddBorderInterior(img: Image, size: nat, color: Pixel)
    requires img.Valid() && ValidPixel(color)
    ensures Crop(AddBorder(img, size, color), size, size, img.height, img.width) == img
  {
    var r := AddBorder(img, size, color);
    var inner := Crop(r, size, size, img.height, img.width);
    forall i, j, c | 0 <= i < img.height && 0 <= j < img.width && 0 <= c < Channels
      ensures inner.At(i, j, c) == img.At(i, j, c)
    {
      assert inner.PixelAt(i, j) == r.PixelAt(size + i, size + j);
      assert InInterior(img, size, size + i, size + j);
    }
    Extensionality(inner, img);
  }

  /** Every pixel outside the original image is the border colour. */
  lemma AddBorderFrame(img: Image, size: nat, color: Pixel)
    requires img.Valid() && ValidPixel(color)
    ensures var r := AddBorder(img, size, color);
      forall i, j | 0 <= i < r.height && 0 <= j < r.width && !InInterior(img, size, i, j) ::
        r.PixelAt(i, j) == color
  {
  }

  /** A border of size 0 leaves the image as it is. */
  lemma AddBorderZero(img: Image, color: Pixel)
    requires img.Valid() && ValidPixel(color)
    ensures AddBorder(img, 0, color) == img
  {
    Extensionality(AddBorder(img, 0, color), img);
  }

  /** Two borders of one colour are one border of their combined size. */
  lemma AddBorderCompose(img: Image, a: nat, b: nat, color: Pixel)
    requires img.Valid() && ValidPixel(color)
    ensures AddBorder(AddBorder(img, a, color), b, color) == AddBorder(img, a + b, color)
  {
    var once := AddBorder(img, a, color);
    var twice := AddBorder(once, b, color);
    var direct := AddBorder(img, a + b, color);
    forall i, j, c | 0 <= i < twice.height && 0 <= j < twice.width && 0 <= c < Channels
      ensures twice.At(i, j, c) == direct.At(i, j, c)
    {
      if InInterior(once, b, i, j) {
        assert twice.PixelAt(i, j) == once.PixelAt(i - b, j - b);
        if InInterior(img, a, i - b, j - b) {
          assert once.PixelAt(i - b, j - b) == img.PixelAt(i - b - a, j - b - a);
          assert direct.PixelAt(i, j) == img.PixelAt(i - (a + b), j - (a + b));
        } else {
          assert once.PixelAt(i - b, j - b) == color;
          assert direct.PixelAt(i, j) == color;
        }
      } else {
        assert twice.PixelAt(i, j) == color;
        assert direct.PixelAt(i, j) == color;
      }
    }
    Extensionality(twice, direct);
  }
}
