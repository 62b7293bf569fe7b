# Image Channel Viewer: verified model of the image transforms

This project models the per-image transforms of the Image Channel Viewer
(`image_processing.py`). Each transform takes a 3-channel, 8-bit RGB image
of shape height x width x 3 and returns a new image:

- `apply_channel(img, channel)` isolates one colour channel. `"red"`,
  `"green"` and `"blue"` select channel 0, 1 and 2. The result starts as an
  all-zero buffer of the same shape, and then the selected channel is copied
  into it. `"original"`, and every other name, gives a copy of the image.
- `negative_effect(img)` takes the bitwise NOT of every sample.
- `add_border(img, size, color)` surrounds the image with `size` pixels of a
  constant colour on all four sides. The default colour is (128, 0, 128).

Files:

- `images.dfy` (module `Images`): the image buffer. `Sample` is an integer in
  0..255. `Image` holds a height, a width and the rows of pixels, and
  `Valid()` states that the shape is consistent. `Extensionality` says that
  two images agreeing on every sample are equal.
- `bitwise.dfy` (module `Bitwise`): bitwise complement defined bit by bit,
  with its proof that it equals `255 - x` on a byte.
- `image_processing.dfy` (module `ImageProcessing`): the three transforms and
  their properties.
  - `ChannelView` is the value-level meaning of `apply_channel`.
  - `ApplyChannel` builds the result as the code does. It allocates a fresh
    zero-filled `array3`, or a fresh copy, and copies the selected channel in
    a loop. Its postcondition ties the new array to `ChannelView`.
  - `NegativeEffect` and `AddBorder` are pure functions, because the code
    makes one library call that returns a new buffer.

A border size of 0 returns an unchanged copy, since OpenCV copies the image
when all four border sizes are 0. The model accepts every size >= 0 (see
`AddBorderZero`).

Channel names stay strings, as in the code, so the silent fallback for
unknown names is part of the model rather than being ruled out by a type.

## Model

| member | source | states |
|---|---|---|
| `ImageProcessing.ChannelIndex` | image_processing.py:23-24 | the lookup table maps exactly "red", "green" and "blue" to 0, 1 and 2, and every other name finds nothing |
| `ImageProcessing.ChannelView` | image_processing.py:16-31 | the result of apply_channel has the input's height, width and 3 channels, whatever the channel name |
| `ImageProcessing.ChannelViewCopies` | image_processing.py:20-26 | "original", and any name other than "red", "green" or "blue", returns an image element-wise equal to the input; no error is raised |
| `ImageProcessing.ChannelViewIsolates` | image_processing.py:23-30 | for a name that selects channel k, every sample of channel k equals the input's at the same row and column, and every sample of another channel is 0 |
| `ImageProcessing.ChannelViewIdempotent` | image_processing.py:28-30 | isolating the same channel twice gives the same image as isolating it once |
| `ImageProcessing.ChannelViewsDisjoint` | image_processing.py:29-30 | isolating one channel and then a different one leaves only zeros |
| `ImageProcessing.ChannelViewsRecompose` | image_processing.py:28-30 | merging channel 0 of the red view, channel 1 of the green view and channel 2 of the blue view gives back the input, so the three views together lose nothing |
| `ImageProcessing.KeepChannel` | image_processing.py:29-30 | zeroing every channel but one keeps the image's shape |
| `ImageProcessing.Copy` | image_processing.py:20-26 | `img.copy()` returns a newly allocated buffer with the same shape and samples as the input |
| `ImageProcessing.ApplyChannel` | image_processing.py:16-31 | the result is a newly allocated array, never the input. It equals `ChannelView` of the input: a copy for "original" and unknown names, otherwise a zero buffer with the selected channel copied in. The input is not modified |
| `Bitwise.ComplementBits` | image_processing.py:44 | flipping each of the n low bits of an n-bit value x gives 2^n - 1 - x |
| `Bitwise.ComplementByte` | image_processing.py:44 | the bitwise NOT of an 8-bit sample s is 255 - s, so the result stays in 0..255 |
| `ImageProcessing.NegativeEffect` | image_processing.py:42-44 | the negative has the input's shape, and every sample s becomes 255 - s |
| `ImageProcessing.NegativeInvolution` | image_processing.py:44 | applying the negative twice gives an image element-wise equal to the input |
| `ImageProcessing.AddBorder` | image_processing.py:34-39 | the bordered image is (h + 2b) x (w + 2b), with the same border size on all four sides; the colour defaults to (128, 0, 128) |
| `ImageProcessing.AddBorderInterior` | image_processing.py:36-38 | the sub-grid at rows b..b+h-1 and columns b..b+w-1 of the bordered image equals the input, so cropping inverts the border |
| `ImageProcessing.AddBorderFrame` | image_processing.py:36-38 | every pixel of the bordered image outside that sub-grid equals the border colour |
| `ImageProcessing.AddBorderZero` | image_processing.py:36-38 | a border of size 0 returns the input unchanged |
| `ImageProcessing.AddBorderCompose` | image_processing.py:36-38 | adding a border of size a and then one of size b in the same colour gives the same image as one border of size a + b |

## Left out

- `load_image` (image_processing.py:5-13): it reads a file, decodes it inside OpenCV and converts BGR to RGB. These are I/O and codec calls. The only visible logic is that a failed decode raises `ValueError`.
- `draw_line` (image_processing.py:47-51): the rasterisation happens entirely inside `cv2.line`, whose algorithm is not part of this model. Its only visible step is that it copies the input first.
- gui.py and utils.py: window construction, dialogs and PIL/Tk conversion. The buttons have no actions yet, so there is no controller state to model.
- Negative border sizes: OpenCV's `copyMakeBorder` (image_processing.py:36-39) rejects them by raising `cv2.error`. The model leaves this error path out by typing the border size as a `nat`.
- Images that do not have 3 channels: `negative_effect` and `add_border` accept any channel count, and `apply_channel` raises `IndexError` at image_processing.py:30 on a 2-D image. The images these transforms receive come from `load_image`, which always returns 3-channel RGB (`IMREAD_COLOR`, then `COLOR_BGR2RGB`, image_processing.py:10,13), so `Image.Valid()` fixes 3 channels.
- `ImageProcessing.AddBorder`: the colour must have 3 samples in 0..255. OpenCV saturates out-of-range values, and that is not modelled.
- `ImageProcessing.NegativeEffect`, `ImageProcessing.AddBorder`, `ImageProcessing.ChannelView`: these act on immutable values, so aliasing is only modelled in `ApplyChannel` and `Copy`. There, `fresh` states that the result is a new buffer.
