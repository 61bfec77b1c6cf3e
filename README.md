# Steganography tools: a verified Dafny model

This project models the image-processing core of a small Java steganography
toolkit (`io.github.yienruuuuu`) and proves properties of the model. It covers
three parts.

- **LsbTool**, the framed RGB least-significant-bit codec.
  - `hideTextInImageLSB` prefixes the payload with its length as four
    big-endian bytes. It refuses a frame that does not fit (three bits per
    pixel). It then writes the frame's bits, most significant first, into
    the LSBs of R, G and B of the pixels in row-major order, and stops as
    soon as the last bit is written.
  - `getBit` selects one of those bits.
  - `extractTextFromImageLSB` reads the LSBs back. It builds bytes eight
    bits at a time and learns the frame length after 32 bits. It returns
    the payload once the frame is complete, or `null` when the pixels run
    out first.
- **InvertSteganography** (`main`, lifted into separate methods):
  - a near-white mask (channel average above 220, strictly, with integer
    division);
  - an integral image with a zero border;
  - a sliding 200 x 50 window search, scored by inclusion-exclusion, that
    keeps the first strictly best corner;
  - the overlay decision (more than 5000 white pixels, strictly);
  - the per-pixel negative, which creates an opaque colour.
- **DataChooserTool**, the legacy one-bit-per-pixel codec. `hideMessage`
  puts bit 0 of each message character into bit 0 of one packed pixel.
  `revealMessage` turns every pixel into the character `pixel & 1`.

Files:
- `pixels.dfy` (module `Pixels`) holds the shared vocabulary:
  - 8-bit channels;
  - four-channel pixels;
  - row-major images;
  - Java's two's-complement `int` wrap-around (`JavaInt`).
- `lsb_tool.dfy`, `invert_steganography.dfy` and `data_chooser_tool.dfy`
  hold one module per source class.

How the model is built:
- Each Java method that loops over an image is a Dafny `method` with the
  same loops, and it is proved to meet a specification: either equality
  with a specification function, about which the properties are proved, or
  relational ensures that state the result outright.
- Loop bodies that need their own proof are split out as methods, keeping
  the source's order of updates: `WritePixel`, `WriteFrame`, `ReadBit` and
  `HidePixel`.
- In LsbTool, channel and payload bytes are integers in `[0, 256)`. The
  source's bit operations on them are written as the arithmetic they
  compute:
  - `c & 1` is `c % 2`;
  - `(c & 0xFE) | bit` is `c - c % 2 + bit`;
  - `x >> n` is n halvings;
  - `(b << 1) | lsb` on the decoder's accumulator is `2 * b + lsb`.
- Java's `int` arithmetic is modelled where it can wrap:
  - `totalBits` and `imgCapacity` in the encoder;
  - `totalBitsToRead` in the decoder, whose length prefix is read as a
    signed big-endian `int`.

  The clean statements (capacity, round trip) therefore carry
  "no overflow" preconditions, and those preconditions are explicit.
- DataChooserTool works on the packed pixel as a 32-bit vector and on
  characters as 16-bit UTF-16 code units.
- Image loading is replaced by an `Image` value (width, height, row-major
  pixels).
- The encoder's exception is the `CapacityExceeded` result, and the
  decoder's `null` is `None`.

Edge cases of the code that the model keeps:
- A scan that runs out of pixels before a complete frame returns `null`.
- An all-zero length prefix reads as length 0, so the decoder returns an
  empty payload at bit 32 (`BlankPrefixReadsEmpty`).
- An all-ones prefix reads as length -1, so `totalBitsToRead` is 24 and the
  result is again an empty payload (`OnesPrefixReadsEmpty`).
- The capacity check compares Java `int` values that can wrap (`TotalBits`,
  `Capacity`).

## Model

| member | source | states |
|---|---|---|
| LsbTool.GetBit | src/main/java/io/github/yienruuuuu/LsbTool.java:67-71 | the bit getBit selects is always 0 or 1 (its most-significant-first order is stated by `AccumulateMsbBits` and `PackBits`) |
| LsbTool.AccumulateMsbBits | src/main/java/io/github/yienruuuuu/LsbTool.java:67-71 | getBit's most-significant-first bit order is the order the decoder's shift-in rebuilds: shifting in the low n bits of v < 2^n gives v back |
| LsbTool.PackBits | src/main/java/io/github/yienruuuuu/LsbTool.java:90-98 | a stretch of the LSB stream that carries getBit's bits of some bytes packs, eight bits per byte, back into exactly those bytes |
| LsbTool.GetInt | src/main/java/io/github/yienruuuuu/LsbTool.java:103 | `ByteBuffer.getInt` reads four bytes as a signed big-endian value in [-2^31, 2^31), negative exactly when the top bit of the first byte is set |
| LsbTool.PutInt | src/main/java/io/github/yienruuuuu/LsbTool.java:35-36 | putInt of a non-negative length writes four bytes whose big-endian signed reading (getInt) is that length |
| LsbTool.Frame | src/main/java/io/github/yienruuuuu/LsbTool.java:35-38 | the frame has `len + 4` bytes, its first four read back as `len`, and the rest is the payload |
| LsbTool.TotalBits | src/main/java/io/github/yienruuuuu/LsbTool.java:25 | totalBits is at most `(len + 4) * 8`, and equal to it when that fits in an `int` |
| LsbTool.Capacity | src/main/java/io/github/yienruuuuu/LsbTool.java:28 | imgCapacity is `width * height * 3` when that fits in an `int` |
| LsbTool.EmbedChannel | src/main/java/io/github/yienruuuuu/LsbTool.java:53-55 | a guarded channel write keeps the upper seven bits, puts frame bit k in the LSB when k < totalBits, and leaves the channel unchanged from totalBits on |
| LsbTool.EmbedPixel | src/main/java/io/github/yienruuuuu/LsbTool.java:47-57 | a pixel's three guarded writes never touch alpha, and a pixel whose slots all lie at or beyond totalBits is unchanged |
| LsbTool.Embed | src/main/java/io/github/yienruuuuu/LsbTool.java:42-58 | the embedded copy has a pixel for every input pixel and keeps every pixel's alpha |
| LsbTool.Hide | src/main/java/io/github/yienruuuuu/LsbTool.java:17-65 | a successful encoding returns an image with the input's width and height and a pixel for every position |
| LsbTool.HideCapacity | src/main/java/io/github/yienruuuuu/LsbTool.java:25-32 | with no overflow, encoding fails exactly when `(len + 4) * 8 > width * height * 3`, so a frame of exactly the capacity fits |
| LsbTool.WritePixel | src/main/java/io/github/yienruuuuu/LsbTool.java:47-57 | one pixel's three guarded writes give the embedded pixel; the cursor rises by at most 3, never passes totalBits, and rises by exactly 3 unless it reaches totalBits |
| LsbTool.WriteFrame | src/main/java/io/github/yienruuuuu/LsbTool.java:40-62 | the labelled loops with the shared cursor and the early break produce exactly the embedded pixel sequence |
| LsbTool.HideTextInImageLsb | src/main/java/io/github/yienruuuuu/LsbTool.java:17-65 | the encoder rejects before writing when the capacity check fails and otherwise returns the embedded copy, as `Hide` |
| LsbTool.EmbedChannelLsb | src/main/java/io/github/yienruuuuu/LsbTool.java:53-55 | a written channel keeps its upper seven bits and carries frame bit k in its LSB |
| LsbTool.EmbedSlot | src/main/java/io/github/yienruuuuu/LsbTool.java:42-58 | channel slot k (pixel k / 3, channel k % 3) below totalBits keeps its upper seven bits and holds frame bit k; from totalBits on it equals the input; alpha never changes |
| LsbTool.EmbedKeepsTail | src/main/java/io/github/yienruuuuu/LsbTool.java:53-60 | every pixel whose slots all lie at or beyond totalBits is identical to the input |
| LsbTool.EmbedDoneEarly | src/main/java/io/github/yienruuuuu/LsbTool.java:60 | once the frame's last bit is written, the copy of every later pixel is already the final output, so breaking out is correct |
| LsbTool.LsbStream | src/main/java/io/github/yienruuuuu/LsbTool.java:83-91 | the decoder reads three LSBs per pixel in row-major order, each 0 or 1 |
| LsbTool.TotalBitsToRead | src/main/java/io/github/yienruuuuu/LsbTool.java:103-104 | the decoder's wrapped `(msgLength + 4) * 8` is a multiple of 8, so it is only ever met at a byte boundary |
| LsbTool.DecodingCompletesByte | src/main/java/io/github/yienruuuuu/LsbTool.java:92-98 | writing the low eight bits of the accumulator every eighth bit gives exactly the stream packed so far |
| LsbTool.DecodingAtByte | src/main/java/io/github/yienruuuuu/LsbTool.java:96-112 | at a byte boundary from bit 32 on, the decoder either stops with the payload the specification function gives, or continues with an empty accumulator |
| LsbTool.ReadBit | src/main/java/io/github/yienruuuuu/LsbTool.java:91-113 | one bit of the decoder keeps its state (bytes written, accumulator, announced length) in step with the stream, and stops only with the specified payload |
| LsbTool.DecodingExhausted | src/main/java/io/github/yienruuuuu/LsbTool.java:118 | a decoder that reads every pixel without stopping agrees with the specification that there is no payload (`null`) |
| LsbTool.Extract | src/main/java/io/github/yienruuuuu/LsbTool.java:96-118 | the decoder gives `null` exactly when fewer than 32 bits exist, the announced totalBitsToRead is not positive, or the stream ends before it; otherwise it gives `(totalBitsToRead - 32) / 8` bytes, none when totalBitsToRead is at most 32 |
| LsbTool.ExtractTextFromImageLsb | src/main/java/io/github/yienruuuuu/LsbTool.java:73-119 | the decoder's triple loop returns exactly `Extract` of the image's LSB stream: `null` before a complete frame, else the bytes between bit 32 and totalBitsToRead |
| LsbTool.FramedPrefix | src/main/java/io/github/yienruuuuu/LsbTool.java:101-104 | an LSB stream that starts with a frame announces `(len + 4) * 8` bits |
| LsbTool.ExtractFramed | src/main/java/io/github/yienruuuuu/LsbTool.java:101-112 | an LSB stream that starts with a frame decodes to that frame's payload, the empty payload included |
| LsbTool.HideThenExtract | src/main/java/io/github/yienruuuuu/LsbTool.java:30-60 | round trip: whenever the capacity check passes without overflow, encoding succeeds and decoding the result gives the original bytes back |
| LsbTool.ExtractIgnoresTail | src/main/java/io/github/yienruuuuu/LsbTool.java:108-112 | the decoder stops at the end of the frame, so LSBs after it never change the result |
| LsbTool.BlankPrefixReadsEmpty | src/main/java/io/github/yienruuuuu/LsbTool.java:101-112 | an all-zero length prefix decodes to the empty payload, not to `null` |
| LsbTool.OnesPrefixReadsEmpty | src/main/java/io/github/yienruuuuu/LsbTool.java:101-112 | an all-ones prefix (length -1, totalBitsToRead 24) decodes to the empty payload at bit 32 |
| LsbTool.HiInFourByFour | src/main/java/io/github/yienruuuuu/LsbTool.java:25-60 | "HI" fills a 4 x 4 image's 48 slots exactly, comes back from the decoder, and leaves alpha at 255 |
| Pixels.JavaInt | src/main/java/io/github/yienruuuuu/LsbTool.java:25 | Java `int` arithmetic lands in [-2^31, 2^31), is the identity there, and differs from the true value by a multiple of 2^32 |
| InvertSteganography.Average | src/main/java/io/github/yienruuuuu/InvertSteganography.java:33 | the integer average of three channels lies in [0, 255] and is `(r + g + b) / 3` rounded down |
| InvertSteganography.WhiteBit | src/main/java/io/github/yienruuuuu/InvertSteganography.java:34 | the white bit is 0 or 1, and 1 exactly when `r + g + b >= 3 * (threshold + 1)`, that is when the average exceeds the threshold |
| InvertSteganography.Mask | src/main/java/io/github/yienruuuuu/InvertSteganography.java:29-35 | the mask is a width x height grid of 0s and 1s |
| InvertSteganography.BuildWhiteMap | src/main/java/io/github/yienruuuuu/InvertSteganography.java:29-36 | `whiteMap[x][y]` is 1 exactly when `(r + g + b) / 3 > threshold`, and 0 exactly when it is not |
| InvertSteganography.PrefixTopRow | src/main/java/io/github/yienruuuuu/InvertSteganography.java:40 | the integral image's row 0 is zero (column 0 is zero by definition) |
| InvertSteganography.PrefixRecurrence | src/main/java/io/github/yienruuuuu/InvertSteganography.java:43-46 | the four-term update of each inner cell gives the white count over `[0, x) x [0, y)` |
| InvertSteganography.BuildIntegral | src/main/java/io/github/yienruuuuu/InvertSteganography.java:40-48 | the table is `(w + 1) x (h + 1)` and every entry `(x, y)` is the white count over `[0, x) x [0, y)`, zero on row 0 and column 0 |
| InvertSteganography.RectangleSum | src/main/java/io/github/yienruuuuu/InvertSteganography.java:58-64 | inclusion-exclusion over four integral entries equals the direct count over the window `[x, x2) x [y, y2)` |
| InvertSteganography.CountBounds | src/main/java/io/github/yienruuuuu/InvertSteganography.java:58-64 | a window's white count lies in `[0, rw * rh]` |
| InvertSteganography.FindBestRegion | src/main/java/io/github/yienruuuuu/InvertSteganography.java:51-72 | maxWhiteArea bounds every window's count; it is 0 at corner (0, 0) when no window is positive or none fits; otherwise the corner is a window with that count and every window before it in row-major order counts less |
| InvertSteganography.FirstBestUnique | src/main/java/io/github/yienruuuuu/InvertSteganography.java:66-70 | only one corner can be the first strictly best one, so the search's answer is determined by the mask |
| InvertSteganography.ChooseOverlayRegion | src/main/java/io/github/yienruuuuu/InvertSteganography.java:80 | with 200 x 50 windows and threshold 220, an overlay corner exists exactly when some window holds more than 5000 white pixels, and it is then the first best window |
| InvertSteganography.NegativePixel | src/main/java/io/github/yienruuuuu/InvertSteganography.java:152-155 | each negative channel is `255 - c` and the new colour is opaque |
| InvertSteganography.NegativeImage | src/main/java/io/github/yienruuuuu/InvertSteganography.java:147-158 | the negative has the input's width and height and a pixel for every position |
| InvertSteganography.Negative | src/main/java/io/github/yienruuuuu/InvertSteganography.java:147-158 | the row-by-row loop produces the negative of every pixel |
| InvertSteganography.NegativeTwice | src/main/java/io/github/yienruuuuu/InvertSteganography.java:152-155 | taking the negative twice restores every colour channel and leaves alpha 255 |
| DataChooserTool.CharBit | src/main/java/io/github/yienruuuuu/DataChooserTool.java:105 | `character & 1` is 0 or 1, and 0 exactly when the character's bit 0 is clear |
| DataChooserTool.HiddenPixel | src/main/java/io/github/yienruuuuu/DataChooserTool.java:105 | the pixel with bit 0 cleared and then set from `character & 1` keeps bits 1 to 31 of the pixel and sets bit 0 to the character's bit 0 |
| DataChooserTool.RevealedChar | src/main/java/io/github/yienruuuuu/DataChooserTool.java:126 | `(char) (pixel & 1)` is 0 or 1, and 0 exactly when the pixel's bit 0 is clear |
| DataChooserTool.Hidden | src/main/java/io/github/yienruuuuu/DataChooserTool.java:93-95 | the output has as many pixels as the input |
| DataChooserTool.HidePixel | src/main/java/io/github/yienruuuuu/DataChooserTool.java:102-113 | one pixel of the loop: with messageIndex equal to the number of characters already placed, the output pixel carries the next character or is copied, and messageIndex and messageCompleted stay consistent |
| DataChooserTool.HideMessage | src/main/java/io/github/yienruuuuu/DataChooserTool.java:92-117 | the output has the input's width and height and exactly the pixels `Hidden` describes |
| DataChooserTool.Revealed | src/main/java/io/github/yienruuuuu/DataChooserTool.java:119-130 | the revealed string has one character per pixel, each 0 or 1 |
| DataChooserTool.RevealMessage | src/main/java/io/github/yienruuuuu/DataChooserTool.java:119-131 | the loop appends exactly the revealed character of every pixel, in row-major order |
| DataChooserTool.HiddenChangesOnlyBitZero | src/main/java/io/github/yienruuuuu/DataChooserTool.java:100-113 | every output pixel differs from the input at most in bit 0; a carrying pixel's bit 0 is its character's bit 0; pixels past the message are copied unchanged |
| DataChooserTool.HiddenTruncates | src/main/java/io/github/yienruuuuu/DataChooserTool.java:96-103 | a message longer than `w * h` is silently truncated: only its first `w * h` characters matter |
| DataChooserTool.RevealAfterHide | src/main/java/io/github/yienruuuuu/DataChooserTool.java:105-126 | revealing a hidden message gives `message[i] & 1` for the first min(len, w * h) pixels and the cover pixel's bit 0 after them |
| DataChooserTool.RevealAfterHideBinary | src/main/java/io/github/yienruuuuu/DataChooserTool.java:105-126 | a message of 0/1 characters that fits is recovered exactly as the prefix of the revealed string |

## Left out

- Image I/O (`ImageIO.read`/`write`, files, PNG) is outside the model.
  Images are values, and "copy the image" is copying its pixel sequence.
- `BufferedImage` types and `Graphics2D.drawImage` are not modelled.
  That includes the alpha that a `TYPE_INT_RGB` target drops on `setRGB`.
  DataChooserTool keeps only the bit-0 behaviour of the packed pixel, and
  the negative keeps `new Color(r, g, b)`'s alpha of 255.
- The `Color` pack/unpack calls are library code. A pixel is four
  independent channels in LsbTool and InvertSteganography, and a packed
  32-bit word in DataChooserTool.
- UTF-8 conversion (`getBytes`, `new String`) is library code. Payloads
  are byte sequences, so the round trip is stated on bytes.
- The text overlay of InvertSteganography is omitted: the font-size fitting
  loop on AWT font metrics, `drawString`, and the 0.02 float
  `AlphaComposite`. These are foreign rendering calls plus floating point.
  The negative is taken of the image before any overlay, that is, of the
  copied original.
- The Swing user interface is omitted: the `DataChooserTool` constructor,
  `loadImage`, `saveImage` and `main`, the whole of `ImageFileChooser.java`,
  and `Main.java`, which only lists fonts.
- Console printing, `printStackTrace` and exception handling in every
  `main` are omitted.
- Bit masks and shifts on channel bytes are not stated as bit-vector
  identities: `c & 1`, `(c & 0xFE) | bit`, `>>` and `<<` are written as the
  arithmetic they compute on values in `[0, 256)`. That these agree with
  the bit operations for every byte is not proved here.
- LsbTool.HideTextInImageLsb: requires `len <= 2^31 - 1`, because a Java
  array cannot be longer. It does not model the failure of
  `ByteBuffer.allocate(len + 4)` when `len + 4` itself overflows.
- LsbTool.ExtractTextFromImageLsb: the decoder's `bitIndex` counter is an
  unbounded integer. The Java counter would wrap only after more than 2^31
  bits, that is, images of over 715 million pixels.
- LsbTool.HideThenExtract: the round trip is stated only when `(len + 4) * 8`
  and `width * height * 3` fit in an `int`. With wrap-around the capacity
  check can pass for frames that do not fit; the model's `Hide` follows the
  wrapped check, but no round trip is claimed there.
- LsbTool.WriteFrame, LsbTool.WritePixel, LsbTool.ReadBit and
  DataChooserTool.HidePixel are the source's loop bodies lifted into methods
  of their own. They keep the source's statements and their order.
- InvertSteganography.ChooseOverlayRegion: the whiteMap, integral image and
  search loops keep their `int[][]` form as `array2<int>`. The window
  search's result is stated against a mathematical count over the mask,
  a grid indexed `[x][y]`. Java `int` overflow of the integral sums is not
  modelled, since they are at most `width * height`.
