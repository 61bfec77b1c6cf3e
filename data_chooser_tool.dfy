/** The legacy one-bit-per-pixel codec of DataChooserTool: bit 0 of each
    packed 32-bit pixel, in row-major order, carries bit 0 of one UTF-16
    code unit of the message; there is no length prefix and no terminator. */
module DataChooserTool {
  import opened Pixels

  /** A packed pixel as the bit pattern of the `int` that getRGB returns. */
  type Packed = bv32

  /** A Java `char`: one UTF-16 code unit. */
  type Char16 = bv16

  /** `c & 1` widened to an `int`: bit 0 of the character. */
  function CharBit(c: Char16): (bit: Packed)
    ensures bit == 0 || bit == 1
    ensures bit == 0 <==> c & 1 == 0
  {
    if c & 1 == 0 then 0 else 1
  }

  /** Clear bit 0 of the pixel and put bit 0 of the character there.
      Bits 1..31 are kept; bit 0 becomes the character's bit 0. */
  function HiddenPixel(pixel: Packed, c: Char16): (q: Packed)
    ensures q & 0xFFFF_FFFE == pixel & 0xFFFF_FFFE
    ensures q & 1 == CharBit(c)
  {
    (pixel & 0xFFFF_FFFE) | CharBit(c)
  }

  /** `(char) (pixel & 1)`: the character a pixel reveals, 0 or 1. */
  function RevealedChar(pixel: Packed): (c: Char16)
    ensures c == 0 || c == 1
    ensures c == 0 <==> pixel & 1 == 0
  {
    if pixel & 1 == 0 then 0 else 1
  }

  /** The pixel sequence hideMessage produces: the first min(|message|,
      |pixels|) pixels carry one character each, the rest are copied. */
  function Hidden(pixels: seq<Packed>, message: seq<Char16>): (out: seq<Packed>)
    ensures |out| == |pixels|
  {
    seq(|pixels|, i requires 0 <= i < |pixels| =>
      if i < |message| then HiddenPixel(pixels[i], message[i]) else pixels[i])
  }

  /** The string revealMessage produces: one character per pixel. */
  function Revealed(pixels: seq<Packed>): (message: seq<Char16>)
    ensures |message| == |pixels|
    ensures forall i :: 0 <= i < |pixels| ==> message[i] == 0 || message[i] == 1
  {
    seq(|pixels|, i requires 0 <= i < |pixels| => RevealedChar(pixels[i]))
  }

  /** The number of characters hideMessage has placed after visiting i pixels. */
  function Placed(i: nat, messageLength: nat): nat
  {
    if i < messageLength then i else messageLength
  }

  /** One pixel of hideMessage's loop: the pixel that goes out and the
      updated messageIndex and messageCompleted. */
  method HidePixel(pixel: Packed, ghost i: nat, message: seq<Char16>, messageIndex: int, messageCompleted: bool)
    returns (out: Packed, nextIndex: int, nextCompleted: bool)
    requires messageIndex == Placed(i, |message|)
    requires messageCompleted ==> messageIndex == |message|
    ensures out == if i < |message| then HiddenPixel(pixel, message[i]) else pixel
    ensures nextIndex == Placed(i + 1, |message|)
    ensures nextCompleted ==> nextIndex == |message|
  {
    out, nextIndex, nextCompleted := pixel, messageIndex, messageCompleted;
    var messageLength := |message|;
    if !messageCompleted && messageIndex < messageLength {
      var character := message[messageIndex];
      out := (pixel & 0xFFFF_FFFE) | CharBit(character);
      nextIndex := messageIndex + 1;
      if nextIndex >= messageLength {
        nextCompleted := true;
      }
    }
  }

  /** hideMessage, with the source's messageIndex counter and
      messageCompleted flag, over the pixels in row-major order. The output
      has the input's dimensions and the pixels Hidden describes. */
  method HideMessage(image: Image<Packed>, message: seq<Char16>) returns (result: Image<Packed>)
    requires image.Valid()
    ensures result.width == image.width && result.height == image.height
    ensures result.pixels == Hidden(image.pixels, message)
  {
    var width, height := image.width, image.height;
    ghost var want := Hidden(image.pixels, message);
    var newPixels := new Packed[width * height];
    var messageIndex := 0;
    var messageCompleted := false;
    for y := 0 to height
      invariant y * width <= newPixels.Length
      invariant messageIndex == Placed(y * width, |message|)
      invariant messageCompleted ==> messageIndex == |message|
      invariant forall j :: 0 <= j < y * width ==> newPixels[j] == want[j]
    {
      var row := y * width;
      RowsFit(y + 1, width, height);
      assert row + width == (y + 1) * width;
      for x := 0 to width
        invariant messageIndex == Placed(row + x, |message|)
        invariant messageCompleted ==> messageIndex == |message|
        invariant forall j :: 0 <= j < row + x ==> newPixels[j] == want[j]
      {
        var pixel := image.pixels[row + x];
        var out;
        out, messageIndex, messageCompleted := HidePixel(pixel, row + x, message, messageIndex, messageCompleted);
        newPixels[row + x] := out;
      }
    }
    assert height * width == width * height;
    result := Image(width, height, newPixels[..]);
  }

  /** revealMessage: append bit 0 of every pixel, in row-major order. */
  method RevealMessage(image: Image<Packed>) returns (message: seq<Char16>)
    requires image.Valid()
    ensures message == Revealed(image.pixels)
  {
    var width, height := image.width, image.height;
    message := [];
    for y := 0 to height
      invariant y * width <= |image.pixels|
      invariant message == Revealed(image.pixels)[..y * width]
    {
      var row := y * width;
      RowsFit(y + 1, width, height);
      assert row + width == (y + 1) * width;
      for x := 0 to width
        invariant message == Revealed(image.pixels)[..row + x]
      {
        var pixel := image.pixels[row + x];
        var character := RevealedChar(pixel);
        message := message + [character];
      }
    }
    assert height * width == width * height;
  }

  // ---------------------------------------------------------------------
  // Properties

  /** Every pixel of the output differs from the input at most in bit 0;
      a carrying pixel's bit 0 is its character's bit 0, and every pixel
      past the message is the input pixel itself. */
  lemma HiddenChangesOnlyBitZero(pixels: seq<Packed>, message: seq<Char16>)
    ensures var out := Hidden(pixels, message);
            forall i :: 0 <= i < |pixels| ==>
              && out[i] & 0xFFFF_FFFE == pixels[i] & 0xFFFF_FFFE
              && (i < |message| ==> out[i] & 1 == CharBit(message[i]))
              && (i >= |message| ==> out[i] == pixels[i])
  {
    var out := Hidden(pixels, message);
    forall i | 0 <= i < |pixels|
      ensures out[i] & 0xFFFF_FFFE == pixels[i] & 0xFFFF_FFFE
    {
      if i < |message| {
        assert out[i] == HiddenPixel(pixels[i], message[i]);
      }
    }
  }

  /** A message longer than the image is silently truncated: only its first
      width * height characters matter. */
  lemma HiddenTruncates(pixels: seq<Packed>, message: seq<Char16>)
    requires |message| > |pixels|
    ensures Hidden(pixels, message) == Hidden(pixels, message[..|pixels|])
  {
  }

  /** Weak round trip: revealing a hidden message gives bit 0 of each of
      its first min(|message|, |pixels|) characters, followed by bit 0 of
      each remaining cover pixel. */
  lemma RevealAfterHide(pixels: seq<Packed>, message: seq<Char16>)
    ensures var revealed := Revealed(Hidden(pixels, message));
            && |revealed| == |pixels|
            && (forall i :: 0 <= i < |pixels| && i < |message| ==> revealed[i] == message[i] & 1)
            && (forall i :: |message| <= i < |pixels| ==> revealed[i] == RevealedChar(pixels[i]))
  {
    var revealed := Revealed(Hidden(pixels, message));
    forall i | 0 <= i < |pixels| && i < |message|
      ensures revealed[i] == message[i] & 1
    {
      var q := HiddenPixel(pixels[i], message[i]);
      assert revealed[i] == RevealedChar(q);
    }
  }

  /** A message of 0/1 characters no longer than the image is recovered
      exactly as the prefix of the revealed string. */
  lemma RevealAfterHideBinary(pixels: seq<Packed>, message: seq<Char16>)
    requires |message| <= |pixels|
    requires forall i :: 0 <= i < |message| ==> message[i] == 0 || message[i] == 1
    ensures Revealed(Hidden(pixels, message))[..|message|] == message
  {
    RevealAfterHide(pixels, message);
    var revealed := Revealed(Hidden(pixels, message));
    forall i | 0 <= i < |message|
      ensures revealed[i] == message[i]
    {
      assert revealed[i] == message[i] & 1;
    }
  }
}
