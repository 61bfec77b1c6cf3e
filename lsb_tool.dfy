/** The length-framed RGB least-significant-bit codec (LsbTool): the payload
    is framed by a 4-byte big-endian length, and the frame's bits, most
    significant first, replace the LSBs of the R, G and B channels of the
    pixels in row-major order. Alpha is never touched. */
module LsbTool {
  import opened Pixels

  // ---------------------------------------------------------------------
  // Bits and bytes

  /** 2^n. */
  function Pow2(n: nat): (p: nat)
    ensures p >= 1
  {
    if n == 0 then 1 else 2 * Pow2(n - 1)
  }

  /** `b >> n` on a non-negative int: n halvings. */
  function Shr(b: nat, n: nat): nat
  {
    if n == 0 then b else Shr(b / 2, n - 1)
  }

  /** getBit: bit `bitIndex` of `data`, counting from the most significant
      bit of data[0]: `(data[bitIndex / 8] >> (7 - bitIndex % 8)) & 1`, the
      `& 1` being the remainder modulo 2. (Java shifts the sign-extended
      byte; for shifts of at most 7 that selects the same bit as shifting
      the unsigned byte.) */
  function GetBit(data: seq<Byte>, bitIndex: nat): (bit: int)
    requires bitIndex < 8 * |data|
    ensures bit == 0 || bit == 1
  {
    Shr(data[bitIndex / 8], 7 - bitIndex % 8) % 2
  }

  /** The low n bits of v, most significant first. */
  function MsbBits(v: nat, n: nat): (bits: seq<int>)
    ensures |bits| == n
  {
    seq(n, j requires 0 <= j < n => Shr(v, n - 1 - j) % 2)
  }

  /** The eight bits of a byte in the order getBit visits them. */
  function ByteBits(b: Byte): (bits: seq<int>)
    ensures |bits| == 8
  {
    MsbBits(b, 8)
  }

  /** The bit sequence of `data` in the order the codec embeds it. */
  function Bits(data: seq<Byte>): (bits: seq<int>)
    ensures |bits| == 8 * |data|
  {
    seq(8 * |data|, i requires 0 <= i < 8 * |data| => ByteBits(data[i / 8])[i % 8])
  }

  /** The decoder's accumulator after shifting in `bits` from 0:
      `currentByte = (currentByte << 1) | lsb` on a non-negative int and a
      bit is `2 * currentByte + lsb`. */
  function Accumulate(bits: seq<int>): int
  {
    if bits == [] then 0 else Accumulate(bits[..|bits| - 1]) * 2 + bits[|bits| - 1]
  }

  /** The bytes the decoder has written after reading `bits`: one per
      complete group of eight, each the low eight bits of the accumulator
      (what ByteArrayOutputStream.write keeps of an int). */
  function Pack(bits: seq<int>): (bytes: seq<Byte>)
    ensures |bytes| == |bits| / 8
  {
    seq(|bits| / 8, k requires 0 <= k < |bits| / 8 => Accumulate(bits[8 * k .. 8 * k + 8]) % 0x100)
  }

  /** The top n bits of v come first, then its parity. */
  lemma MsbBitsSnoc(v: nat, n: nat)
    ensures MsbBits(v, n + 1) == MsbBits(v / 2, n) + [v % 2]
  {
    var l, r := MsbBits(v, n + 1), MsbBits(v / 2, n) + [v % 2];
    forall j | 0 <= j < n + 1
      ensures l[j] == r[j]
    {
      assert l[j] == Shr(v, n - j) % 2;
      if j < n {
        assert r[j] == MsbBits(v / 2, n)[j] == Shr(v / 2, n - 1 - j) % 2;
        assert Shr(v, n - j) == Shr(v / 2, n - 1 - j);
      } else {
        assert Shr(v, 0) == v;
      }
    }
  }

  /** Shifting in the low n bits of v < 2^n, most significant first, rebuilds v. */
  lemma {:induction false} AccumulateMsbBits(v: nat, n: nat)
    requires v < Pow2(n)
    ensures Accumulate(MsbBits(v, n)) == v
  {
    if n == 0 {
      assert MsbBits(v, 0) == [];
    } else {
      var s := MsbBits(v, n);
      MsbBitsSnoc(v, n - 1);
      assert s[..n - 1] == MsbBits(v / 2, n - 1);
      AccumulateMsbBits(v / 2, n - 1);
    }
  }

  /** Shifting in the eight bits of a byte, most significant first, rebuilds it. */
  lemma AccumulateByteBits(b: Byte)
    ensures Accumulate(ByteBits(b)) == b
  {
    assert Pow2(8) == 256;
    AccumulateMsbBits(b, 8);
  }

  /** If `stream` carries the bits of `data` from position `off` on, packing
      that stretch gives `data` back. */
  lemma PackBits(stream: seq<int>, data: seq<Byte>, off: nat)
    requires off + 8 * |data| <= |stream|
    requires forall i :: 0 <= i < 8 * |data| ==> stream[off + i] == Bits(data)[i]
    ensures Pack(stream[off .. off + 8 * |data|]) == data
  {
    var t := stream[off .. off + 8 * |data|];
    forall k | 0 <= k < |data|
      ensures Pack(t)[k] == data[k]
    {
      forall j | 0 <= j < 8
        ensures t[8 * k .. 8 * k + 8][j] == ByteBits(data[k])[j]
      {
        assert t[8 * k + j] == stream[off + (8 * k + j)] == Bits(data)[8 * k + j];
        assert (8 * k + j) / 8 == k && (8 * k + j) % 8 == j;
      }
      assert t[8 * k .. 8 * k + 8] == ByteBits(data[k]);
      AccumulateByteBits(data[k]);
    }
  }

  /** Shifting one more bit into the accumulator. */
  lemma AccumulateStep(s: seq<int>, lo: nat, b: nat)
    requires lo <= b < |s|
    ensures Accumulate(s[lo..b + 1]) == Accumulate(s[lo..b]) * 2 + s[b]
  {
    assert s[lo..b + 1][..b - lo] == s[lo..b];
  }

  /** Reading one more bit extends the written bytes exactly when it
      completes a group of eight. */
  lemma PackExtend(s: seq<int>, b: nat)
    requires b < |s|
    ensures (b + 1) % 8 != 0 ==> Pack(s[..b + 1]) == Pack(s[..b])
    ensures (b + 1) % 8 == 0 ==> Pack(s[..b + 1]) == Pack(s[..b]) + [Accumulate(s[b + 1 - 8 .. b + 1]) % 0x100]
  {
    var p, q := Pack(s[..b + 1]), Pack(s[..b]);
    forall k | 0 <= k < |q|
      ensures p[k] == q[k]
    {
      assert 8 * k + 8 <= b;
      assert s[..b + 1][8 * k .. 8 * k + 8] == s[..b][8 * k .. 8 * k + 8];
    }
    if (b + 1) % 8 == 0 {
      var k := |q|;
      assert 8 * k == b + 1 - 8;
      assert s[..b + 1][8 * k .. 8 * k + 8] == s[b + 1 - 8 .. b + 1];
    }
  }

  /** The bytes after the 4-byte prefix are the packed bits after bit 32. */
  lemma PackDropPrefix(s: seq<int>, t: nat)
    requires 32 <= t <= |s|
    ensures Pack(s[..t])[4..] == Pack(s[32..t])
  {
    var p, q := Pack(s[..t])[4..], Pack(s[32..t]);
    forall k | 0 <= k < |q|
      ensures p[k] == q[k]
    {
      assert s[..t][8 * (k + 4) .. 8 * (k + 4) + 8] == s[32..t][8 * k .. 8 * k + 8];
    }
  }

  // ---------------------------------------------------------------------
  // The frame

  /** ByteBuffer.getInt: the first four bytes as a big-endian two's-complement int. */
  function GetInt(bytes: seq<Byte>): (value: int)
    requires |bytes| >= 4
    ensures INT_MIN <= value <= INT_MAX
    ensures value >= 0 <==> bytes[0] < 0x80
  {
    var unsigned := bytes[0] as int * 0x100_0000 + bytes[1] as int * 0x1_0000 + bytes[2] as int * 0x100 + bytes[3] as int;
    if unsigned > INT_MAX then unsigned - 0x1_0000_0000 else unsigned
  }

  /** ByteBuffer.putInt of a non-negative int (the source only writes a
      length): its four bytes, most significant first, read back as n. */
  function PutInt(n: int): (bytes: seq<Byte>)
    requires 0 <= n <= INT_MAX
    ensures |bytes| == 4 && GetInt(bytes) == n
  {
    var q1 := n / 0x100;
    var q2 := q1 / 0x100;
    var q3 := q2 / 0x100;
    assert n == q1 * 0x100 + n % 0x100 && q1 == q2 * 0x100 + q1 % 0x100 && q2 == q3 * 0x100 + q2 % 0x100;
    assert q3 < 0x80;
    [q3, q2 % 0x100, q1 % 0x100, n % 0x100]
  }

  /** The embedded frame: the payload length as 4 big-endian bytes, then the payload. */
  function Frame(msg: seq<Byte>): (frame: seq<Byte>)
    requires |msg| <= INT_MAX
    ensures |frame| == |msg| + 4
    ensures GetInt(frame) == |msg| && frame[4..] == msg
  {
    PutInt(|msg|) + msg
  }

  /** totalBits = (msgLength + 4) * 8, as a Java int. */
  function TotalBits(msgLength: nat): (totalBits: int)
    ensures totalBits <= 8 * (msgLength + 4)
    ensures (msgLength + 4) * 8 <= INT_MAX ==> totalBits == (msgLength + 4) * 8
  {
    JavaInt((msgLength + 4) * 8)
  }

  /** imgCapacity = width * height * 3, as a Java int. */
  function Capacity(width: nat, height: nat): (capacity: int)
    ensures width * height * 3 <= INT_MAX ==> capacity == width * height * 3
  {
    JavaInt(JavaInt(width * height) * 3)
  }

  // ---------------------------------------------------------------------
  // Embedding

  /** Channel c (0 = R, 1 = G, 2 = B) of a pixel. */
  function Channel(p: Pixel, c: nat): Byte
    requires c < 3
  {
    if c == 0 then p.r else if c == 1 then p.g else p.b
  }

  /** Channel slot k of a pixel sequence: channel k % 3 of pixel k / 3. */
  function Slot(pixels: seq<Pixel>, k: nat): Byte
    requires k < 3 * |pixels|
  {
    Channel(pixels[k / 3], k % 3)
  }

  /** Channel slot k after embedding: frame bit k in its LSB while
      k < totalBits, the channel unchanged after. `(c & 0xFE) | bit` on a
      channel value is `c - c % 2 + bit`. */
  function EmbedChannel(c: Byte, k: nat, frame: seq<Byte>, totalBits: int): (written: Byte)
    requires totalBits <= 8 * |frame|
    ensures written / 2 == c / 2
    ensures k < totalBits ==> written % 2 == GetBit(frame, k)
    ensures k >= totalBits ==> written == c
  {
    if k < totalBits then c - c % 2 + GetBit(frame, k) else c
  }

  /** Pixel j after embedding: slots 3j, 3j+1, 3j+2 go to R, G, B; alpha is kept. */
  function EmbedPixel(p: Pixel, j: nat, frame: seq<Byte>, totalBits: int): (q: Pixel)
    requires totalBits <= 8 * |frame|
    ensures q.a == p.a
    ensures 3 * j >= totalBits ==> q == p
  {
    Pixel(p.a,
          EmbedChannel(p.r, 3 * j, frame, totalBits),
          EmbedChannel(p.g, 3 * j + 1, frame, totalBits),
          EmbedChannel(p.b, 3 * j + 2, frame, totalBits))
  }

  /** The pixels of the stego image, as a function of the copied input. */
  function Embed(pixels: seq<Pixel>, frame: seq<Byte>, totalBits: int): (stego: seq<Pixel>)
    requires totalBits <= 8 * |frame|
    ensures |stego| == |pixels|
    ensures forall j :: 0 <= j < |pixels| ==> stego[j].a == pixels[j].a
  {
    seq(|pixels|, j requires 0 <= j < |pixels| => EmbedPixel(pixels[j], j, frame, totalBits))
  }

  datatype HideResult = Hidden(stego: Image<Pixel>) | CapacityExceeded

  /** hideTextInImageLSB as a function: reject when the frame's bit count
      exceeds the capacity, otherwise embed into a copy of the image. */
  function Hide(image: Image<Pixel>, msg: seq<Byte>): (result: HideResult)
    requires image.Valid() && |msg| <= INT_MAX
    ensures result.Hidden? ==> result.stego.width == image.width && result.stego.height == image.height
    ensures result.Hidden? ==> result.stego.Valid()
  {
    var totalBits := TotalBits(|msg|);
    if totalBits > Capacity(image.width, image.height) then CapacityExceeded
    else Hidden(Image(image.width, image.height, Embed(image.pixels, Frame(msg), totalBits)))
  }

  /** The body of hideTextInImageLSB's inner loop for pixel j, whose first
      slot is bitIndex0: the three guarded channel writes, each advancing the
      shared cursor. */
  method WritePixel(p: Pixel, ghost j: nat, bitIndex0: nat, fullData: seq<Byte>, totalBits: int)
    returns (q: Pixel, bitIndex: nat)
    requires bitIndex0 == 3 * j && totalBits <= 8 * |fullData|
    ensures q == EmbedPixel(p, j, fullData, totalBits)
    ensures bitIndex0 <= bitIndex <= bitIndex0 + 3
    ensures bitIndex0 <= totalBits ==> bitIndex <= totalBits
    ensures bitIndex < totalBits ==> bitIndex == bitIndex0 + 3
  {
    var r, g1, b, a := p.r, p.g, p.b, p.a;
    bitIndex := bitIndex0;
    if bitIndex < totalBits {
      r := r - r % 2 + GetBit(fullData, bitIndex);
      bitIndex := bitIndex + 1;
    }
    if bitIndex < totalBits {
      g1 := g1 - g1 % 2 + GetBit(fullData, bitIndex);
      bitIndex := bitIndex + 1;
    }
    if bitIndex < totalBits {
      b := b - b % 2 + GetBit(fullData, bitIndex);
      bitIndex := bitIndex + 1;
    }
    q := Pixel(a, r, g1, b);
  }

  /** The labelled loops of hideTextInImageLSB: visit the copied pixels in
      row-major order, write frame bits into R, G, B with one shared cursor,
      and leave both loops (`break outerLoop`) as soon as the cursor reaches
      totalBits. */
  method WriteFrame(image: Image<Pixel>, fullData: seq<Byte>, totalBits: int) returns (stego: seq<Pixel>)
    requires image.Valid() && totalBits <= 8 * |fullData|
    ensures stego == Embed(image.pixels, fullData, totalBits)
  {
    var width, height := image.width, image.height;
    ghost var want := Embed(image.pixels, fullData, totalBits);
    ghost var n := |image.pixels|;
    var pixels := new Pixel[width * height](j requires 0 <= j < width * height => image.pixels[j]);
    var bitIndex := 0;
    for y := 0 to height
      invariant y * width <= n
      invariant bitIndex == 3 * (y * width)
      invariant y * width > 0 ==> bitIndex < totalBits
      invariant forall j :: 0 <= j < y * width ==> pixels[j] == want[j]
      invariant forall j :: y * width <= j < n ==> pixels[j] == image.pixels[j]
    {
      var row := y * width;
      RowFits(y, width, height);
      for x := 0 to width
        invariant bitIndex == 3 * (row + x)
        invariant row + x > 0 ==> bitIndex < totalBits
        invariant forall j :: 0 <= j < row + x ==> pixels[j] == want[j]
        invariant forall j :: row + x <= j < n ==> pixels[j] == image.pixels[j]
      {
        var i := row + x;
        var q;
        q, bitIndex := WritePixel(pixels[i], i, bitIndex, fullData, totalBits);
        pixels[i] := q;
        if bitIndex >= totalBits {
          EmbedDoneEarly(pixels[..], image.pixels, fullData, totalBits, i);
          return pixels[..];
        }
      }
      assert row + width == (y + 1) * width;
    }
    assert height * width == n;
    assert pixels[..] == want;
    return pixels[..];
  }

  /** hideTextInImageLSB: check the capacity before touching any pixel, then
      frame the payload and write it into a copy of the image. */
  method HideTextInImageLsb(image: Image<Pixel>, msg: seq<Byte>) returns (result: HideResult)
    requires image.Valid() && |msg| <= INT_MAX
    ensures result == Hide(image, msg)
  {
    var totalBits := TotalBits(|msg|);
    var imgCapacity := Capacity(image.width, image.height);
    if totalBits > imgCapacity {
      return CapacityExceeded;
    }
    var fullData := Frame(msg);
    var stego := WriteFrame(image, fullData, totalBits);
    return Hidden(Image(image.width, image.height, stego));
  }

  /** Once pixel i has taken the frame's last bit, the copy of every later
      pixel is already final. */
  lemma EmbedDoneEarly(stego: seq<Pixel>, pixels: seq<Pixel>, frame: seq<Byte>, totalBits: int, i: nat)
    requires totalBits <= 8 * |frame| && i < |pixels| == |stego| && totalBits <= 3 * (i + 1)
    requires forall j :: 0 <= j <= i ==> stego[j] == Embed(pixels, frame, totalBits)[j]
    requires forall j :: i < j < |pixels| ==> stego[j] == pixels[j]
    ensures stego == Embed(pixels, frame, totalBits)
  {
    var want := Embed(pixels, frame, totalBits);
    forall j | 0 <= j < |pixels|
      ensures stego[j] == want[j]
    {
      if j > i {
        EmbedKeepsTail(pixels, frame, totalBits, j);
      }
    }
  }

  // ---------------------------------------------------------------------
  // Properties of the embedding

  /** With no int overflow, the capacity check rejects exactly the frames of
      more than width * height * 3 bits; a frame of exactly that size fits. */
  lemma HideCapacity(image: Image<Pixel>, msg: seq<Byte>)
    requires image.Valid()
    requires image.width * image.height * 3 <= INT_MAX && (|msg| + 4) * 8 <= INT_MAX
    ensures Hide(image, msg).CapacityExceeded? <==> (|msg| + 4) * 8 > image.width * image.height * 3
  {
  }

  /** A channel written with frame bit k keeps its upper seven bits and
      carries that bit in its LSB. */
  lemma EmbedChannelLsb(c: Byte, k: nat, frame: seq<Byte>, totalBits: int)
    requires totalBits <= 8 * |frame| && k < totalBits
    ensures EmbedChannel(c, k, frame, totalBits) / 2 == c / 2
    ensures EmbedChannel(c, k, frame, totalBits) % 2 == Bits(frame)[k]
  {
    assert GetBit(frame, k) == Bits(frame)[k];
  }

  /** Channel slot k of the output is slot k of the input put through EmbedChannel. */
  lemma EmbedAtSlot(pixels: seq<Pixel>, frame: seq<Byte>, totalBits: int, k: nat)
    requires totalBits <= 8 * |frame| && k < 3 * |pixels|
    ensures k / 3 < |pixels|
    ensures Slot(Embed(pixels, frame, totalBits), k) == EmbedChannel(Slot(pixels, k), k, frame, totalBits)
    ensures Embed(pixels, frame, totalBits)[k / 3].a == pixels[k / 3].a
  {
    var j, c := k / 3, k % 3;
    assert 3 * j + c == k;
    var q := Embed(pixels, frame, totalBits)[j];
    assert q == EmbedPixel(pixels[j], j, frame, totalBits);
  }

  /** Channel slot k of the output: below totalBits it keeps its upper seven
      bits and carries frame bit k in its LSB; from totalBits on it is the
      input's. Alpha never changes. */
  lemma EmbedSlot(pixels: seq<Pixel>, frame: seq<Byte>, totalBits: int, k: nat)
    requires totalBits <= 8 * |frame| && k < 3 * |pixels|
    ensures var stego := Embed(pixels, frame, totalBits);
            && stego[k / 3].a == pixels[k / 3].a
            && (k < totalBits ==> Slot(stego, k) / 2 == Slot(pixels, k) / 2
                                  && Slot(stego, k) % 2 == Bits(frame)[k])
            && (k >= totalBits ==> Slot(stego, k) == Slot(pixels, k))
  {
    EmbedAtSlot(pixels, frame, totalBits, k);
    if k < totalBits {
      EmbedChannelLsb(Slot(pixels, k), k, frame, totalBits);
    }
  }

  /** Every pixel wholly past the frame's last bit is identical to the input. */
  lemma EmbedKeepsTail(pixels: seq<Pixel>, frame: seq<Byte>, totalBits: int, j: nat)
    requires totalBits <= 8 * |frame| && j < |pixels| && 3 * j >= totalBits
    ensures Embed(pixels, frame, totalBits)[j] == pixels[j]
  {
  }

  // ---------------------------------------------------------------------
  // Extraction

  /** The LSBs (`channel & 1`, i.e. channel % 2) of the R, G and B channels,
      in the order the codec visits them. */
  function LsbStream(pixels: seq<Pixel>): (stream: seq<int>)
    ensures |stream| == 3 * |pixels|
    ensures forall k :: 0 <= k < |stream| ==> stream[k] == 0 || stream[k] == 1
  {
    seq(3 * |pixels|, k requires 0 <= k < 3 * |pixels| => Slot(pixels, k) % 2)
  }

  /** totalBitsToRead = (msgLength + 4) * 8 as a Java int, msgLength being the
      signed big-endian value of the first four bytes. */
  function TotalBitsToRead(prefix: seq<Byte>): (totalBitsToRead: int)
    requires |prefix| >= 4
    ensures totalBitsToRead % 8 == 0
  {
    JavaIntKeepsMultipleOf8(GetInt(prefix) + 4);
    JavaInt((GetInt(prefix) + 4) * 8)
  }

  /** What extractTextFromImageLSB returns for a stream of LSBs: nothing until
      32 bits give the length; then the bytes between bit 32 and
      totalBitsToRead once that many bits exist, and null (None) when the
      stream runs out first or totalBitsToRead is not positive. A positive
      totalBitsToRead of at most 32 stops at bit 32 with no payload. */
  function Extract(stream: seq<int>): (msg: Option<seq<Byte>>)
    ensures msg.None? <==> |stream| < 32 || FrameEnd(stream) <= 0 || |stream| < FrameEnd(stream)
    ensures msg.Some? ==> |msg.value| == if FrameEnd(stream) <= 32 then 0 else (FrameEnd(stream) - 32) / 8
  {
    if |stream| < 32 then None
    else
      var totalBitsToRead := TotalBitsToRead(Pack(stream[..32]));
      if totalBitsToRead <= 0 || |stream| < totalBitsToRead then None
      else if totalBitsToRead <= 32 then Some([])
      else Some(Pack(stream[32..totalBitsToRead]))
  }

  /** The bit count the length prefix of `stream` announces, or 0 when the
      stream is shorter than the prefix. */
  ghost function FrameEnd(stream: seq<int>): int
  {
    if |stream| < 32 then 0 else TotalBitsToRead(Pack(stream[..32]))
  }

  /** The decoder's state after reading `bitIndex` bits of `stream` without
      having stopped; `frameEnd` stands for FrameEnd(stream). */
  ghost predicate Decoding(stream: seq<int>, frameEnd: int, bitIndex: nat, buffer: seq<Byte>,
                           currentByte: int, totalBitsToRead: int)
  {
    var written := bitIndex - bitIndex % 8;
    && bitIndex <= |stream|
    && buffer == Pack(stream[..bitIndex])
    && currentByte == Accumulate(stream[written..bitIndex])
    && if bitIndex < 32 then totalBitsToRead == -1
       else totalBitsToRead == frameEnd && (frameEnd <= 0 || written < frameEnd)
  }

  /** The decoder starts with nothing read, no length known, and a zero accumulator. */
  lemma DecodingStart(stream: seq<int>, frameEnd: int)
    ensures Decoding(stream, frameEnd, 0, [], 0, -1)
  {
    assert stream[..0] == [] && stream[0..0] == [];
  }

  /** A bit that does not complete a byte only extends the accumulator. */
  lemma DecodingInsideByte(stream: seq<int>, frameEnd: int, bitIndex: nat, buffer: seq<Byte>,
                           currentByte: int, totalBitsToRead: int)
    requires bitIndex < |stream| && (bitIndex + 1) % 8 != 0
    requires Decoding(stream, frameEnd, bitIndex, buffer, currentByte, totalBitsToRead)
    ensures Decoding(stream, frameEnd, bitIndex + 1, buffer, currentByte * 2 + stream[bitIndex], totalBitsToRead)
  {
    var written := bitIndex - bitIndex % 8;
    assert bitIndex + 1 - (bitIndex + 1) % 8 == written;
    AccumulateStep(stream, written, bitIndex);
    PackExtend(stream, bitIndex);
  }

  /** A bit that completes a byte: appending the low eight bits of the
      accumulator gives the bytes packed so far. */
  lemma DecodingCompletesByte(stream: seq<int>, frameEnd: int, bitIndex: nat, buffer: seq<Byte>,
                              currentByte: int, totalBitsToRead: int)
    requires bitIndex < |stream| && (bitIndex + 1) % 8 == 0
    requires Decoding(stream, frameEnd, bitIndex, buffer, currentByte, totalBitsToRead)
    ensures buffer + [(currentByte * 2 + stream[bitIndex]) % 0x100] == Pack(stream[..bitIndex + 1])
  {
    var written := bitIndex - bitIndex % 8;
    assert written == bitIndex + 1 - 8;
    AccumulateStep(stream, written, bitIndex);
    PackExtend(stream, bitIndex);
  }

  /** The decoder's stopping point agrees with Extract. */
  lemma ExtractAtStop(stream: seq<int>, bitIndex: nat, buffer: seq<Byte>, totalBitsToRead: int)
    requires 32 <= bitIndex <= |stream| && bitIndex % 8 == 0
    requires buffer == Pack(stream[..bitIndex])
    requires totalBitsToRead == FrameEnd(stream)
    requires 0 < totalBitsToRead <= bitIndex
    requires bitIndex == 32 || bitIndex - 8 < totalBitsToRead
    ensures |buffer| >= 4 && Extract(stream) == Some(buffer[4..])
  {
    assert |buffer| == bitIndex / 8;
    if bitIndex == 32 {
      assert buffer[4..] == [];
    } else {
      assert totalBitsToRead == bitIndex;
      PackDropPrefix(stream, bitIndex);
    }
  }

  /** After a completed byte at bitIndex >= 32 with totalBitsToRead known:
      either the decoder stops with Extract's answer, or it goes on in the
      Decoding state with an empty accumulator. */
  lemma DecodingAtByte(stream: seq<int>, bitIndex: nat, buffer: seq<Byte>, totalBitsToRead: int)
    requires 32 <= bitIndex <= |stream| && bitIndex % 8 == 0
    requires buffer == Pack(stream[..bitIndex])
    requires totalBitsToRead == FrameEnd(stream)
    requires bitIndex == 32 || totalBitsToRead <= 0 || bitIndex - 8 < totalBitsToRead
    ensures totalBitsToRead > 0 && bitIndex >= totalBitsToRead ==>
              |buffer| >= 4 && Extract(stream) == Some(buffer[4..])
    ensures !(totalBitsToRead > 0 && bitIndex >= totalBitsToRead) ==>
              Decoding(stream, totalBitsToRead, bitIndex, buffer, 0, totalBitsToRead)
  {
    assert stream[bitIndex..bitIndex] == [];
    if totalBitsToRead > 0 && bitIndex >= totalBitsToRead {
      ExtractAtStop(stream, bitIndex, buffer, totalBitsToRead);
    }
  }

  /** At bit 32 the bytes written so far are the prefix, and the decoder's
      totalBitsToRead is the bit count it announces. */
  lemma FrameEndAtLength(stream: seq<int>, buffer: seq<Byte>)
    requires |stream| >= 32 && buffer == Pack(stream[..32])
    ensures JavaInt((GetInt(buffer) + 4) * 8) == FrameEnd(stream)
  {
  }

  /** A completed byte before bit 32 leaves the length unknown. */
  lemma DecodingBeforeLength(stream: seq<int>, frameEnd: int, bitIndex: nat, buffer: seq<Byte>)
    requires bitIndex < 32 && bitIndex <= |stream| && bitIndex % 8 == 0
    requires buffer == Pack(stream[..bitIndex])
    ensures Decoding(stream, frameEnd, bitIndex, buffer, 0, -1)
  {
    assert stream[bitIndex..bitIndex] == [];
  }

  /** A decoder that has read the whole stream without stopping agrees with
      Extract that there is no payload. */
  lemma DecodingExhausted(stream: seq<int>, buffer: seq<Byte>, currentByte: int, totalBitsToRead: int)
    requires Decoding(stream, FrameEnd(stream), |stream|, buffer, currentByte, totalBitsToRead)
    ensures Extract(stream) == None
  {
    if |stream| >= 32 {
      var n, t := |stream|, FrameEnd(stream);
      assert totalBitsToRead == t && t % 8 == 0;
      if t > 0 {
        assert n - n % 8 < t;
        ByteBoundary(n, t);
      }
    }
  }

  /** A multiple of 8 above the last byte boundary at or below n lies above n. */
  lemma ByteBoundary(n: nat, t: int)
    requires t % 8 == 0 && n - n % 8 < t
    ensures n < t
  {
  }

  /** One bit of the decoder's triple loop: shift the bit in, emit a byte
      every eight bits, fix the length after 32, stop once the frame is read.
      `stop` is true when the decoder returns `buffer[4..]`. */
  method ReadBit(ghost stream: seq<int>, lsb: int, bitIndex0: nat, buffer0: seq<Byte>,
                 currentByte0: int, totalBitsToRead0: int)
    returns (bitIndex: nat, buffer: seq<Byte>, currentByte: int, totalBitsToRead: int, stop: bool)
    requires bitIndex0 < |stream| && lsb == stream[bitIndex0]
    requires Decoding(stream, FrameEnd(stream), bitIndex0, buffer0, currentByte0, totalBitsToRead0)
    ensures bitIndex == bitIndex0 + 1
    ensures stop ==> |buffer| >= 4 && Extract(stream) == Some(buffer[4..])
    ensures !stop ==> Decoding(stream, FrameEnd(stream), bitIndex, buffer, currentByte, totalBitsToRead)
  {
    ghost var frameEnd := FrameEnd(stream);
    buffer, totalBitsToRead, stop := buffer0, totalBitsToRead0, false;
    currentByte := currentByte0 * 2 + lsb;
    bitIndex := bitIndex0 + 1;
    if bitIndex % 8 == 0 {
      DecodingCompletesByte(stream, frameEnd, bitIndex0, buffer0, currentByte0, totalBitsToRead0);
      buffer := buffer + [currentByte % 0x100];
      currentByte := 0;
      if bitIndex == 32 {
        var msgLength := GetInt(buffer);
        totalBitsToRead := JavaInt((msgLength + 4) * 8);
        FrameEndAtLength(stream, buffer);
      }
      if bitIndex < 32 {
        DecodingBeforeLength(stream, frameEnd, bitIndex, buffer);
      } else {
        DecodingAtByte(stream, bitIndex, buffer, totalBitsToRead);
        if totalBitsToRead > 0 && bitIndex >= totalBitsToRead {
          stop := true;
        }
      }
    } else {
      DecodingInsideByte(stream, frameEnd, bitIndex0, buffer0, currentByte0, totalBitsToRead0);
    }
  }

  /** Stream bit 3 * (y * width + x) + i is the LSB of channel i of pixel (x, y). */
  lemma StreamAt(image: Image<Pixel>, x: nat, y: nat, i: nat)
    requires image.Valid() && x < image.width && y < image.height && i < 3
    ensures 3 * (y * image.width + x) + i < |LsbStream(image.pixels)|
    ensures LsbStream(image.pixels)[3 * (y * image.width + x) + i]
            == [At(image, x, y).r, At(image, x, y).g, At(image, x, y).b][i] % 2
  {
    RowMajorInRange(x, y, image.width, image.height);
    var k := 3 * (y * image.width + x) + i;
    assert k / 3 == y * image.width + x && k % 3 == i;
  }

  /** extractTextFromImageLSB: walk the pixels row-major and their R, G, B
      channels, and return the payload as soon as the frame is complete, or
      null (None) when the pixels run out first. */
  method ExtractTextFromImageLsb(image: Image<Pixel>) returns (msg: Option<seq<Byte>>)
    requires image.Valid()
    ensures msg == Extract(LsbStream(image.pixels))
  {
    var width, height := image.width, image.height;
    ghost var stream := LsbStream(image.pixels);
    var buffer: seq<Byte> := [];
    var totalBitsToRead := -1;
    var bitIndex := 0;
    var currentByte := 0;
    DecodingStart(stream, FrameEnd(stream));
    for y := 0 to height
      invariant bitIndex == 3 * (y * width)
      invariant Decoding(stream, FrameEnd(stream), bitIndex, buffer, currentByte, totalBitsToRead)
    {
      for x := 0 to width
        invariant bitIndex == 3 * (y * width + x)
        invariant Decoding(stream, FrameEnd(stream), bitIndex, buffer, currentByte, totalBitsToRead)
      {
        var p := At(image, x, y);
        var channels := [p.r, p.g, p.b];
        for i := 0 to 3
          invariant bitIndex == 3 * (y * width + x) + i
          invariant Decoding(stream, FrameEnd(stream), bitIndex, buffer, currentByte, totalBitsToRead)
        {
          var lsb := channels[i] % 2;
          StreamAt(image, x, y, i);
          var stop;
          bitIndex, buffer, currentByte, totalBitsToRead, stop :=
            ReadBit(stream, lsb, bitIndex, buffer, currentByte, totalBitsToRead);
          if stop {
            return Some(buffer[4..]);
          }
        }
      }
      assert (y + 1) * width == y * width + width;
    }
    assert bitIndex == |stream| by {
      assert height * width == width * height;
    }
    DecodingExhausted(stream, buffer, currentByte, totalBitsToRead);
    return None;
  }

  // ---------------------------------------------------------------------
  // Round trip

  /** Bit i of a slice of the data is bit 8 * lo + i of the data. */
  lemma BitsOfSlice(data: seq<Byte>, lo: nat, hi: nat, i: nat)
    requires lo <= hi <= |data| && i < 8 * (hi - lo)
    ensures Bits(data[lo..hi])[i] == Bits(data)[8 * lo + i]
  {
    assert (8 * lo + i) / 8 == lo + i / 8 && (8 * lo + i) % 8 == i % 8;
  }

  /** The stego image's LSB stream starts with the bits of the frame. */
  lemma StreamCarriesFrame(pixels: seq<Pixel>, frame: seq<Byte>, totalBits: nat)
    requires totalBits == 8 * |frame| <= 3 * |pixels|
    ensures forall k :: 0 <= k < totalBits ==> LsbStream(Embed(pixels, frame, totalBits))[k] == Bits(frame)[k]
  {
    forall k | 0 <= k < totalBits
      ensures LsbStream(Embed(pixels, frame, totalBits))[k] == Bits(frame)[k]
    {
      EmbedSlot(pixels, frame, totalBits, k);
    }
  }

  /** A stream that starts with the bits of a frame announces the frame's bit count. */
  lemma FramedPrefix(stream: seq<int>, msg: seq<Byte>)
    requires (|msg| + 4) * 8 <= INT_MAX && (|msg| + 4) * 8 <= |stream|
    requires forall k :: 0 <= k < (|msg| + 4) * 8 ==> stream[k] == Bits(Frame(msg))[k]
    ensures FrameEnd(stream) == (|msg| + 4) * 8
  {
    var frame := Frame(msg);
    forall i | 0 <= i < 32
      ensures stream[0 + i] == Bits(frame[..4])[i]
    {
      BitsOfSlice(frame, 0, 4, i);
    }
    PackBits(stream, frame[..4], 0);
    assert stream[0..32] == stream[..32];
    assert frame[..4] == PutInt(|msg|);
  }

  /** A stream that starts with the bits of a frame carries the payload's
      bits from bit 32 on. */
  lemma FramedPayload(stream: seq<int>, msg: seq<Byte>)
    requires (|msg| + 4) * 8 <= INT_MAX && (|msg| + 4) * 8 <= |stream|
    requires forall k :: 0 <= k < (|msg| + 4) * 8 ==> stream[k] == Bits(Frame(msg))[k]
    ensures Pack(stream[32..(|msg| + 4) * 8]) == msg
  {
    var frame := Frame(msg);
    forall i | 0 <= i < 8 * |msg|
      ensures stream[32 + i] == Bits(msg)[i]
    {
      BitsOfSlice(frame, 4, |frame|, i);
    }
    PackBits(stream, msg, 32);
  }

  /** A stream that starts with the bits of a frame decodes to the frame's payload. */
  lemma ExtractFramed(stream: seq<int>, msg: seq<Byte>)
    requires (|msg| + 4) * 8 <= INT_MAX && (|msg| + 4) * 8 <= |stream|
    requires forall k :: 0 <= k < (|msg| + 4) * 8 ==> stream[k] == Bits(Frame(msg))[k]
    ensures Extract(stream) == Some(msg)
  {
    FramedPrefix(stream, msg);
    FramedPayload(stream, msg);
    if |msg| == 0 {
      assert (|msg| + 4) * 8 == 32;
    }
  }

  /** Whenever the capacity check passes (and nothing overflows), the
      decoder returns exactly the embedded payload, the empty one included. */
  lemma {:induction false} HideThenExtract(image: Image<Pixel>, msg: seq<Byte>)
    requires image.Valid()
    requires image.width * image.height * 3 <= INT_MAX
    requires (|msg| + 4) * 8 <= image.width * image.height * 3
    ensures Hide(image, msg).Hidden?
    ensures Extract(LsbStream(Hide(image, msg).stego.pixels)) == Some(msg)
  {
    var totalBits := (|msg| + 4) * 8;
    var frame := Frame(msg);
    var stego := Embed(image.pixels, frame, totalBits);
    assert Hide(image, msg) == Hidden(Image(image.width, image.height, stego));
    StreamCarriesFrame(image.pixels, frame, totalBits);
    ExtractFramed(LsbStream(stego), msg);
  }

  /** The decoder stops at the end of the frame: whatever follows it in the
      stream does not change the result. */
  lemma ExtractIgnoresTail(stream: seq<int>, rest: seq<int>)
    requires Extract(stream).Some?
    ensures Extract(stream + rest) == Extract(stream)
  {
    var s := stream + rest;
    assert s[..32] == stream[..32];
    var t := TotalBitsToRead(Pack(stream[..32]));
    if t > 32 {
      assert s[32..t] == stream[32..t];
    }
  }

  /** Shifting in only zeros leaves the accumulator at 0. */
  lemma {:induction false} AccumulateZeros(s: seq<int>)
    requires forall i :: 0 <= i < |s| ==> s[i] == 0
    ensures Accumulate(s) == 0
  {
    if s != [] {
      AccumulateZeros(s[..|s| - 1]);
    }
  }

  /** Shifting in n ones gives 2^n - 1. */
  lemma {:induction false} AccumulateOnes(s: seq<int>)
    requires forall i :: 0 <= i < |s| ==> s[i] == 1
    ensures Accumulate(s) == Pow2(|s|) - 1
  {
    if s != [] {
      AccumulateOnes(s[..|s| - 1]);
    }
  }

  /** A blank prefix (all 32 LSBs zero) reads as length 0, so the decoder
      returns an empty payload rather than null. */
  lemma BlankPrefixReadsEmpty(stream: seq<int>)
    requires |stream| >= 32
    requires forall i :: 0 <= i < 32 ==> stream[i] == 0
    ensures Extract(stream) == Some([])
  {
    var p := Pack(stream[..32]);
    forall k | 0 <= k < 4
      ensures p[k] == 0
    {
      AccumulateZeros(stream[..32][8 * k .. 8 * k + 8]);
    }
    assert GetInt(p) == 0;
  }

  /** A prefix of all ones reads as length -1, so totalBitsToRead is 24 and
      the decoder again returns an empty payload at bit 32 rather than null. */
  lemma OnesPrefixReadsEmpty(stream: seq<int>)
    requires |stream| >= 32
    requires forall i :: 0 <= i < 32 ==> stream[i] == 1
    ensures Extract(stream) == Some([])
  {
    var p := Pack(stream[..32]);
    assert Pow2(8) == 256;
    forall k | 0 <= k < 4
      ensures p[k] == 0xFF
    {
      AccumulateOnes(stream[..32][8 * k .. 8 * k + 8]);
    }
    assert GetInt(p) == -1;
  }

  /** "HI" in a 4 x 4 opaque black image: the frame's 48 bits fill the 48
      channel slots exactly, the payload comes back, and alpha stays 255. */
  lemma HiInFourByFour()
    ensures var image := Image(4, 4, seq(16, _ => Pixel(0xFF, 0, 0, 0)));
            && Hide(image, [0x48, 0x49]).Hidden?
            && Extract(LsbStream(Hide(image, [0x48, 0x49]).stego.pixels)) == Some([0x48, 0x49])
            && forall j :: 0 <= j < 16 ==> Hide(image, [0x48, 0x49]).stego.pixels[j].a == 0xFF
  {
    var image := Image(4, 4, seq(16, _ => Pixel(0xFF, 0, 0, 0)));
    HideThenExtract(image, [0x48, 0x49]);
  }
}
