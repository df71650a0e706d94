/** The GPU side of a frame: the converted pixels are copied into a shader
    storage buffer (main.cpp:147-153, main.cpp:225-230), and a compute
    shader run over a grid of 16x16 work groups (main.cpp:177-185) stores
    each texel of the resWidth x resHeight texture from that buffer
    (main.cpp:63-84). The texture is modelled row-major, texel (x, y) at
    y * resWidth + x. */
module ComputeKernel {
  import opened Arithmetic
  import opened Tiling
  import opened PixelFormat
  import opened FrameConverter

  /** local_size_x = local_size_y = 16 (main.cpp:66). */
  const LocalSize: nat := 16

  /** The shader's buffer index for texel (x, y) (main.cpp:78-79): formed
      as an int, passed through a double, which holds it exactly, and
      back. */
  function TexelIndex(resWidth: nat, x: nat, y: nat): nat
  {
    y * resWidth + x
  }

  /** The value imageStore writes for texel (x, y) (main.cpp:81-82), as the
      texture of w x h texels it fills; a texel whose index lies past the
      buffer is not defined by the shader and is left out of this
      function. */
  function Texture(pixelData: seq<Packed>, w: nat, h: nat): (t: seq<Packed>)
    requires w * h <= |pixelData|
    ensures |t| == w * h
  {
    seq(w * h, i requires 0 <= i < w * h => TexelOf(pixelData, w, h, i))
  }

  /** Texel i of the texture, that is texel (i % w, i / w). */
  function TexelOf(pixelData: seq<Packed>, w: nat, h: nat, i: nat): Packed
    requires w * h <= |pixelData| && i < w * h
  {
    RowMajorSplit(i, h, w);
    pixelData[TexelIndex(w, i % w, i / w)]
  }

  /** The compute pass is a plain copy: it neither detiles nor resamples.
      With a buffer of at least w*h pixels, the texture is the buffer's
      first w*h pixels, unchanged and in the same order. */
  lemma TextureIsCopy(pixelData: seq<Packed>, w: nat, h: nat)
    requires w * h <= |pixelData|
    ensures Texture(pixelData, w, h) == pixelData[..w * h]
  {
    forall i | 0 <= i < w * h
      ensures Texture(pixelData, w, h)[i] == pixelData[i]
    {
      RowMajorSplit(i, h, w);
    }
  }

  /** Texel (x, y) of the texture is buffer entry y * w + x. */
  lemma TextureAt(pixelData: seq<Packed>, w: nat, h: nat, x: nat, y: nat)
    requires w * h <= |pixelData| && x < w && y < h
    ensures TexelIndex(w, x, y) < w * h
    ensures Texture(pixelData, w, h)[TexelIndex(w, x, y)] == pixelData[TexelIndex(w, x, y)]
  {
    RowMajorBound(y, x, h, w);
    TextureIsCopy(pixelData, w, h);
  }

  /** glDispatchCompute(resWidth / 16, resHeight / 16, 1) (main.cpp:183):
      the number of work groups along an axis of n texels. */
  function Groups(n: nat): nat
  {
    n / LocalSize
  }

  /** gl_GlobalInvocationID along one axis of local invocation l of work
      group g. */
  function GlobalId(g: nat, l: nat): nat
  {
    g * LocalSize + l
  }

  /** No invocation of the dispatch falls outside the texture: the id of
      invocation l < 16 of group g < n / 16 is below n. */
  lemma DispatchInFrame(n: nat, g: nat, l: nat)
    requires g < Groups(n) && l < LocalSize
    ensures GlobalId(g, l) < n
  {
    MulMonotone(g + 1, n / LocalSize, LocalSize);
  }

  /** With n a multiple of 16, every texel coordinate below n is reached:
      coordinate c is invocation c % 16 of group c / 16. */
  lemma DispatchCovers(n: nat, c: nat)
    requires n % LocalSize == 0 && c < n
    ensures c / LocalSize < Groups(n) && GlobalId(c / LocalSize, c % LocalSize) == c
  {
    MulMonotone(Groups(n), c / LocalSize, LocalSize);
  }

  /** Each texel coordinate is reached by one invocation only. */
  lemma DispatchUnique(g1: nat, l1: nat, g2: nat, l2: nat)
    requires l1 < LocalSize && l2 < LocalSize && GlobalId(g1, l1) == GlobalId(g2, l2)
    ensures g1 == g2 && l1 == l2
  {
    DivModUnique(GlobalId(g1, l1), LocalSize, g1, l1);
    DivModUnique(GlobalId(g2, l2), LocalSize, g2, l2);
  }

  /** The dispatch relies on the padding of TILE: along an axis whose size
      is not a multiple of 16, the last coordinate is reached by no work
      group. */
  lemma DispatchNeedsPadding(n: nat)
    requires n % LocalSize != 0
    ensures (n - 1) / LocalSize == Groups(n)
    ensures forall g: nat, l: nat :: g < Groups(n) && l < LocalSize ==> GlobalId(g, l) != n - 1
  {
    DivModUnique(n - 1, LocalSize, n / LocalSize, n % LocalSize - 1);
    forall g: nat, l: nat | g < Groups(n) && l < LocalSize
      ensures GlobalId(g, l) != n - 1
    {
      DivModUnique(GlobalId(g, l), LocalSize, g, l);
    }
  }

  /** At the frame's resolution the dispatch is 80 x 46 work groups, and it
      covers the 1280 x 736 texture exactly. */
  lemma FrameDispatch()
    ensures ResWidth % LocalSize == 0 && ResHeight % LocalSize == 0
    ensures Groups(ResWidth) == 80 && Groups(ResHeight) == 46
  {
    ResolutionValues();
  }

  /** The pixels a GL buffer object holds after glBufferData or
      glBufferSubData copy size bytes from data: the uint32 elements whose
      four bytes all lie in the first size bytes, as many of them as the
      data has. */
  function Uploaded(data: seq<Packed>, size: nat): (s: seq<Packed>)
    ensures |s| == if size / 4 < |data| then size / 4 else |data|
    ensures |s| * 4 <= size
    ensures forall i :: 0 <= i < |s| ==> s[i] == data[i]
  {
    if size / 4 < |data| then data[..size / 4] else data
  }

  /** The buffer as the viewer fills it (main.cpp:151, main.cpp:228): the
      size passed is pixels.size(), a count of uint32 elements, where GL
      expects bytes. */
  function UploadAsWritten(pixels: seq<Packed>): seq<Packed>
  {
    Uploaded(pixels, |pixels|)
  }

  /** The buffer as evidently intended: pixels.size() * sizeof(uint32_t)
      bytes, the whole vector. */
  function Upload(pixels: seq<Packed>): seq<Packed>
  {
    Uploaded(pixels, |pixels| * 4)
  }

  /** The intended upload copies every pixel. */
  lemma UploadIsFullCopy(pixels: seq<Packed>)
    ensures Upload(pixels) == pixels
  {
  }

  /** As written, a frame of w x h pixels (h a multiple of 4) reaches the
      GPU as its top h / 4 rows only. */
  lemma UploadAsWrittenKeepsQuarter(pixels: seq<Packed>, w: nat, h: nat)
    requires |pixels| == w * h && h % 4 == 0
    ensures |UploadAsWritten(pixels)| == (h / 4) * w
    ensures UploadAsWritten(pixels) == pixels[..(h / 4) * w]
  {
    assert w * h == ((h / 4) * w) * 4;
  }

  /** As written, every texel in rows h/4 and below indexes past the end of
      the buffer the shader reads: for h > 0 three quarters of the texture
      is not defined by the frame. */
  lemma UploadAsWrittenMissesRows(pixels: seq<Packed>, w: nat, h: nat, x: nat, y: nat)
    requires |pixels| == w * h && h % 4 == 0 && h / 4 <= y
    ensures TexelIndex(w, x, y) >= |UploadAsWritten(pixels)|
  {
    UploadAsWrittenKeepsQuarter(pixels, w, h);
    MulMonotone(h / 4, y, w);
  }

  /** At the frame's 1280 x 736 the buffer holds 235520 pixels, the first
      184 rows; texel (0, 184) is the first that reads past its end. */
  lemma FrameUploadAsWritten(pixels: seq<Packed>)
    requires |pixels| == ResWidth * ResHeight
    ensures |UploadAsWritten(pixels)| == 235520 == 184 * ResWidth
    ensures TexelIndex(ResWidth, 0, 184) == |UploadAsWritten(pixels)|
  {
    ResolutionValues();
    UploadAsWrittenKeepsQuarter(pixels, ResWidth, ResHeight);
  }

  /** One frame from dump to screen with the intended upload: texel (x, y)
      of the texture holds the converted pixel (x, y), and the fragment
      shader unpacks from it red = byte p+1, green = byte p+2 and
      blue = byte p of the dump, p = XE_PIXEL_TO_XE_ADDR(x, y), with
      alpha 255. */
  lemma FrameShowsDump(fb: seq<Byte>, w: nat, h: nat, x: nat, y: nat)
    requires ValidDump(fb, w, h) && x < w && y < h
    ensures TexelIndex(w, x, y) < w * h && 0 <= XeAddr(w, x, y) && XeAddr(w, x, y) + 3 < |fb|
    ensures Unpack(Texture(Upload(Converted(fb, w, h)), w, h)[TexelIndex(w, x, y)]) ==
      Rgba(ChannelOf(fb[XeAddr(w, x, y) + 1]), ChannelOf(fb[XeAddr(w, x, y) + 2]), ChannelOf(fb[XeAddr(w, x, y)]), 255)
  {
    var px := Converted(fb, w, h);
    UploadIsFullCopy(px);
    TextureAt(px, w, h, x, y);
    ConvertedChannels(fb, w, h, x, y);
  }
}
