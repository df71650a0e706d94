/** The CPU side of the viewer (main.cpp:247-264): ConvertFramebufferCPU
    walks every pixel of the frame in row-major order, reads the four bytes
    the tiled dump holds for it, and stores them as one packed pixel in the
    row-major output buffer. The dump keeps a pixel's bytes in the order
    blue, red, green, alpha; alpha is read and replaced by 255. */
module FrameConverter {
  import opened Arithmetic
  import opened Tiling
  import opened PixelFormat

  /** What ConvertFramebufferCPU needs of its arguments: a resolution of
      whole tiles whose byte offsets fit the source's int, and a dump that
      holds all w*h*4 bytes of it (the source allocates exactly that much at
      main.cpp:266). */
  predicate ValidDump(fb: seq<Byte>, w: nat, h: nat)
  {
    ValidResolution(w, h) && |fb| >= w * h * 4
  }

  /** The packed pixel written for pixel (x, y): COLOR(r, g, b, 255) of the
      bytes b, r, g at tiled offset p, p+1, p+2 (main.cpp:255-261). */
  function DetiledPixel(fb: seq<Byte>, w: nat, h: nat, x: nat, y: nat): Packed
    requires ValidDump(fb, w, h) && x < w && y < h
  {
    TiledIndexInFrame(w, h, x, y);
    var p := XeAddr(w, x, y);
    Color(ChannelOf(fb[p + 1]), ChannelOf(fb[p + 2]), ChannelOf(fb[p]), 255)
  }

  /** Output index i of a w-wide frame is pixel (i % w, i / w). */
  function OutputPixel(fb: seq<Byte>, w: nat, h: nat, i: nat): Packed
    requires ValidDump(fb, w, h) && i < w * h
  {
    RowMajorSplit(i, h, w);
    DetiledPixel(fb, w, h, i % w, i / w)
  }

  /** The whole row-major frame ConvertFramebufferCPU produces from a dump. */
  function Converted(fb: seq<Byte>, w: nat, h: nat): (s: seq<Packed>)
    requires ValidDump(fb, w, h)
    ensures |s| == w * h
  {
    seq(w * h, i requires 0 <= i < w * h => OutputPixel(fb, w, h, i))
  }

  /** Pixel (x, y) sits at row-major index y*w + x, which is
      XE_PIXEL_TO_STD_ADDR / 4, inside the frame. */
  lemma OutputIndex(w: nat, h: nat, x: nat, y: nat)
    requires x < w && y < h
    ensures y * w + x < w * h && StdAddr(w, x, y) / 4 == y * w + x
    ensures (y * w + x) % w == x && (y * w + x) / w == y
  {
    RowMajorBound(y, x, h, w);
    DivModUnique(y * w + x, w, y, x);
  }

  /** No offset the converter computes overflows the source's 32-bit int:
      the row-major and the tiled offsets of all four bytes of an in-frame
      pixel stay at most IntMax. */
  lemma AddressesFitInt(w: nat, h: nat, x: nat, y: nat)
    requires ValidResolution(w, h) && x < w && y < h
    ensures StdAddr(w, x, y) + 3 <= IntMax
    ensures 0 <= XeAddr(w, x, y) && XeAddr(w, x, y) + 3 <= IntMax
  {
    OutputIndex(w, h, x, y);
    TiledIndexInFrame(w, h, x, y);
  }

  /** The first k entries of out are those of target and the rest still
      hold what init held: the state of a buffer written in index order
      after k writes. */
  ghost predicate WrittenUpTo(out: seq<Packed>, init: seq<Packed>, target: seq<Packed>, k: nat)
  {
    k <= |target| <= |out| && |out| == |init| &&
    (forall i :: 0 <= i < k ==> out[i] == target[i]) &&
    (forall i :: k <= i < |out| ==> out[i] == init[i])
  }

  /** Writing target's entry k extends the written prefix by one. */
  lemma WrittenUpToStep(out: seq<Packed>, out': seq<Packed>, init: seq<Packed>, target: seq<Packed>, k: nat)
    requires WrittenUpTo(out, init, target, k) && k < |target| && out' == out[k := target[k]]
    ensures WrittenUpTo(out', init, target, k + 1)
  {
  }

  /** Once all of target is written the buffer starts with target, and
      nothing past it has changed. */
  lemma WrittenUpToAll(out: seq<Packed>, init: seq<Packed>, target: seq<Packed>)
    requires WrittenUpTo(out, init, target, |target|)
    ensures out[..|target|] == target && out[|target|..] == init[|target|..]
  {
  }

  /** The pixel the loop body writes at (x, y) is the converted frame's
      pixel at index y*w + x. */
  lemma OutputPixelAt(fb: seq<Byte>, w: nat, h: nat, x: nat, y: nat)
    requires ValidDump(fb, w, h) && x < w && y < h
    ensures y * w + x < w * h && 0 <= XeAddr(w, x, y) && XeAddr(w, x, y) + 3 < |fb|
    ensures OutputPixel(fb, w, h, y * w + x) ==
      Color(ChannelOf(fb[XeAddr(w, x, y) + 1]), ChannelOf(fb[XeAddr(w, x, y) + 2]), ChannelOf(fb[XeAddr(w, x, y)]), 255)
  {
    OutputIndex(w, h, x, y);
    TiledIndexInFrame(w, h, x, y);
  }

  /** Channel placement: pixel (x, y) of the converted frame shows byte
      p+1 of the dump as red, byte p+2 as green and byte p as blue, where p
      is XE_PIXEL_TO_XE_ADDR(x, y); alpha is always 255 and byte p+3 is not
      used. */
  lemma ConvertedChannels(fb: seq<Byte>, w: nat, h: nat, x: nat, y: nat)
    requires ValidDump(fb, w, h) && x < w && y < h
    ensures y * w + x < w * h && 0 <= XeAddr(w, x, y) && XeAddr(w, x, y) + 3 < |fb|
    ensures Unpack(Converted(fb, w, h)[y * w + x]) ==
      Rgba(ChannelOf(fb[XeAddr(w, x, y) + 1]), ChannelOf(fb[XeAddr(w, x, y) + 2]), ChannelOf(fb[XeAddr(w, x, y)]), 255)
  {
    OutputPixelAt(fb, w, h, x, y);
    var p := XeAddr(w, x, y);
    UnpackColor(ChannelOf(fb[p + 1]), ChannelOf(fb[p + 2]), ChannelOf(fb[p]), 255);
  }

  /** Every pixel of the dump is shown: tiled pixel t, bytes 4t .. 4t+3,
      is the converted frame's pixel at the (x, y) PixelOfTiled names. With
      DetilingIsBijection, each dump pixel lands in exactly one place. */
  lemma EveryDumpPixelShown(fb: seq<Byte>, w: nat, h: nat, t: nat)
    requires ValidDump(fb, w, h) && w > 0 && t < w * h
    ensures PixelOfTiled(w, t).0 < w && PixelOfTiled(w, t).1 < h
    ensures PixelOfTiled(w, t).1 * w + PixelOfTiled(w, t).0 < w * h && 4 * t + 3 < |fb|
    ensures Converted(fb, w, h)[PixelOfTiled(w, t).1 * w + PixelOfTiled(w, t).0] ==
      Color(ChannelOf(fb[4 * t + 1]), ChannelOf(fb[4 * t + 2]), ChannelOf(fb[4 * t]), 255)
  {
    TiledIndexOfPixel(w, h, t);
    var (x, y) := PixelOfTiled(w, t);
    TiledIndexInFrame(w, h, x, y);
    OutputPixelAt(fb, w, h, x, y);
  }

  /** Pixel (x, y) of the converted frame does not depend on the alpha
      bytes of the dump: the tiled offset is a multiple of 4, so byte p+3
      is always an alpha byte and bytes p .. p+2 never are. */
  lemma DetiledPixelIgnoresAlpha(fb1: seq<Byte>, fb2: seq<Byte>, w: nat, h: nat, x: nat, y: nat)
    requires ValidDump(fb1, w, h) && ValidDump(fb2, w, h) && x < w && y < h
    requires forall j :: 0 <= j < w * h * 4 && j % 4 != 3 ==> fb1[j] == fb2[j]
    ensures DetiledPixel(fb1, w, h, x, y) == DetiledPixel(fb2, w, h, x, y)
  {
    TiledIndexInFrame(w, h, x, y);
    SameColourBytes(fb1, fb2, w * h * 4, XeAddr(w, x, y), TiledIndex(w, x, y));
  }

  /** Dumps that agree off the alpha bytes agree on the colour bytes
      p .. p+2 of a pixel that starts at a multiple of 4. */
  lemma SameColourBytes(fb1: seq<Byte>, fb2: seq<Byte>, n: nat, p: int, t: int)
    requires n <= |fb1| && n <= |fb2| && 0 <= t && p == 4 * t && p + 3 < n
    requires forall j :: 0 <= j < n && j % 4 != 3 ==> fb1[j] == fb2[j]
    ensures fb1[p] == fb2[p] && fb1[p + 1] == fb2[p + 1] && fb1[p + 2] == fb2[p + 2]
  {
    assert p % 4 == 0 && (p + 1) % 4 == 1 && (p + 2) % 4 == 2;
  }

  /** Byte +3 of every dump pixel is read but ignored: dumps that differ
      only in their alpha bytes convert to the same frame. */
  lemma AlphaByteIgnored(fb1: seq<Byte>, fb2: seq<Byte>, w: nat, h: nat)
    requires ValidDump(fb1, w, h) && ValidDump(fb2, w, h)
    requires forall j :: 0 <= j < w * h * 4 && j % 4 != 3 ==> fb1[j] == fb2[j]
    ensures Converted(fb1, w, h) == Converted(fb2, w, h)
  {
    forall i | 0 <= i < w * h
      ensures Converted(fb1, w, h)[i] == Converted(fb2, w, h)[i]
    {
      RowMajorSplit(i, h, w);
      DetiledPixelIgnoresAlpha(fb1, fb2, w, h, i % w, i / w);
    }
  }

  /** A dump of zeros, which is what the viewer shows when fbmem.bin is
      missing or short (the buffer of main.cpp:266 starts zeroed),
      converts to opaque black everywhere: the very pixels the buffer was
      filled with at start-up (main.cpp:146). */
  lemma ZeroDumpIsInitialFill(fb: seq<Byte>, w: nat, h: nat)
    requires ValidDump(fb, w, h)
    requires forall j :: 0 <= j < |fb| ==> fb[j] == 0
    ensures Converted(fb, w, h) == InitialPixels(w * h)
  {
    forall i | 0 <= i < w * h
      ensures Converted(fb, w, h)[i] == InitialPixel
    {
      RowMajorSplit(i, h, w);
      TiledIndexInFrame(w, h, i % w, i / w);
    }
  }

  /** A byte of the dump as it can be read back from a converted frame px:
      byte j belongs to tiled pixel j / 4, shown at the (x, y) PixelOfTiled
      names, and j % 4 picks its channel: blue, red, green, then alpha. */
  function RetiledByte(px: seq<Packed>, w: nat, h: nat, j: nat): Channel
    requires w % 32 == 0 && h % 32 == 0 && |px| == w * h && j < w * h * 4
  {
    TiledIndexOfPixel(w, h, j / 4);
    var (x, y) := PixelOfTiled(w, j / 4);
    OutputIndex(w, h, x, y);
    var c := Unpack(px[y * w + x]);
    if j % 4 == 0 then c.b else if j % 4 == 1 then c.r else if j % 4 == 2 then c.g else c.a
  }

  /** The dump read back from a converted frame, in the dump's own order. */
  function Retiled(px: seq<Packed>, w: nat, h: nat): seq<Channel>
    requires w % 32 == 0 && h % 32 == 0 && |px| == w * h
  {
    seq(w * h * 4, j requires 0 <= j < w * h * 4 => RetiledByte(px, w, h, j))
  }

  /** The first n bytes of a dump as channels, with every alpha byte
      replaced by 255. */
  function OpaqueDump(fb: seq<Byte>, n: nat): (s: seq<Channel>)
    requires n <= |fb|
    ensures |s| == n
  {
    seq(n, j requires 0 <= j < n => if j % 4 == 3 then 255 else ChannelOf(fb[j]))
  }

  /** Byte j of the dump, read back from the converted frame. */
  lemma RetiledByteOfConverted(fb: seq<Byte>, w: nat, h: nat, j: nat)
    requires ValidDump(fb, w, h) && j < w * h * 4
    ensures RetiledByte(Converted(fb, w, h), w, h, j) == if j % 4 == 3 then 255 else ChannelOf(fb[j])
  {
    var t := j / 4;
    EveryDumpPixelShown(fb, w, h, t);
    var (x, y) := PixelOfTiled(w, t);
    UnpackColor(ChannelOf(fb[4 * t + 1]), ChannelOf(fb[4 * t + 2]), ChannelOf(fb[4 * t]), 255);
    assert j == 4 * t + j % 4;
  }

  /** Conversion loses nothing but alpha: reading the dump back out of the
      converted frame gives every blue, red and green byte where it was,
      and 255 for every alpha byte. */
  lemma ConvertedIsLossless(fb: seq<Byte>, w: nat, h: nat)
    requires ValidDump(fb, w, h)
    ensures Retiled(Converted(fb, w, h), w, h) == OpaqueDump(fb, w * h * 4)
  {
    forall j | 0 <= j < w * h * 4
      ensures Retiled(Converted(fb, w, h), w, h)[j] == OpaqueDump(fb, w * h * 4)[j]
    {
      RetiledByteOfConverted(fb, w, h, j);
    }
  }

  /** ConvertFramebufferCPU (main.cpp:247-264). The first postcondition
      mentions no earlier contents of outputBuffer: the frame written is a
      function of the dump alone, so converting the same dump again, as
      every call of render() does, writes the same frame. */
  method ConvertFramebufferCPU(outputBuffer: array<Packed>, xeFramebuffer: array<Byte>,
                               resWidth: nat, resHeight: nat)
    requires ValidDump(xeFramebuffer[..], resWidth, resHeight)
    requires outputBuffer.Length >= resWidth * resHeight
    modifies outputBuffer
    ensures outputBuffer[..resWidth * resHeight] == Converted(xeFramebuffer[..], resWidth, resHeight)
    ensures outputBuffer[resWidth * resHeight..] == old(outputBuffer[resWidth * resHeight..])
  {
    ghost var fb := xeFramebuffer[..];
    ghost var init := outputBuffer[..];
    ghost var frame := Converted(fb, resWidth, resHeight);
    var y := 0;
    while y < resHeight
      invariant 0 <= y <= resHeight
      invariant WrittenUpTo(outputBuffer[..], init, frame, y * resWidth)
    {
      var x := 0;
      while x < resWidth
        invariant 0 <= x <= resWidth
        invariant WrittenUpTo(outputBuffer[..], init, frame, y * resWidth + x)
      {
        var stdPixPos := StdAddr(resWidth, x, y);
        var xePixPos := XeAddr(resWidth, x, y);
        ghost var k := y * resWidth + x;
        OutputPixelAt(fb, resWidth, resHeight, x, y);
        assert stdPixPos / 4 == k by {
          OutputIndex(resWidth, resHeight, x, y);
        }
        var b := xeFramebuffer[xePixPos];
        var r := xeFramebuffer[xePixPos + 1];
        var g := xeFramebuffer[xePixPos + 2];
        var a := xeFramebuffer[xePixPos + 3];
        ghost var before := outputBuffer[..];
        outputBuffer[stdPixPos / 4] := Color(ChannelOf(r), ChannelOf(g), ChannelOf(b), 255);
        assert outputBuffer[..] == before[k := frame[k]];
        WrittenUpToStep(before, outputBuffer[..], init, frame, k);
        x := x + 1;
      }
      assert y * resWidth + resWidth == (y + 1) * resWidth;
      y := y + 1;
    }
    assert y * resWidth == |frame|;
    WrittenUpToAll(outputBuffer[..], init, frame);
  }
}
