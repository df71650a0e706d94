# Tiled framebuffer viewer: detiling core in Dafny

The viewer loads a framebuffer dump captured from a console GPU
(`fbmem.bin`). The dump stores the frame in 32x32-pixel macro tiles, with
the pixels inside each tile bit-interleaved, four bytes per pixel in the
order blue, red, green, alpha. Every frame the viewer does three things.
It detiles the dump on the CPU into a row-major buffer of packed 32-bit
pixels (`ConvertFramebufferCPU`). It uploads that buffer to the GPU. A
compute shader then copies it into a texture, which a fragment shader
unpacks and draws.

This project models that path and proves what it does:

- `arithmetic.dfy` (module `Arithmetic`): division and remainder facts that
  the address arithmetic uses.
- `bits.dfy` (module `Bits`): `&` and `^` on non-negative integers, defined
  bit by bit, with the mask and single-bit-flip facts the swizzle needs.
- `tiling.dfy` (module `Tiling`): `TILE`, the frame resolution,
  `xeFbConvert` with its masks and XOR, and the two address macros. It
  proves that detiling is a permutation of the padded pixel space that
  stays inside the `w*h*4`-byte dump.
- `pixel_format.dfy` (module `PixelFormat`): the `COLOR` packing, the
  fragment shader's unpacking, and the initial fill of the pixel buffer.
- `frame_converter.dfy` (module `FrameConverter`): `ConvertFramebufferCPU`
  as a method with nested loops over an output array and a dump array. It
  is proved against `Converted`, a function of the dump, and the lemmas
  about `Converted` give per-pixel channel placement, coverage of the whole
  dump, indifference to alpha bytes, losslessness apart from alpha, and the
  zero-dump case.
- `compute_kernel.dfy` (module `ComputeKernel`): the compute shader's
  per-texel rule, the 16x16 dispatch grid, the buffer uploads, and the
  whole frame from dump to screen.

Facts about `main.cpp` the model reflects:

- `main.cpp` has one resolution and no resampling step.
- The compute shader copies the detiled pixels; it does no detiling of its
  own.
- A missing dump leaves the zero-filled buffer allocated at main.cpp:266.
  Every frame that buffer is converted to opaque black `COLOR(0, 0, 0, 255)`,
  the same value the pixel buffer starts with. The source comment at
  main.cpp:146 calls that value white; it is black with full alpha.
- Packing and unpacking agree on one channel order: blue in the top byte,
  then green, then red, then alpha in the low byte.

## Model

| member | source | states |
|---|---|---|
| `Tiling.Tile` | main.cpp:11 | TILE(n) is a multiple of 32 with n <= TILE(n) < n + 32 |
| `Tiling.TileIsLeast` | main.cpp:11 | TILE(n) is the least multiple of 32 that is at least n |
| `Tiling.TileIdempotent` | main.cpp:11 | TILE(TILE(n)) == TILE(n) |
| `Tiling.ResolutionValues` | main.cpp:17-18 | the padded resolution is 1280 x 736 (TILE(1280) = 1280, TILE(720) = 736) |
| `Tiling.AlignDown` | main.cpp:236 | `n & ~31` rounds n down to a multiple of 32, at most 31 below n |
| `Tiling.AlignDownClearsLowBits` | main.cpp:236 | `n & ~31` is n minus its low five bits `n & 31` |
| `Tiling.Swizzle` | main.cpp:237-238 | definition: operator-for-operator transcription of the within-tile expression, `&` as `BitAnd`, `^` as `BitXor`, `<<k` as `*2^k`; its meaning is `Tiling.SwizzleFields` |
| `Tiling.SwizzleFields` | main.cpp:237-238 | the swizzle expression puts x bits 0-1 at bits 0-1, y bit 0 at bit 2, x bits 2-4 at bits 3-5 and y bits 1-4 at bits 6-9, and flips bit 5 when y bit 3 is set |
| `Tiling.WithinTileLowBits` | main.cpp:237-238 | the within-tile index depends only on x % 32 and y % 32 |
| `Tiling.WithinTileRoundTrip` | main.cpp:237-238 | the within-tile index is below 1024, and TileColumn/TileRow recover x % 32 and y % 32 from it |
| `Tiling.WithinTileOnto` | main.cpp:237-238 | every index below 1024 is the within-tile index of the in-tile position TileColumn/TileRow give |
| `Tiling.XeFbConvert` | main.cpp:232-241 | definition: y = addr / (w*4), x = addr % (w*4) / 4, offset = (AlignDown(y)*w + AlignDown(x)*32 + Swizzle(x, y)) * 4, with `& ~31` as `AlignDown`; its properties are the lemmas below |
| `Tiling.StdAddr` | main.cpp:243 | definition: XE_PIXEL_TO_STD_ADDR(x, y) = (y*w + x)*4, the row-major byte offset |
| `Tiling.XeAddr` | main.cpp:244-245 | definition: XE_PIXEL_TO_XE_ADDR(x, y) = xeFbConvert(w, XE_PIXEL_TO_STD_ADDR(x, y)), the tiled byte offset |
| `Tiling.XeFbConvertAligned` | main.cpp:232-241 | every xeFbConvert result is a multiple of 4 (a byte offset of a whole pixel) |
| `Tiling.XeFbConvertPixelOnly` | main.cpp:233-234 | xeFbConvert depends only on addr / 4: the four byte addresses of one pixel map to the same offset |
| `Tiling.TiledIndexFormula` | main.cpp:232-245 | XE_PIXEL_TO_XE_ADDR(x, y) is 4 * (tile number * 1024 + within-tile index), tiles numbered row by row, w / 32 per row |
| `Tiling.TiledIndexInFrame` | main.cpp:232-241 | for w, h multiples of 32 and x < w, y < h: the tiled offset is 4 * tiled index, the index is in [0, w*h), and offset + 3 < w*h*4 |
| `Tiling.PixelOfTiledIndex` | main.cpp:235-239 | PixelOfTiled inverts the detiling map on every in-frame pixel |
| `Tiling.TiledIndexOfPixel` | main.cpp:235-239 | every tiled index in [0, w*h) is the image of the in-frame pixel PixelOfTiled names |
| `Tiling.DetilingIsBijection` | main.cpp:235-239 | (x, y) -> xeFbConvert(w, (y*w+x)*4) / 4 is a bijection from [0,w) x [0,h) onto [0, w*h), with PixelOfTiled its inverse |
| `Tiling.DetilingInjective` | main.cpp:243-245 | distinct in-frame pixels have distinct XE_PIXEL_TO_XE_ADDR offsets |
| `Tiling.XeFbConvertExamples` | main.cpp:232-240 | at every width of two tiles or more, xeFbConvert(w, 0) = 0 and xeFbConvert(w, 128) = 4096: pixel (32, 0) starts the second tile |
| `Tiling.XeFbConvertFrameExamples` | main.cpp:17 | at the frame's width 1280, xeFbConvert(1280, 0) = 0 and xeFbConvert(1280, 128) = 4096 |
| `Tiling.UnpaddedHeightOverruns` | main.cpp:232-245 | at 32 x 1, a height that is not a multiple of 32, XE_PIXEL_TO_XE_ADDR(31, 0) is byte 236, past the end of the 128-byte dump |
| `PixelFormat.Color` | main.cpp:139-144 | definition: COLOR(r, g, b, a) = b<<24 \| g<<16 \| r<<8 \| a on 32-bit words; its inverse is `PixelFormat.UnpackColor` |
| `PixelFormat.Unpack` | main.cpp:55-59 | definition: the fragment shader's `(pixel >> k) & 0xFF` for blue k = 24, green 16, red 8, alpha 0; its inverse is `PixelFormat.ColorUnpack` |
| `PixelFormat.ChannelOf` | main.cpp:257-259 | a dump byte becomes a channel by zero extension, keeping its value |
| `PixelFormat.UnpackColor` | main.cpp:139-144 | the fragment shader's unpacking of COLOR(r, g, b, a) gives back r, g, b and a |
| `PixelFormat.ColorUnpack` | main.cpp:55-59 | packing the four bytes the shader unpacks gives back the same 32-bit word |
| `PixelFormat.ColorInjective` | main.cpp:139-144 | COLOR is one-to-one on channel tuples |
| `PixelFormat.InitialPixelIsOpaqueBlack` | main.cpp:146 | COLOR(0, 0, 0, 255) is 0x000000FF and unpacks to black with alpha 255 |
| `PixelFormat.InitialPixels` | main.cpp:145-146 | the initial pixel vector has pitch entries, each unpacking to opaque black |
| `FrameConverter.DetiledPixel` | main.cpp:255-261 | definition: the value the loop body stores for pixel (x, y), COLOR(byte p+1, byte p+2, byte p, 255) with p = XE_PIXEL_TO_XE_ADDR(x, y); defined only where p + 3 is inside the dump |
| `FrameConverter.Converted` | main.cpp:251-263 | the converted frame has exactly w*h pixels; it is the specification `ConvertFramebufferCPU` is proved against, and `FrameConverter.OutputPixelAt` gives its entry y*w + x |
| `FrameConverter.OutputIndex` | main.cpp:255 | XE_PIXEL_TO_STD_ADDR(x, y) / 4 is y*w + x, inside [0, w*h), and it gives back x and y |
| `FrameConverter.AddressesFitInt` | main.cpp:249-256 | with w*h*4 <= 2^31 the row-major and tiled offsets of all four bytes of a pixel fit a 32-bit int |
| `FrameConverter.OutputPixelAt` | main.cpp:255-261 | the converted pixel at y*w + x is COLOR(byte p+1, byte p+2, byte p, 255), p = XE_PIXEL_TO_XE_ADDR(x, y), with p + 3 inside the dump |
| `FrameConverter.ConvertFramebufferCPU` | main.cpp:247-264 | the first w*h entries of outputBuffer become the converted frame of the dump, whatever they held before; entries past w*h are unchanged |
| `FrameConverter.ConvertedChannels` | main.cpp:257-261 | pixel (x, y) unpacks to red = byte p+1, green = byte p+2, blue = byte p, alpha = 255 |
| `FrameConverter.EveryDumpPixelShown` | main.cpp:251-263 | the four bytes of every tiled pixel t < w*h are shown at the output pixel PixelOfTiled(w, t) |
| `FrameConverter.DetiledPixelIgnoresAlpha` | main.cpp:257-261 | one output pixel is the same for two dumps that differ only in alpha bytes |
| `FrameConverter.AlphaByteIgnored` | main.cpp:260-261 | byte +3 is read but unused: dumps that differ only in alpha bytes convert to the same frame |
| `FrameConverter.ZeroDumpIsInitialFill` | main.cpp:266 | an all-zero dump converts to the initial opaque-black pixel vector |
| `FrameConverter.RetiledByteOfConverted` | main.cpp:255-261 | byte j of the dump can be read back from the converted frame, or is 255 if j is an alpha byte |
| `FrameConverter.ConvertedIsLossless` | main.cpp:251-263 | reading the dump back out of the converted frame gives every blue, red and green byte in place and 255 for every alpha byte |
| `ComputeKernel.TexelIndex` | main.cpp:78-79 | definition: the shader's buffer index y * resWidth + x for texel (x, y) |
| `ComputeKernel.Texture` | main.cpp:81-82 | the texture imageStore fills holds exactly w*h texels, texel i taken from the buffer at TexelIndex(i % w, i / w); `ComputeKernel.TextureAt` states the per-texel value |
| `ComputeKernel.Groups` | main.cpp:183 | definition: the dispatch launches n / 16 work groups along an axis of n texels |
| `ComputeKernel.GlobalId` | main.cpp:66 | definition: gl_GlobalInvocationID of local invocation l of work group g is g * 16 + l |
| `ComputeKernel.TextureIsCopy` | main.cpp:75-83 | the compute pass copies the buffer's first w*h pixels into the texture unchanged and in order: no detiling, no resampling |
| `ComputeKernel.TextureAt` | main.cpp:78-82 | texel (x, y) receives pixel_data[y * resWidth + x] |
| `ComputeKernel.DispatchInFrame` | main.cpp:183 | no invocation of the resWidth/16 x resHeight/16 dispatch of 16x16 groups lies outside the texture |
| `ComputeKernel.DispatchCovers` | main.cpp:183 | along an axis whose size is a multiple of 16, every coordinate is reached by some invocation |
| `ComputeKernel.DispatchUnique` | main.cpp:66 | no two invocations reach the same coordinate |
| `ComputeKernel.DispatchNeedsPadding` | main.cpp:183 | along an axis not a multiple of 16, the last coordinate n - 1 belongs to group n / 16, one past the last group dispatched, and no invocation of the n / 16 dispatched groups reaches it |
| `ComputeKernel.FrameDispatch` | main.cpp:183 | the frame is dispatched as 80 x 46 work groups, both sides multiples of 16 |
| `ComputeKernel.Uploaded` | main.cpp:151 | a GL buffer filled from size bytes holds the first min(size / 4, \|data\|) pixels of the data, unchanged |
| `ComputeKernel.UploadAsWritten` | main.cpp:151 | definition: the buffer as the viewer fills it, `Uploaded(pixels, pixels.size())`, the size counted in elements where bytes are meant (also main.cpp:228) |
| `ComputeKernel.Upload` | main.cpp:228 | definition: the buffer as evidently intended, `Uploaded(pixels, pixels.size() * 4)` bytes (also main.cpp:151) |
| `ComputeKernel.UploadIsFullCopy` | main.cpp:228 | the intended upload of pixels.size() * 4 bytes copies every pixel |
| `ComputeKernel.UploadAsWrittenKeepsQuarter` | main.cpp:151 | as written, a w x h frame reaches the GPU as its first h/4 rows only |
| `ComputeKernel.UploadAsWrittenMissesRows` | main.cpp:228 | as written, every texel in rows h/4 and below indexes past the end of the buffer |
| `ComputeKernel.FrameUploadAsWritten` | main.cpp:145-151 | at 1280 x 736 the buffer holds 235520 pixels, 184 rows, and texel (0, 184) is the first past its end |
| `ComputeKernel.FrameShowsDump` | main.cpp:267-272 | with the intended upload, texel (x, y) unpacks to red = byte p+1, green = byte p+2, blue = byte p of the dump, alpha 255 |

## Left out

- Window, GL context and loader setup, shader compilation and linking, texture, vertex array and quad setup, the event loop and teardown (main.cpp:20-36, 86-137, 155-223, 283-320): foreign library calls with no logic of their own.
- Reading `fbmem.bin` (main.cpp:291-300): the dump is an input byte sequence; a short or missing file leaves zero bytes, which the model takes like any other bytes (`FrameConverter.ZeroDumpIsInitialFill` covers the all-zero case).
- Parallel execution of the compute shader and the `glMemoryBarrier` ordering: the texture is modelled as a function of the buffer, one value per texel.
- The fragment shader's `/ 255.0` scaling, the vertex shader and the quad coordinates: floating point. The model assumes fragment (x, y) fetches texel (x, y).
- `ComputeKernel.Texture` is defined only when the buffer holds at least w*h pixels; GL leaves reads past the end of a storage buffer undefined, so for the as-written upload the model exhibits which texels index past the end and says nothing about their values.
- `ComputeKernel.Uploaded` ignores a trailing partial pixel when the byte size is not a multiple of 4; every size here is a multiple of 4.
- `COLOR` shifts `uint8_t` values promoted to `int`, so `b << 24` with b >= 128 overflows a signed int. The model packs in 32-bit unsigned words, which gives the bit pattern the `uint32_t` buffer stores.
- `xeFbConvert` narrows a `uint64_t` to `int`. The model keeps the value unbounded. `Tiling.ValidResolution` bounds w*h*4 by 2^31, and `FrameConverter.AddressesFitInt` shows that every offset the converter computes then fits, so the narrowing is the identity there.
- C++ `/` and `%` truncate toward zero and Dafny's are Euclidean. They agree on the non-negative operands the viewer uses, and the model takes widths and addresses as `nat`.
- `FrameConverter.ConvertFramebufferCPU` requires w and h to be multiples of 32, w*h*4 <= 2^31, a dump of at least w*h*4 bytes and an output of at least w*h pixels. These hold for the only arguments the viewer passes, the padded globals and their buffers (main.cpp:17-18, 145-146, 266, 270). The requires are stronger than the source needs for some small inputs (at 1 x 1 with a 4-byte dump the source reads bytes 0-3, all in bounds). They are there because a side that is not a multiple of 32 can send a tiled offset past w*h*4 (`Tiling.UnpaddedHeightOverruns`: at 32 x 1, pixel (31, 0) reads byte 236 of a 128-byte dump), and w*h*4 > 2^31 overflows `int`.
- The shader's index passes through a `double` (main.cpp:78-79); for indices below 2^31 that conversion is exact, and the model uses the integer.

## Findings

| source | as written | input that shows it | evidently intended | confidence | as-written member | corrected member |
|---|---|---|---|---|---|---|
| main.cpp:151 | `glBufferData` and `glBufferSubData` (main.cpp:228) are given `pixels.size()`, a count of `uint32_t` elements, as the size in bytes | the 1280 x 736 frame: the buffer gets 942080 bytes, 235520 pixels or 184 rows, so texel (0, 184) and every texel below it index past its end | size `pixels.size() * sizeof(uint32_t)`, so the whole converted frame reaches the texture | high; not executed | `ComputeKernel.UploadAsWrittenMissesRows` | `ComputeKernel.FrameShowsDump` |
