/** The packed 32-bit pixel the viewer keeps in its pixel buffer and in its
    unsigned-integer texture (main.cpp:139-146), and how the fragment shader
    takes it apart again (main.cpp:55-60).

    COLOR(r, g, b, a) puts blue in the top byte, then green, then red, and
    alpha in the low byte. Its arguments are 8-bit channels; the model packs
    them as a 32-bit word and so keeps the bit pattern the uint32_t buffer
    ends up holding. */
module PixelFormat {

  /** An 8-bit colour channel, held as the unsigned word COLOR shifts and
      the shader masks. */
  type Channel = c: bv32 | c < 256

  /** A byte of the framebuffer dump. */
  type Byte = bv8

  /** A dump byte as a channel: the zero extension of uint8_t. */
  function ChannelOf(b: Byte): (c: Channel)
    ensures c as int == b as int
  {
    b as bv32
  }

  /** A packed pixel as stored in the uint32_t pixel buffer. */
  type Packed = bv32

  /** The four channels of a pixel, as the fragment shader recovers them
      (before it scales each one to [0, 1]). */
  datatype Rgba = Rgba(r: Channel, g: Channel, b: Channel, a: Channel)

  /** COLOR(r, g, b, a) = b << 24 | g << 16 | r << 8 | a << 0
      (main.cpp:139-144). */
  function Color(r: Channel, g: Channel, b: Channel, a: Channel): Packed
  {
    (b << 24) | (g << 16) | (r << 8) | a
  }

  /** `(pixel >> k) & 0xFF`: the byte of p that starts at bit k. */
  function ByteAt(p: Packed, k: bv32): (c: Channel)
    requires k <= 24
  {
    (p >> k) & 0xFF
  }

  /** The fragment shader's unpacking (main.cpp:55-59): blue from bits
      24-31, green from 16-23, red from 8-15, alpha from 0-7. */
  function Unpack(p: Packed): Rgba
  {
    Rgba(ByteAt(p, 8), ByteAt(p, 16), ByteAt(p, 24), ByteAt(p, 0))
  }

  /** Packing then unpacking gives the same four channels back: each
      channel lands in the byte the shader reads it from. */
  lemma UnpackColor(r: Channel, g: Channel, b: Channel, a: Channel)
    ensures Unpack(Color(r, g, b, a)) == Rgba(r, g, b, a)
  {
  }

  /** Unpacking then packing gives the same word back: COLOR reaches every
      32-bit pixel, and the four bytes are all there is to one. */
  lemma ColorUnpack(p: Packed)
    ensures Color(Unpack(p).r, Unpack(p).g, Unpack(p).b, Unpack(p).a) == p
  {
  }

  /** COLOR is one-to-one: distinct channel tuples pack to distinct words. */
  lemma ColorInjective(r1: Channel, g1: Channel, b1: Channel, a1: Channel,
                       r2: Channel, g2: Channel, b2: Channel, a2: Channel)
    requires Color(r1, g1, b1, a1) == Color(r2, g2, b2, a2)
    ensures r1 == r2 && g1 == g2 && b1 == b2 && a1 == a2
  {
    UnpackColor(r1, g1, b1, a1);
    UnpackColor(r2, g2, b2, a2);
  }

  /** The pixel the buffer is filled with before any frame is converted
      (main.cpp:146): COLOR(0, 0, 0, 255). */
  const InitialPixel: Packed := Color(0, 0, 0, 255)

  /** The initial fill is opaque black, the word 0x000000FF: no colour in
      any channel and full alpha (the source's comment calls it white). */
  lemma InitialPixelIsOpaqueBlack()
    ensures InitialPixel == 0x0000_00FF
    ensures Unpack(InitialPixel) == Rgba(0, 0, 0, 255)
  {
    UnpackColor(0, 0, 0, 255);
  }

  /** std::vector<uint32_t> pixels(pitch, COLOR(0, 0, 0, 255))
      (main.cpp:145-146): n copies of the initial pixel. */
  function InitialPixels(n: nat): (s: seq<Packed>)
    ensures |s| == n && forall i :: 0 <= i < n ==> Unpack(s[i]) == Rgba(0, 0, 0, 255)
  {
    InitialPixelIsOpaqueBlack();
    seq(n, _ => InitialPixel)
  }
}
