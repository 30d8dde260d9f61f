/**
 * The 5x5 LED matrix of Interrupcao.c: the pixel type, the digit font, the
 * glyph a digit renders to, and the byte stream a frame is sent as.
 */
module Matrix {
  import opened Types

  const LED_COUNT: nat := 25

  /** `pixel_t`: one LED, with its channels in the order the struct declares them. */
  datatype Pixel = Pixel(g: uint8, r: uint8, b: uint8)

  const OFF: Pixel := Pixel(0, 0, 0)
  /** The colour of a lit glyph pixel: `np_set_led(i, 0, 50, 0)`, green at 50. */
  const LIT: Pixel := Pixel(50, 0, 0)

  /** The `numbers` font: ten 5x5 bitmaps, row-major, 1 = lit. */
  const NUMBERS: seq<seq<uint8>> := [
    // 0
    [1,1,1,1,1,
     1,0,0,0,1,
     1,0,0,0,1,
     1,0,0,0,1,
     1,1,1,1,1],
    // 1
    [0,1,1,1,0,
     0,0,1,0,0,
     0,0,1,0,0,
     0,1,1,0,0,
     0,0,1,0,0],
    // 2
    [1,1,1,1,1,
     1,0,0,0,0,
     1,1,1,1,1,
     0,0,0,0,1,
     1,1,1,1,1],
    // 3
    [1,1,1,1,1,
     0,0,0,0,1,
     1,1,1,1,1,
     0,0,0,0,1,
     1,1,1,1,1],
    // 4
    [1,0,0,0,0,
     0,0,0,0,1,
     1,1,1,1,1,
     1,0,0,0,1,
     1,0,0,0,1],
    // 5
    [1,1,1,1,1,
     0,0,0,0,1,
     1,1,1,1,1,
     1,0,0,0,0,
     1,1,1,1,1],
    // 6
    [1,1,1,1,1,
     1,0,0,0,1,
     1,1,1,1,1,
     0,0,0,0,1,
     1,1,1,1,1],
    // 7
    [0,0,0,1,0,
     0,0,1,0,0,
     0,1,0,0,0,
     0,0,0,0,1,
     1,1,1,1,1],
    // 8
    [1,1,1,1,1,
     1,0,0,0,1,
     1,1,1,1,1,
     1,0,0,0,1,
     1,1,1,1,1],
    // 9
    [1,1,1,1,1,
     0,0,0,0,1,
     1,1,1,1,1,
     1,0,0,0,1,
     1,1,1,1,1]
  ]

  /** The bitmap of digit `d`: one entry per LED, each 0 or 1. */
  function Glyph(d: int): (g: seq<uint8>)
    requires 0 <= d < 10
    ensures |g| == LED_COUNT
    ensures forall i :: 0 <= i < |g| ==> g[i] <= 1
  {
    NUMBERS[d]
  }

  /** A matrix with every LED off. */
  function Blank(): (leds: seq<Pixel>)
    ensures |leds| == LED_COUNT
    ensures forall i :: 0 <= i < LED_COUNT ==> leds[i] == OFF
  {
    seq(LED_COUNT, _ => OFF)
  }

  /** The frame that shows digit `d`: lit where its glyph has a 1, off elsewhere. */
  function Render(d: int): (leds: seq<Pixel>)
    requires 0 <= d < 10
    ensures |leds| == LED_COUNT
    ensures forall i :: 0 <= i < LED_COUNT ==> leds[i] == LIT || leds[i] == OFF
  {
    seq(LED_COUNT, i requires 0 <= i < LED_COUNT => if Glyph(d)[i] != 0 then LIT else OFF)
  }

  /** Rendering sets exactly the glyph's pixels to the lit colour and clears all others. */
  lemma RenderAt(d: int, i: int)
    requires 0 <= d < 10 && 0 <= i < LED_COUNT
    ensures Render(d)[i] == LIT <==> NUMBERS[d][i] == 1
    ensures Render(d)[i] == OFF <==> NUMBERS[d][i] == 0
  {
    assert Glyph(d)[i] <= 1;
  }

  /** The ten glyphs of the font are pairwise different. */
  lemma GlyphsDistinct(d1: int, d2: int)
    requires 0 <= d1 < 10 && 0 <= d2 < 10 && d1 != d2
    ensures NUMBERS[d1] != NUMBERS[d2]
  {
  }

  /** No two digits render the same frame, so the frame on the matrix determines the counter. */
  lemma RenderInjective(d1: int, d2: int)
    requires 0 <= d1 < 10 && 0 <= d2 < 10
    requires Render(d1) == Render(d2)
    ensures d1 == d2
  {
    forall i | 0 <= i < LED_COUNT ensures NUMBERS[d1][i] == NUMBERS[d2][i] {
      RenderAt(d1, i);
      RenderAt(d2, i);
    }
    assert NUMBERS[d1] == NUMBERS[d2];
    if d1 != d2 {
      GlyphsDistinct(d1, d2);
    }
  }

  /** The bytes of one pixel as `np_write` pushes them: green, red, blue. */
  function PixelBytes(p: Pixel): (bytes: seq<uint8>)
  {
    [p.g, p.r, p.b]
  }

  /** The byte stream of a frame: its pixels' bytes, first pixel first. */
  function Serialise(leds: seq<Pixel>): (bytes: seq<uint8>)
    ensures |bytes| == 3 * |leds|
    decreases |leds|
  {
    if leds == [] then [] else Serialise(leds[..|leds| - 1]) + PixelBytes(leds[|leds| - 1])
  }

  /** Pixel `i` of a frame occupies bytes `3i`, `3i+1`, `3i+2` of its stream, in G, R, B order. */
  lemma {:induction false} SerialiseLayout(leds: seq<Pixel>)
    ensures |Serialise(leds)| == 3 * |leds|
    ensures forall i :: 0 <= i < |leds| ==>
      Serialise(leds)[3 * i] == leds[i].g &&
      Serialise(leds)[3 * i + 1] == leds[i].r &&
      Serialise(leds)[3 * i + 2] == leds[i].b
    decreases |leds|
  {
    if leds != [] {
      var init := leds[..|leds| - 1];
      SerialiseLayout(init);
      forall i | 0 <= i < |init|
        ensures Serialise(leds)[3 * i] == leds[i].g
        ensures Serialise(leds)[3 * i + 1] == leds[i].r
        ensures Serialise(leds)[3 * i + 2] == leds[i].b
      {
        assert leds[i] == init[i];
      }
    }
  }

  /** Reads a byte stream back into pixels, three bytes per pixel. */
  function Deserialise(bytes: seq<uint8>): (leds: seq<Pixel>)
    requires |bytes| % 3 == 0
    decreases |bytes|
  {
    if bytes == [] then []
    else [Pixel(bytes[0], bytes[1], bytes[2])] + Deserialise(bytes[3..])
  }

  /** The stream carries every channel of every pixel: reading it back gives the frame. */
  lemma SerialiseRoundTrip(leds: seq<Pixel>)
    ensures |Serialise(leds)| % 3 == 0
    ensures Deserialise(Serialise(leds)) == leds
  {
    SerialiseLayout(leds);
    DeserialiseLayout(Serialise(leds));
  }

  lemma {:induction false} DeserialiseLayout(bytes: seq<uint8>)
    requires |bytes| % 3 == 0
    ensures |Deserialise(bytes)| == |bytes| / 3
    ensures forall i :: 0 <= i < |bytes| / 3 ==>
      Deserialise(bytes)[i] == Pixel(bytes[3 * i], bytes[3 * i + 1], bytes[3 * i + 2])
    decreases |bytes|
  {
    if bytes != [] {
      DeserialiseLayout(bytes[3..]);
      forall i | 1 <= i < |bytes| / 3
        ensures Deserialise(bytes)[i] == Pixel(bytes[3 * i], bytes[3 * i + 1], bytes[3 * i + 2])
      {
        assert Deserialise(bytes)[i] == Deserialise(bytes[3..])[i - 1];
        assert bytes[3..][3 * (i - 1)] == bytes[3 * i];
      }
    }
  }
}
