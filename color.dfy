/** Colours of the LED strips and the HSV <-> RGB conversions of wasm/wasm/animations.cpp.
    The conversions compute in floating point; they are kept abstract here (a `ColorSpace` is
    a pair of conversion functions) and `Sound` collects the facts about them that follow from
    the source's code without reasoning about rounding. */
module Colors {

  /** An 8-bit channel (`uint8_t`). */
  type Byte = x: int | 0 <= x < 256

  /** The 16-bit hue encoding (`uint16_t`). */
  type Hue16 = x: int | 0 <= x < 65536

  /** `RgbColor` of wasm/wasm/led.cpp. */
  datatype Rgb = Rgb(r: Byte, g: Byte, b: Byte)

  /** The `(h16, s8, v8)` tuple of `HsvToRgb` and `RgbToHsv`. */
  datatype Hsv = Hsv(h: Hue16, s: Byte, v: Byte)

  const Black := Rgb(0, 0, 0)
  const White := Rgb(255, 255, 255)

  /** The value-initialised tuple `{}` that `RgbToHsv` returns in its degenerate cases. */
  const ZeroHsv := Hsv(0, 0, 0)

  predicate IsGrey(c: Rgb) {
    c.r == c.g && c.g == c.b
  }

  /** The colours sector 0 of the six-sector blend can produce: `r = v`, `g = t`, `b = p`
      with `p <= t <= v`. */
  predicate InSectorZero(c: Rgb) {
    c.r >= c.g >= c.b
  }

  /** The sector index `i` of `HsvToRgb` in exact arithmetic: the hue is scaled by
      `1/65535` (not to degrees), so `hh = h16 / 65535 / 60` is below `1/60` and the
      `hh >= 360` reset never fires. */
  function SectorIndex(h: Hue16): (i: int)
    ensures i == 0
  {
    h / (65535 * 60)
  }

  /** What `HsvToRgb` would produce if the hue were scaled to degrees: the sector of
      `h16 * 360 / 65535` degrees. Used only to contrast with `SectorIndex`. */
  function DegreeSector(h: Hue16): (i: int)
    ensures 0 <= i < 6
  {
    if h == 65535 then 0 else h * 6 / 65535
  }

  /** Every sector is reached by some hue once the hue is scaled to degrees, while
      `SectorIndex` reaches only sector 0: the conversion never produces a colour outside
      sector 0. */
  lemma SectorsUnreachable(k: int)
    requires 1 <= k < 6
    ensures exists h: Hue16 :: DegreeSector(h) == k && SectorIndex(h) != k
  {
    var h: Hue16 := (k * 65535 + 5) / 6;
    assert k * 65535 <= 6 * h < k * 65535 + 6;
    assert DegreeSector(h) == k;
  }

  /** The two conversions of wasm/wasm/animations.cpp, left abstract. */
  datatype ColorSpace = ColorSpace(toRgb: Hsv -> Rgb, toHsv: Rgb -> Hsv)

  /** The facts the source's code guarantees of the conversions:
      - `RgbToHsv` of a grey (delta 0, below its 1e-5 threshold) is the zero tuple;
      - `HsvToRgb` with value 0 gives black (`p`, `q`, `t` and `v` are all 0);
      - `HsvToRgb` always blends in sector 0, so red >= green >= blue;
      - `HsvToRgb` with saturation 0 gives a grey (`p = t = v`);
      - the red channel of `HsvToRgb` is `v` scaled, whatever the hue and saturation. */
  ghost predicate Sound(cs: ColorSpace) {
    && (forall c: Rgb :: IsGrey(c) ==> cs.toHsv(c) == ZeroHsv)
    && (forall h: Hue16, s: Byte :: cs.toRgb(Hsv(h, s, 0)) == Black)
    && (forall x: Hsv :: InSectorZero(cs.toRgb(x)))
    && (forall h: Hue16, v: Byte :: IsGrey(cs.toRgb(Hsv(h, 0, v))))
    && (forall x: Hsv, y: Hsv :: x.v == y.v ==> cs.toRgb(x).r == cs.toRgb(y).r)
  }

  /** The conversions contain no round trip: under `Sound`, converting a colour outside
      sector 0 to HSV and back can never give it back. */
  lemma NoRoundTrip(cs: ColorSpace, c: Rgb)
    requires Sound(cs)
    requires !InSectorZero(c)
    ensures cs.toRgb(cs.toHsv(c)) != c
  {
  }
}
