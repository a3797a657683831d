/** The animation catalogue of wasm/wasm/animations.cpp: the `random` helpers, the four
    render loops, the `Animation` objects with their settings, and the fixed registry. */
module Animations {
  import opened Colors
  import opened Outcome

  /** `AnimationSettings`: `mCount` LEDs to draw, `mIndex` the strip's index. */
  datatype Settings = Settings(count: int, index: int)

  /** How many times the render loops `for (int i = 0; i < mCount; ++i)` run. */
  function Span(s: Settings): nat {
    if s.count < 0 then 0 else s.count
  }

  function Abs(x: int): int {
    if x < 0 then -x else x
  }

  /** C's `/` on `int`: division truncated toward zero. */
  function CDiv(a: int, b: int): int
    requires b != 0
  {
    var q := Abs(a) / Abs(b);
    if (a < 0) != (b < 0) then -q else q
  }

  /** C's `%` on `int`: what remains after the truncated division, so it takes the sign of
      the dividend. */
  function CRem(a: int, b: int): (r: int)
    requires b != 0
    ensures a == CDiv(a, b) * b + r
    ensures a >= 0 ==> 0 <= r < Abs(b)
    ensures a < 0 ==> -Abs(b) < r <= 0
  {
    if a < 0 then -(Abs(a) % Abs(b)) else Abs(a) % Abs(b)
  }

  /** `random(max)`: `rand() % max`, where `draw` is what `rand()` returned (never negative). */
  function Random(draw: nat, max: int): (r: int)
    requires max != 0
    ensures max > 0 ==> 0 <= r < max
  {
    CRem(draw, max)
  }

  /** `random(min, max)`: `rand() % (max - min) + min`. */
  function RandomRange(draw: nat, min: int, max: int): (r: int)
    requires max != min
    ensures min < max ==> min <= r < max
  {
    CRem(draw, max - min) + min
  }

  /** Sparkle's `odds`: one pixel in `odds` sparkles per frame. */
  const Odds: int := (30 * 600) / 180

  /** What the floating-point part of a sparkle (hue, the sixth power of the brightness,
      saturation, the quarter-brightness glow and the `> 0.65` test) makes of its three
      random draws. */
  datatype Shade = Shade(hue: Hue16, sat: Byte, value: Byte, glowValue: Byte, glows: bool)

  /** Everything a render reads besides the buffer and its settings: the colour conversions,
      the successive results of `rand()` (`rand(k)` is what the k-th call returns), the
      sparkle arithmetic, and the hue CircleRainbow computes for a pixel. */
  datatype Env = Env(
    cs: ColorSpace,
    rand: nat -> nat,
    paint: (int, int, int) -> Shade,
    rainbowHue: (nat, Settings, int) -> Hue16)

  // ---------------------------------------------------------------- White

  /** White: every index below `count` becomes white, every other index is kept. */
  predicate IsWhiteFrame(leds: seq<Rgb>, s: Settings, out: seq<Rgb>) {
    && |out| == |leds|
    && forall j :: 0 <= j < |leds| ==> out[j] == if j < s.count then White else leds[j]
  }

  method RenderWhite(leds: seq<Rgb>, s: Settings) returns (out: seq<Rgb>)
    requires s.count <= |leds|
    ensures IsWhiteFrame(leds, s, out)
  {
    out := leds;
    var i := 0;
    while i < s.count
      invariant 0 <= i <= Span(s)
      invariant |out| == |leds|
      invariant forall j :: 0 <= j < |leds| ==> out[j] == if j < i then White else leds[j]
    {
      out := out[i := White];
      i := i + 1;
    }
  }

  // ---------------------------------------------------------------- StripId

  /** The StripId marker: white below `index * 10 + 5`, black from there on. */
  function MarkerColor(s: Settings, j: int): Rgb {
    if j < s.index * 10 + 5 then White else Black
  }

  predicate IsStripIdFrame(leds: seq<Rgb>, s: Settings, out: seq<Rgb>) {
    && |out| == |leds|
    && forall j :: 0 <= j < |leds| ==> out[j] == if j < s.count then MarkerColor(s, j) else leds[j]
  }

  method RenderStripId(leds: seq<Rgb>, s: Settings) returns (out: seq<Rgb>)
    requires s.count <= |leds|
    ensures IsStripIdFrame(leds, s, out)
  {
    out := leds;
    var i := 0;
    while i < s.count
      invariant 0 <= i <= Span(s)
      invariant |out| == |leds|
      invariant forall j :: 0 <= j < |leds| ==> out[j] == if j < i then MarkerColor(s, j) else leds[j]
    {
      if i < s.index * 10 + 5 {
        out := out[i := White];
      } else {
        out := out[i := Black];
      }
      i := i + 1;
    }
  }

  // ---------------------------------------------------------------- CircleRainbow

  /** CircleRainbow: pixel `j` below `count` gets `HsvToRgb(hue, 255, 255)` for the hue
      the float phase gives it; every other index is kept. */
  predicate IsCircleRainbowFrame(env: Env, s: Settings, ms: nat, leds: seq<Rgb>, out: seq<Rgb>) {
    && |out| == |leds|
    && forall j :: 0 <= j < |leds| ==>
         out[j] == if j < s.count then env.cs.toRgb(Hsv(env.rainbowHue(ms, s, j), 255, 255)) else leds[j]
  }

  method RenderCircleRainbow(env: Env, s: Settings, ms: nat, leds: seq<Rgb>) returns (out: seq<Rgb>)
    requires s.count <= |leds|
    ensures IsCircleRainbowFrame(env, s, ms, leds, out)
  {
    out := leds;
    var i := 0;
    while i < s.count
      invariant 0 <= i <= Span(s)
      invariant |out| == |leds|
      invariant forall j :: 0 <= j < |leds| ==>
                  out[j] == if j < i then env.cs.toRgb(Hsv(env.rainbowHue(ms, s, j), 255, 255)) else leds[j]
    {
      var rgb := env.cs.toRgb(Hsv(env.rainbowHue(ms, s, i), 255, 255));
      out := out[i := rgb];
      i := i + 1;
    }
  }

  /** Because every conversion lands in sector 0 and red depends on the value alone, the
      "rainbow" has one red level along the whole strip and never more green than red. */
  lemma CircleRainbowIsOneRed(env: Env, s: Settings, ms: nat, leds: seq<Rgb>, out: seq<Rgb>, j: int, k: int)
    requires Sound(env.cs)
    requires IsCircleRainbowFrame(env, s, ms, leds, out)
    requires 0 <= j < |leds| && j < s.count && 0 <= k < |leds| && k < s.count
    ensures out[j].r == out[k].r
    ensures InSectorZero(out[j])
  {
  }

  // ---------------------------------------------------------------- Sparkle

  /** The value step of Sparkle's decay: lower `v` by 3, not below 0, when it is positive;
      hue and saturation pass through. */
  function DecayHsv(x: Hsv): (y: Hsv)
    ensures y.h == x.h && y.s == x.s
    ensures x.v > 0 ==> x.v - 3 <= y.v < x.v
    ensures y.v == 0 <==> x.v <= 3
    ensures y.v == if x.v > 3 then x.v - 3 else 0
  {
    if x.v > 0 then x.(v := if x.v - 3 > 0 then x.v - 3 else 0) else x
  }

  /** A decaying pixel: `RgbToHsv`, the value step, `HsvToRgb`. */
  function Decay(cs: ColorSpace, c: Rgb): (d: Rgb)
    ensures var x := cs.toHsv(c);
      d == cs.toRgb(Hsv(x.h, x.s, if x.v > 3 then x.v - 3 else 0))
  {
    cs.toRgb(DecayHsv(cs.toHsv(c)))
  }

  /** A grey or white pixel that decays is black after that one frame. */
  lemma GreyDecaysToBlack(cs: ColorSpace, c: Rgb)
    requires Sound(cs)
    requires IsGrey(c)
    ensures Decay(cs, c) == Black
  {
  }

  /** What happens to one pixel, decided by the `rand()` calls from position `pos` on. */
  datatype Event = Decays | Sparkles(shade: Shade)

  function PixelEvent(env: Env, pos: nat): (e: Event)
    ensures e.Sparkles? <==> env.rand(pos) % 100 == 0
    ensures e.Sparkles? ==>
      e.shade == env.paint(env.rand(pos + 1) % 100,
                           20 + env.rand(pos + 2) % 80,
                           10 + env.rand(pos + 3) % 90)
  {
    if Random(env.rand(pos), Odds) == 0 then
      Sparkles(env.paint(Random(env.rand(pos + 1), 100),
                         RandomRange(env.rand(pos + 2), 20, 100),
                         RandomRange(env.rand(pos + 3), 10, 100)))
    else
      Decays
  }

  /** How many times an event called `rand()`. */
  function Draws(e: Event): nat {
    if e.Sparkles? then 4 else 1
  }

  /** The colour a pixel's own step writes to it, given the colour it read. */
  function OwnColor(cs: ColorSpace, e: Event, before: Rgb): Rgb {
    match e
    case Sparkles(sh) => cs.toRgb(Hsv(sh.hue, sh.sat, sh.value))
    case Decays => Decay(cs, before)
  }

  /** The colour a bright sparkle spreads to its neighbours. */
  function GlowColor(cs: ColorSpace, sh: Shade): Rgb {
    cs.toRgb(Hsv(sh.hue, sh.sat, sh.glowValue))
  }

  predicate Glows(e: Event) {
    e.Sparkles? && e.shade.glows
  }

  /** One iteration of Sparkle's loop, for pixel `i`: the buffer and the number of `rand()`
      calls after it. */
  function SparklePixel(env: Env, s: Settings, leds: seq<Rgb>, pos: nat, i: int): (res: (seq<Rgb>, nat))
    requires 0 <= i < s.count <= |leds|
    ensures |res.0| == |leds|
    ensures res.1 == pos + Draws(PixelEvent(env, pos))
    ensures res.0[i] == OwnColor(env.cs, PixelEvent(env, pos), leds[i])
  {
    var e := PixelEvent(env, pos);
    var lit := leds[i := OwnColor(env.cs, e, leds[i])];
    if Glows(e) then
      var glow := GlowColor(env.cs, e.shade);
      var left := if i >= 1 then lit[i - 1 := glow] else lit;
      var right := if i < s.count - 1 then left[i + 1 := glow] else left;
      (right, pos + Draws(e))
    else
      (lit, pos + Draws(e))
  }

  /** The buffer and the `rand()` position after Sparkle's loop has handled pixels `0..k-1`,
      in ascending order. */
  function SparkleUpTo(env: Env, s: Settings, leds: seq<Rgb>, pos: nat, k: nat): (res: (seq<Rgb>, nat))
    requires k <= Span(s) && s.count <= |leds|
    ensures |res.0| == |leds|
    ensures res.1 >= pos + k
  {
    if k == 0 then (leds, pos)
    else
      var prev := SparkleUpTo(env, s, leds, pos, k - 1);
      SparklePixel(env, s, prev.0, prev.1, k - 1)
  }

  /** The event of pixel `i` in the frame: decided by the `rand()` calls after those of
      pixels `0..i-1`. */
  function EventAt(env: Env, s: Settings, leds: seq<Rgb>, pos: nat, i: nat): Event
    requires i < Span(s) && s.count <= |leds|
  {
    PixelEvent(env, SparkleUpTo(env, s, leds, pos, i).1)
  }

  method RenderSparkle(env: Env, s: Settings, leds: seq<Rgb>, pos: nat) returns (out: seq<Rgb>, pos': nat)
    requires s.count <= |leds|
    ensures (out, pos') == SparkleUpTo(env, s, leds, pos, Span(s))
  {
    out, pos' := leds, pos;
    var i := 0;
    while i < s.count
      invariant 0 <= i <= Span(s)
      invariant out == SparkleUpTo(env, s, leds, pos, i).0
      invariant pos' == SparkleUpTo(env, s, leds, pos, i).1
    {
      ghost var before, posBefore := out, pos';
      if Random(env.rand(pos'), Odds) == 0 {
        var hue := Random(env.rand(pos' + 1), 100);
        var brightness := RandomRange(env.rand(pos' + 2), 20, 100);
        var saturation := RandomRange(env.rand(pos' + 3), 10, 100);
        pos' := pos' + 4;
        var shade := env.paint(hue, brightness, saturation);
        assert PixelEvent(env, posBefore) == Sparkles(shade);
        out := out[i := env.cs.toRgb(Hsv(shade.hue, shade.sat, shade.value))];
        if shade.glows {
          var color := env.cs.toRgb(Hsv(shade.hue, shade.sat, shade.glowValue));
          if i >= 1 {
            out := out[i - 1 := color];
          }
          if i < s.count - 1 {
            out := out[i + 1 := color];
          }
        }
      } else {
        pos' := pos' + 1;
        var hsv := env.cs.toHsv(out[i]);
        if hsv.v > 0 {
          hsv := hsv.(v := if hsv.v - 3 > 0 then hsv.v - 3 else 0);
        }
        assert PixelEvent(env, posBefore) == Decays && hsv == DecayHsv(env.cs.toHsv(before[i]));
        out := out[i := env.cs.toRgb(hsv)];
      }
      assert out == SparklePixel(env, s, before, posBefore, i).0;
      assert pos' == SparklePixel(env, s, before, posBefore, i).1;
      i := i + 1;
    }
  }

  /** Pixel `i`'s step writes only `i - 1`, `i` and `i + 1`: its own colour at `i`, and
      the glow at the neighbours only when it glows. */
  lemma SparklePixelWrites(env: Env, s: Settings, leds: seq<Rgb>, pos: nat, i: int)
    requires 0 <= i < s.count <= |leds|
    ensures var res := SparklePixel(env, s, leds, pos, i);
            var e := PixelEvent(env, pos);
            && res.1 == pos + Draws(e)
            && res.0[i] == OwnColor(env.cs, e, leds[i])
            && (forall j :: 0 <= j < |leds| && j != i - 1 && j != i && j != i + 1 ==> res.0[j] == leds[j])
            && (i >= 1 ==> res.0[i - 1] == if Glows(e) then GlowColor(env.cs, e.shade) else leds[i - 1])
            && (i + 1 < |leds| ==>
                  res.0[i + 1] == if Glows(e) && i < s.count - 1 then GlowColor(env.cs, e.shade) else leds[i + 1])
  {
  }

  /** After pixels `0..k-1`, every index above `k` still holds its colour from before the
      frame; in particular the frame never writes at or beyond `count`. */
  lemma {:induction false} SparkleAhead(env: Env, s: Settings, leds: seq<Rgb>, pos: nat, k: nat, j: int)
    requires k <= Span(s) && s.count <= |leds|
    requires 0 <= j < |leds| && (k < j || s.count <= j)
    ensures SparkleUpTo(env, s, leds, pos, k).0[j] == leds[j]
  {
    if k > 0 {
      var prev := SparkleUpTo(env, s, leds, pos, k - 1);
      SparkleAhead(env, s, leds, pos, k - 1, j);
      SparklePixelWrites(env, s, prev.0, prev.1, k - 1);
    }
  }

  /** After pixels `0..k-1`, no later step changes an index below `k - 1`: index `j` is
      final once pixel `j + 1` has had its step. */
  lemma {:induction false} SparkleSettled(env: Env, s: Settings, leds: seq<Rgb>, pos: nat, k: nat, m: nat, j: int)
    requires k <= m <= Span(s) && s.count <= |leds|
    requires 0 <= j && j + 1 < k
    ensures SparkleUpTo(env, s, leds, pos, m).0[j] == SparkleUpTo(env, s, leds, pos, k).0[j]
    decreases m
  {
    if m > k {
      var prev := SparkleUpTo(env, s, leds, pos, m - 1);
      SparkleSettled(env, s, leds, pos, k, m - 1, j);
      SparklePixelWrites(env, s, prev.0, prev.1, m - 1);
    }
  }

  /** The colour pixel `k + 1` reads in Sparkle's loop is its colour from before the frame,
      unless pixel `k` glowed onto it. */
  lemma SparkleSeen(env: Env, s: Settings, leds: seq<Rgb>, pos: nat, k: nat)
    requires s.count <= |leds| && k + 1 < Span(s)
    ensures var e := EventAt(env, s, leds, pos, k);
            SparkleUpTo(env, s, leds, pos, k + 1).0[k + 1] ==
              if Glows(e) then GlowColor(env.cs, e.shade) else leds[k + 1]
  {
    var prior := SparkleUpTo(env, s, leds, pos, k);
    SparkleAhead(env, s, leds, pos, k, k + 1);
    SparklePixelWrites(env, s, prior.0, prior.1, k);
  }

  /** The ascending order of Sparkle's loop: pixel `j` ends the frame with what its own step
      wrote from the colour it read, unless pixel `j + 1` glowed onto it afterwards. With
      `SparkleSeen`, a glow written to `j + 1` is always read (decay) or overwritten
      (sparkle) by pixel `j + 1`'s own step. */
  lemma SparkleFinal(env: Env, s: Settings, leds: seq<Rgb>, pos: nat, j: nat)
    requires s.count <= |leds| && j < Span(s)
    ensures SparkleUpTo(env, s, leds, pos, Span(s)).0[j] ==
              if j + 1 < Span(s) && Glows(EventAt(env, s, leds, pos, j + 1))
              then GlowColor(env.cs, EventAt(env, s, leds, pos, j + 1).shade)
              else OwnColor(env.cs, EventAt(env, s, leds, pos, j), SparkleUpTo(env, s, leds, pos, j).0[j])
  {
    var before := SparkleUpTo(env, s, leds, pos, j);
    var after := SparkleUpTo(env, s, leds, pos, j + 1);
    SparklePixelWrites(env, s, before.0, before.1, j);
    assert after.0[j] == OwnColor(env.cs, EventAt(env, s, leds, pos, j), before.0[j]);
    if j + 1 < Span(s) {
      var next := SparkleUpTo(env, s, leds, pos, j + 2);
      SparklePixelWrites(env, s, after.0, after.1, j + 1);
      SparkleSettled(env, s, leds, pos, j + 2, Span(s), j);
    }
  }

  /** Every colour Sparkle writes comes out of `HsvToRgb`, so after pixels `0..k-1` every
      index below `k` is a sector-0 colour (red >= green >= blue), whatever it held before. */
  lemma {:induction false} SparkleSectorZero(env: Env, s: Settings, leds: seq<Rgb>, pos: nat, k: nat, j: int)
    requires Sound(env.cs)
    requires k <= Span(s) && s.count <= |leds|
    requires 0 <= j < k
    ensures InSectorZero(SparkleUpTo(env, s, leds, pos, k).0[j])
  {
    var prev := SparkleUpTo(env, s, leds, pos, k - 1);
    SparklePixelWrites(env, s, prev.0, prev.1, k - 1);
    if j < k - 1 {
      SparkleSectorZero(env, s, leds, pos, k - 1, j);
    }
  }

  // ---------------------------------------------------------------- Animation objects

  /** The four render functions of the catalogue. */
  datatype Kind = WhiteAnimation | StripIdAnimation | CircleRainbowAnimation | SparkleAnimation

  /** `AllAnimations`, in its order. */
  const Registry: seq<Kind> := [WhiteAnimation, StripIdAnimation, CircleRainbowAnimation, SparkleAnimation]

  /** What `Render` of an animation of kind `kind` does to the buffer and to the `rand()`
      position. */
  predicate Rendered(kind: Kind, env: Env, s: Settings, ms: nat, leds: seq<Rgb>, pos: nat, out: seq<Rgb>, pos': nat)
    requires s.count <= |leds|
  {
    match kind
    case WhiteAnimation => IsWhiteFrame(leds, s, out) && pos' == pos
    case StripIdAnimation => IsStripIdFrame(leds, s, out) && pos' == pos
    case CircleRainbowAnimation => IsCircleRainbowFrame(env, s, ms, leds, out) && pos' == pos
    case SparkleAnimation => (out, pos') == SparkleUpTo(env, s, leds, pos, Span(s))
  }

  /** No animation writes at or beyond `count`, and none changes the buffer's length. */
  lemma RenderedKeepsTail(kind: Kind, env: Env, s: Settings, ms: nat, leds: seq<Rgb>, pos: nat,
                          out: seq<Rgb>, pos': nat, j: int)
    requires s.count <= |leds|
    requires Rendered(kind, env, s, ms, leds, pos, out, pos')
    requires 0 <= j < |leds| && s.count <= j
    ensures |out| == |leds| && out[j] == leds[j]
  {
    if kind == SparkleAnimation {
      SparkleAhead(env, s, leds, pos, Span(s), j);
    }
  }

  /** A `FnAnimation`: a render function and the `mSettings` its last `Reset` stored. */
  class Animation {
    const kind: Kind
    var settings: Settings

    constructor (kind: Kind)
      ensures this.kind == kind && settings == Settings(0, 0)
    {
      this.kind := kind;
      settings := Settings(0, 0);
    }

    method Reset(s: Settings)
      modifies this
      ensures settings == s
    {
      settings := s;
    }

    /** `Render(set_led, get_led, ms)`: runs the render function with the stored settings. */
    method Render(env: Env, leds: seq<Rgb>, ms: nat, pos: nat) returns (out: seq<Rgb>, pos': nat)
      requires settings.count <= |leds|
      ensures Rendered(kind, env, settings, ms, leds, pos, out, pos')
    {
      match kind
      case WhiteAnimation =>
        out := RenderWhite(leds, settings);
        pos' := pos;
      case StripIdAnimation =>
        out := RenderStripId(leds, settings);
        pos' := pos;
      case CircleRainbowAnimation =>
        out := RenderCircleRainbow(env, settings, ms, leds);
        pos' := pos;
      case SparkleAnimation =>
        out, pos' := RenderSparkle(env, settings, leds, pos);
    }
  }

  /** The registry: `AllAnimations`, `AnimationCount` and `GetAnimation`. */
  class Catalogue {
    const all: seq<Animation>

    ghost predicate Valid() {
      && |all| == |Registry|
      && (forall k :: 0 <= k < |all| ==> all[k].kind == Registry[k])
      && (forall k, l :: 0 <= k < l < |all| ==> all[k] != all[l])
    }

    constructor ()
      ensures Valid()
      ensures forall k :: 0 <= k < |all| ==> fresh(all[k])
    {
      var white := new Animation(WhiteAnimation);
      var stripId := new Animation(StripIdAnimation);
      var circleRainbow := new Animation(CircleRainbowAnimation);
      var sparkle := new Animation(SparkleAnimation);
      all := [white, stripId, circleRainbow, sparkle];
    }

    function AnimationCount(): (n: int)
      requires Valid()
      ensures n == 4
    {
      |all|
    }

    /** `AllAnimations.at(k)`: throws `out_of_range` outside `[0, AnimationCount())`. */
    function GetAnimation(k: int): (r: Result<Animation>)
      requires Valid()
      ensures r.Ok? <==> 0 <= k < AnimationCount()
      ensures r.Thrown? ==> r.error == OutOfRange
      ensures r.Ok? ==> r.value == all[k] && r.value.kind == Registry[k]
    {
      if 0 <= k < |all| then Ok(all[k]) else Thrown(OutOfRange)
    }

    /** The order of the catalogue is White, StripId, CircleRainbow, Sparkle. */
    lemma CatalogueOrder()
      requires Valid()
      ensures GetAnimation(0).Ok? && GetAnimation(0).value.kind == WhiteAnimation
      ensures GetAnimation(1).Ok? && GetAnimation(1).value.kind == StripIdAnimation
      ensures GetAnimation(2).Ok? && GetAnimation(2).value.kind == CircleRainbowAnimation
      ensures GetAnimation(3).Ok? && GetAnimation(3).value.kind == SparkleAnimation
      ensures GetAnimation(AnimationCount()).Thrown? && GetAnimation(-1).Thrown?
    {
    }
  }
}
