/** The per-strip frame store of wasm/wasm/led.cpp: each strip keeps the buffer it was last
    rendered into and the id of the animation that rendered it, so Sparkle's decay carries
    on from frame to frame and a change of animation starts again from black. */
module Led {
  import opened Colors
  import opened Outcome
  import opened Animations

  /** `StripHistory`: the strip's buffer `mLeds` and `mLastAnimation`. */
  datatype StripHistory = StripHistory(leds: seq<Rgb>, lastAnimation: int)

  /** The value-initialised `StripHistory` that `mStripHistories[strip_id]` inserts for a
      strip id it has not seen. */
  const NewHistory := StripHistory([], 0)

  function Blacks(n: nat): (r: seq<Rgb>)
    ensures |r| == n && forall j :: 0 <= j < n ==> r[j] == Black
  {
    seq(n, _ => Black)
  }

  /** The history `mStripHistories[strip_id]` refers to. */
  function Lookup(histories: map<int, StripHistory>, stripId: int): (h: StripHistory)
    ensures stripId in histories ==> h == histories[stripId]
    ensures stripId !in histories ==> h.leds == [] && h.lastAnimation == 0
  {
    if stripId in histories then histories[stripId] else NewHistory
  }

  /** `static_cast<uint32_t>(time_ms)`: the time modulo 2^32. */
  function Uint32(x: int): (u: nat)
    ensures u < 0x1_0000_0000 && (x - u) % 0x1_0000_0000 == 0
  {
    x % 0x1_0000_0000
  }

  /** The `set_led` lambda: `leds.at(index) = {r, g, b}`. */
  function SetLed(leds: seq<Rgb>, index: int, c: Rgb): (r: Result<seq<Rgb>>)
    ensures r.Ok? <==> 0 <= index < |leds|
    ensures r.Thrown? ==> r.error == OutOfRange
    ensures r.Ok? ==> |r.value| == |leds| && r.value[index] == c
    ensures r.Ok? ==> forall j :: 0 <= j < |leds| && j != index ==> r.value[j] == leds[j]
  {
    if 0 <= index < |leds| then Ok(leds[index := c]) else Thrown(OutOfRange)
  }

  /** The `get_led` lambda: reads `leds.at(index)`. */
  function GetLed(leds: seq<Rgb>, index: int): (r: Result<Rgb>)
    ensures r.Ok? <==> 0 <= index < |leds|
    ensures r.Thrown? ==> r.error == OutOfRange
    ensures r.Ok? ==> r.value == leds[index]
  {
    if 0 <= index < |leds| then Ok(leds[index]) else Thrown(OutOfRange)
  }

  /** `get_led` reads back what `set_led` wrote, and every other index as before. */
  lemma GetAfterSet(leds: seq<Rgb>, i: int, j: int, c: Rgb)
    requires SetLed(leds, i, c).Ok?
    ensures GetLed(SetLed(leds, i, c).value, j) == if j == i then Ok(c) else GetLed(leds, j)
  {
  }

  /** What `Render` does to the strip's history before it looks the animation up: clear the
      buffer when the animation changed, record the animation, grow the buffer with black to
      `ledCount` (never shrink it). */
  function Prepare(h: StripHistory, animationId: int, ledCount: nat): (p: StripHistory)
    ensures p.lastAnimation == animationId
    ensures |p.leds| >= ledCount
    ensures |p.leds| < |h.leds| ==> h.lastAnimation != animationId
    ensures h.lastAnimation != animationId ==> p.leds == Blacks(ledCount)
    ensures h.lastAnimation == animationId ==>
              && |p.leds| == (if |h.leds| < ledCount then ledCount else |h.leds|)
              && (forall j :: 0 <= j < |h.leds| ==> p.leds[j] == h.leds[j])
              && (forall j :: |h.leds| <= j < |p.leds| ==> p.leds[j] == Black)
  {
    var kept := if h.lastAnimation != animationId then [] else h.leds;
    var grown := if |kept| < ledCount then kept + Blacks(ledCount - |kept|) else kept;
    StripHistory(grown, animationId)
  }

  /** Switching animations leaves nothing of the old frames: the first StripId frame after a
      switch is exactly the marker, `ledCount` entries long. */
  lemma StripIdAfterSwitch(h: StripHistory, stripId: int, ledCount: nat, out: seq<Rgb>)
    requires h.lastAnimation != 1
    requires IsStripIdFrame(Prepare(h, 1, ledCount).leds, Settings(ledCount, stripId), out)
    ensures |out| == ledCount
    ensures forall j :: 0 <= j < ledCount ==> out[j] == MarkerColor(Settings(ledCount, stripId), j)
  {
  }

  /** Under an unchanged animation the buffer never shrinks, and entries at or beyond
      `ledCount` left by an earlier, longer frame come back unchanged from the render. */
  lemma StaleEntriesReturned(h: StripHistory, kind: Kind, env: Env, animationId: int, stripId: int,
                             ledCount: nat, ms: nat, pos: nat, out: seq<Rgb>, pos': nat, j: int)
    requires h.lastAnimation == animationId
    requires Rendered(kind, env, Settings(ledCount, stripId), ms, Prepare(h, animationId, ledCount).leds, pos, out, pos')
    requires ledCount <= j < |h.leds|
    ensures |out| == |h.leds| && out[j] == h.leds[j]
  {
    RenderedKeepsTail(kind, env, Settings(ledCount, stripId), ms, Prepare(h, animationId, ledCount).leds, pos, out, pos', j);
  }

  /** `mStripHistories` with the animation objects it renders with; `draws` counts the
      calls of the process-wide `rand()` so far. */
  class FrameStore {
    var histories: map<int, StripHistory>
    var draws: nat
    const catalogue: Catalogue

    ghost predicate Valid() {
      catalogue.Valid()
    }

    constructor ()
      ensures Valid() && histories == map[] && draws == 0
      ensures forall k :: 0 <= k < |catalogue.all| ==> fresh(catalogue.all[k])
    {
      histories := map[];
      draws := 0;
      catalogue := new Catalogue();
    }

    /** `Render(animation_id, strip_id, time_ms, led_count)`. */
    method Render(env: Env, animationId: int, stripId: int, timeMs: int, ledCount: int) returns (r: Result<seq<Rgb>>)
      requires Valid()
      requires ledCount >= 0
      modifies this, catalogue.all
      ensures Valid()
      ensures stripId in histories && histories == old(histories)[stripId := histories[stripId]]
      ensures r.Ok? <==> 0 <= animationId < catalogue.AnimationCount()
      ensures r.Thrown? ==>
                && r.error == OutOfRange
                && histories[stripId] == Prepare(Lookup(old(histories), stripId), animationId, ledCount)
                && draws == old(draws)
      ensures r.Ok? ==>
                var p := Prepare(Lookup(old(histories), stripId), animationId, ledCount);
                var animation := catalogue.all[animationId];
                && histories[stripId] == StripHistory(r.value, animationId)
                && animation.settings == Settings(ledCount, stripId)
                && Rendered(animation.kind, env, animation.settings, Uint32(timeMs), p.leds, old(draws), r.value, draws)
      ensures forall k :: 0 <= k < |catalogue.all| && k != animationId ==>
                catalogue.all[k].settings == old(catalogue.all[k].settings)
    {
      ghost var prepared := Prepare(Lookup(histories, stripId), animationId, ledCount);
      var history := Lookup(histories, stripId);
      var leds := history.leds;
      if history.lastAnimation != animationId {
        leds := [];
      }
      if |leds| < ledCount {
        leds := leds + Blacks(ledCount - |leds|);
      }
      assert leds == prepared.leds;
      histories := histories[stripId := StripHistory(leds, animationId)];
      var animation := catalogue.GetAnimation(animationId);
      if animation.Thrown? {
        return Thrown(animation.error);
      }
      animation.value.Reset(Settings(ledCount, stripId));
      var out, pos := animation.value.Render(env, leds, Uint32(timeMs), draws);
      draws := pos;
      histories := histories[stripId := StripHistory(out, animationId)];
      r := Ok(out);
    }
  }

  /** A host driving the store: the frames the store promises for White and StripId. */
  method Frames(env: Env) {
    var store := new FrameStore();
    var r := store.Render(env, 0, 0, 0, 3);
    assert r.Ok? && r.value == [White, White, White];
    r := store.Render(env, 1, 0, 0, 10);
    assert r.Ok? && r.value[4] == White && r.value[5] == Black && |r.value| == 10;
    r := store.Render(env, 1, 1, 0, 20);
    assert r.Ok? && r.value[14] == White && r.value[15] == Black;
    r := store.Render(env, store.catalogue.AnimationCount(), 0, 0, 3);
    assert r == Thrown(OutOfRange);
    assert store.histories[0].lastAnimation == 4;
  }
}
