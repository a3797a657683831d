# LED strip frame renderer: a verified model

This project models the frame-rendering core of the led-tree project in Dafny:

- **the animation catalogue** (`wasm/wasm/animations.cpp`): four animations, White, StripId,
  CircleRainbow and Sparkle, in that fixed order. Each is an object whose `Reset` stores the
  settings (LED count, strip index) that its next `Render` uses. The render loops write the
  strip buffer through `set_led` and read it through `get_led`. Sparkle keeps state from one
  frame to the next only through the buffer: each pixel either sparkles (and may glow onto its
  neighbours) or decays by 3 in HSV value.
- **the per-strip frame store** (`wasm/wasm/led.cpp`): a process-wide map from strip id to the
  strip's last buffer and last animation id. `Render` clears the buffer when the animation
  changes, grows it with black (never shrinks it), and records the animation id. It then looks
  the animation up, which can throw, resets it and renders in place.
- **the serial frame** (`server/src/index.ts`): `PrepareBuffer` lays colours out as
  `'M' 'G' n r0 g0 b0 ... '!'`, and `isMessage` checks the shape of a parsed WebSocket message.

Modules: `Outcome` (exceptions as results), `Colors` (colour types and the abstract HSV/RGB
conversions), `Animations`, `Led` and `Server`, one file each.

The two colour conversions compute in floating point. They stay abstract: a `ColorSpace` is a
pair of conversion functions, and `Colors.Sound` lists the facts the source code guarantees
about them. These facts are: a grey converts to the zero HSV triple; value 0 converts to black;
saturation 0 converts to a grey; the red channel depends on the value alone; and every
conversion blends in sector 0, so red >= green >= blue. The last fact holds because `HsvToRgb`
divides the 16-bit hue by 65535 and then by 60 instead of scaling it to degrees, so the sector
index is always 0. As a consequence no HSV/RGB round trip holds. It also means Sparkle and
CircleRainbow never produce a colour outside sector 0, and CircleRainbow lights the whole strip
at one red level.

Randomness is injected. `Env.rand(k)` is the value returned by the k-th call of `rand()`, and
the store's `draws` field counts those calls. The floating-point parts of a sparkle (the hue,
the brightness raised to the sixth power, the saturation, the quarter-brightness glow and the
`> 0.65` test) are the oracle `Env.paint`. CircleRainbow's float phase is the oracle
`Env.rainbowHue`.

## Model

| member | source | states |
|---|---|---|
| `Colors.SectorIndex` | wasm/wasm/animations.cpp:29-43 | the sector index of `HsvToRgb` is 0 for every 16-bit hue |
| `Colors.SectorsUnreachable` | wasm/wasm/animations.cpp:29-43 | each of sectors 1 to 5 is reached by a hue scaled to degrees but never by the hue as the code scales it |
| `Colors.NoRoundTrip` | wasm/wasm/animations.cpp:27-133 | under the sound-conversion facts, a colour outside sector 0 never survives RGB to HSV to RGB |
| `Animations.CRem` | wasm/wasm/animations.cpp:19-24 | C's `%`: dividend = truncated quotient * divisor + remainder, and the remainder has the dividend's sign and is smaller than the divisor in magnitude |
| `Animations.Random` | wasm/wasm/animations.cpp:17-20 | `random(max)` lies in `[0, max)` for `max > 0`, given that `rand()` is never negative |
| `Animations.RandomRange` | wasm/wasm/animations.cpp:22-25 | `random(min, max)` lies in `[min, max)` for `min < max` |
| `Animations.RenderWhite` | wasm/wasm/animations.cpp:155-161 | every index below `mCount` becomes (255,255,255); every other index keeps its colour |
| `Animations.RenderStripId` | wasm/wasm/animations.cpp:163-176 | each index below `mCount` becomes white iff it is below `mIndex*10 + 5` and black otherwise; other indices are kept |
| `Animations.RenderCircleRainbow` | wasm/wasm/animations.cpp:179-193 | each index below `mCount` gets `HsvToRgb(hue, 255, 255)` for its hue; other indices are kept |
| `Animations.CircleRainbowIsOneRed` | wasm/wasm/animations.cpp:179-193 | with sound conversions, all CircleRainbow pixels share one red level and have red >= green >= blue |
| `Animations.DecayHsv` | wasm/wasm/animations.cpp:239-244 | decay keeps hue and saturation and sets the value to `max(v - 3, 0)` (a positive value drops strictly, by at most 3, and reaches 0 exactly from values up to 3; value 0 stays 0) |
| `Animations.Decay` | wasm/wasm/animations.cpp:235-246 | a decaying pixel is `HsvToRgb` of its own `RgbToHsv` hue and saturation with the value lowered to `max(v - 3, 0)` |
| `Animations.GreyDecaysToBlack` | wasm/wasm/animations.cpp:105-110 | a grey or white pixel that decays is black after one frame |
| `Animations.PixelEvent` | wasm/wasm/animations.cpp:207-217 | a pixel sparkles iff its first `rand()` draw is 0 modulo `odds` = 100; a sparkle's shade is the float computation applied to the next three draws, in order: hue in `[0, 100)`, brightness in `[20, 100)`, saturation in `[10, 100)` |
| `Animations.SparklePixel` | wasm/wasm/animations.cpp:209-246 | one loop iteration keeps the buffer's length, consumes 4 `rand()` calls when the pixel sparkles and 1 when it decays, and leaves the pixel's own new colour at i |
| `Animations.SparkleUpTo` | wasm/wasm/animations.cpp:207-248 | after k iterations the buffer keeps its length and at least k calls of `rand()` were made |
| `Animations.RenderSparkle` | wasm/wasm/animations.cpp:196-249 | the in-place loop produces the buffer and `rand()` position of the ascending pixel-by-pixel iteration |
| `Animations.SparklePixelWrites` | wasm/wasm/animations.cpp:209-246 | pixel i's step uses 4 `rand()` calls when it sparkles and 1 when it decays, writes its own colour at i, writes the glow at i-1 (if i >= 1) and i+1 (if i < mCount-1) only when it glows, and touches nothing else |
| `Animations.SparkleAhead` | wasm/wasm/animations.cpp:207-231 | after pixels 0..k-1, every index above k, and every index at or beyond `mCount`, still holds its colour from before the frame |
| `Animations.SparkleSettled` | wasm/wasm/animations.cpp:207-231 | index j is final once pixel j+1 has had its step: no later step changes it |
| `Animations.SparkleSeen` | wasm/wasm/animations.cpp:224-238 | the colour pixel k+1 reads is its colour from before the frame unless pixel k glowed onto it |
| `Animations.SparkleFinal` | wasm/wasm/animations.cpp:207-246 | pixel j ends the frame with what its own step wrote unless pixel j+1 glowed onto it, so a glow written to j+1 is always read or overwritten by pixel j+1's own step |
| `Animations.SparkleSectorZero` | wasm/wasm/animations.cpp:216-246 | with sound conversions, every pixel a Sparkle frame has handled has red >= green >= blue |
| `Animations.RenderedKeepsTail` | wasm/wasm/animations.cpp:157-207 | no animation changes the buffer's length or any index at or beyond `mCount` |
| `Animations.Animation.constructor` | wasm/wasm/animations.cpp:7 | a new animation has the given kind and settings `{0, 0}`, as the defaulted constructor of a statically allocated object leaves them |
| `Animations.Animation.Reset` | wasm/wasm/animations.cpp:10-13 | `Reset` stores the given settings |
| `Animations.Animation.Render` | wasm/wasm/animations.cpp:142-149 | `Render` runs the animation's own render loop with exactly the stored settings |
| `Animations.Catalogue.constructor` | wasm/wasm/animations.cpp:251 | the registry holds four distinct fresh animations, in the order White, StripId, CircleRainbow, Sparkle |
| `Animations.Catalogue.AnimationCount` | wasm/wasm/animations.cpp:254-257 | `AnimationCount()` is 4 |
| `Animations.Catalogue.GetAnimation` | wasm/wasm/animations.cpp:258-261 | `GetAnimation(k)` succeeds iff `0 <= k < 4` and returns the k-th animation; otherwise it throws out_of_range |
| `Animations.Catalogue.CatalogueOrder` | wasm/wasm/animations.cpp:251-261 | ids 0 to 3 are White, StripId, CircleRainbow and Sparkle; ids -1 and `AnimationCount()` throw |
| `Led.Lookup` | wasm/wasm/led.cpp:38-49 | `mStripHistories[strip_id]` is the stored history when the strip id is present and otherwise a new history with an empty buffer and last animation 0 |
| `Led.SetLed` | wasm/wasm/led.cpp:61 | `set_led` throws out_of_range iff the index is not below the buffer's size; otherwise it changes only the addressed entry |
| `Led.GetLed` | wasm/wasm/led.cpp:62-67 | `get_led` throws out_of_range iff the index is not below the buffer's size; otherwise it returns that entry |
| `Led.GetAfterSet` | wasm/wasm/led.cpp:61-67 | `get_led` reads back what `set_led` wrote, and every other index as before |
| `Led.Uint32` | wasm/wasm/led.cpp:74 | the time passed to the animation is `time_ms` modulo 2^32 |
| `Led.Prepare` | wasm/wasm/led.cpp:49-59 | the animation id is recorded; the buffer holds at least `led_count` entries; it shrinks only when the id changed; after a change it is exactly `led_count` blacks; without a change it keeps every old entry and pads with black to `led_count` |
| `Led.StripIdAfterSwitch` | wasm/wasm/led.cpp:51-59 | the first StripId frame after a switch is exactly the marker, `led_count` long, with nothing left from the previous animation |
| `Led.StaleEntriesReturned` | wasm/wasm/led.cpp:56-76 | with an unchanged animation, entries at or beyond `led_count` from an earlier longer frame are returned unchanged |
| `Led.FrameStore.constructor` | wasm/wasm/led.cpp:45 | the store starts with no strip histories and no `rand()` calls |
| `Led.FrameStore.Render` | wasm/wasm/led.cpp:47-77 | only the strip's own entry changes (created on first reference); when the chosen animation's render terminates with defined behaviour (see CircleRainbow under Left out), the call succeeds iff the id is in `[0, 4)`; on a throw the history is already cleared, grown and re-labelled; on success the chosen animation was reset to `{led_count, strip_id}` and the returned buffer is that animation's render of the prepared buffer, which is also stored; the other animations' settings are unchanged |
| `Server.IsMessage` | server/src/index.ts:15-19 | true iff the value is an object owning `type` and `colors` with `colors` an array; `null`, and an object owning a `hasOwnProperty` key, throw a TypeError |
| `Server.TypeNotChecked` | server/src/index.ts:15-19 | the value of `type` does not affect the verdict |
| `Server.ToUint8` | server/src/index.ts:26-32 | a number stored into the buffer keeps its value modulo 256 |
| `Server.PrepareBuffer` | server/src/index.ts:21-35 | the frame has `3n + 4` bytes: 'M', 'G', `n` modulo 256, then r, g, b of colour i at `3i+3`, `3i+4`, `3i+5`, and '!' last |
| `Server.LayoutIsEncoding` | server/src/index.ts:21-35 | that layout holds of exactly one byte sequence: header, channels in order, terminator |
| `Server.EmptyFrame` | server/src/index.ts:22-27 | with no colours the frame is `[77, 71, 0, 33]` |
| `Server.DecodeEncode` | server/src/index.ts:21-35 | a frame of fewer than 256 colours reads back as the colours, each channel modulo 256 |
| `Server.CountWraps` | server/src/index.ts:26 | from 256 colours on, the count byte no longer matches the frame's length |

## Code over design

Where the intended design and the code differ, the model follows the code:

- The catalogue has four animations. There is no separate linear rainbow.
- An invalid animation id is detected only after the strip's history was cleared, grown and
  re-labelled, so that mutation stays visible after the throw (`Led.FrameStore.Render`).
- The HSV/RGB conversions are not inverses. The hue scaling keeps every conversion in sector 0.

## Left out

- Floating-point internals of `HsvToRgb` and `RgbToHsv` (wasm/wasm/animations.cpp:27-133): abstract functions constrained only by `Colors.Sound`, because their rounding cannot be stated exactly without a float model.
- CircleRainbow's float phase and wrap loop (wasm/wasm/animations.cpp:181-189): the hue of each pixel is the oracle `Env.rainbowHue`.
- Animations.RenderCircleRainbow: always terminates with a defined hue, which the code does not guarantee for every strip id. From a strip id of about 262,145 on, `start` reaches 2^32 + 512, where floats lie 512 apart, so `start - 255` rounds back to `start` and the wrap loop at wasm/wasm/animations.cpp:186-189 never ends. For a negative strip id, `start` can be -1 or below, and the `uint16_t` cast at line 190 is then undefined behaviour. The model covers only the strip ids for which the float phase is a 16-bit hue.
- Led.FrameStore.Render: its success-iff-valid-id statement holds only for the strip ids for which CircleRainbow terminates with defined behaviour, as just described; for other strip ids with animation id 2 the call does not return.
- Sparkle's float hue, brightness, saturation and glow arithmetic (wasm/wasm/animations.cpp:212-223): the oracle `Env.paint` maps the three random draws to hue, saturation, value, glow value and the `> 0.65` test.
- Decay over several frames: the value step of 3 is stated for one frame (`Animations.DecayHsv`). In the next frame the value is read back through the abstract `RgbToHsv`, so no multi-frame decay sequence is stated.
- `rand()`'s global state and its `RAND_MAX` bound: each call's result is `Env.rand(k)`, any non-negative integer.
- The animation render methods require `mCount` not to exceed the buffer's length. `Render` guarantees this by growing the buffer first, so the out_of_range throw of `set_led`/`get_led` inside a render is never reached. The accessors' throw is modelled in `Led.SetLed` and `Led.GetLed`.
- Negative `led_count`: `Led.FrameStore.Render` requires `led_count >= 0`, because the unsigned comparison at wasm/wasm/led.cpp:56 would then ask for a huge resize.
- 32-bit overflow of `mIndex * 10 + 5` and of `max - min` in `random`: integers are unbounded here.
- Server.PrepareBuffer: takes a sequence of colour records with integer channels. `isMessage` checks only that `colors` is an array, so `{"type": ..., "colors": [null]}` passes it and `colors[i].r` at server/src/index.ts:30 then throws a TypeError; colour elements that are not objects are not modelled.
- JavaScript numbers are modelled as integers. Fractions, NaN and non-numeric channel values stored into a `Buffer` are not covered.
- Object identity of the returned vector: `Render` returns a copy of the strip's buffer, and the model returns the same sequence value.
- The Emscripten bindings and `Sum` (wasm/wasm/led.cpp:20-36): binding glue and a trivial adder.
- `main` in server/src/index.ts: serial-port discovery and writes, the WebSocket server and JSON parsing are I/O.
- src/App.tsx and utils/convert.ts: UI, floating-point geometry and file output, outside the rendering core.
