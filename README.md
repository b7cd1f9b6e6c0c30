# Lamp-Da core in Dafny

This project models the core of the Lamp-Da lamp firmware:

- **Button debouncer** (`src/system/physical/button.cpp`). An interrupt handler counts the presses of a burst. A periodic `handle_events` reports the burst as a click series or as a repeating click-and-hold series. The clock and the pin level are inputs.
- **Animation steps** (`wipes.cpp`, `animations.cpp`). These are resumable effects called once per tick with `restart` and the strip, and they keep their progress in static variables:
  - dot wipes down, up and rainbow;
  - colour wipes down and up;
  - ping-pong;
  - police lights;
  - fade-out;
  - the blocking `rainbowFade2White` demo.
- **Mode manager** (`src/modes/context_type.h`, `src/modes/manager_type.h`). It holds the four-byte active index (group, mode, custom ramp, custom index) with getters and setters that store any value at or past a bound as 0. It also covers `next_group`, `next_mode`, `loop`, the change flags and the group dispatch.
- **Default button behaviour** (`src/modes/user/indexable_behavior.hpp`):
  - 2 clicks: next mode. 3 clicks: next group. 4 clicks: the favourite counter with its 2000 ms window.
  - 3 clicks + hold: set the custom ramp. 4 clicks + hold: scroll backward or forward through every (group, mode) pair. 5 clicks + hold: pick a favourite.

Every piece of C state that the source updates in place is a Dafny class. This covers the static variables of each effect, the `buttonState` of the debouncer, the manager and its context, and the user state. The class methods carry `modifies` clauses. The strip is an `array` of packed 24-bit colours.

Each method is proved against a pure step function over a value copy of that state: `Frame(State(), strip[..], finished) == Step(old(State()), old(strip[..]), ...)`. The properties are proved about those step functions, usually over a whole sequence of calls at arbitrary times.

The C integer types are explicit in the model:

- `uint8_t`, `uint16_t` and `uint32_t` are the subset types `u8`, `u16` and `u32` (module `Uint`).
- The wrap-around of millisecond differences is `Diff32`.
- The narrowing of a value stored into a `uint8_t` or `uint16_t` is `Wrap8` or `Wrap16`.
- Arduino's unclamped `map` is `ArduinoMap`. It works on `long`, which is 32 bits on the nRF52 (ARM Cortex-M4) target. Signed overflow of `long` is undefined behaviour in C++; the model assumes the Cortex-M4 build wraps each step in two's complement (`Long32`), and the division truncates as in C.

Modules:

| module | file | models |
|---|---|---|
| `Uint` | uint.dfy | fixed-width integers, C and Arduino arithmetic, division lemmas |
| `Strip` | strip.dfy | the Adafruit NeoPixel pixel buffer: `clear`, `setPixelColor`, `getPixelColor`, `fill` |
| `Button` | button.dfy | button.cpp |
| `Wipes` | wipes.dfy | wipes.cpp |
| `Animations` | animations.dfy | animations.cpp |
| `Modes` | modes.dfy | context_type.h, manager_type.h |
| `IndexableBehavior` | indexable_behavior.dfy | indexable_behavior.hpp |

Colour conversion is library code that is not part of this model: `ColorHSV`, `gamma32`, `get_gradient` and the float `rgb2hue`. These functions are function-typed parameters (`Hsv`, `Gamma`, `Gradient`, `hueOf`). The results state exactly which arguments each pixel is computed from.

## Notable behaviour of the code

The model follows the code in each of these cases, some of which a reader of the effect and button names might not expect.

- **`police`:**
  - It has two phases: red on the upper half, then blue on the lower half (after a restart the first flip draws red). It switches on each half-duration. It never returns `true`.
  - So it has no multi-step flash pattern and never signals the end of a cycle.
  - The red half is written with `fill(red, n/2, n)`. Here `n` is a count, so the end `n/2 + n` overflows `uint16_t` when `n/2 + n >= 65536`, and the red phase then lights nothing (`Animations.RedHalfLit`).
- **`RELEASE_BETWEEN_CLICKS` (50 ms):**
  - It is a debounce. A press counts as a new click only when it comes more than 50 ms after the previous press, and a closer press is not counted.
  - It does not decide which presses join a burst.
  - A burst is closed by a poll more than `RELEASE_TIMING_MS` (200 ms) after the last press. Once the press has become a long press, a poll more than `RELEASE_TIMING_MS / 2` (100 ms) after the last refresh closes it (button.cpp:90-91).
- **The start click:** a burst's callback runs before `isSystemStartClick` is cleared (button.cpp:94-104), so the handler of the first burst still sees the start click pending. The model's events do not carry the flag value the handler observed.
- **Forward scroll past the last group:** it uses `set_active_group(0, ...)` rather than `next_group`, so neither change flag is raised, while a forward move to the next group raises both (indexable_behavior.hpp:114-123, `IndexableBehavior.Scroll`).
- **Dot and colour wipes:**
  - They return `true` on the call after the one that lit the last pixel. They keep returning it until a restart.
  - The upward wipes reach this state because their `uint16_t` index wraps from 0 to 65535 (`Wipes.DotWipeUpWrapsToFinished`).
- **`fadeOut`:**
  - It does not snapshot the strip. It repaints the current non-black pixels at the new level.
  - Its level is Arduino's `map`, which is not clamped, stored in a `uint8_t`. Past the end of the duration the level wraps back up, so the effect is monotone only up to the duration (`Animations.FadeLevelDecreases`).
  - A call finishes the fade exactly when `255 * elapsed / duration` is 255 modulo 256 (`Animations.FadeOutFinishesIff`). A call exactly at the duration always finishes it. A late call may not: a 100 ms fade polled 1 ms late jumps to level 254 (`Animations.FadeOutMissesEnd`), while a 1000 ms fade polled 3 ms late still reaches level 0 (`Animations.FadeLevelLateEnd`).
  - For fades longer than 8421504 ms, `255 * elapsed` overflows the 32-bit `long` inside the duration and the level jumps back up (`Animations.FadeLevelJumpsOnOverflow`, `Animations.FadeLevelLongFade`).
- **`dotWipeDownRainbow`** on more than 32768 pixels: `targetIndex * 65535` overflows the `long` of `map`, and the hues of the upper pixels wrap (`Wipes.RainbowHueWraps`).
- **`rainbowFade2White` with a single loop** fades in, and its brightness then stays at its maximum: the "last loop" test never fires inside the first loop (`Animations.RainbowSingleLoopEndsBright`).

## Model

| member | source | states |
|---|---|---|
| Button.OnInterrupt | src/system/physical/button.cpp:31-56 | a press more than 50 ms after the previous one, outside a long press, counts one more click (uint8_t wrap) and restarts the hold timer; any press refreshes `lastPressTime` and raises `wasTriggered`/`isPressed`; a release only clears the detected-press flag |
| Button.OnInit | src/system/physical/button.cpp:58-76 | a wake-up by the button simulates a press and forces the click count to 1 with the init time as last press; otherwise nothing changes |
| Button.OnPoll | src/system/physical/button.cpp:78-128 | at most one callback per poll; a burst idle for more than 200 ms (100 ms once long-pressed) is reported once, as `ClickHold(count, 0)` or `Click(count)`, and then reset with the start click cleared; a long press still being held reports `ClickHold(count, time held)`; a detected press refreshes `lastPressTime`. The callback runs before the start click is cleared, so the first burst's handler still sees it pending; the events do not record that flag |
| Button.StartClickNeverReturns | src/system/physical/button.cpp:100-108 | once the start click has been cleared, no sequence of interrupts and polls makes it pending again |
| Button.ThreeClicksReportedOnce | src/system/physical/button.cpp:31-128 | three presses 150 ms apart followed by inactivity produce exactly one `Click(3)` and no hold callback |
| Button.RunAppend | src/system/physical/button.cpp:31-128 | running two input sequences one after the other gives the events of both, in order |
| Button.QuietTicks | src/system/physical/button.cpp:78-128 | polls of a released button within 200 ms of the last press and before a long press change nothing and report nothing |
| Button.OneClick | src/system/physical/button.cpp:31-128 | a press more than 50 ms after the previous one, released and polled quietly, counts one more click and reports nothing |
| Button.BurstCounts | src/system/physical/button.cpp:31-128 | a burst of N spaced, quietly polled presses counts N clicks (modulo 256) and reports nothing yet |
| Button.BurstReportedOnce | src/system/physical/button.cpp:31-128 | from an idle button, any N presses more than 50 ms apart, then a poll more than 200 ms after the last one, report exactly one `Click(N mod 256)`, no hold, and leave the button idle |
| Button.HeldPoll | src/system/physical/button.cpp:81-127 | one poll of a button held past the hold threshold, at most 100 ms after the last refresh, reports `ClickHold(count, now - firstHoldTime)` (uint32_t difference, across the clock wrap) and keeps the burst open |
| Button.HoldEvents | src/system/physical/button.cpp:115-127 | reference sequence: one `ClickHold(count, now - first)` per poll time, in order, the difference taken on uint32_t |
| Button.HoldRepeats | src/system/physical/button.cpp:115-127 | a held button polled at least every 100 ms (uint32_t differences, across the clock wrap) reports exactly `HoldEvents`: a `ClickHold` with the time held so far on every poll |
| Button.HoldStaysOpen | src/system/physical/button.cpp:78-127 | under the same polling the button stays held, with the click count and hold start unchanged |
| Button.HoldDurationsNonDecreasing | src/system/physical/button.cpp:84-127 | the durations of the repeating hold callbacks never decrease while the hold lasts less than 2^32 ms |
| Button.Diff32Chain | src/system/physical/button.cpp:82-83 | uint32_t time differences add up along a chain of times while the sum does not wrap |
| Button.HoldEndsWithZeroDuration | src/system/physical/button.cpp:87-112 | after the release of a long press, the first late poll reports the terminal `ClickHold(count, 0)` and a later poll reports nothing |
| Button.ButtonDebouncer.constructor | src/system/physical/button.cpp:19-30 | the boot state: no clicks, not pressed, start click pending |
| Button.ButtonDebouncer.Interrupt | src/system/physical/button.cpp:31-56 | the new state is `OnInterrupt` of the old one |
| Button.ButtonDebouncer.Init | src/system/physical/button.cpp:58-76 | the new state is `OnInit` of the old one |
| Button.ButtonDebouncer.HandleEvents | src/system/physical/button.cpp:78-128 | the new state and the callbacks made, in order, are `OnPoll` of the old state |
| Button.ButtonDebouncer.IsSystemStartClick | src/system/physical/button.cpp:130 | returns the start-click flag |
| Wipes.Lit | wipes.cpp:34-35 | after `clear` and `setPixelColor(i, c)` exactly pixel `i` holds the colour, every other pixel is black |
| Wipes.DownNext | wipes.cpp:24-37 | the index moves one on and the timer to `now` exactly when pixels remain and the segment delay elapsed; the index never passes `numPixels` |
| Wipes.DotDownStep | wipes.cpp:9-40 | restart resets and returns false; finished iff the index reached `numPixels`; an advancing call shows only the target pixel; any other call changes nothing |
| Wipes.RainbowHue | wipes.cpp:103 | `map(i, 0, n, 0, 65535)` on a 32-bit `long`: while `i * 65535` fits, the hue is `i * 65535 / n`, in `[0, 65535)` for `i < n` |
| Wipes.RainbowMapNoOverflow | wipes.cpp:103 | the computation of `map` when the product fits a `long` |
| Wipes.RainbowHueWraps | wipes.cpp:103 | on 40000 pixels, pixel 35000 gets hue 15505 instead of 57343, because the product wraps |
| Wipes.UpNext | wipes.cpp:57-70 | the index moves one down (uint16_t wrap) and the timer to `now` exactly when the call advances |
| Wipes.UpStart | wipes.cpp:44-51 | the start index is `n - 1`, or 65535 (already finished) on an empty strip |
| Wipes.DotWipeUpStep | wipes.cpp:42-73 | as `DotDownStep`, lighting from the top pixel downward |
| Wipes.DotWipeUpWrapsToFinished | wipes.cpp:57-68 | lighting pixel 0 wraps the index to 65535, and the next call reports finished |
| Wipes.DownSweepInOrder | wipes.cpp:24-37 | over any call times, a downward dot wipe lights `start, start+1, ...` each once, in order, never past `numPixels` |
| Wipes.UpSweepInOrder | wipes.cpp:57-70 | over any call times, an upward dot wipe lights `start, start-1, ..., 0` each once, in order |
| Wipes.ColorWipeDownStep | wipes.cpp:112-150 | an advancing call paints the target pixel and remembers the next pixel's colour; any other call before the end paints `get_gradient(remembered colour, colour, elapsed / delay)` at the target pixel; no other pixel changes |
| Wipes.ColorWipeDownFillsPrefix | wipes.cpp:128-146 | over any call times, every pixel below the index holds the wipe colour |
| Wipes.ColorWipeUpStep | wipes.cpp:153-191 | as `ColorWipeDownStep`, from the top pixel downward |
| Wipes.ColorWipeUpFillsSuffix | wipes.cpp:169-187 | over any call times, every pixel above the index holds the wipe colour, so the whole strip does once the index has wrapped |
| Wipes.DotWipeDown.constructor | wipes.cpp:11-12 | the statics start at index 0, timer 0 |
| Wipes.DotWipeDown.Step | wipes.cpp:9-40 | statics, strip and result are `DotDownStep` of the old statics and strip |
| Wipes.DotWipeUp.constructor | wipes.cpp:44-46 | the statics start at `UpStart(n)`, timer 0 |
| Wipes.DotWipeUp.Step | wipes.cpp:42-73 | statics, strip and result are `DotWipeUpStep` of the old ones |
| Wipes.DotWipeDownRainbow.constructor | wipes.cpp:77-78 | the statics start at index 0, timer 0 |
| Wipes.DotWipeDownRainbow.Step | wipes.cpp:75-110 | `DotDownStep` lighting pixel `i` in `gamma32(ColorHSV(uint16_t(RainbowHue(i, n))))`, the hue wrapped as the 32-bit `map` computes it |
| Wipes.ColorWipeDown.constructor | wipes.cpp:113-115 | the statics start at index 0, timer 0, colour 0 |
| Wipes.ColorWipeDown.Step | wipes.cpp:112-150 | statics, strip and result are `ColorWipeDownStep` of the old ones |
| Wipes.ColorWipeUp.constructor | wipes.cpp:154-157 | the statics start at `UpStart(n)`, timer 0, colour 0 |
| Wipes.ColorWipeUp.Step | wipes.cpp:153-191 | statics, strip and result are `ColorWipeUpStep` of the old ones |
| Animations.PingPongStep | animations.cpp:9-33 | restart resets both wipes and the phase; in the ping phase the down wipe runs at half the duration and its `finished` switches to the pong phase; in the pong phase the up wipe runs and its result is returned; a call that is not a restart shows exactly the pixel `PingPongLit` names, alone, or leaves the strip as it was |
| Animations.PingPongLit | animations.cpp:22-29 | one call lights at most one pixel, inside the strip: the target of the wipe of the current phase when that wipe advances |
| Animations.PingPongStepFollowsPath | animations.cpp:22-29 | one call lights the next pixel of the path `down sweep ++ up sweep`, or none, and the rest of the path continues from the new state |
| Animations.PingPongSweepFollowsPath | animations.cpp:9-33 | over any call times, the pixels lit so far are a prefix of the path `start..n-1` then `n-1..0` |
| Animations.PingPongFromRestart | animations.cpp:14-20 | from a restart the path is `0, 1, ..., n-1, n-1, ..., 0` |
| Animations.BlueHalfLit | animations.cpp:57-65 | the blue phase lights pixels `0..n/2` blue and clears the rest |
| Animations.RedHalfLit | animations.cpp:66-72 | the red phase lights pixels `n/2..n-1` red, or none when the `uint16_t` fill end overflows |
| Animations.PoliceStep | animations.cpp:36-78 | never finished; restart resets; once `uint16_t(duration/2)` ms elapsed the phase flips and the strip shows the phase's half; otherwise nothing changes |
| Animations.PoliceAlternates | animations.cpp:51-74 | over any call times, the phase flips once per elapsed half-duration, and after a flip the strip shows exactly the half of the phase it left |
| Animations.FadeLevel | animations.cpp:120-121 | while `255 * elapsed` fits a `long`, the level is `255 - 255 * elapsed / duration` modulo 256; within the duration, exactly `255 - 255 * elapsed / duration` |
| Animations.FadeMapWithin | animations.cpp:121 | while `255 * elapsed` fits a `long`, `map` is `255 - 255 * elapsed / duration`; within the duration it stays in `[0, 255]` so the `uint8_t` store keeps it |
| Animations.FadeMapNoOverflow | animations.cpp:121 | the computation of `map(elapsed, 0, duration, 255, 0)` when no step overflows |
| Animations.FadeLevelDecreases | animations.cpp:120-121 | within the duration the level never increases with time, and it is 0 exactly at the end (fades up to 8421504 ms) |
| Animations.FadeLevelZeroIff | animations.cpp:120-121 | the level is 0 exactly when `255 * elapsed / duration` is 255 modulo 256 |
| Animations.FadeLevelWrapsPastDuration | animations.cpp:121 | 101 ms into a 100 ms fade the unclamped level wraps to 254 |
| Animations.FadeLevelLateEnd | animations.cpp:121 | 1003 ms into a 1000 ms fade the level is still 0 |
| Animations.FadeLevelLongFade | animations.cpp:121 | 9000000 ms into a 10000000 ms fade the level is 198, not the 26 of the unbounded formula |
| Animations.FadeLevelJumpsOnOverflow | animations.cpp:121 | in a 10000000 ms fade the level jumps from 41 to 213 where `255 * elapsed` overflows |
| Animations.Faded | animations.cpp:126-142 | black pixels stay black; every other pixel becomes `ColorHSV(hue(pixel), 255, level)` |
| Animations.FadeOutStep | animations.cpp:106-149 | restart records the start time and level 255; level 0 means finished and changes nothing; otherwise a new level repaints the strip, and the result is whether the level is 0 |
| Animations.FadeOutFinishesAtDuration | animations.cpp:117-148 | a call exactly at the end of the duration (uint32_t difference, across the clock wrap) reaches level 0, paints every lit pixel at level 0 and returns true, and every later call returns true |
| Animations.FadeOutFinishesIff | animations.cpp:117-148 | a call of a running fade finishes it exactly when `255 * elapsed / duration` is 255 modulo 256 |
| Animations.FadeOutMissesEnd | animations.cpp:117-148 | a 100 ms fade called 1 ms late, after level 3, jumps to level 254 and does not finish |
| Animations.FadeStep | animations.cpp:179-185 | the fade value stays in `[0, 100]` |
| Animations.FadeValAt | animations.cpp:153 | the fade value after `k` frames stays in `[0, 100]` |
| Animations.RainbowFadesIn | animations.cpp:179-180 | during the first loop the fade value after `k` frames is `min(k, 100)` |
| Animations.RainbowFullBetween | animations.cpp:183-184 | in the intermediate loops the fade value is 100 |
| Animations.RainbowFadesOut | animations.cpp:181-182 | during the last loop the fade value decreases by one per frame down to 0 |
| Animations.RainbowSingleLoopEndsBright | animations.cpp:179-185 | with a single loop the fade value is still 100 at the end |
| Animations.RainbowEndsDark | animations.cpp:181-182 | with two loops or more the last frame has fade value 0 |
| Animations.Brightness | animations.cpp:173 | fade 0 gives brightness 0, fade 100 gives 255 |
| Animations.PixelHueOffset | animations.cpp:166 | the hue offset of a pixel is in `[0, 65536)` |
| Animations.RainbowFrame | animations.cpp:161-174 | every pixel is `gamma32(ColorHSV(firstHue + offset, 255, brightness))` |
| Animations.LastLoopStart | animations.cpp:181 | `(rainbowLoops - 1) * 65536` as a `uint32_t`, wrapping for fewer than one loop |
| Animations.RainbowLimit | animations.cpp:159 | `rainbowLoops * 65536` as a `uint32_t`, that is `65536 * uint16_t(rainbowLoops)` |
| Animations.PaintRainbow | animations.cpp:161-174 | the strip becomes `RainbowFrame` |
| Animations.RainbowFramesExtend | animations.cpp:159-186 | the frame shown after frame `k` is `RainbowFrameAt(k)` |
| Animations.RainbowFade2White | animations.cpp:152-187 | shows `256 * uint16_t(rainbowLoops)` frames, the `k`-th being `RainbowFrameAt(k)`, and leaves the last one on the strip |
| Animations.Repaint | animations.cpp:127-142 | the strip becomes `Faded` of the old strip |
| Animations.DotPingPong.constructor | animations.cpp:11 | starts in the ping phase with the two given wipes |
| Animations.DotPingPong.Step | animations.cpp:9-33 | phase, both wipes' statics, strip and result are `PingPongStep` of the old ones |
| Animations.Police.constructor | animations.cpp:38-39 | timer 0, red phase first |
| Animations.Police.Step | animations.cpp:36-78 | statics, strip and result are `PoliceStep` of the old ones |
| Animations.FadeOut.constructor | animations.cpp:108-109 | start time 0, level 255 |
| Animations.FadeOut.Step | animations.cpp:106-149 | statics, strip and result are `FadeOutStep` of the old ones |
| Modes.Put | src/modes/context_type.h:92 | the chosen field takes the value and the other three keep theirs |
| Modes.Wrapped | src/modes/context_type.h:84-139 | a value at or past `maxValueWrap` becomes 0, any other is kept; below a positive bound the result is below it |
| Modes.Read | src/modes/context_type.h:84-87 | a getter returns the field when below the bound, 0 otherwise |
| Modes.Write | src/modes/context_type.h:90-94 | a setter stores the wrapped value in its field only |
| Modes.ReadAfterWrite | src/modes/context_type.h:84-139 | reading a field back with the same bound gives what the setter returned |
| Modes.DefaultWrapDrops255 | src/modes/context_type.h:90-94 | with the default bound 255 a setter stores 255 as 0 and any other value as is |
| Modes.WrappedSucc | src/modes/manager_type.h:100-101 | storing `uint8_t(v + 1)` with bound `m > v` gives `(v + 1) % m` |
| Modes.NextGroupState | src/modes/manager_type.h:98-107 | the group becomes `(group + 1) % nbGroups`, the mode 0, ramp and custom index are kept, both flags are raised |
| Modes.NextGroupSucc | src/modes/manager_type.h:99-101 | from group `x mod nbGroups`, `next_group` lands on `(x + 1) mod nbGroups` |
| Modes.NextGroupCycles | src/modes/manager_type.h:98-107 | `k` calls of `next_group` move `k` groups on, modulo `nbGroups` |
| Modes.NextGroupFullCircle | src/modes/manager_type.h:98-107 | `nbGroups` calls of `next_group` come back to the starting group |
| Modes.NextModeState | src/modes/manager_type.h:109-115 | the active group's mode becomes `(mode + 1) % count`, the group, ramp and custom index are kept, the mode flag is raised and the group flag lowered; a group with no modes gets mode index 0 |
| Modes.LoopState | src/modes/manager_type.h:126-131 | both flags are lowered and the index is untouched |
| Modes.Selected | src/modes/manager_type.h:76-89 | the indices of a range that a test selects: exactly the selected ones, each in range, strictly increasing |
| Modes.Dispatched | src/modes/manager_type.h:64-73 | the callback goes to exactly one group, the one `get_active_group(nbGroups)` names, or to none when there are no groups |
| Modes.SelectedOne | src/modes/manager_type.h:68-72 | selecting one index of a range gives that index alone, or nothing if it is outside |
| Modes.ForeachGroup | src/modes/manager_type.h:76-89 | `foreach_group<true>` visits exactly the groups with system callbacks, `foreach_group<false>` every group, each once, in index order |
| Modes.AllSelected | src/modes/manager_type.h:85-88 | when every index is selected the result is the whole range in order |
| Modes.ModeManager.constructor | src/modes/manager_type.h:51-52 | the active index starts at (0, 0, 0, 0) |
| Modes.ModeManager.GetContext | src/modes/manager_type.h:59-61 | a new context bound to the manager, with copies of its flags |
| Modes.ModeManager.NextGroup | src/modes/manager_type.h:98-107 | the new index and flags are `NextGroupState` of the old ones |
| Modes.ModeManager.NextMode | src/modes/manager_type.h:109-115 | the new index and flags are `NextModeState` of the old ones |
| Modes.ModeManager.Loop | src/modes/manager_type.h:126-131 | the new index and flags are `LoopState` of the old ones |
| Modes.ModeManager.CustomClick | src/modes/manager_type.h:172-179 | true iff there is a group and the active group's `custom_click` returns true |
| Modes.ModeManager.CustomHold | src/modes/manager_type.h:181-193 | true iff there is a group and the active group's `custom_hold` returns true |
| Modes.Context.constructor | src/modes/context_type.h:44-48 | the context is bound to the manager and copies its two flags |
| Modes.Context.GetActiveGroup | src/modes/context_type.h:84-87 | the group index, or 0 at or past the bound |
| Modes.Context.SetActiveGroup | src/modes/context_type.h:90-94 | stores the wrapped group index and returns it; nothing else changes |
| Modes.Context.GetActiveMode | src/modes/context_type.h:97-100 | the mode index, or 0 at or past the bound |
| Modes.Context.SetActiveMode | src/modes/context_type.h:103-107 | stores the wrapped mode index and returns it; nothing else changes |
| Modes.Context.GetActiveCustomRamp | src/modes/context_type.h:113-116 | the ramp index, or 0 at or past the bound |
| Modes.Context.SetActiveCustomRamp | src/modes/context_type.h:122-126 | stores the wrapped ramp index and returns it; nothing else changes |
| Modes.Context.GetActiveCustomIndex | src/modes/context_type.h:129-132 | the custom index, or 0 at or past the bound |
| Modes.Context.SetActiveCustomIndex | src/modes/context_type.h:135-139 | stores the wrapped custom index and returns it; nothing else changes |
| IndexableBehavior.FavoriteSlot | src/modes/user/indexable_behavior.hpp:35 | the favourite jumped to is `lastFavoriteStep % 4`, in `[0, 4)` |
| IndexableBehavior.FavoriteJump | src/modes/user/indexable_behavior.hpp:24-33 | after more than 2000 ms the step restarts at 0, otherwise it moves one on modulo 256; the press time is recorded |
| IndexableBehavior.FavoritesCycle | src/modes/user/indexable_behavior.hpp:24-35 | quick presses count the step on modulo 256 and the favourite modulo 4, across the uint8_t wrap |
| IndexableBehavior.FavoritesFromPause | src/modes/user/indexable_behavior.hpp:24-35 | after a pause the presses select favourites 0, 1, 2, 3, 0, ... |
| IndexableBehavior.ClickedNav | src/modes/user/indexable_behavior.hpp:13-21 | 2 clicks are `next_mode`, 3 clicks `next_group`, any other count leaves the index and flags alone |
| IndexableBehavior.ClickedFavorites | src/modes/user/indexable_behavior.hpp:23-36 | only 4 clicks touch the favourite counter |
| IndexableBehavior.ModeCount | src/modes/user/indexable_behavior.hpp:64 | the mode count of the active group |
| IndexableBehavior.Scroll | src/modes/user/indexable_behavior.hpp:61-130 | a scroll never touches the ramp or custom index, and a backward scroll leaves the flags alone; a forward scroll past the last mode goes to mode 0, raising both flags when it moves to the next group, and going back to group 0 from the last group without raising either |
| IndexableBehavior.Forward | src/modes/user/indexable_behavior.hpp:104-128 | the reference forward order stays on valid (group, mode) pairs |
| IndexableBehavior.Backward | src/modes/user/indexable_behavior.hpp:69-97 | the reference backward order stays on valid (group, mode) pairs |
| IndexableBehavior.BackwardUndoesForward | src/modes/user/indexable_behavior.hpp:69-128 | one step back after one step forward is the identity |
| IndexableBehavior.ForwardUndoesBackward | src/modes/user/indexable_behavior.hpp:69-128 | one step forward after one step back is the identity |
| IndexableBehavior.ScrollBackward | src/modes/user/indexable_behavior.hpp:69-97 | backward: the previous mode, or at mode 0 the last mode of the previous group, wrapping from group 0 to the last group |
| IndexableBehavior.ScrollForward | src/modes/user/indexable_behavior.hpp:104-128 | forward: the next mode, or after the last mode the first mode of the next group, wrapping from the last group to group 0 |
| IndexableBehavior.ScrollKeepsValid | src/modes/user/indexable_behavior.hpp:61-130 | a scroll leaves `group < groupCount` and `mode <` that group's mode count |
| IndexableBehavior.ScrollForwardThenBackward | src/modes/user/indexable_behavior.hpp:69-128 | a forward scroll followed by a backward scroll returns to the starting (group, mode) |
| IndexableBehavior.ScrollBackwardThenForward | src/modes/user/indexable_behavior.hpp:69-128 | a backward scroll followed by a forward scroll returns to the starting (group, mode) |
| IndexableBehavior.HeldNav | src/modes/user/indexable_behavior.hpp:51-131 | a 3-click hold stores the ramp value, a 4-click hold scrolls, anything else (or no ramp callback) changes nothing |
| IndexableBehavior.HeldRampStored | src/modes/user/indexable_behavior.hpp:53-57 | the 3-click hold stores the ramp value (255 as 0) and leaves group and mode alone |
| IndexableBehavior.ButtonClickedDefault | src/modes/user/indexable_behavior.hpp:9-42 | index and flags become `ClickedNav`, the counter `ClickedFavorites`, and 4 clicks jump to favourite `step % 4` |
| IndexableBehavior.ScrollCallback | src/modes/user/indexable_behavior.hpp:61-130 | the new index and flags are `Scroll` of the old ones |
| IndexableBehavior.ButtonHoldDefault | src/modes/user/indexable_behavior.hpp:44-143 | the scroll direction is forced backward, index and flags become `HeldNav`, the favourite pick runs iff 5 clicks and a hold longer than 10 ms |

## Left out

- Floating point:
  - The segment delays `duration / (float)n` are integer divisions here. For durations below 2^24 ms this is exactly the value the float quotient truncates to.
  - From 2^24 ms the float conversion and division round, and the stored delay can be one more than the integer quotient: with 65535 pixels and a duration of 65534999 ms the float gives 1000, the model 999.
  - The gradient coefficient of the colour wipes is a `real` handed to the `get_gradient` parameter.
  - `rgb2hue` (animations.cpp:83-103) is the `hueOf` parameter.
  - The colour helpers of utils.cpp are not part of this model.
- NeoPixel I/O (`show`), `delay(wait)`, `millis`/`time_ms`, the button pin and interrupt attachment are left out. The clock and the pin level are parameters. Interrupt preemption is not modelled: an interrupt is an atomic `Interrupt` call between polls.
- `HOLD_BUTTON_MIN_MS` comes from constants.h, which is not part of this model. It is the `holdMinMs` constructor parameter. `MAX_UINT16_T` is taken as 65535.
- Groups and modes (group_type.h and the user modes) are not part of this model:
  - A group's `next_mode` is taken to advance its mode by one, wrapping at its mode count.
  - `reset_mode` and `custom_ramp_update` have no effect on the active index.
  - `get_modes_count()` is the mode count of the group `get_active_group(nbGroups)` names, taken from a table. It is 0 when there are no groups.
  - The groups' `custom_click`/`custom_hold` are function parameters.
- The handlers that the behaviour only calls into are parameters or results, and what they do is not modelled:
  - `rampHandler`/`scrollHandler.update_ramp` becomes the ramp value passed to the callback (`None` when the callback is not called).
  - `jump_to_favorite` becomes the returned slot.
  - `_animate_favorite_pick` becomes the returned flag.
- The types of `lastFavoriteJump` and `lastFavoriteStep` are not in these sources. `lastFavoriteJump` is taken as `uint32_t`, like the clock, and `lastFavoriteStep` as `uint8_t`, so its increment wraps at 256.
- `get_groups_count()` comes from the manager's group list, which is not part of this model. It is taken as the length of the mode-count table `modeCounts`.
- Pulse, colour pulse and fade-in effects are not in these source files and are not part of this model.
- `brightness_update`, `power_on/off_sequence`, `read/write_parameters` and `user_thread` are dispatch glue. Only their selection of groups is modelled (`Dispatched`, `ForeachGroup`). The same goes for `context_as`, the compile-time `if constexpr` bindings, behavior.h and compile.h.
- Wipes.DotWipeDown.Step: requires the segment delay `duration / n` to fit a `uint16_t`. The source truncates it into one (wipes.cpp:28), and the model does not cover the truncated delay.
- Animations.DotPingPong.Step: requires the same of `duration / 2`, for the down wipe it drives.
- Animations.FadeOut.Step: requires a non-zero duration whenever a level is computed. With duration 0, Arduino's `map` divides by zero.
- Animations.RainbowFade2White: requires `-32768 < rainbowLoops < 32768` and at most 32768 pixels. Beyond these bounds, `rainbowLoops * 65536` overflows `int` and `i * 65536L` overflows a 32-bit `long`, and the model does not cover that.
- Animations.PaintRainbow: requires at most 32768 pixels, for the same `long` overflow.
- IndexableBehavior.ScrollForward, IndexableBehavior.ScrollBackward, IndexableBehavior.ScrollKeepsValid: state the scroll order only from a valid index. A valid index has every group with at least one mode, and the active group and mode exist. From other indices `Scroll` is still defined, as the code computes it.
- Modes.ModeManager.constructor: leaves the change flags unspecified, as the C++ constructor leaves them uninitialised.
- Animations.FadeLevel: states the level only while `255 * elapsed` and the duration fit a `long`. Beyond that the model computes the wrapped value as the code does, and `FadeLevelLongFade` and `FadeLevelJumpsOnOverflow` show examples, but no closed formula is stated.
- Animations.FadeMapWithin: states the value of `map` only while `255 * elapsed` and the duration fit a `long`, for the same reason.
- Animations.FadeLevelDecreases: requires `255 * duration` to fit a `long` (fades up to 8421504 ms). Longer fades are not monotone (`FadeLevelJumpsOnOverflow`).
- Animations.FadeLevelZeroIff: requires `255 * elapsed` to fit a `long`. Past that point the condition for level 0 is not stated.
- Animations.FadeOutFinishesIff: requires the same, so the finishing condition is not stated past that point.
- Animations.FadeOutFinishesAtDuration: requires `255 * duration` to fit a `long`. For longer fades the level at the duration is not stated.
- Wipes.RainbowHue: states the hue only while `i * 65535` fits a `long` (strips up to 32768 pixels). Beyond that the model computes the wrapped hue as the code does, and `RainbowHueWraps` shows an example.
- Button.HoldDurationsNonDecreasing: requires the hold to last less than 2^32 ms. Past that the uint32_t duration wraps around and starts again from 0.
- Button.BurstReportedOnce: requires every poll of the burst to come within `holdMinMs` of the latest press. The release does not clear `isPressed`, so a later poll would see a long press and report a hold instead.
