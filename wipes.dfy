/**
 * The resumable wipe animations of wipes.cpp. Each one keeps its progress in
 * function-local statics (a target pixel index, the time of the last advance
 * and, for colour wipes, a snapshot of the next pixel), modelled as the
 * fields of one class per animation. A call `step(restart)` resets the
 * progress, reports `true` once the sweep is over, or advances by at most one
 * pixel when the segment delay `duration / numPixels` has elapsed.
 *
 * Each class method is proved against a step function on values
 * (`DotDownStep`, `DotWipeUpStep`, `ColorWipeDownStep`, `ColorWipeUpStep`);
 * what the animations promise over many calls is proved about those.
 */
module Wipes {
  import opened Uint
  import opened Strip

  /** Progress of a dot wipe: the static `targetIndex` and `previousMillis`. */
  datatype WipeState = WipeState(targetIndex: u16, previousMillis: u32)

  /** Progress of a colour wipe: adds the static `nextColor` snapshot. */
  datatype ColorWipeState = ColorWipeState(targetIndex: u16, previousMillis: u32, nextColor: u32)

  /** What one call leaves behind: the new progress, the strip, and the value returned. */
  datatype Frame<S> = Frame(state: S, pixels: seq<Color>, finished: bool)

  /** `Adafruit_NeoPixel::ColorHSV(hue, sat, val)` */
  type Hsv = (u16, u8, u8) -> u32
  /** `Adafruit_NeoPixel::gamma32(color)` */
  type Gamma = u32 -> u32
  /** `get_gradient(from, to, coeff)` */
  type Gradient = (u32, u32, real) -> u32

  /** `numPixels()` is a uint16_t. */
  predicate StripFits(n: nat)
  {
    n < 0x1_0000
  }

  /** `dotWipeDown` keeps its segment delay in a uint16_t. */
  predicate DotDelayFits(duration: u32, n: nat)
  {
    n == 0 || duration / n < 0x1_0000
  }

  /** A call advances: pixels remain and a segment delay has elapsed since the last advance. */
  predicate Advances(targetIndex: u16, previousMillis: u32, n: nat, duration: u32, now: u32)
  {
    targetIndex < n && Diff32(now, previousMillis) >= duration / n
  }

  /** The strip after `clear()` then `setPixelColor(i, c)`: pixel `i` alone is lit. */
  function Lit(n: nat, i: int, c: u32): (r: seq<Color>)
    ensures |r| == n
    ensures forall j :: 0 <= j < n ==> r[j] == if j == i then Pack(c) else BLACK
  {
    SetPixel(Cleared(n), i, c)
  }

  // ---------------------------------------------------------------- dot wipes

  /** How the progress of a downward dot wipe moves on a call without restart. */
  function DownNext(s: WipeState, n: nat, duration: u32, now: u32): (t: WipeState)
    requires StripFits(n)
    ensures Advances(s.targetIndex, s.previousMillis, n, duration, now) ==>
      t.targetIndex == s.targetIndex + 1 && t.previousMillis == now
    ensures !Advances(s.targetIndex, s.previousMillis, n, duration, now) ==> t == s
    ensures s.targetIndex <= n ==> t.targetIndex <= n
  {
    if Advances(s.targetIndex, s.previousMillis, n, duration, now) then WipeState(s.targetIndex + 1, now)
    else s
  }

  /**
   * One call of `dotWipeDown` (lighting `lit`) or of `dotWipeDownRainbow`
   * (lighting the colour of the hue ring at the target index).
   */
  function DotDownStep(s: WipeState, pixels: seq<Color>, lit: u32, duration: u32, restart: bool, now: u32)
    : (r: Frame<WipeState>)
    requires StripFits(|pixels|)
    ensures |r.pixels| == |pixels|
    ensures r.finished <==> !restart && s.targetIndex >= |pixels|
    ensures restart ==> r.state == WipeState(0, 0) && r.pixels == pixels
    ensures !restart ==> r.state == DownNext(s, |pixels|, duration, now)
    ensures !restart && Advances(s.targetIndex, s.previousMillis, |pixels|, duration, now) ==>
      r.state.targetIndex == s.targetIndex + 1 && r.state.previousMillis == now &&
      forall j :: 0 <= j < |pixels| ==> r.pixels[j] == if j == s.targetIndex then Pack(lit) else BLACK
    ensures !restart && !Advances(s.targetIndex, s.previousMillis, |pixels|, duration, now) ==>
      r.state == s && r.pixels == pixels
    ensures s.targetIndex <= |pixels| ==> r.state.targetIndex <= |pixels|
  {
    var n := |pixels|;
    if restart then Frame(WipeState(0, 0), pixels, false)
    else if s.targetIndex >= n then Frame(s, pixels, true)
    else if Advances(s.targetIndex, s.previousMillis, n, duration, now) then
      Frame(WipeState(s.targetIndex + 1, now), Lit(n, s.targetIndex, lit), false)
    else Frame(s, pixels, false)
  }

  /**
   * The hue `dotWipeDownRainbow` gives pixel `i`: `map(i, 0, n, 0, 65535)`,
   * whose product `i * 65535` is a 32-bit `long`.
   */
  function RainbowHue(i: u16, n: u16): (hue: i32)
    requires 0 < n
    ensures i * 65535 < 0x8000_0000 ==> hue == i * 65535 / n
    ensures i < n && i * 65535 < 0x8000_0000 ==> 0 <= hue < 65535
  {
    if i * 65535 < 0x8000_0000 then
      RainbowMapNoOverflow(i, n);
      ArduinoMap(i, 0, n, 0, 65535)
    else
      ArduinoMap(i, 0, n, 0, 65535)
  }

  /** The computation of `map(i, 0, n, 0, 65535)` when the product fits a `long`. */
  lemma RainbowMapNoOverflow(i: u16, n: u16)
    requires 0 < n && i * 65535 < 0x8000_0000
    ensures ArduinoMap(i, 0, n, 0, 65535) == i * 65535 / n
    ensures i < n ==> 0 <= i * 65535 / n < 65535
  {
    var p := i * 65535;
    assert (i - 0) * (65535 - 0) == p;
    DivAtMost(p, n);
    assert TruncDiv(p, n - 0) == p / n;
    assert InLong(p) && InLong(p / n + 0);
    if i < n {
      DivBelow(i, 65535, n);
    }
  }

  /**
   * Past pixel 32768 the product wraps: on a strip of 40000 pixels, pixel
   * 35000 gets hue 15505 instead of `35000 * 65535 / 40000 = 57343`.
   */
  lemma RainbowHueWraps()
    ensures Wrap16(RainbowHue(35000, 40000)) == 15505
    ensures 35000 * 65535 / 40000 == 57343
  {
    assert Long32(35000 * 65535) == -2_001_242_296;
    assert TruncDiv(-2_001_242_296, 40000) == -50031;
  }

  /** The colour `dotWipeDownRainbow` lights at target index `i`. */
  function RainbowColor(i: u16, n: nat, hsv: Hsv, gamma: Gamma): u32
    requires StripFits(n)
  {
    if i < n then gamma(hsv(Wrap16(RainbowHue(i, n)), 255, 255)) else 0
  }

  /** How the progress of an upward wipe moves on a call without restart: `targetIndex--` on uint16_t. */
  function UpNext(s: WipeState, n: nat, duration: u32, now: u32): (t: WipeState)
    requires StripFits(n)
    ensures Advances(s.targetIndex, s.previousMillis, n, duration, now) ==>
      t.targetIndex == (if s.targetIndex == 0 then 0xFFFF else s.targetIndex - 1) && t.previousMillis == now
    ensures !Advances(s.targetIndex, s.previousMillis, n, duration, now) ==> t == s
  {
    if Advances(s.targetIndex, s.previousMillis, n, duration, now) then WipeState(Wrap16(s.targetIndex - 1), now)
    else s
  }

  /** The index `dotWipeUp` and `colorWipeUp` restart from: `numPixels() - 1` on uint16_t. */
  function UpStart(n: nat): (ti: u16)
    requires StripFits(n)
    ensures n > 0 ==> ti == n - 1
    ensures n == 0 ==> ti == 0xFFFF
  {
    Wrap16(n - 1)
  }

  /** One call of `dotWipeUp`. */
  function DotWipeUpStep(s: WipeState, pixels: seq<Color>, color: u32, duration: u32, restart: bool, now: u32)
    : (r: Frame<WipeState>)
    requires StripFits(|pixels|)
    ensures |r.pixels| == |pixels|
    ensures r.finished <==> !restart && s.targetIndex >= |pixels|
    ensures restart ==> r.state == WipeState(UpStart(|pixels|), 0) && r.pixels == pixels
    ensures !restart ==> r.state == UpNext(s, |pixels|, duration, now)
    ensures !restart && Advances(s.targetIndex, s.previousMillis, |pixels|, duration, now) ==>
      forall j :: 0 <= j < |pixels| ==> r.pixels[j] == if j == s.targetIndex then Pack(color) else BLACK
    ensures !restart && !Advances(s.targetIndex, s.previousMillis, |pixels|, duration, now) ==>
      r.state == s && r.pixels == pixels
  {
    var n := |pixels|;
    if restart then Frame(WipeState(UpStart(n), 0), pixels, false)
    else if s.targetIndex >= n then Frame(s, pixels, true)
    else if Advances(s.targetIndex, s.previousMillis, n, duration, now) then
      Frame(WipeState(Wrap16(s.targetIndex - 1), now), Lit(n, s.targetIndex, color), false)
    else Frame(s, pixels, false)
  }

  /** Lighting pixel 0 wraps the uint16_t index to 65535, which every later call reads as "finished". */
  lemma DotWipeUpWrapsToFinished(s: WipeState, pixels: seq<Color>, color: u32, duration: u32, now: u32, later: u32)
    requires StripFits(|pixels|)
    requires s.targetIndex == 0 && Advances(0, s.previousMillis, |pixels|, duration, now)
    ensures var r := DotWipeUpStep(s, pixels, color, duration, false, now);
      && !r.finished && r.state.targetIndex == 0xFFFF
      && DotWipeUpStep(r.state, r.pixels, color, duration, false, later).finished
  {
  }

  /** The pixels an upward wipe still has to light. */
  function Remaining(targetIndex: u16, n: nat): (k: nat)
    ensures k <= n
    ensures targetIndex < n ==> k == targetIndex + 1
  {
    if targetIndex < n then targetIndex + 1 else 0
  }

  /** Where a run of calls ends and which pixel each advancing call lit, in call order. */
  datatype Sweep = Sweep(last: WipeState, lit: seq<int>)

  /** Calls without restart of a downward dot wipe at the times `nows`. */
  ghost function DownSweep(s: WipeState, n: nat, duration: u32, nows: seq<u32>): Sweep
    requires StripFits(n)
    decreases |nows|
  {
    if nows == [] then Sweep(s, [])
    else
      var rest := DownSweep(DownNext(s, n, duration, nows[0]), n, duration, nows[1..]);
      var lit := if Advances(s.targetIndex, s.previousMillis, n, duration, nows[0]) then [s.targetIndex as int] else [];
      Sweep(rest.last, lit + rest.lit)
  }

  /**
   * A downward dot wipe lights the pixels one after the other, in increasing
   * order and each exactly once, never going past `numPixels`; whatever the
   * call times, the pixels lit so far are exactly `[start, targetIndex)`.
   */
  lemma {:induction false} DownSweepInOrder(s: WipeState, n: nat, duration: u32, nows: seq<u32>)
    requires StripFits(n) && s.targetIndex <= n
    ensures var w := DownSweep(s, n, duration, nows);
      && s.targetIndex <= w.last.targetIndex <= n
      && w.lit == seq(w.last.targetIndex - s.targetIndex, i => s.targetIndex + i)
    decreases |nows|
  {
    if nows != [] {
      var t := DownNext(s, n, duration, nows[0]);
      DownSweepInOrder(t, n, duration, nows[1..]);
    }
  }

  /** Calls without restart of an upward wipe at the times `nows`. */
  ghost function UpSweep(s: WipeState, n: nat, duration: u32, nows: seq<u32>): Sweep
    requires StripFits(n)
    decreases |nows|
  {
    if nows == [] then Sweep(s, [])
    else
      var rest := UpSweep(UpNext(s, n, duration, nows[0]), n, duration, nows[1..]);
      var lit := if Advances(s.targetIndex, s.previousMillis, n, duration, nows[0]) then [s.targetIndex as int] else [];
      Sweep(rest.last, lit + rest.lit)
  }

  /**
   * An upward wipe lights the pixels in decreasing order, each exactly once,
   * down to pixel 0, after which its index has wrapped past `numPixels`.
   */
  lemma {:induction false} UpSweepInOrder(s: WipeState, n: nat, duration: u32, nows: seq<u32>)
    requires StripFits(n)
    ensures var w := UpSweep(s, n, duration, nows);
      && Remaining(w.last.targetIndex, n) <= Remaining(s.targetIndex, n)
      && w.lit == seq(Remaining(s.targetIndex, n) - Remaining(w.last.targetIndex, n), i => s.targetIndex - i)
    decreases |nows|
  {
    if nows != [] {
      var t := UpNext(s, n, duration, nows[0]);
      UpSweepInOrder(t, n, duration, nows[1..]);
      if Advances(s.targetIndex, s.previousMillis, n, duration, nows[0]) {
        assert Remaining(t.targetIndex, n) == Remaining(s.targetIndex, n) - 1;
      }
    }
  }

  // -------------------------------------------------------------- colour wipes

  /** Pixels `[from, to)` hold `color`. */
  ghost predicate FilledWith(pixels: seq<Color>, from: int, to: int, color: u32)
  {
    0 <= from <= to <= |pixels| && forall j :: from <= j < to ==> pixels[j] == Pack(color)
  }

  /** One call of `colorWipeDown`. */
  function ColorWipeDownStep(s: ColorWipeState, pixels: seq<Color>, color: u32, duration: u32,
                             restart: bool, now: u32, gradient: Gradient): (r: Frame<ColorWipeState>)
    requires StripFits(|pixels|)
    ensures |r.pixels| == |pixels|
    ensures r.finished <==> !restart && s.targetIndex >= |pixels|
    ensures restart ==> r.state == ColorWipeState(0, 0, 0) && r.pixels == pixels
    ensures !restart && Advances(s.targetIndex, s.previousMillis, |pixels|, duration, now) ==>
      && r.state == ColorWipeState(s.targetIndex + 1, now, GetPixel(pixels, s.targetIndex + 1))
      && r.pixels == SetPixel(pixels, s.targetIndex, color)
    ensures !restart && !Advances(s.targetIndex, s.previousMillis, |pixels|, duration, now) ==>
      r.state == s
    ensures !restart && s.targetIndex < |pixels| && !Advances(s.targetIndex, s.previousMillis, |pixels|, duration, now) ==>
      r.pixels == SetPixel(pixels, s.targetIndex,
                           gradient(s.nextColor, color, Diff32(now, s.previousMillis) as real / (duration / |pixels|) as real))
    ensures forall j :: 0 <= j < |pixels| && j != s.targetIndex ==> r.pixels[j] == pixels[j]
    ensures s.targetIndex <= |pixels| ==> r.state.targetIndex <= |pixels|
  {
    var n := |pixels|;
    if restart then Frame(ColorWipeState(0, 0, 0), pixels, false)
    else if s.targetIndex >= n then Frame(s, pixels, true)
    else
      var delay := duration / n;
      var elapsed := Diff32(now, s.previousMillis);
      if elapsed >= delay then
        var p := SetPixel(pixels, s.targetIndex, color);
        Frame(ColorWipeState(s.targetIndex + 1, now, GetPixel(p, s.targetIndex + 1)), p, false)
      else
        var coeff := elapsed as real / delay as real;
        Frame(s, SetPixel(pixels, s.targetIndex, gradient(s.nextColor, color, coeff)), false)
  }

  /** Calls without restart of a colour wipe at the times `nows`: the frame of the last one. */
  ghost function ColorWipeDownRun(s: ColorWipeState, pixels: seq<Color>, color: u32, duration: u32,
                                  gradient: Gradient, nows: seq<u32>): Frame<ColorWipeState>
    requires StripFits(|pixels|)
    decreases |nows|
  {
    if nows == [] then Frame(s, pixels, s.targetIndex >= |pixels|)
    else
      var f := ColorWipeDownStep(s, pixels, color, duration, false, nows[0], gradient);
      ColorWipeDownRun(f.state, f.pixels, color, duration, gradient, nows[1..])
  }

  /**
   * `colorWipeDown` fills as it goes: from a restart, whatever the call times,
   * every pixel below the target index holds the wipe colour, and the target
   * index never passes `numPixels`.
   */
  lemma {:induction false} ColorWipeDownFillsPrefix(s: ColorWipeState, pixels: seq<Color>, color: u32,
                                                    duration: u32, gradient: Gradient, nows: seq<u32>)
    requires StripFits(|pixels|)
    requires FilledWith(pixels, 0, s.targetIndex, color)
    ensures var r := ColorWipeDownRun(s, pixels, color, duration, gradient, nows);
      FilledWith(r.pixels, 0, r.state.targetIndex, color)
    decreases |nows|
  {
    if nows != [] {
      var f := ColorWipeDownStep(s, pixels, color, duration, false, nows[0], gradient);
      assert FilledWith(f.pixels, 0, f.state.targetIndex, color);
      ColorWipeDownFillsPrefix(f.state, f.pixels, color, duration, gradient, nows[1..]);
    }
  }

  /** One call of `colorWipeUp`. */
  function ColorWipeUpStep(s: ColorWipeState, pixels: seq<Color>, color: u32, duration: u32,
                           restart: bool, now: u32, gradient: Gradient): (r: Frame<ColorWipeState>)
    requires StripFits(|pixels|)
    ensures |r.pixels| == |pixels|
    ensures r.finished <==> !restart && s.targetIndex >= |pixels|
    ensures restart ==> r.state == ColorWipeState(UpStart(|pixels|), 0, 0) && r.pixels == pixels
    ensures !restart && Advances(s.targetIndex, s.previousMillis, |pixels|, duration, now) ==>
      && r.state == ColorWipeState(Wrap16(s.targetIndex - 1), now, GetPixel(pixels, Wrap16(s.targetIndex - 1)))
      && r.pixels == SetPixel(pixels, s.targetIndex, color)
    ensures !restart && !Advances(s.targetIndex, s.previousMillis, |pixels|, duration, now) ==>
      r.state == s
    ensures !restart && s.targetIndex < |pixels| && !Advances(s.targetIndex, s.previousMillis, |pixels|, duration, now) ==>
      r.pixels == SetPixel(pixels, s.targetIndex,
                           gradient(s.nextColor, color, Diff32(now, s.previousMillis) as real / (duration / |pixels|) as real))
    ensures forall j :: 0 <= j < |pixels| && j != s.targetIndex ==> r.pixels[j] == pixels[j]
  {
    var n := |pixels|;
    if restart then Frame(ColorWipeState(UpStart(n), 0, 0), pixels, false)
    else if s.targetIndex >= n then Frame(s, pixels, true)
    else
      var delay := duration / n;
      var elapsed := Diff32(now, s.previousMillis);
      if elapsed >= delay then
        var next := Wrap16(s.targetIndex - 1);
        var p := SetPixel(pixels, s.targetIndex, color);
        Frame(ColorWipeState(next, now, GetPixel(p, next)), p, false)
      else
        var coeff := elapsed as real / delay as real;
        Frame(s, SetPixel(pixels, s.targetIndex, gradient(s.nextColor, color, coeff)), false)
  }

  /** Calls without restart of `colorWipeUp` at the times `nows`: the frame of the last one. */
  ghost function ColorWipeUpRun(s: ColorWipeState, pixels: seq<Color>, color: u32, duration: u32,
                                gradient: Gradient, nows: seq<u32>): Frame<ColorWipeState>
    requires StripFits(|pixels|)
    decreases |nows|
  {
    if nows == [] then Frame(s, pixels, s.targetIndex >= |pixels|)
    else
      var f := ColorWipeUpStep(s, pixels, color, duration, false, nows[0], gradient);
      ColorWipeUpRun(f.state, f.pixels, color, duration, gradient, nows[1..])
  }

  /**
   * `colorWipeUp` fills from the top: whatever the call times, every pixel
   * above the target index holds the wipe colour, and once the index has
   * wrapped past pixel 0 the whole strip does.
   */
  lemma {:induction false} ColorWipeUpFillsSuffix(s: ColorWipeState, pixels: seq<Color>, color: u32,
                                                  duration: u32, gradient: Gradient, nows: seq<u32>)
    requires StripFits(|pixels|)
    requires FilledWith(pixels, Remaining(s.targetIndex, |pixels|), |pixels|, color)
    ensures var r := ColorWipeUpRun(s, pixels, color, duration, gradient, nows);
      FilledWith(r.pixels, Remaining(r.state.targetIndex, |pixels|), |pixels|, color)
    decreases |nows|
  {
    if nows != [] {
      var f := ColorWipeUpStep(s, pixels, color, duration, false, nows[0], gradient);
      assert FilledWith(f.pixels, Remaining(f.state.targetIndex, |pixels|), |pixels|, color);
      ColorWipeUpFillsSuffix(f.state, f.pixels, color, duration, gradient, nows[1..]);
    }
  }

  // ------------------------------------------------------------------ classes

  /** `dotWipeDown(color, duration, restart, strip)` with its statics. */
  class DotWipeDown {
    var targetIndex: u16
    var previousMillis: u32

    function State(): WipeState
      reads this
    {
      WipeState(targetIndex, previousMillis)
    }

    constructor ()
      ensures State() == WipeState(0, 0)
    {
      targetIndex, previousMillis := 0, 0;
    }

    method Step(color: u32, duration: u32, restart: bool, now: u32, strip: array<Color>) returns (finished: bool)
      requires StripFits(strip.Length) && DotDelayFits(duration, strip.Length)
      modifies this, strip
      ensures Frame(State(), strip[..], finished) == DotDownStep(old(State()), old(strip[..]), color, duration, restart, now)
    {
      var n := strip.Length;
      if restart {
        targetIndex := 0;
        previousMillis := 0;
        return false;
      }
      if targetIndex >= n {
        return true;
      }
      var delay: u16 := duration / n;
      if Diff32(now, previousMillis) >= delay && targetIndex < n {
        previousMillis := now;
        ClearStrip(strip);
        SetPixelColor(strip, targetIndex, color);
        targetIndex := targetIndex + 1;
      }
      return false;
    }
  }

  /** `dotWipeUp(color, duration, restart, strip)` with its statics. */
  class DotWipeUp {
    var targetIndex: u16
    var previousMillis: u32

    function State(): WipeState
      reads this
    {
      WipeState(targetIndex, previousMillis)
    }

    /** The statics are initialised on the first call, from that strip's pixel count `n`. */
    constructor (n: nat)
      requires StripFits(n)
      ensures State() == WipeState(UpStart(n), 0)
    {
      targetIndex, previousMillis := Wrap16(n - 1), 0;
    }

    method Step(color: u32, duration: u32, restart: bool, now: u32, strip: array<Color>) returns (finished: bool)
      requires StripFits(strip.Length)
      modifies this, strip
      ensures Frame(State(), strip[..], finished) == DotWipeUpStep(old(State()), old(strip[..]), color, duration, restart, now)
    {
      var n := strip.Length;
      if restart {
        targetIndex := Wrap16(n - 1);
        previousMillis := 0;
        return false;
      }
      if targetIndex >= n {
        return true;
      }
      var delay := duration / n;
      if Diff32(now, previousMillis) >= delay && targetIndex >= 0 {
        previousMillis := now;
        ClearStrip(strip);
        SetPixelColor(strip, targetIndex, color);
        targetIndex := Wrap16(targetIndex - 1);
      }
      return false;
    }
  }

  /** `dotWipeDownRainbow(duration, restart, strip)` with its statics. */
  class DotWipeDownRainbow {
    var targetIndex: u16
    var previousMillis: u32

    function State(): WipeState
      reads this
    {
      WipeState(targetIndex, previousMillis)
    }

    constructor ()
      ensures State() == WipeState(0, 0)
    {
      targetIndex, previousMillis := 0, 0;
    }

    method Step(duration: u32, restart: bool, now: u32, strip: array<Color>, hsv: Hsv, gamma: Gamma)
      returns (finished: bool)
      requires StripFits(strip.Length)
      modifies this, strip
      ensures Frame(State(), strip[..], finished) ==
        DotDownStep(old(State()), old(strip[..]), RainbowColor(old(targetIndex), strip.Length, hsv, gamma),
                    duration, restart, now)
    {
      var n := strip.Length;
      if restart {
        targetIndex := 0;
        previousMillis := 0;
        return false;
      }
      if targetIndex >= n {
        return true;
      }
      var delay := duration / n;
      if Diff32(now, previousMillis) >= delay && targetIndex < n {
        previousMillis := now;
        ClearStrip(strip);
        var hue := Wrap16(RainbowHue(targetIndex, n));
        SetPixelColor(strip, targetIndex, gamma(hsv(hue, 255, 255)));
        targetIndex := targetIndex + 1;
      }
      return false;
    }
  }

  /** `colorWipeDown(color, duration, restart, strip)` with its statics. */
  class ColorWipeDown {
    var targetIndex: u16
    var previousMillis: u32
    var nextColor: u32

    function State(): ColorWipeState
      reads this
    {
      ColorWipeState(targetIndex, previousMillis, nextColor)
    }

    constructor ()
      ensures State() == ColorWipeState(0, 0, 0)
    {
      targetIndex, previousMillis, nextColor := 0, 0, 0;
    }

    method Step(color: u32, duration: u32, restart: bool, now: u32, strip: array<Color>, gradient: Gradient)
      returns (finished: bool)
      requires StripFits(strip.Length)
      modifies this, strip
      ensures Frame(State(), strip[..], finished) ==
        ColorWipeDownStep(old(State()), old(strip[..]), color, duration, restart, now, gradient)
    {
      var n := strip.Length;
      if restart {
        targetIndex, previousMillis, nextColor := 0, 0, 0;
        return false;
      }
      if targetIndex >= n {
        return true;
      }
      var delay := duration / n;
      var elapsed := Diff32(now, previousMillis);
      if elapsed >= delay {
        previousMillis := now;
        SetPixelColor(strip, targetIndex, color);
        targetIndex := targetIndex + 1;
        nextColor := GetPixelColor(strip, targetIndex);
      } else {
        var coeff := elapsed as real / delay as real;
        SetPixelColor(strip, targetIndex, gradient(nextColor, color, coeff));
      }
      return false;
    }
  }

  /** `colorWipeUp(color, duration, restart, strip)` with its statics. */
  class ColorWipeUp {
    var targetIndex: u16
    var previousMillis: u32
    var nextColor: u32

    function State(): ColorWipeState
      reads this
    {
      ColorWipeState(targetIndex, previousMillis, nextColor)
    }

    /** The statics are initialised on the first call, from that strip's pixel count `n`. */
    constructor (n: nat)
      requires StripFits(n)
      ensures State() == ColorWipeState(UpStart(n), 0, 0)
    {
      targetIndex, previousMillis, nextColor := Wrap16(n - 1), 0, 0;
    }

    method Step(color: u32, duration: u32, restart: bool, now: u32, strip: array<Color>, gradient: Gradient)
      returns (finished: bool)
      requires StripFits(strip.Length)
      modifies this, strip
      ensures Frame(State(), strip[..], finished) ==
        ColorWipeUpStep(old(State()), old(strip[..]), color, duration, restart, now, gradient)
    {
      var n := strip.Length;
      if restart {
        targetIndex, previousMillis, nextColor := Wrap16(n - 1), 0, 0;
        return false;
      }
      if targetIndex >= n {
        return true;
      }
      var delay := duration / n;
      var elapsed := Diff32(now, previousMillis);
      if elapsed >= delay {
        previousMillis := now;
        SetPixelColor(strip, targetIndex, color);
        targetIndex := Wrap16(targetIndex - 1);
        nextColor := GetPixelColor(strip, targetIndex);
      } else {
        var coeff := elapsed as real / delay as real;
        SetPixelColor(strip, targetIndex, gradient(nextColor, color, coeff));
      }
      return false;
    }
  }
}
