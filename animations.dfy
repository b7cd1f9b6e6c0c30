/**
 * The animations of animations.cpp: the dot ping-pong built from the two dot
 * wipes, the police light, the fade-out and the rainbow fade. The first three
 * are resumable like the wipes (statics become class fields, each call is
 * proved against a step function on values); `rainbowFade2White` is a
 * blocking loop and is a method with loops.
 */
module Animations {
  import opened Uint
  import opened Strip
  import opened Wipes

  // -------------------------------------------------------------- dotPingPong

  /** The static `isPongMode` together with the statics of the two wipes it drives. */
  datatype PingPongState = PingPongState(isPongMode: bool, up: WipeState, down: WipeState)

  /** One call of `dotPingPong`: a downward dot wipe, then an upward one, each over half the duration. */
  function PingPongStep(s: PingPongState, pixels: seq<Color>, color: u32, duration: u32, restart: bool, now: u32)
    : (r: Frame<PingPongState>)
    requires StripFits(|pixels|)
    ensures |r.pixels| == |pixels|
    ensures restart ==>
      r.state == PingPongState(false, WipeState(UpStart(|pixels|), 0), WipeState(0, 0)) && r.pixels == pixels
    ensures r.finished <==> !restart && s.isPongMode && s.up.targetIndex >= |pixels|
    ensures !restart && !s.isPongMode ==>
      r.state.up == s.up && r.state.down == DownNext(s.down, |pixels|, duration / 2, now) &&
      (r.state.isPongMode <==> s.down.targetIndex >= |pixels|)
    ensures !restart && s.isPongMode ==>
      r.state.isPongMode && r.state.down == s.down && r.state.up == UpNext(s.up, |pixels|, duration / 2, now)
    ensures !restart ==>
      var lit := PingPongLit(s, |pixels|, duration, now);
      && (lit == [] ==> r.pixels == pixels)
      && (lit != [] ==> r.pixels == Lit(|pixels|, lit[0], color))
  {
    var half := duration / 2;
    if restart then
      var u := DotWipeUpStep(s.up, pixels, color, half, true, now);
      var d := DotDownStep(s.down, u.pixels, color, half, true, now);
      Frame(PingPongState(false, u.state, d.state), d.pixels, false)
    else if s.isPongMode then
      var u := DotWipeUpStep(s.up, pixels, color, half, false, now);
      Frame(s.(up := u.state), u.pixels, u.finished)
    else
      var d := DotDownStep(s.down, pixels, color, half, false, now);
      Frame(s.(isPongMode := d.finished, down := d.state), d.pixels, false)
  }

  /** The pixel a call without restart lights, if any. */
  function PingPongLit(s: PingPongState, n: nat, duration: u32, now: u32): (lit: seq<int>)
    requires StripFits(n)
    ensures |lit| <= 1
    ensures forall i :: 0 <= i < |lit| ==> 0 <= lit[i] < n
  {
    var half := duration / 2;
    if s.isPongMode then
      (if Advances(s.up.targetIndex, s.up.previousMillis, n, half, now) then [s.up.targetIndex as int] else [])
    else
      (if Advances(s.down.targetIndex, s.down.previousMillis, n, half, now) then [s.down.targetIndex as int] else [])
  }

  /** The pixels lit, in order, by calls without restart at the times `nows`. */
  ghost function PingPongSweep(s: PingPongState, pixels: seq<Color>, color: u32, duration: u32, nows: seq<u32>): seq<int>
    requires StripFits(|pixels|)
    decreases |nows|
  {
    if nows == [] then []
    else
      var f := PingPongStep(s, pixels, color, duration, false, nows[0]);
      PingPongLit(s, |pixels|, duration, nows[0]) + PingPongSweep(f.state, f.pixels, color, duration, nows[1..])
  }

  /** What remains of the ping-pong from state `s`: the rest of the way down, then all the way back up. */
  function PingPongPath(s: PingPongState, n: nat): (path: seq<int>)
    requires s.down.targetIndex <= n
  {
    var down := if s.isPongMode then [] else seq(n - s.down.targetIndex, i => s.down.targetIndex + i);
    down + seq(Remaining(s.up.targetIndex, n), i => s.up.targetIndex - i)
  }

  /** One call without restart lights the next pixel of the path, or none, and the rest of the path is what is left. */
  lemma PingPongStepFollowsPath(s: PingPongState, pixels: seq<Color>, color: u32, duration: u32, now: u32)
    requires StripFits(|pixels|) && s.down.targetIndex <= |pixels|
    requires s.isPongMode ==> s.down.targetIndex == |pixels|
    ensures var f := PingPongStep(s, pixels, color, duration, false, now);
      && f.state.down.targetIndex <= |pixels|
      && (f.state.isPongMode ==> f.state.down.targetIndex == |pixels|)
      && PingPongPath(s, |pixels|) == PingPongLit(s, |pixels|, duration, now) + PingPongPath(f.state, |pixels|)
  {
    var n := |pixels|;
    var f := PingPongStep(s, pixels, color, duration, false, now);
    var lit := PingPongLit(s, n, duration, now);
    var up := seq(Remaining(s.up.targetIndex, n), i => s.up.targetIndex - i);
    if s.isPongMode {
      if lit != [] {
        var k := s.up.targetIndex;
        assert Remaining(f.state.up.targetIndex, n) == k;
        assert up == [k as int] + seq(k, i => f.state.up.targetIndex - i);
      }
    } else if lit != [] {
      var k := s.down.targetIndex;
      assert seq(n - k, i => k + i) == [k as int] + seq(n - (k + 1), i => k + 1 + i);
    }
  }

  /**
   * `dotPingPong` runs its dot down the strip and back up: whatever the call
   * times, the pixels it lights are, in order, a prefix of
   * `start, …, n - 1, n - 1, …, 0` (from a restart), each lit at most once.
   */
  lemma {:induction false} PingPongSweepFollowsPath(s: PingPongState, pixels: seq<Color>, color: u32, duration: u32,
                                                    nows: seq<u32>)
    requires StripFits(|pixels|) && s.down.targetIndex <= |pixels|
    requires s.isPongMode ==> s.down.targetIndex == |pixels|
    ensures PingPongSweep(s, pixels, color, duration, nows) <= PingPongPath(s, |pixels|)
    decreases |nows|
  {
    if nows != [] {
      var f := PingPongStep(s, pixels, color, duration, false, nows[0]);
      PingPongStepFollowsPath(s, pixels, color, duration, nows[0]);
      PingPongSweepFollowsPath(f.state, f.pixels, color, duration, nows[1..]);
      PrefixAfterSame(PingPongLit(s, |pixels|, duration, nows[0]),
                      PingPongSweep(f.state, f.pixels, color, duration, nows[1..]),
                      PingPongPath(f.state, |pixels|));
    }
  }

  lemma PrefixAfterSame<T>(x: seq<T>, a: seq<T>, b: seq<T>)
    requires a <= b
    ensures x + a <= x + b
  {
    assert (x + a)[..|x + a|] == x + a;
    assert (x + b)[..|x + a|] == x + b[..|a|];
  }

  /** The ping-pong from a restart: the whole strip down, then the whole strip up. */
  lemma PingPongFromRestart(n: nat)
    requires StripFits(n)
    ensures PingPongPath(PingPongState(false, WipeState(UpStart(n), 0), WipeState(0, 0)), n) ==
      seq(n, i => i) + seq(n, i => n - 1 - i)
  {
  }

  // ------------------------------------------------------------------- police

  /** The statics of `police`. */
  datatype PoliceState = PoliceState(previousMillis: u32, isBluePhase: bool)

  const POLICE_BLUE: u32 := 0x0000FF
  const POLICE_RED: u32 := 0xFF0000

  /** The blue phase: `fill(blue, 0, n / 2 + 1)` on a cleared strip. */
  function BlueHalf(n: nat): seq<Color>
    requires StripFits(n)
  {
    Fill(Cleared(n), POLICE_BLUE, 0, n / 2 + 1)
  }

  /** The red phase: `fill(red, n / 2, n)` on a cleared strip. */
  function RedHalf(n: nat): seq<Color>
    requires StripFits(n)
  {
    Fill(Cleared(n), POLICE_RED, n / 2, n)
  }

  /** The blue phase lights the lower half and the middle pixel, and nothing else. */
  lemma BlueHalfLit(n: nat, j: int)
    requires StripFits(n) && 0 <= j < n
    ensures BlueHalf(n)[j] == if j <= n / 2 then POLICE_BLUE else BLACK
  {
  }

  /**
   * The red phase lights the upper half from the middle pixel on; on a strip
   * of more than 43690 pixels the uint16_t end `n / 2 + n` of `fill` wraps
   * below the start and the red phase lights nothing.
   */
  lemma RedHalfLit(n: nat, j: int)
    requires StripFits(n) && 0 <= j < n
    ensures n / 2 + n < 0x1_0000 ==> RedHalf(n)[j] == if n / 2 <= j then POLICE_RED else BLACK
    ensures n / 2 + n >= 0x1_0000 ==> RedHalf(n)[j] == BLACK
  {
  }

  /** One call of `police`. */
  function PoliceStep(s: PoliceState, pixels: seq<Color>, duration: u32, restart: bool, now: u32): (r: Frame<PoliceState>)
    requires StripFits(|pixels|)
    ensures |r.pixels| == |pixels|
    ensures !r.finished
    ensures restart ==> r.state == PoliceState(0, false) && r.pixels == pixels
    ensures !restart && Diff32(now, s.previousMillis) >= Wrap16(duration / 2) ==>
      && r.state == PoliceState(now, !s.isBluePhase)
      && r.pixels == (if s.isBluePhase then BlueHalf(|pixels|) else RedHalf(|pixels|))
    ensures !restart && Diff32(now, s.previousMillis) < Wrap16(duration / 2) ==> r.state == s && r.pixels == pixels
  {
    var delay := Wrap16(duration / 2);
    if restart then Frame(PoliceState(0, false), pixels, false)
    else if Diff32(now, s.previousMillis) >= delay then
      if s.isBluePhase then Frame(PoliceState(now, false), BlueHalf(|pixels|), false)
      else Frame(PoliceState(now, true), RedHalf(|pixels|), false)
    else Frame(s, pixels, false)
  }

  /** Calls without restart of `police` at the times `nows`: the frame of the last one. */
  ghost function PoliceRun(s: PoliceState, pixels: seq<Color>, duration: u32, nows: seq<u32>): Frame<PoliceState>
    requires StripFits(|pixels|)
    decreases |nows|
  {
    if nows == [] then Frame(s, pixels, false)
    else
      var f := PoliceStep(s, pixels, duration, false, nows[0]);
      PoliceRun(f.state, f.pixels, duration, nows[1..])
  }

  /** How many calls of a run switched the lights. */
  ghost function PoliceFlips(s: PoliceState, duration: u32, nows: seq<u32>): nat
    decreases |nows|
  {
    if nows == [] then 0
    else
      var flip := Diff32(nows[0], s.previousMillis) >= Wrap16(duration / 2);
      var next := if flip then PoliceState(nows[0], !s.isBluePhase) else s;
      (if flip then 1 else 0) + PoliceFlips(next, duration, nows[1..])
  }

  /**
   * `police` alternates: after a run the phase has switched once per elapsed
   * half-period, and once it has switched at least once the strip shows the
   * colour of the phase just played (red before a blue phase, blue before a
   * red one). It never reports that it has finished.
   */
  lemma {:induction false} PoliceAlternates(s: PoliceState, pixels: seq<Color>, duration: u32, nows: seq<u32>)
    requires StripFits(|pixels|)
    ensures var r := PoliceRun(s, pixels, duration, nows);
      && !r.finished
      && |r.pixels| == |pixels|
      && (r.state.isBluePhase <==> (s.isBluePhase <==> PoliceFlips(s, duration, nows) % 2 == 0))
      && (PoliceFlips(s, duration, nows) > 0 ==>
            r.pixels == if r.state.isBluePhase then RedHalf(|pixels|) else BlueHalf(|pixels|))
      && (PoliceFlips(s, duration, nows) == 0 ==> r.pixels == pixels)
    decreases |nows|
  {
    if nows != [] {
      var f := PoliceStep(s, pixels, duration, false, nows[0]);
      PoliceAlternates(f.state, f.pixels, duration, nows[1..]);
    }
  }

  // ------------------------------------------------------------------ fadeOut

  /** The statics of `fadeOut`. */
  datatype FadeState = FadeState(startTimeMillis: u32, lastFadeLevel: u8)

  /**
   * `(uint8_t) map(elapsed, 0, duration, 255, 0)`: the uint32_t arguments
   * become `long`, and `map` works on 32 bits.
   */
  function FadeLevel(elapsed: u32, duration: u32): (level: u8)
    requires 0 < duration
    ensures 255 * elapsed < 0x8000_0000 && duration < 0x8000_0000 ==>
      level == (255 - 255 * elapsed / duration) % 0x100
    ensures elapsed <= duration && 255 * duration < 0x8000_0000 ==>
      level == 255 - 255 * elapsed / duration
  {
    FadeMapWithin(elapsed, duration);
    Wrap8(ArduinoMap(Long32(elapsed), 0, Long32(duration), 255, 0))
  }

  /**
   * While `255 * elapsed` fits a `long`, `map(elapsed, 0, duration, 255, 0)`
   * is `255 - 255 * elapsed / duration`, which within the duration stays in 0..255.
   */
  lemma FadeMapWithin(elapsed: u32, duration: u32)
    requires 0 < duration
    ensures 255 * elapsed < 0x8000_0000 && duration < 0x8000_0000 ==>
      ArduinoMap(Long32(elapsed), 0, Long32(duration), 255, 0) == 255 - 255 * elapsed / duration
    ensures elapsed <= duration ==> 0 <= 255 * elapsed / duration <= 255
  {
    if 255 * elapsed < 0x8000_0000 && duration < 0x8000_0000 {
      FadeMapNoOverflow(elapsed, duration);
    }
    if elapsed <= duration {
      ScaledQuotientWithin(elapsed, duration);
    }
  }

  /** `255 * elapsed / duration` is in 0..255 within the duration. */
  lemma ScaledQuotientWithin(elapsed: nat, duration: nat)
    requires 0 < duration && elapsed <= duration
    ensures 0 <= 255 * elapsed / duration <= 255
  {
    DivMonotone(255 * elapsed, 255 * duration, duration);
    MulDivCancel(255, duration);
  }

  /** The computation of `map(elapsed, 0, duration, 255, 0)` when no step overflows. */
  lemma FadeMapNoOverflow(elapsed: u32, duration: u32)
    requires 0 < duration < 0x8000_0000 && 255 * elapsed < 0x8000_0000
    ensures ArduinoMap(Long32(elapsed), 0, Long32(duration), 255, 0) == 255 - 255 * elapsed / duration
  {
    var a := (elapsed - 0) * (0 - 255);
    assert a == -(255 * elapsed);
    var q := 255 * elapsed / duration;
    assert TruncDiv(a, duration - 0) == -q by {
      if elapsed > 0 {
        assert TruncDiv(a, duration - 0) == -((255 * elapsed) / duration);
      }
    }
    DivAtMost(255 * elapsed, duration);
    assert InLong(a) && InLong(-q + 255);
  }

  /**
   * Within the duration the fade level only goes down, and it reaches 0
   * exactly at the duration (for fades short enough that `255 * duration` fits a `long`).
   */
  lemma FadeLevelDecreases(e1: u32, e2: u32, duration: u32)
    requires 0 < duration && e1 <= e2 <= duration && 255 * duration < 0x8000_0000
    ensures FadeLevel(e2, duration) <= FadeLevel(e1, duration)
    ensures FadeLevel(e2, duration) == 0 <==> e2 == duration
  {
    DivMonotone(255 * e1, 255 * e2, duration);
    if e2 < duration {
      DivBelow(e2, 255, duration);
    }
    MulDivCancel(255, duration);
  }

  /**
   * The level is 0 exactly when `255 * elapsed / duration` is 255 modulo 256:
   * at the end of the duration, and past it whenever the unclamped `map`
   * lands on a multiple of 256 below 0.
   */
  lemma FadeLevelZeroIff(elapsed: u32, duration: u32)
    requires 0 < duration < 0x8000_0000 && 255 * elapsed < 0x8000_0000
    ensures FadeLevel(elapsed, duration) == 0 <==> (255 * elapsed / duration) % 0x100 == 255
  {
    var q := 255 * elapsed / duration;
    DivMonotone(0, 255 * elapsed, duration);
    if q % 0x100 == 255 {
      var k := q / 0x100;
      assert q == 0x100 * k + 255;
      DivModUnique(255 - q, 0x100, -k, 0);
    }
    if (255 - q) % 0x100 == 0 {
      var j := (255 - q) / 0x100;
      assert 255 - q == 0x100 * j;
      DivModUnique(q, 0x100, -j, 255);
    }
  }

  /**
   * Past the duration the unclamped `map` goes negative and the uint8_t
   * conversion wraps it back to a bright level: 101 ms into a 100 ms fade the
   * level is 254.
   */
  lemma FadeLevelWrapsPastDuration()
    ensures FadeLevel(101, 100) == 254
  {
    assert ArduinoMap(101, 0, 100, 255, 0) == -2;
  }

  /** A late call can still hit level 0: 1003 ms into a 1000 ms fade. */
  lemma FadeLevelLateEnd()
    ensures FadeLevel(1003, 1000) == 0
  {
    assert ArduinoMap(1003, 0, 1000, 255, 0) == 0;
  }

  /**
   * For a fade longer than 8421504 ms the product `255 * elapsed` overflows
   * the 32-bit `long` of `map`: 9000000 ms into a 10000000 ms fade the level
   * is 198, where the unbounded formula gives 26.
   */
  lemma FadeLevelLongFade()
    ensures FadeLevel(9_000_000, 10_000_000) == 198
    ensures 255 - 255 * 9_000_000 / 10_000_000 == 26
  {
    assert Long32(9_000_000 * -255) == 1_999_967_296;
    assert TruncDiv(1_999_967_296, 10_000_000) == 199;
    assert ArduinoMap(9_000_000, 0, 10_000_000, 255, 0) == 454;
  }

  /**
   * Within a 10000000 ms fade the level goes back up where `255 * elapsed`
   * first overflows the `long`: 41 at 8421504 ms, 213 one millisecond later.
   */
  lemma FadeLevelJumpsOnOverflow()
    ensures FadeLevel(8_421_504, 10_000_000) == 41
    ensures FadeLevel(8_421_505, 10_000_000) == 213
  {
    assert TruncDiv(-2_147_483_520, 10_000_000) == -214;
    assert ArduinoMap(8_421_504, 0, 10_000_000, 255, 0) == 41;
    assert Long32(8_421_505 * -255) == 2_147_483_521;
    assert TruncDiv(2_147_483_521, 10_000_000) == 214;
    assert ArduinoMap(8_421_505, 0, 10_000_000, 255, 0) == 469;
  }

  /** The strip repainted at `level`: every lit pixel keeps its hue at full saturation; black pixels stay black. */
  function Faded(pixels: seq<Color>, level: u8, hsv: Hsv, hueOf: Color -> u16): (r: seq<Color>)
    ensures |r| == |pixels|
    ensures forall i :: 0 <= i < |pixels| ==>
      r[i] == if pixels[i] == BLACK then BLACK else Pack(hsv(hueOf(pixels[i]), 255, level))
  {
    seq(|pixels|, i requires 0 <= i < |pixels| =>
      if pixels[i] == BLACK then BLACK else Pack(hsv(hueOf(pixels[i]), 255, level)))
  }

  /** `fadeOut` divides by the duration except on a restart call or once it has faded to 0. */
  predicate FadeDefined(s: FadeState, duration: u32, restart: bool)
  {
    restart || s.lastFadeLevel == 0 || 0 < duration
  }

  /** One call of `fadeOut`. */
  function FadeOutStep(s: FadeState, pixels: seq<Color>, duration: u32, restart: bool, now: u32,
                       hsv: Hsv, hueOf: Color -> u16): (r: Frame<FadeState>)
    requires FadeDefined(s, duration, restart)
    ensures |r.pixels| == |pixels|
    ensures restart ==> r.state == FadeState(now, 255) && r.pixels == pixels && !r.finished
    ensures !restart && s.lastFadeLevel == 0 ==> r.state == s && r.pixels == pixels && r.finished
    ensures !restart && s.lastFadeLevel != 0 ==>
      var level := FadeLevel(Diff32(now, s.startTimeMillis), duration);
      && r.state == s.(lastFadeLevel := level)
      && r.pixels == (if level == s.lastFadeLevel then pixels else Faded(pixels, level, hsv, hueOf))
      && (r.finished <==> level == 0)
    ensures forall i :: 0 <= i < |pixels| && pixels[i] == BLACK ==> r.pixels[i] == BLACK
  {
    if restart then Frame(FadeState(now, 255), pixels, false)
    else if s.lastFadeLevel == 0 then Frame(s, pixels, true)
    else
      var level := FadeLevel(Diff32(now, s.startTimeMillis), duration);
      if level != s.lastFadeLevel then Frame(s.(lastFadeLevel := level), Faded(pixels, level, hsv, hueOf), level == 0)
      else Frame(s, pixels, false)
  }

  /**
   * A call exactly at the end of the duration (measured as a uint32_t
   * difference, so also across the clock wrap) finishes the fade, and every
   * call after it keeps reporting so.
   */
  lemma FadeOutFinishesAtDuration(s: FadeState, pixels: seq<Color>, duration: u32, hsv: Hsv, hueOf: Color -> u16,
                                  now: u32, later: u32)
    requires 0 < duration && 255 * duration < 0x8000_0000
    requires s.lastFadeLevel != 0 && Diff32(now, s.startTimeMillis) == duration
    ensures var r := FadeOutStep(s, pixels, duration, false, now, hsv, hueOf);
      && r.finished && r.state.lastFadeLevel == 0
      && (forall i :: 0 <= i < |pixels| ==> r.pixels[i] == BLACK || r.pixels[i] == Pack(hsv(hueOf(pixels[i]), 255, 0)))
      && FadeOutStep(r.state, r.pixels, duration, false, later, hsv, hueOf).finished
  {
    MulDivCancel(255, duration);
    assert FadeLevel(duration, duration) == 0;
  }

  /**
   * A call of a running fade finishes it exactly when `255 * elapsed / duration`
   * is 255 modulo 256, `elapsed` being the uint32_t time since the restart.
   */
  lemma FadeOutFinishesIff(s: FadeState, pixels: seq<Color>, duration: u32, hsv: Hsv, hueOf: Color -> u16, now: u32)
    requires 0 < duration < 0x8000_0000 && s.lastFadeLevel != 0
    requires 255 * Diff32(now, s.startTimeMillis) < 0x8000_0000
    ensures FadeOutStep(s, pixels, duration, false, now, hsv, hueOf).finished <==>
      (255 * Diff32(now, s.startTimeMillis) / duration) % 0x100 == 255
  {
    FadeLevelZeroIff(Diff32(now, s.startTimeMillis), duration);
  }

  /**
   * A 100 ms fade called 1 ms late, after the level 3 of 99 ms, does not
   * finish: it brightens the strip again instead.
   */
  lemma FadeOutMissesEnd(pixels: seq<Color>, hsv: Hsv, hueOf: Color -> u16)
    ensures var r := FadeOutStep(FadeState(0, 3), pixels, 100, false, 101, hsv, hueOf);
      !r.finished && r.state.lastFadeLevel == 254
  {
    FadeLevelWrapsPastDuration();
  }

  // -------------------------------------------------------- rainbowFade2White

  const FADE_MAX: int := 100

  /** The update of `fadeVal` at the end of the iteration whose first pixel hue is `firstPixelHue`. */
  function FadeStep(fadeVal: int, firstPixelHue: int, lastLoopStart: int): (next: int)
    requires 0 <= fadeVal <= FADE_MAX
    ensures 0 <= next <= FADE_MAX
  {
    if firstPixelHue < 65536 then (if fadeVal < FADE_MAX then fadeVal + 1 else fadeVal)
    else if firstPixelHue >= lastLoopStart then (if fadeVal > 0 then fadeVal - 1 else fadeVal)
    else FADE_MAX
  }

  /** `fadeVal` at the start of iteration `k` (first pixel hue `256 * k`). */
  ghost function FadeValAt(k: nat, lastLoopStart: int): (v: int)
    ensures 0 <= v <= FADE_MAX
  {
    if k == 0 then 0 else FadeStep(FadeValAt(k - 1, lastLoopStart), 256 * (k - 1), lastLoopStart)
  }

  /** The first loop around the colour wheel fades in, one step per iteration. */
  lemma {:induction false} RainbowFadesIn(k: nat, lastLoopStart: int)
    requires k <= 256
    ensures FadeValAt(k, lastLoopStart) == if k < FADE_MAX then k else FADE_MAX
  {
    if k > 0 {
      RainbowFadesIn(k - 1, lastLoopStart);
    }
  }

  /** With `rainbowLoops` at least 2, the interim loops run at full brightness. */
  lemma {:induction false} RainbowFullBetween(k: nat, loops: int)
    requires 2 <= loops && 256 <= k <= 256 * (loops - 1)
    ensures FadeValAt(k, (loops - 1) * 65536) == FADE_MAX
  {
    if k == 256 {
      RainbowFadesIn(256, (loops - 1) * 65536);
    }
  }

  /** The last loop fades out one step per iteration, from full brightness down to dark. */
  lemma {:induction false} RainbowFadesOut(k: nat, loops: int)
    requires 2 <= loops && 256 * (loops - 1) <= k <= 256 * loops
    ensures FadeValAt(k, (loops - 1) * 65536) ==
      if k - 256 * (loops - 1) < FADE_MAX then FADE_MAX - (k - 256 * (loops - 1)) else 0
  {
    if k == 256 * (loops - 1) {
      RainbowFullBetween(k, loops);
    } else {
      RainbowFadesOut(k - 1, loops);
    }
  }

  /** With a single loop the first-loop branch wins throughout: the strip fades in and never fades out. */
  lemma RainbowSingleLoopEndsBright()
    ensures FadeValAt(255, 0) == FADE_MAX
  {
    RainbowFadesIn(255, 0);
  }

  /** With `rainbowLoops` at least 2 the last frame is shown at brightness 0. */
  lemma RainbowEndsDark(loops: int)
    requires 2 <= loops
    ensures FadeValAt(256 * loops - 1, (loops - 1) * 65536) == 0
  {
    RainbowFadesOut(256 * loops - 1, loops);
  }

  /** The value (brightness) argument `255 * fadeVal / fadeMax`. */
  function Brightness(fadeVal: int): (v: u8)
    requires 0 <= fadeVal <= FADE_MAX
    ensures fadeVal == 0 ==> v == 0
    ensures fadeVal == FADE_MAX ==> v == 255
  {
    255 * fadeVal / FADE_MAX
  }

  /** The hue offset of pixel `i`: one turn of the colour wheel along the strip, `i * 65536L / n`. */
  function PixelHueOffset(i: nat, n: nat): (h: int)
    requires i < n
    ensures 0 <= h < 65536
  {
    DivBelow(i, 65536, n);
    i * 65536 / n
  }

  /** The strip shown by the iteration with first pixel hue `firstPixelHue` and fade `fadeVal`. */
  function RainbowFrame(n: nat, firstPixelHue: int, fadeVal: int, hsv: Hsv, gamma: Gamma): (r: seq<Color>)
    requires 0 <= fadeVal <= FADE_MAX
    ensures |r| == n
    ensures forall i :: 0 <= i < n ==>
      r[i] == Pack(gamma(hsv(Wrap16(firstPixelHue + PixelHueOffset(i, n)), 255, Brightness(fadeVal))))
  {
    seq<Color>(n, i requires 0 <= i < n =>
      Pack(gamma(hsv(Wrap16(firstPixelHue + PixelHueOffset(i, n)), 255, Brightness(fadeVal)))))
  }

  /** The start `(rainbowLoops - 1) * 65536` of the last loop, an int compared as uint32_t. */
  function LastLoopStart(loops: int): (start: u32)
    requires -0x8000 < loops < 0x8000
    ensures 1 <= loops ==> start == (loops - 1) * 65536
    ensures loops < 1 ==> start == (loops - 1) * 65536 + U32_MODULUS
  {
    65536 * Wrap16(loops - 1)
  }

  /** The loop bound `rainbowLoops * 65536`, an int compared as uint32_t: a whole number of 256-hue steps. */
  function RainbowLimit(loops: int): (limit: u32)
    requires -0x8000 < loops < 0x8000
    ensures 0 <= loops ==> limit == loops * 65536
    ensures loops < 0 ==> limit == loops * 65536 + U32_MODULUS
    ensures limit == 256 * (256 * Wrap16(loops))
  {
    65536 * Wrap16(loops)
  }

  /** The inner loop of `rainbowFade2White`: paints every pixel of one frame. */
  method PaintRainbow(strip: array<Color>, firstPixelHue: u32, fadeVal: int, hsv: Hsv, gamma: Gamma)
    requires 0 <= fadeVal <= FADE_MAX && strip.Length <= 0x8000
    modifies strip
    ensures strip[..] == RainbowFrame(strip.Length, firstPixelHue, fadeVal, hsv, gamma)
  {
    var n := strip.Length;
    ghost var frame := RainbowFrame(n, firstPixelHue, fadeVal, hsv, gamma);
    var i := 0;
    while i < n
      invariant 0 <= i <= n
      invariant forall j :: 0 <= j < i ==> strip[j] == frame[j]
    {
      var pixelHue := Wrap16(firstPixelHue + i * 65536 / n);
      strip[i] := Pack(gamma(hsv(pixelHue, 255, 255 * fadeVal / FADE_MAX)));
      i := i + 1;
    }
  }

  /** `shown` holds the first frames of the rainbow fade, in order. */
  ghost predicate RainbowFrames(shown: seq<seq<Color>>, n: nat, lastLoopStart: int, hsv: Hsv, gamma: Gamma)
  {
    forall k :: 0 <= k < |shown| ==> shown[k] == RainbowFrameAt(k, n, lastLoopStart, hsv, gamma)
  }

  /** The frame shown by iteration `k` of the rainbow fade. */
  ghost function RainbowFrameAt(k: nat, n: nat, lastLoopStart: int, hsv: Hsv, gamma: Gamma): seq<Color>
  {
    RainbowFrame(n, 256 * k, FadeValAt(k, lastLoopStart), hsv, gamma)
  }

  lemma RainbowFramesExtend(shown: seq<seq<Color>>, frame: seq<Color>, n: nat, lastLoopStart: int, hsv: Hsv, gamma: Gamma)
    requires RainbowFrames(shown, n, lastLoopStart, hsv, gamma)
    requires frame == RainbowFrameAt(|shown|, n, lastLoopStart, hsv, gamma)
    ensures RainbowFrames(shown + [frame], n, lastLoopStart, hsv, gamma)
  {
    forall k | 0 <= k < |shown| + 1
      ensures (shown + [frame])[k] == RainbowFrameAt(k, n, lastLoopStart, hsv, gamma)
    {
      if k < |shown| {
        assert (shown + [frame])[k] == shown[k];
      }
    }
  }

  /**
   * `rainbowFade2White(wait, rainbowLoops, strip)`: the first pixel hue steps
   * by 256 from 0 up to `rainbowLoops * 65536`; each iteration paints the
   * whole strip (shown, then `wait` ms of delay) and updates the fade. The
   * frames shown are returned in `shown`.
   */
  method RainbowFade2White(rainbowLoops: int, strip: array<Color>, hsv: Hsv, gamma: Gamma)
    returns (ghost shown: seq<seq<Color>>)
    requires -0x8000 < rainbowLoops < 0x8000
    requires strip.Length <= 0x8000
    modifies strip
    ensures 256 * |shown| == RainbowLimit(rainbowLoops)
    ensures |shown| == 256 * Wrap16(rainbowLoops)
    ensures RainbowFrames(shown, strip.Length, LastLoopStart(rainbowLoops), hsv, gamma)
    ensures shown == [] ==> strip[..] == old(strip[..])
    ensures shown != [] ==> strip[..] == shown[|shown| - 1]
  {
    var n := strip.Length;
    var limit := RainbowLimit(rainbowLoops);
    var lastLoopStart := LastLoopStart(rainbowLoops);
    var fadeVal := 0;
    var firstPixelHue: u32 := 0;
    shown := [];
    while firstPixelHue < limit
      invariant firstPixelHue == 256 * |shown| && |shown| <= 256 * Wrap16(rainbowLoops)
      invariant fadeVal == FadeValAt(|shown|, lastLoopStart)
      invariant RainbowFrames(shown, n, lastLoopStart, hsv, gamma)
      invariant shown == [] ==> strip[..] == old(strip[..])
      invariant shown != [] ==> strip[..] == shown[|shown| - 1]
      decreases limit - firstPixelHue
    {
      assert |shown| < 256 * Wrap16(rainbowLoops);
      PaintRainbow(strip, firstPixelHue, fadeVal, hsv, gamma);
      RainbowFramesExtend(shown, strip[..], n, lastLoopStart, hsv, gamma);
      shown := shown + [strip[..]];
      fadeVal := FadeStep(fadeVal, firstPixelHue, lastLoopStart);
      firstPixelHue := firstPixelHue + 256;
    }
  }

  /** The loop of `fadeOut` over the pixels: every lit pixel is repainted at `level`. */
  method Repaint(strip: array<Color>, level: u8, hsv: Hsv, hueOf: Color -> u16)
    modifies strip
    ensures strip[..] == Faded(old(strip[..]), level, hsv, hueOf)
  {
    ghost var target := Faded(strip[..], level, hsv, hueOf);
    var i := 0;
    while i < strip.Length
      invariant 0 <= i <= strip.Length
      invariant forall j :: 0 <= j < i ==> strip[j] == target[j]
      invariant forall j :: i <= j < strip.Length ==> strip[j] == old(strip[j])
    {
      var pixelColor := GetPixelColor(strip, i);
      if pixelColor != 0 {
        SetPixelColor(strip, i, hsv(hueOf(pixelColor), 255, level));
      }
      i := i + 1;
    }
  }

  // ------------------------------------------------------------------ classes

  /** `dotPingPong(color, duration, restart, strip)`: its own static plus the statics of the two wipes it calls. */
  class DotPingPong {
    var isPongMode: bool
    const up: DotWipeUp
    const down: DotWipeDown

    function State(): PingPongState
      reads this, up, down
    {
      PingPongState(isPongMode, up.State(), down.State())
    }

    constructor (up: DotWipeUp, down: DotWipeDown)
      ensures this.up == up && this.down == down && !isPongMode
    {
      this.up := up;
      this.down := down;
      isPongMode := false;
    }

    method Step(color: u32, duration: u32, restart: bool, now: u32, strip: array<Color>) returns (finished: bool)
      requires StripFits(strip.Length) && DotDelayFits(duration / 2, strip.Length)
      modifies this, up, down, strip
      ensures Frame(State(), strip[..], finished) == PingPongStep(old(State()), old(strip[..]), color, duration, restart, now)
    {
      if restart {
        isPongMode := false;
        var _ := up.Step(color, duration / 2, restart, now, strip);
        var _ := down.Step(color, duration / 2, restart, now, strip);
        return false;
      }
      if isPongMode {
        finished := up.Step(color, duration / 2, false, now, strip);
        return;
      } else {
        isPongMode := down.Step(color, duration / 2, false, now, strip);
      }
      return false;
    }
  }

  /** `police(duration, restart, strip)` with its statics. */
  class Police {
    var previousMillis: u32
    var isBluePhase: bool

    function State(): PoliceState
      reads this
    {
      PoliceState(previousMillis, isBluePhase)
    }

    constructor ()
      ensures State() == PoliceState(0, false)
    {
      previousMillis, isBluePhase := 0, false;
    }

    method Step(duration: u32, restart: bool, now: u32, strip: array<Color>) returns (finished: bool)
      requires StripFits(strip.Length)
      modifies this, strip
      ensures Frame(State(), strip[..], finished) == PoliceStep(old(State()), old(strip[..]), duration, restart, now)
    {
      if restart {
        previousMillis, isBluePhase := 0, false;
        return false;
      }
      var delay := Wrap16(duration / 2);
      if Diff32(now, previousMillis) >= delay {
        previousMillis := now;
        var n := strip.Length;
        if isBluePhase {
          ClearStrip(strip);
          FillStrip(strip, POLICE_BLUE, 0, n / 2 + 1);
          isBluePhase := false;
        } else {
          ClearStrip(strip);
          FillStrip(strip, POLICE_RED, n / 2, n);
          isBluePhase := true;
        }
      }
      return false;
    }
  }

  /** `fadeOut(duration, restart, strip)` with its statics. */
  class FadeOut {
    var startTimeMillis: u32
    var lastFadeLevel: u8

    function State(): FadeState
      reads this
    {
      FadeState(startTimeMillis, lastFadeLevel)
    }

    constructor ()
      ensures State() == FadeState(0, 255)
    {
      startTimeMillis, lastFadeLevel := 0, 255;
    }

    method Step(duration: u32, restart: bool, now: u32, strip: array<Color>, hsv: Hsv, hueOf: Color -> u16)
      returns (finished: bool)
      requires FadeDefined(State(), duration, restart)
      modifies this, strip
      ensures Frame(State(), strip[..], finished) ==
        FadeOutStep(old(State()), old(strip[..]), duration, restart, now, hsv, hueOf)
    {
      if restart {
        startTimeMillis, lastFadeLevel := now, 255;
        return false;
      }
      if lastFadeLevel == 0 {
        return true;
      }
      var fadeLevel := FadeLevel(Diff32(now, startTimeMillis), duration);
      if lastFadeLevel != fadeLevel {
        lastFadeLevel := fadeLevel;
        Repaint(strip, fadeLevel, hsv, hueOf);
      }
      return lastFadeLevel == 0;
    }
  }
}
