/**
 * The button multi-click / hold state machine of src/system/physical/button.cpp.
 *
 * The pin-change interrupt (`button_state_interrupt`) only registers presses
 * and timestamps them; the polling step (`handle_events`) decides when a burst
 * of presses is over and reports it through two callbacks, modelled here as
 * the sequence of `Event`s one poll emits. Time is the uint32_t millisecond
 * clock, passed in as `now`; every time difference wraps around as on the
 * device. The interrupt is an atomic step between two polls.
 */
module Button {
  import opened Uint

  /** After this much time without a press, a burst of clicks is reported. */
  const RELEASE_TIMING_MS: u32 := 200
  /** A press closer than this to the previous one is a bounce and is not counted. */
  const RELEASE_BETWEEN_CLICKS: u32 := 50

  /** One callback invocation: `clickSerieCallback(count)` or `clickHoldSerieCallback(count, duration)`. */
  datatype Event = Click(count: u8) | ClickHold(count: u8, duration: u32)

  /** The `buttonState` fields plus the two file-level flags of button.cpp. */
  datatype ButtonState = ButtonState(
    nbClicksCounted: u8,
    lastPressTime: u32,
    firstHoldTime: u32,
    isPressed: bool,
    isLongPressed: bool,
    wasTriggered: bool,
    pressDetected: bool,       // wasButtonPressedDetected
    isSystemStartClick: bool)

  /** The state at boot: a default-constructed `ButtonStateTy`, no press seen, start click pending. */
  const Initial: ButtonState := ButtonState(0, 0, 0, false, false, false, false, true)

  /** A press registered by the interrupt counts as a new click. */
  predicate CountsAsClick(s: ButtonState, now: u32)
  {
    Diff32(now, s.lastPressTime) > RELEASE_BETWEEN_CLICKS && !s.isLongPressed
  }

  /** `button_state_interrupt()`, with the pin level and the clock as inputs. */
  function OnInterrupt(s: ButtonState, pressed: bool, now: u32): (r: ButtonState)
    ensures r.pressDetected == pressed
    ensures pressed ==> r.lastPressTime == now && r.wasTriggered && r.isPressed
    ensures pressed && CountsAsClick(s, now) ==>
      r.nbClicksCounted == Wrap8(s.nbClicksCounted + 1) && r.firstHoldTime == now
    ensures !(pressed && CountsAsClick(s, now)) ==>
      r.nbClicksCounted == s.nbClicksCounted && r.firstHoldTime == s.firstHoldTime
    ensures !pressed ==> r == s.(pressDetected := false)
    ensures r.isLongPressed == s.isLongPressed && r.isSystemStartClick == s.isSystemStartClick
  {
    if pressed then
      var counted := CountsAsClick(s, now);
      s.(nbClicksCounted := if counted then Wrap8(s.nbClicksCounted + 1) else s.nbClicksCounted,
         firstHoldTime := if counted then now else s.firstHoldTime,
         lastPressTime := now,
         wasTriggered := true,
         isPressed := true,
         pressDetected := true)
    else
      s.(pressDetected := false)
  }

  /** `init(isSystemStartedFromButton)`: a wake-up by the button simulates the first click. */
  function OnInit(s: ButtonState, startedFromButton: bool, pressed: bool, tInterrupt: u32, tInit: u32): (r: ButtonState)
    ensures startedFromButton ==>
      r.nbClicksCounted == 1 && r.wasTriggered && r.isPressed && r.lastPressTime == tInit
    ensures startedFromButton ==> r.pressDetected == pressed
    ensures !startedFromButton ==> r == s
    ensures r.isSystemStartClick == s.isSystemStartClick && r.isLongPressed == s.isLongPressed
  {
    if startedFromButton then
      OnInterrupt(s, pressed, tInterrupt).(nbClicksCounted := 1, lastPressTime := tInit,
                                         wasTriggered := true, isPressed := true)
    else
      s
  }

  /** The long-press status a poll at `now` computes. */
  predicate LongPressed(s: ButtonState, holdMinMs: u32, now: u32)
  {
    s.isPressed && Diff32(now, s.firstHoldTime) > holdMinMs
  }

  /** A poll at `now` ends the current burst and reports it. */
  predicate Flushes(s: ButtonState, holdMinMs: u32, now: u32)
  {
    var sinceLastCall := Diff32(now, s.lastPressTime);
    s.wasTriggered &&
      (sinceLastCall > RELEASE_TIMING_MS ||
       (LongPressed(s, holdMinMs, now) && sinceLastCall > RELEASE_TIMING_MS / 2))
  }

  /** The state after one poll and the callbacks it made, in order. */
  datatype Poll = Poll(state: ButtonState, events: seq<Event>)

  /** `handle_events(clickSerieCallback, clickHoldSerieCallback)` at time `now`. */
  function OnPoll(s: ButtonState, holdMinMs: u32, now: u32): (r: Poll)
    ensures |r.events| <= 1
    ensures Flushes(s, holdMinMs, now) ==>
      r.events == [if LongPressed(s, holdMinMs, now) then ClickHold(s.nbClicksCounted, 0)
                   else Click(s.nbClicksCounted)]
    ensures Flushes(s, holdMinMs, now) ==>
      && r.state.nbClicksCounted == 0 && r.state.firstHoldTime == now
      && !r.state.isPressed && !r.state.isLongPressed && !r.state.wasTriggered
      && !r.state.isSystemStartClick
    ensures !Flushes(s, holdMinMs, now) && LongPressed(s, holdMinMs, now) ==>
      && r.events == [ClickHold(s.nbClicksCounted, Diff32(now, s.firstHoldTime))]
      && r.state.wasTriggered && r.state.isLongPressed
    ensures !Flushes(s, holdMinMs, now) && !LongPressed(s, holdMinMs, now) ==>
      r.events == [] && r.state == s.(isLongPressed := false, lastPressTime := r.state.lastPressTime)
    ensures r.state.lastPressTime == if s.pressDetected then now else s.lastPressTime
    ensures r.state.pressDetected == s.pressDetected
    ensures !s.isSystemStartClick ==> !r.state.isSystemStartClick
  {
    var sinceLastCall := Diff32(now, s.lastPressTime);
    var pressDuration := Diff32(now, s.firstHoldTime);
    var s1 := s.(isLongPressed := LongPressed(s, holdMinMs, now));
    var flush := Flushes(s, holdMinMs, now);
    var flushed :=
      if flush then [if s1.isLongPressed then ClickHold(s1.nbClicksCounted, 0) else Click(s1.nbClicksCounted)]
      else [];
    var s2 :=
      if flush then
        s1.(isSystemStartClick := false, isPressed := false, isLongPressed := false,
            nbClicksCounted := 0, firstHoldTime := now, wasTriggered := false)
      else s1;
    var s3 := if s.pressDetected then s2.(lastPressTime := now) else s2;
    if s3.isLongPressed then
      Poll(s3.(wasTriggered := true), flushed + [ClickHold(s3.nbClicksCounted, pressDuration)])
    else
      Poll(s3, flushed)
  }

  /** The pin-level inputs the core sees: a pin change (interrupt) or a poll. */
  datatype Input = Edge(pressed: bool, at: u32) | Tick(at: u32)

  /** Feeds a sequence of inputs to the state machine and collects every callback. */
  function Run(s: ButtonState, holdMinMs: u32, inputs: seq<Input>): (r: Poll)
    decreases |inputs|
  {
    if inputs == [] then Poll(s, [])
    else
      match inputs[0]
      case Edge(pressed, at) => Run(OnInterrupt(s, pressed, at), holdMinMs, inputs[1..])
      case Tick(at) =>
        var p := OnPoll(s, holdMinMs, at);
        var rest := Run(p.state, holdMinMs, inputs[1..]);
        Poll(rest.state, p.events + rest.events)
  }

  /** Once the start click has been reported, no step makes it pending again. */
  lemma StartClickNeverReturns(s: ButtonState, holdMinMs: u32, inputs: seq<Input>)
    requires !s.isSystemStartClick
    ensures !Run(s, holdMinMs, inputs).state.isSystemStartClick
    decreases |inputs|
  {
    if inputs != [] {
      match inputs[0]
      case Edge(pressed, at) => StartClickNeverReturns(OnInterrupt(s, pressed, at), holdMinMs, inputs[1..]);
      case Tick(at) => StartClickNeverReturns(OnPoll(s, holdMinMs, at).state, holdMinMs, inputs[1..]);
    }
  }

  /**
   * Three presses 150 ms apart (each released 80 ms later, with a poll in
   * between) followed by 300 ms of inactivity: exactly one `Click(3)` and no
   * hold callback, and the burst is cleared afterwards.
   */
  lemma ThreeClicksReportedOnce(holdMinMs: u32)
    requires holdMinMs >= 300
    ensures Run(Initial, holdMinMs,
                [Edge(true, 1000), Edge(false, 1080), Tick(1090),
                 Edge(true, 1150), Edge(false, 1230), Tick(1240),
                 Edge(true, 1300), Edge(false, 1380), Tick(1390),
                 Tick(1600), Tick(1700)]).events == [Click(3)]
  {
    var s1 := OnInterrupt(OnInterrupt(Initial, true, 1000), false, 1080);
    assert s1.nbClicksCounted == 1 && s1.firstHoldTime == 1000;
    var p1 := OnPoll(s1, holdMinMs, 1090);
    assert p1.events == [] && p1.state.lastPressTime == 1000;
    var s2 := OnInterrupt(OnInterrupt(p1.state, true, 1150), false, 1230);
    assert s2.nbClicksCounted == 2 && s2.firstHoldTime == 1150;
    var p2 := OnPoll(s2, holdMinMs, 1240);
    assert p2.events == [];
    var s3 := OnInterrupt(OnInterrupt(p2.state, true, 1300), false, 1380);
    assert s3.nbClicksCounted == 3 && s3.firstHoldTime == 1300;
    var p3 := OnPoll(s3, holdMinMs, 1390);
    assert p3.events == [];
    var p4 := OnPoll(p3.state, holdMinMs, 1600);
    assert p4.events == [Click(3)];
    var p5 := OnPoll(p4.state, holdMinMs, 1700);
    assert p5.events == [];
    assert Run(p4.state, holdMinMs, [Tick(1700)]).events == [];
    assert Run(p3.state, holdMinMs, [Tick(1600), Tick(1700)]).events == [Click(3)];
  }

  /** One press of a burst: pressed at `at`, released at `releasedAt`, then polled at the times `polls`. */
  datatype Press = Press(at: u32, releasedAt: u32, polls: seq<u32>)

  /** Polls at the given times, as inputs. */
  function Ticks(times: seq<u32>): seq<Input>
    decreases |times|
  {
    if times == [] then [] else [Tick(times[0])] + Ticks(times[1..])
  }

  /** The inputs of one press: its two edges, then its polls. */
  function PressInputs(p: Press): seq<Input>
  {
    [Edge(true, p.at), Edge(false, p.releasedAt)] + Ticks(p.polls)
  }

  /** The inputs of a burst of presses, one after the other. */
  function BurstInputs(presses: seq<Press>): seq<Input>
    decreases |presses|
  {
    if presses == [] then [] else PressInputs(presses[0]) + BurstInputs(presses[1..])
  }

  /** Each press comes more than `RELEASE_BETWEEN_CLICKS` after the previous one (the first after `last`). */
  predicate Spaced(last: u32, presses: seq<Press>)
  {
    && (|presses| > 0 ==> Diff32(presses[0].at, last) > RELEASE_BETWEEN_CLICKS)
    && (forall i :: 0 < i < |presses| ==> Diff32(presses[i].at, presses[i - 1].at) > RELEASE_BETWEEN_CLICKS)
  }

  /** The polls after a press come at most `RELEASE_TIMING_MS` and at most `holdMinMs` after it. */
  predicate QuietAfter(p: Press, holdMinMs: u32)
  {
    forall j :: 0 <= j < |p.polls| ==>
      Diff32(p.polls[j], p.at) <= RELEASE_TIMING_MS && Diff32(p.polls[j], p.at) <= holdMinMs
  }

  /** The state after one more counted click, pressed at `at` and released. */
  function Clicked(s: ButtonState, at: u32): ButtonState
  {
    s.(nbClicksCounted := Wrap8(s.nbClicksCounted + 1), firstHoldTime := at, lastPressTime := at,
       wasTriggered := true, isPressed := true, pressDetected := false)
  }

  /** Running two input sequences one after the other. */
  lemma {:induction false} RunAppend(s: ButtonState, holdMinMs: u32, first: seq<Input>, later: seq<Input>)
    ensures var a := Run(s, holdMinMs, first);
      var b := Run(a.state, holdMinMs, later);
      Run(s, holdMinMs, first + later) == Poll(b.state, a.events + b.events)
    decreases |first|
  {
    if first == [] {
      assert first + later == later;
    } else {
      assert (first + later)[0] == first[0];
      assert (first + later)[1..] == first[1..] + later;
      match first[0]
      case Edge(pressed, at) =>
        RunAppend(OnInterrupt(s, pressed, at), holdMinMs, first[1..], later);
      case Tick(at) =>
        var p := OnPoll(s, holdMinMs, at);
        RunAppend(p.state, holdMinMs, first[1..], later);
        var a := Run(p.state, holdMinMs, first[1..]);
        var b := Run(a.state, holdMinMs, later);
        assert p.events + (a.events + b.events) == (p.events + a.events) + b.events;
    }
  }

  /**
   * Polls of a released button that see neither a long press nor
   * `RELEASE_TIMING_MS` without a press change nothing and report nothing.
   */
  lemma {:induction false} QuietTicks(s: ButtonState, holdMinMs: u32, times: seq<u32>)
    requires !s.pressDetected && !s.isLongPressed
    requires forall i :: 0 <= i < |times| ==>
      Diff32(times[i], s.lastPressTime) <= RELEASE_TIMING_MS && Diff32(times[i], s.firstHoldTime) <= holdMinMs
    ensures Run(s, holdMinMs, Ticks(times)) == Poll(s, [])
    decreases |times|
  {
    if times != [] {
      var inputs := Ticks(times);
      assert inputs[0] == Tick(times[0]) && inputs[1..] == Ticks(times[1..]);
      assert !LongPressed(s, holdMinMs, times[0]) && !Flushes(s, holdMinMs, times[0]);
      assert OnPoll(s, holdMinMs, times[0]) == Poll(s, []);
      QuietTicks(s, holdMinMs, times[1..]);
    }
  }

  /** A press spaced from the previous one, released, then polled quietly: one more click, nothing reported. */
  lemma OneClick(s: ButtonState, holdMinMs: u32, p: Press)
    requires !s.isLongPressed && Diff32(p.at, s.lastPressTime) > RELEASE_BETWEEN_CLICKS
    requires QuietAfter(p, holdMinMs)
    ensures Run(s, holdMinMs, PressInputs(p)) == Poll(Clicked(s, p.at), [])
  {
    var inputs := PressInputs(p);
    assert inputs[0] == Edge(true, p.at) && inputs[1..][0] == Edge(false, p.releasedAt);
    assert inputs[1..][1..] == Ticks(p.polls);
    var s1 := OnInterrupt(OnInterrupt(s, true, p.at), false, p.releasedAt);
    assert s1 == Clicked(s, p.at);
    QuietTicks(s1, holdMinMs, p.polls);
  }

  /** A burst of spaced presses, each polled quietly: every press is counted and nothing is reported yet. */
  lemma {:induction false} BurstCounts(s: ButtonState, holdMinMs: u32, presses: seq<Press>)
    requires !s.isLongPressed && Spaced(s.lastPressTime, presses)
    requires forall i :: 0 <= i < |presses| ==> QuietAfter(presses[i], holdMinMs)
    ensures var r := Run(s, holdMinMs, BurstInputs(presses));
      && r.events == []
      && (presses == [] ==> r.state == s)
      && (presses != [] ==>
            r.state == Clicked(s, presses[|presses| - 1].at).(
              nbClicksCounted := (s.nbClicksCounted + |presses|) % 0x100))
    decreases |presses|
  {
    if presses != [] {
      var s1 := Clicked(s, presses[0].at);
      var rest := presses[1..];
      OneClick(s, holdMinMs, presses[0]);
      BurstTail(holdMinMs, presses);
      BurstCounts(s1, holdMinMs, rest);
      RunAppend(s, holdMinMs, PressInputs(presses[0]), BurstInputs(rest));
      assert Run(s, holdMinMs, BurstInputs(presses)) == Run(s1, holdMinMs, BurstInputs(rest));
      if rest != [] {
        var last := presses[|presses| - 1].at;
        assert rest[|rest| - 1] == presses[|presses| - 1];
        CountStep(s.nbClicksCounted, |rest|);
        var count := (s.nbClicksCounted + |presses|) % 0x100;
        assert Clicked(s1, last).(nbClicksCounted := count) == Clicked(s, last).(nbClicksCounted := count);
      }
    }
  }

  /** The presses after the first of a burst are again spaced, from the first one, and quietly polled. */
  lemma BurstTail(holdMinMs: u32, presses: seq<Press>)
    requires presses != []
    requires forall i :: 0 < i < |presses| ==> Diff32(presses[i].at, presses[i - 1].at) > RELEASE_BETWEEN_CLICKS
    requires forall i :: 0 <= i < |presses| ==> QuietAfter(presses[i], holdMinMs)
    ensures Spaced(presses[0].at, presses[1..])
    ensures forall i :: 0 <= i < |presses| - 1 ==> QuietAfter(presses[1..][i], holdMinMs)
  {
    var rest := presses[1..];
    forall i | 0 < i < |rest|
      ensures Diff32(rest[i].at, rest[i - 1].at) > RELEASE_BETWEEN_CLICKS
    {
      assert rest[i] == presses[i + 1] && rest[i - 1] == presses[i];
    }
    assert forall i :: 0 <= i < |rest| ==> rest[i] == presses[i + 1];
  }

  /** Counting one click, then `k` more, on the uint8_t counter. */
  lemma CountStep(c: u8, k: nat)
    ensures (Wrap8(c + 1) + k) % 0x100 == (c + 1 + k) % 0x100
  {
    ModAdd(c + 1, k, 0x100);
  }

  /**
   * Any burst: from an idle button, N presses each more than
   * `RELEASE_BETWEEN_CLICKS` after the previous one, each polled within
   * `RELEASE_TIMING_MS` of it, then a poll more than `RELEASE_TIMING_MS`
   * after the last press, report exactly one `Click(N)` (N as the uint8_t
   * count) and leave the button idle again. Since the release does not clear
   * `isPressed`, every poll must also come before a long press would be
   * seen, within `holdMinMs` of the latest press.
   */
  lemma BurstReportedOnce(s: ButtonState, holdMinMs: u32, presses: seq<Press>, tEnd: u32)
    requires s.nbClicksCounted == 0 && !s.isPressed && !s.isLongPressed && !s.wasTriggered
    requires Spaced(s.lastPressTime, presses)
    requires forall i :: 0 <= i < |presses| ==> QuietAfter(presses[i], holdMinMs)
    requires presses != [] ==>
      RELEASE_TIMING_MS < Diff32(tEnd, presses[|presses| - 1].at) <= holdMinMs
    ensures var r := Run(s, holdMinMs, BurstInputs(presses) + [Tick(tEnd)]);
      && r.events == (if presses == [] then [] else [Click(|presses| % 0x100)])
      && r.state.nbClicksCounted == 0 && !r.state.isPressed && !r.state.isLongPressed && !r.state.wasTriggered
  {
    BurstCounts(s, holdMinMs, presses);
    RunAppend(s, holdMinMs, BurstInputs(presses), [Tick(tEnd)]);
    var b := Run(s, holdMinMs, BurstInputs(presses));
    assert !LongPressed(b.state, holdMinMs, tEnd);
    assert presses != [] ==> Flushes(b.state, holdMinMs, tEnd);
    assert Run(b.state, holdMinMs, [Tick(tEnd)]) == OnPoll(b.state, holdMinMs, tEnd);
  }

  /** The button is held down and the interrupt saw it down: polls keep refreshing `lastPressTime`. */
  predicate HeldDown(s: ButtonState)
  {
    s.isPressed && s.pressDetected
  }

  /** Applies only polls, at the given times. */
  function Polls(s: ButtonState, holdMinMs: u32, times: seq<u32>): (r: Poll)
    decreases |times|
  {
    if times == [] then Poll(s, [])
    else
      var p := OnPoll(s, holdMinMs, times[0]);
      var rest := Polls(p.state, holdMinMs, times[1..]);
      Poll(rest.state, p.events + rest.events)
  }

  /** One poll of a button held past `holdMinMs`, at most 100 ms after the last refresh. */
  lemma HeldPoll(s: ButtonState, holdMinMs: u32, now: u32)
    requires HeldDown(s)
    requires Diff32(now, s.firstHoldTime) > holdMinMs
    requires Diff32(now, s.lastPressTime) <= RELEASE_TIMING_MS / 2
    ensures OnPoll(s, holdMinMs, now).events == [ClickHold(s.nbClicksCounted, Diff32(now, s.firstHoldTime))]
    ensures var t := OnPoll(s, holdMinMs, now).state;
      && HeldDown(t) && t.lastPressTime == now
      && t.nbClicksCounted == s.nbClicksCounted && t.firstHoldTime == s.firstHoldTime
  {
    assert LongPressed(s, holdMinMs, now);
    assert !Flushes(s, holdMinMs, now);
  }

  /**
   * The polling a held button gets: every poll past `holdMinMs` since the
   * hold started, the first at most 100 ms after the last refresh of
   * `lastPressTime`, each later one at most 100 ms after the previous one
   * (all as uint32_t differences).
   */
  predicate HeldPolling(s: ButtonState, holdMinMs: u32, times: seq<u32>)
  {
    && (forall i :: 0 <= i < |times| ==> Diff32(times[i], s.firstHoldTime) > holdMinMs)
    && (|times| > 0 ==> Diff32(times[0], s.lastPressTime) <= RELEASE_TIMING_MS / 2)
    && (forall i :: 0 < i < |times| ==> Diff32(times[i], times[i - 1]) <= RELEASE_TIMING_MS / 2)
  }

  /**
   * A press held past `holdMinMs` and polled at least every 100 ms: every
   * poll reports `ClickHold(count, d)` with the time held so far.
   */
  lemma {:induction false} HoldRepeats(s: ButtonState, holdMinMs: u32, times: seq<u32>)
    requires HeldDown(s) && HeldPolling(s, holdMinMs, times)
    ensures Polls(s, holdMinMs, times).events == HoldEvents(s.nbClicksCounted, s.firstHoldTime, times)
    decreases |times|
  {
    if times != [] {
      var t := HeldPollThen(s, holdMinMs, times);
      HoldRepeats(t, holdMinMs, times[1..]);
    }
  }

  /** One `ClickHold(count, now - first)` per poll time `now`, the difference taken on uint32_t. */
  function HoldEvents(count: u8, first: u32, times: seq<u32>): (events: seq<Event>)
    ensures |events| == |times|
    ensures forall i :: 0 <= i < |times| ==> events[i] == ClickHold(count, Diff32(times[i], first))
    decreases |times|
  {
    if times == [] then []
    else
      var rest := HoldEvents(count, first, times[1..]);
      assert forall i :: 0 < i < |times| ==> rest[i - 1] == ClickHold(count, Diff32(times[i], first));
      [ClickHold(count, Diff32(times[0], first))] + rest
  }

  /** Under the same polling, the burst stays open: the button is still held, with the same count and hold start. */
  lemma {:induction false} HoldStaysOpen(s: ButtonState, holdMinMs: u32, times: seq<u32>)
    requires HeldDown(s) && HeldPolling(s, holdMinMs, times)
    ensures var t := Polls(s, holdMinMs, times).state;
      HeldDown(t) && t.nbClicksCounted == s.nbClicksCounted && t.firstHoldTime == s.firstHoldTime
    decreases |times|
  {
    if times != [] {
      var t := HeldPollThen(s, holdMinMs, times);
      HoldStaysOpen(t, holdMinMs, times[1..]);
    }
  }

  /**
   * The first of a run of polls of a held button: one `ClickHold`, then the
   * rest of the run from state `t`, whose polling is again `HeldPolling`.
   */
  lemma HeldPollThen(s: ButtonState, holdMinMs: u32, times: seq<u32>) returns (t: ButtonState)
    requires HeldDown(s) && times != [] && HeldPolling(s, holdMinMs, times)
    ensures HeldDown(t) && t.lastPressTime == times[0]
    ensures t.nbClicksCounted == s.nbClicksCounted && t.firstHoldTime == s.firstHoldTime
    ensures HeldPolling(t, holdMinMs, times[1..])
    ensures Polls(s, holdMinMs, times).events ==
      [ClickHold(s.nbClicksCounted, Diff32(times[0], s.firstHoldTime))] + Polls(t, holdMinMs, times[1..]).events
    ensures Polls(s, holdMinMs, times).state == Polls(t, holdMinMs, times[1..]).state
  {
    HeldPoll(s, holdMinMs, times[0]);
    t := OnPoll(s, holdMinMs, times[0]).state;
    var tail := times[1..];
    forall i | 0 < i < |tail|
      ensures Diff32(tail[i], tail[i - 1]) <= RELEASE_TIMING_MS / 2
    {
      assert tail[i - 1] == times[i] && tail[i] == times[i + 1];
    }
    if tail != [] {
      assert tail[0] == times[1];
    }
  }

  /** Two uint32_t differences add up along a chain of times while their sum does not wrap. */
  lemma Diff32Chain(a: u32, b: u32, c: u32)
    requires Diff32(b, a) + Diff32(c, b) < U32_MODULUS
    ensures Diff32(c, a) == Diff32(b, a) + Diff32(c, b)
  {
  }

  /**
   * The durations the repeating hold callback reports never decrease, as
   * long as the hold lasts less than 2^32 ms (after that the uint32_t
   * duration wraps around).
   */
  lemma HoldDurationsNonDecreasing(s: ButtonState, holdMinMs: u32, times: seq<u32>)
    requires HeldDown(s) && HeldPolling(s, holdMinMs, times)
    requires forall i :: 0 < i < |times| ==>
      Diff32(times[i - 1], s.firstHoldTime) + Diff32(times[i], times[i - 1]) < U32_MODULUS
    ensures var events := Polls(s, holdMinMs, times).events;
      forall i, j :: 0 <= i < j < |events| ==>
        events[i].ClickHold? && events[j].ClickHold? && events[i].duration <= events[j].duration
  {
    HoldRepeats(s, holdMinMs, times);
    var durations := seq(|times|, i requires 0 <= i < |times| => Diff32(times[i], s.firstHoldTime));
    forall i | 0 < i < |durations|
      ensures durations[i - 1] <= durations[i]
    {
      Diff32Chain(s.firstHoldTime, times[i - 1], times[i]);
    }
    SortedFromAdjacent(durations);
    var events := Polls(s, holdMinMs, times).events;
    forall i, j | 0 <= i < j < |events|
      ensures events[i].ClickHold? && events[j].ClickHold? && events[i].duration <= events[j].duration
    {
      assert events[i].duration == durations[i] && events[j].duration == durations[j];
    }
  }

  lemma {:induction false} SortedFromAdjacent(times: seq<u32>)
    requires forall i :: 0 < i < |times| ==> times[i - 1] <= times[i]
    ensures forall i, j :: 0 <= i < j < |times| ==> times[i] <= times[j]
    decreases |times|
  {
    if |times| > 1 {
      var tail := times[1..];
      SortedFromAdjacent(tail);
      forall i, j | 0 <= i < j < |times| ensures times[i] <= times[j] {
        if i == 0 {
          assert times[0] <= tail[0] <= tail[j - 1];
        } else {
          assert tail[i - 1] <= tail[j - 1];
        }
      }
    }
  }

  /**
   * Releasing a long press: the release only clears the detected-press flag,
   * and the first poll more than 100 ms after the last refresh reports the
   * terminal `ClickHold(count, 0)` and closes the burst; a poll after that
   * reports nothing.
   */
  lemma HoldEndsWithZeroDuration(s: ButtonState, holdMinMs: u32, tRelease: u32, tEnd: u32, tLater: u32)
    requires s.isPressed && s.wasTriggered
    requires Diff32(tEnd, s.firstHoldTime) > holdMinMs
    requires Diff32(tEnd, s.lastPressTime) > RELEASE_TIMING_MS / 2
    ensures var released := OnInterrupt(s, false, tRelease);
      var p := OnPoll(released, holdMinMs, tEnd);
      && p.events == [ClickHold(s.nbClicksCounted, 0)]
      && OnPoll(p.state, holdMinMs, tLater).events == []
  {
  }

  /**
   * The button debouncer of button.cpp. Its fields are the static
   * `buttonState` and the two file-level flags; `holdMinMs` stands for
   * `HOLD_BUTTON_MIN_MS`.
   */
  class ButtonDebouncer {
    const holdMinMs: u32
    var nbClicksCounted: u8
    var lastPressTime: u32
    var firstHoldTime: u32
    var isPressed: bool
    var isLongPressed: bool
    var wasTriggered: bool
    var wasButtonPressedDetected: bool
    var isSystemStartClick: bool

    function State(): ButtonState
      reads this
    {
      ButtonState(nbClicksCounted, lastPressTime, firstHoldTime, isPressed, isLongPressed,
                  wasTriggered, wasButtonPressedDetected, isSystemStartClick)
    }

    constructor (holdMinMs: u32)
      ensures this.holdMinMs == holdMinMs && State() == Initial
    {
      this.holdMinMs := holdMinMs;
      nbClicksCounted, lastPressTime, firstHoldTime := 0, 0, 0;
      isPressed, isLongPressed, wasTriggered := false, false, false;
      wasButtonPressedDetected := false;
      isSystemStartClick := true;
    }

    /** `button_state_interrupt()`: `pressed` is the pin level, `now` the clock. */
    method Interrupt(pressed: bool, now: u32)
      modifies this
      ensures State() == OnInterrupt(old(State()), pressed, now)
    {
      if pressed {
        if Diff32(now, lastPressTime) > RELEASE_BETWEEN_CLICKS {
          if !isLongPressed {
            nbClicksCounted := Wrap8(nbClicksCounted + 1);
            firstHoldTime := now;
          }
        }
        lastPressTime := now;
        wasTriggered := true;
        isPressed := true;
      }
      wasButtonPressedDetected := pressed;
    }

    /** `init(isSystemStartedFromButton)`; the two clock reads are `tInterrupt` and `tInit`. */
    method Init(startedFromButton: bool, pressed: bool, tInterrupt: u32, tInit: u32)
      modifies this
      ensures State() == OnInit(old(State()), startedFromButton, pressed, tInterrupt, tInit)
    {
      if startedFromButton {
        Interrupt(pressed, tInterrupt);
        nbClicksCounted := 1;
        lastPressTime := tInit;
        wasTriggered := true;
        isPressed := true;
      }
    }

    /** `handle_events(...)`: returns the callbacks made, in order. */
    method HandleEvents(now: u32) returns (events: seq<Event>)
      modifies this
      ensures Poll(State(), events) == OnPoll(old(State()), holdMinMs, now)
    {
      var isButtonPressDetected := wasButtonPressedDetected;
      var sinceLastCall := Diff32(now, lastPressTime);
      var pressDuration := Diff32(now, firstHoldTime);
      events := [];

      isLongPressed := isPressed && pressDuration > holdMinMs;

      if wasTriggered &&
         (sinceLastCall > RELEASE_TIMING_MS || (isLongPressed && sinceLastCall > RELEASE_TIMING_MS / 2))
      {
        if isLongPressed {
          events := events + [ClickHold(nbClicksCounted, 0)];
        } else {
          events := events + [Click(nbClicksCounted)];
        }
        isSystemStartClick := false;
        isPressed := false;
        isLongPressed := false;
        nbClicksCounted := 0;
        firstHoldTime := now;
        wasTriggered := false;
      }

      if isButtonPressDetected {
        lastPressTime := now;
      }

      if isLongPressed {
        wasTriggered := true;
        events := events + [ClickHold(nbClicksCounted, pressDuration)];
      }
    }

    /** `is_system_start_click()` */
    function IsSystemStartClick(): (b: bool)
      reads this
      ensures b == State().isSystemStartClick
    {
      isSystemStartClick
    }
  }
}
