/**
 * The default button behaviour of the indexable lamp: what a burst of clicks
 * does (next mode, next group, jump to a favourite) and what a burst of
 * clicks followed by a hold does (set the custom ramp, scroll backward or
 * forward across every (group, mode) pair, pick a favourite).
 *
 * The handlers that the behaviour only calls into are parameters or results:
 * the ramp handlers' `update_ramp` becomes the ramp value it hands to its
 * callback (`None` when it does not call it on this event), `jump_to_favorite`
 * becomes the favourite index returned by the click method, and
 * `_animate_favorite_pick` becomes the boolean returned by the hold method.
 */
module IndexableBehavior {
  import opened Uint
  import opened Modes

  datatype Option<T> = None | Some(value: T)

  /** Presses of the 4-click action closer together than this walk through the favourites. */
  const FAVORITE_WINDOW_MS: u32 := 2000
  /** The number of favourite slots the counter cycles through. */
  const FAVORITE_COUNT: nat := 4
  /** A ramp value below this scrolls backward, any other scrolls forward. */
  const SCROLL_MIDPOINT: u8 := 128
  /** A 5-click hold picks a favourite once it lasted longer than this. */
  const FAVORITE_PICK_MIN_MS: u32 := 10

  // ---------------------------------------------------------------------------
  // Favourites (4 clicks)
  // ---------------------------------------------------------------------------

  /** `state.lastFavoriteStep` and `state.lastFavoriteJump`. */
  datatype Favorites = Favorites(lastFavoriteStep: u8, lastFavoriteJump: u32)

  /** The favourite slot a step selects: `lastFavoriteStep % 4`. */
  function FavoriteSlot(f: Favorites): (slot: nat)
    ensures slot < FAVORITE_COUNT
  {
    f.lastFavoriteStep % FAVORITE_COUNT
  }

  /**
   * One 4-click press at time `now`: after a pause longer than the window the
   * step starts again at 0, otherwise it moves one on (a uint8_t, so 255 is
   * followed by 0); the time of the press is recorded either way.
   */
  function FavoriteJump(f: Favorites, now: u32): (r: Favorites)
    ensures r.lastFavoriteJump == now
    ensures Diff32(now, f.lastFavoriteJump) > FAVORITE_WINDOW_MS ==> FavoriteSlot(r) == 0
    ensures Diff32(now, f.lastFavoriteJump) <= FAVORITE_WINDOW_MS ==>
      r.lastFavoriteStep == (f.lastFavoriteStep + 1) % 0x100
  {
    if Diff32(now, f.lastFavoriteJump) > FAVORITE_WINDOW_MS then Favorites(0, now)
    else Favorites(Wrap8(f.lastFavoriteStep + 1), now)
  }

  /** A series of 4-click presses at the given times. */
  function FavoriteRun(f: Favorites, times: seq<u32>): Favorites
    decreases |times|
  {
    if times == [] then f else FavoriteRun(FavoriteJump(f, times[0]), times[1..])
  }

  /** Every press of the series comes within the window of the one before it. */
  predicate Quick(last: u32, times: seq<u32>)
    decreases |times|
  {
    times == [] || (Diff32(times[0], last) <= FAVORITE_WINDOW_MS && Quick(times[0], times[1..]))
  }

  /**
   * Quick presses count on modulo 256, and the slot they select counts on
   * modulo 4: the uint8_t wrap-around does not disturb the cycle of favourites
   * because 256 is a multiple of 4.
   */
  lemma {:induction false} FavoritesCycle(f: Favorites, times: seq<u32>)
    requires Quick(f.lastFavoriteJump, times)
    decreases |times|
    ensures FavoriteRun(f, times).lastFavoriteStep == (f.lastFavoriteStep + |times|) % 0x100
    ensures FavoriteSlot(FavoriteRun(f, times)) == (f.lastFavoriteStep + |times|) % FAVORITE_COUNT
    ensures times != [] ==> FavoriteRun(f, times).lastFavoriteJump == times[|times| - 1]
  {
    if times == [] {
      DivModUnique(f.lastFavoriteStep, 0x100, 0, f.lastFavoriteStep);
    } else {
      var g := FavoriteJump(f, times[0]);
      FavoritesCycle(g, times[1..]);
      ModAdd(f.lastFavoriteStep + 1, |times| - 1, 0x100);
      Mod256Mod4(f.lastFavoriteStep + |times|);
    }
  }

  /**
   * After a pause the first press selects favourite 0, and each quick press
   * after it the next one round the four slots.
   */
  lemma FavoritesFromPause(f: Favorites, times: seq<u32>)
    requires times != [] && Diff32(times[0], f.lastFavoriteJump) > FAVORITE_WINDOW_MS
    requires Quick(times[0], times[1..])
    ensures FavoriteSlot(FavoriteRun(f, times)) == (|times| - 1) % FAVORITE_COUNT
  {
    FavoritesCycle(FavoriteJump(f, times[0]), times[1..]);
  }

  // ---------------------------------------------------------------------------
  // Clicks
  // ---------------------------------------------------------------------------

  /** The navigation after `button_clicked_default(clicks)`. */
  function ClickedNav(n: Nav, modeCounts: seq<u8>, clicks: u8): (r: Nav)
    requires |modeCounts| < 0x100
    ensures clicks == 2 ==> r == NextModeState(n, modeCounts)
    ensures clicks == 3 ==> r == NextGroupState(n, |modeCounts|)
    ensures clicks != 2 && clicks != 3 ==> r == n
  {
    match clicks
    case 2 => NextModeState(n, modeCounts)
    case 3 => NextGroupState(n, |modeCounts|)
    case _ => n
  }

  /** The favourite counter after `button_clicked_default(clicks)` at time `now`. */
  function ClickedFavorites(f: Favorites, clicks: u8, now: u32): (r: Favorites)
    ensures clicks == 4 ==> r == FavoriteJump(f, now)
    ensures clicks != 4 ==> r == f
  {
    if clicks == 4 then FavoriteJump(f, now) else f
  }

  // ---------------------------------------------------------------------------
  // Scrolling (4 clicks + hold)
  // ---------------------------------------------------------------------------

  /** `get_modes_count()`: the mode count of the group `get_active_group(nbGroups)` names. */
  function ModeCount(a: ActiveIndex, modeCounts: seq<u8>): (count: u8)
    requires |modeCounts| < 0x100
    ensures modeCounts != [] ==> count == modeCounts[Read(a, Group, |modeCounts|)]
    ensures a.groupIndex < |modeCounts| ==> count == modeCounts[a.groupIndex]
  {
    if modeCounts == [] then 0 else modeCounts[Read(a, Group, |modeCounts|)]
  }

  /** The scroll callback on one ramp value, as the code computes it through the getters and setters. */
  function Scroll(n: Nav, rampValue: u8, modeCounts: seq<u8>): (r: Nav)
    requires |modeCounts| < 0x100
    ensures r.index.rampIndex == n.index.rampIndex && r.index.customIndex == n.index.customIndex
    ensures rampValue < SCROLL_MIDPOINT ==>
      r.modeHasChanged == n.modeHasChanged && r.groupHasChanged == n.groupHasChanged
    ensures SCROLL_MIDPOINT <= rampValue && Read(n.index, Mode, DEFAULT_WRAP) + 1 >= ModeCount(n.index, modeCounts) ==>
      r.index.modeIndex == 0
    ensures SCROLL_MIDPOINT <= rampValue && Read(n.index, Mode, DEFAULT_WRAP) + 1 >= ModeCount(n.index, modeCounts) &&
            Read(n.index, Group, DEFAULT_WRAP) + 1 < |modeCounts| ==>
      r.modeHasChanged && r.groupHasChanged
    ensures SCROLL_MIDPOINT <= rampValue && Read(n.index, Mode, DEFAULT_WRAP) + 1 >= ModeCount(n.index, modeCounts) &&
            Read(n.index, Group, DEFAULT_WRAP) + 1 >= |modeCounts| ==>
      && r.index.groupIndex == 0
      && r.modeHasChanged == n.modeHasChanged && r.groupHasChanged == n.groupHasChanged
  {
    var modeIndex := Read(n.index, Mode, DEFAULT_WRAP);
    var groupIndex := Read(n.index, Group, DEFAULT_WRAP);
    var modeCount := ModeCount(n.index, modeCounts);
    var groupCount: u8 := |modeCounts|;
    if rampValue < SCROLL_MIDPOINT then
      if modeIndex > 0 then
        n.(index := Write(n.index, Mode, modeIndex - 1, modeCount))
      else
        var g := if groupIndex > 0 then Write(n.index, Group, groupIndex - 1, groupCount)
          else Write(n.index, Group, Wrap8(groupCount as int - 1), groupCount);
        var count := ModeCount(g, modeCounts);
        n.(index := Write(g, Mode, Wrap8(count as int - 1), count))
    else if modeIndex + 1 < modeCount then
      NextModeState(n, modeCounts)
    else
      var m := if groupIndex + 1 < groupCount then NextGroupState(n, groupCount)
        else n.(index := Write(n.index, Group, 0, groupCount));
      m.(index := Write(m.index, Mode, 0, modeCount))
  }

  /** A (group, mode) pair. */
  datatype Position = Position(group: nat, mode: nat)

  function Pos(a: ActiveIndex): Position
  {
    Position(a.groupIndex, a.modeIndex)
  }

  /** Every group has at least one mode and the pair names an existing mode of an existing group. */
  predicate ValidPosition(p: Position, modeCounts: seq<u8>)
  {
    0 < |modeCounts| &&
    (forall i :: 0 <= i < |modeCounts| ==> 0 < modeCounts[i]) &&
    p.group < |modeCounts| && p.mode < modeCounts[p.group]
  }

  /** A lamp whose groups fit a uint8_t and whose active index is a valid position. */
  predicate Valid(a: ActiveIndex, modeCounts: seq<u8>)
  {
    |modeCounts| < 0x100 && ValidPosition(Pos(a), modeCounts)
  }

  /** Reference order of the forward scroll: the next mode, or the first mode of the next group, round-robin. */
  function Forward(p: Position, modeCounts: seq<u8>): (r: Position)
    requires ValidPosition(p, modeCounts)
    ensures ValidPosition(r, modeCounts)
  {
    if p.mode + 1 < modeCounts[p.group] then Position(p.group, p.mode + 1)
    else Position((p.group + 1) % |modeCounts|, 0)
  }

  /** Reference order of the backward scroll: the previous mode, or the last mode of the previous group, round-robin. */
  function Backward(p: Position, modeCounts: seq<u8>): (r: Position)
    requires ValidPosition(p, modeCounts)
    ensures ValidPosition(r, modeCounts)
  {
    if p.mode > 0 then Position(p.group, p.mode - 1)
    else
      var g := (p.group + |modeCounts| - 1) % |modeCounts|;
      Position(g, modeCounts[g] - 1)
  }

  /** A backward step undoes a forward step. */
  lemma BackwardUndoesForward(p: Position, modeCounts: seq<u8>)
    requires ValidPosition(p, modeCounts)
    ensures Backward(Forward(p, modeCounts), modeCounts) == p
  {
    var nb := |modeCounts|;
    if p.mode + 1 >= modeCounts[p.group] {
      if p.group + 1 < nb {
        DivModUnique(p.group + 1, nb, 0, p.group + 1);
        DivModUnique(p.group + 1 + nb - 1, nb, 1, p.group);
      } else {
        DivModUnique(p.group + 1, nb, 1, 0);
        DivModUnique(nb - 1, nb, 0, nb - 1);
      }
    }
  }

  /** A forward step undoes a backward step. */
  lemma ForwardUndoesBackward(p: Position, modeCounts: seq<u8>)
    requires ValidPosition(p, modeCounts)
    ensures Forward(Backward(p, modeCounts), modeCounts) == p
  {
    var nb := |modeCounts|;
    if p.mode == 0 {
      if p.group > 0 {
        DivModUnique(p.group + nb - 1, nb, 1, p.group - 1);
        DivModUnique(p.group, nb, 0, p.group);
      } else {
        DivModUnique(nb - 1, nb, 0, nb - 1);
        DivModUnique(nb, nb, 1, 0);
      }
    }
  }

  /** On a valid index, a backward scroll is the reference backward step. */
  lemma ScrollBackward(n: Nav, rampValue: u8, modeCounts: seq<u8>)
    requires Valid(n.index, modeCounts) && rampValue < SCROLL_MIDPOINT
    ensures Pos(Scroll(n, rampValue, modeCounts).index) == Backward(Pos(n.index), modeCounts)
  {
    var nb := |modeCounts|;
    var g := n.index.groupIndex;
    if n.index.modeIndex == 0 {
      if g > 0 {
        DivModUnique(g + nb - 1, nb, 1, g - 1);
      } else {
        DivModUnique(nb - 1, nb, 0, nb - 1);
      }
    }
  }

  /** On a valid index, a forward scroll is the reference forward step. */
  lemma ScrollForward(n: Nav, rampValue: u8, modeCounts: seq<u8>)
    requires Valid(n.index, modeCounts) && SCROLL_MIDPOINT <= rampValue
    ensures Pos(Scroll(n, rampValue, modeCounts).index) == Forward(Pos(n.index), modeCounts)
  {
    var nb := |modeCounts|;
    var g, m := n.index.groupIndex, n.index.modeIndex;
    var count := modeCounts[g];
    if m + 1 < count {
      DivModUnique(m + 1, count, 0, m + 1);
    } else if g + 1 < nb {
      DivModUnique(g + 1, nb, 0, g + 1);
    } else {
      DivModUnique(g + 1, nb, 1, 0);
    }
  }

  /** A scroll from a valid index leaves a valid index: an existing group and one of its modes. */
  lemma ScrollKeepsValid(n: Nav, rampValue: u8, modeCounts: seq<u8>)
    requires Valid(n.index, modeCounts)
    ensures Valid(Scroll(n, rampValue, modeCounts).index, modeCounts)
  {
    if rampValue < SCROLL_MIDPOINT {
      ScrollBackward(n, rampValue, modeCounts);
    } else {
      ScrollForward(n, rampValue, modeCounts);
    }
  }

  /** A forward scroll followed by a backward scroll comes back to the starting group and mode. */
  lemma ScrollForwardThenBackward(n: Nav, forward: u8, backward: u8, modeCounts: seq<u8>)
    requires Valid(n.index, modeCounts)
    requires SCROLL_MIDPOINT <= forward && backward < SCROLL_MIDPOINT
    ensures Pos(Scroll(Scroll(n, forward, modeCounts), backward, modeCounts).index) == Pos(n.index)
  {
    var m := Scroll(n, forward, modeCounts);
    ScrollForward(n, forward, modeCounts);
    ScrollKeepsValid(n, forward, modeCounts);
    ScrollBackward(m, backward, modeCounts);
    BackwardUndoesForward(Pos(n.index), modeCounts);
  }

  /** A backward scroll followed by a forward scroll comes back to the starting group and mode. */
  lemma ScrollBackwardThenForward(n: Nav, backward: u8, forward: u8, modeCounts: seq<u8>)
    requires Valid(n.index, modeCounts)
    requires backward < SCROLL_MIDPOINT && SCROLL_MIDPOINT <= forward
    ensures Pos(Scroll(Scroll(n, backward, modeCounts), forward, modeCounts).index) == Pos(n.index)
  {
    var m := Scroll(n, backward, modeCounts);
    ScrollBackward(n, backward, modeCounts);
    ScrollKeepsValid(n, backward, modeCounts);
    ScrollForward(m, forward, modeCounts);
    ForwardUndoesBackward(Pos(n.index), modeCounts);
  }

  // ---------------------------------------------------------------------------
  // Holds
  // ---------------------------------------------------------------------------

  /**
   * The navigation after `button_hold_default(clicks, ...)` when the ramp
   * handler hands `rampValue` to its callback (`None`: it does not call it).
   */
  function HeldNav(n: Nav, modeCounts: seq<u8>, clicks: u8, rampValue: Option<u8>): (r: Nav)
    requires |modeCounts| < 0x100
    ensures clicks == 3 && rampValue.Some? ==>
      r == n.(index := Write(n.index, Ramp, rampValue.value, DEFAULT_WRAP))
    ensures clicks == 4 && rampValue.Some? ==> r == Scroll(n, rampValue.value, modeCounts)
    ensures (clicks != 3 && clicks != 4) || rampValue.None? ==> r == n
  {
    if rampValue.None? then n
    else if clicks == 3 then n.(index := Write(n.index, Ramp, rampValue.value, DEFAULT_WRAP))
    else if clicks == 4 then Scroll(n, rampValue.value, modeCounts)
    else n
  }

  /** The 3-click hold stores the ramp value, except 255, which the default bound turns into 0. */
  lemma HeldRampStored(n: Nav, modeCounts: seq<u8>, rampValue: u8)
    requires |modeCounts| < 0x100
    ensures var r := HeldNav(n, modeCounts, 3, Some(rampValue));
      r.index.rampIndex == (if rampValue == 255 then 0 else rampValue) &&
      Pos(r.index) == Pos(n.index) && r.index.customIndex == n.index.customIndex
  {
  }

  // ---------------------------------------------------------------------------
  // The user state and the two callbacks
  // ---------------------------------------------------------------------------

  /** The user-mode state: the favourite counter and the scroll handler's direction. */
  class UserState {
    var lastFavoriteStep: u8
    var lastFavoriteJump: u32
    var scrollIsForward: bool

    function Favs(): Favorites
      reads this
    {
      Favorites(lastFavoriteStep, lastFavoriteJump)
    }
  }

  /**
   * `button_clicked_default(clicks)` at time `now`. The result is the slot
   * handed to `jump_to_favorite`, or `None` when the clicks do not jump.
   */
  method ButtonClickedDefault(m: ModeManager, user: UserState, clicks: u8, now: u32) returns (favorite: Option<nat>)
    requires m.Shape()
    modifies m, user
    ensures m.State() == ClickedNav(old(m.State()), m.modeCounts, clicks)
    ensures user.Favs() == ClickedFavorites(old(user.Favs()), clicks, now)
    ensures user.scrollIsForward == old(user.scrollIsForward)
    ensures favorite == if clicks == 4 then Some(FavoriteSlot(user.Favs())) else None
  {
    var ctx := m.GetContext();
    favorite := None;
    if clicks == 2 {
      m.NextMode(ctx);
    } else if clicks == 3 {
      m.NextGroup(ctx);
    } else if clicks == 4 {
      if Diff32(now, user.lastFavoriteJump) > FAVORITE_WINDOW_MS {
        user.lastFavoriteStep := 0;
      } else {
        user.lastFavoriteStep := Wrap8(user.lastFavoriteStep + 1);
      }
      user.lastFavoriteJump := now;
      favorite := Some(user.lastFavoriteStep % FAVORITE_COUNT);
    }
  }

  /** The scroll callback of the 4-click hold, through the context's getters and setters. */
  method ScrollCallback(m: ModeManager, ctx: Context, rampValue: u8)
    requires m.Shape() && ctx.manager == m
    modifies m
    ensures m.State() == Scroll(old(m.State()), rampValue, m.modeCounts)
  {
    var modeIndex := ctx.GetActiveMode(DEFAULT_WRAP);
    var groupIndex := ctx.GetActiveGroup(DEFAULT_WRAP);
    var modeCount := ModeCount(m.activeIndex, m.modeCounts);
    var groupCount := m.NbGroups();
    if rampValue < SCROLL_MIDPOINT {
      if modeIndex > 0 {
        var _ := ctx.SetActiveMode(modeIndex - 1, modeCount);
      } else {
        if groupIndex > 0 {
          var _ := ctx.SetActiveGroup(groupIndex - 1, groupCount);
        } else {
          var _ := ctx.SetActiveGroup(Wrap8(groupCount as int - 1), groupCount);
        }
        modeCount := ModeCount(m.activeIndex, m.modeCounts);
        var _ := ctx.SetActiveMode(Wrap8(modeCount as int - 1), modeCount);
      }
    } else {
      if modeIndex + 1 < modeCount {
        m.NextMode(ctx);
      } else {
        if groupIndex + 1 < groupCount {
          m.NextGroup(ctx);
        } else {
          var _ := ctx.SetActiveGroup(0, groupCount);
        }
        var _ := ctx.SetActiveMode(0, modeCount);
      }
    }
  }

  /**
   * `button_hold_default(clicks, isEndOfHoldEvent, holdDuration)`. `rampValue`
   * is what the ramp handler of the action hands to its callback on this
   * event; the result says whether the favourite-pick animation runs.
   */
  method ButtonHoldDefault(m: ModeManager, user: UserState, clicks: u8, isEndOfHoldEvent: bool,
                           holdDuration: u32, rampValue: Option<u8>) returns (favoritePick: bool)
    requires m.Shape()
    modifies m, user
    ensures m.State() == HeldNav(old(m.State()), m.modeCounts, clicks, rampValue)
    ensures !user.scrollIsForward && user.Favs() == old(user.Favs())
    ensures favoritePick <==> clicks == 5 && holdDuration > FAVORITE_PICK_MIN_MS
  {
    var ctx := m.GetContext();
    user.scrollIsForward := false;
    favoritePick := false;
    if clicks == 3 {
      if rampValue.Some? {
        var _ := ctx.SetActiveCustomRamp(rampValue.value, DEFAULT_WRAP);
      }
    } else if clicks == 4 {
      if rampValue.Some? {
        ScrollCallback(m, ctx, rampValue.value);
      }
    } else if clicks == 5 {
      favoritePick := holdDuration > FAVORITE_PICK_MIN_MS;
    }
  }
}
