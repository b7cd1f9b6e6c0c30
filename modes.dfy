/**
 * The mode manager of the indexable lamp: the four-byte active index
 * (group, mode, custom ramp, custom index) with its wrapping accessors, the
 * navigation between groups and modes, the change flags, and the selection
 * of the group that receives each callback.
 *
 * The groups themselves (group_type.h) are not part of this model. A manager
 * is described by the number of modes of each group (`get_modes_count`) and
 * whether the group has system callbacks; what a group's own callbacks do is
 * left to the caller, except `next_mode`, which is taken to advance the mode
 * index by one, wrapping at the group's mode count.
 */
module Modes {
  import opened Uint

  /** `activeIndexTy`: the four indices of the active state. */
  datatype ActiveIndex = ActiveIndex(groupIndex: u8, modeIndex: u8, rampIndex: u8, customIndex: u8)

  /** The default `maxValueWrap` of every accessor. */
  const DEFAULT_WRAP: u8 := 255

  /** The four fields of the active index, each with its own accessor pair. */
  datatype Field = Group | Mode | Ramp | Custom

  function Get(a: ActiveIndex, f: Field): u8
  {
    match f
    case Group => a.groupIndex
    case Mode => a.modeIndex
    case Ramp => a.rampIndex
    case Custom => a.customIndex
  }

  function Put(a: ActiveIndex, f: Field, v: u8): (r: ActiveIndex)
    ensures Get(r, f) == v
    ensures forall g :: g != f ==> Get(r, g) == Get(a, g)
  {
    match f
    case Group => a.(groupIndex := v)
    case Mode => a.(modeIndex := v)
    case Ramp => a.(rampIndex := v)
    case Custom => a.(customIndex := v)
  }

  /** The rule of every getter and setter: a value at or past `maxValueWrap` reads and stores as 0. */
  function Wrapped(value: u8, maxValueWrap: u8): (r: u8)
    ensures 0 < maxValueWrap ==> r < maxValueWrap
    ensures r == value || r == 0
    ensures r == value <==> value < maxValueWrap || value == 0
  {
    if value >= maxValueWrap then 0 else value
  }

  /** `get_active_X(maxValueWrap)` */
  function Read(a: ActiveIndex, f: Field, maxValueWrap: u8): (r: u8)
    ensures 0 < maxValueWrap ==> r < maxValueWrap
    ensures Get(a, f) < maxValueWrap ==> r == Get(a, f)
  {
    Wrapped(Get(a, f), maxValueWrap)
  }

  /** The index after `set_active_X(value, maxValueWrap)`; the setter returns `Wrapped(value, maxValueWrap)`. */
  function Write(a: ActiveIndex, f: Field, value: u8, maxValueWrap: u8): (r: ActiveIndex)
    ensures Get(r, f) == Wrapped(value, maxValueWrap)
    ensures forall g :: g != f ==> Get(r, g) == Get(a, g)
  {
    Put(a, f, Wrapped(value, maxValueWrap))
  }

  /** Round trip: reading a field back with the same bound gives what the setter returned. */
  lemma ReadAfterWrite(a: ActiveIndex, f: Field, value: u8, maxValueWrap: u8)
    ensures Read(Write(a, f, value, maxValueWrap), f, maxValueWrap) == Wrapped(value, maxValueWrap)
    ensures value < maxValueWrap ==> Read(Write(a, f, value, maxValueWrap), f, maxValueWrap) == value
  {
  }

  /** With the default bound, the value 255 cannot be stored: it becomes 0. */
  lemma DefaultWrapDrops255(a: ActiveIndex, f: Field)
    ensures Get(Write(a, f, 255, DEFAULT_WRAP), f) == 0
    ensures forall v: u8 :: v != 255 ==> Get(Write(a, f, v, DEFAULT_WRAP), f) == v
  {
  }

  /** The manager-level state: the active index and the two change flags. */
  datatype Nav = Nav(index: ActiveIndex, modeHasChanged: bool, groupHasChanged: bool)

  /** Storing `v + 1` (a uint8_t) with bound `m` when `v` is below `m`: the successor modulo `m`. */
  lemma WrappedSucc(v: u8, m: u8)
    ensures v < m ==> Wrapped(Wrap8(v + 1), m) == (v + 1) % m
  {
    if v + 1 < m {
      DivModUnique(v + 1, m, 0, v + 1);
    } else if v < m {
      DivModUnique(v + 1, m, 1, 0);
    }
  }

  /** `next_group`: the next group (wrapping at `nbGroups`), its first mode, and both flags raised. */
  function NextGroupState(n: Nav, nbGroups: u8): (r: Nav)
    ensures 0 < nbGroups ==> r.index.groupIndex == (Read(n.index, Group, nbGroups) + 1) % nbGroups
    ensures nbGroups == 0 ==> r.index.groupIndex == 0
    ensures r.index.modeIndex == 0
    ensures r.index.rampIndex == n.index.rampIndex && r.index.customIndex == n.index.customIndex
    ensures r.modeHasChanged && r.groupHasChanged
  {
    var groupId := Read(n.index, Group, nbGroups);
    WrappedSucc(groupId, nbGroups);
    var a := Write(n.index, Group, Wrap8(groupId + 1), nbGroups);
    Nav(Write(a, Mode, 0, DEFAULT_WRAP), true, true)
  }

  /** `k` calls of `next_group` in a row. */
  function NextGroupTimes(n: Nav, nbGroups: u8, k: nat): Nav
  {
    if k == 0 then n else NextGroupState(NextGroupTimes(n, nbGroups, k - 1), nbGroups)
  }

  /** One `next_group` from a group that is `x` modulo `nbGroups` lands on `x + 1` modulo `nbGroups`. */
  lemma NextGroupSucc(n: Nav, nbGroups: u8, x: nat)
    requires 0 < nbGroups && n.index.groupIndex == x % nbGroups
    ensures NextGroupState(n, nbGroups).index.groupIndex == (x + 1) % nbGroups
  {
    var g := n.index.groupIndex;
    assert Read(n.index, Group, nbGroups) == g;
    assert NextGroupState(n, nbGroups).index.groupIndex == (g + 1) % nbGroups;
    ModSucc(x, nbGroups);
  }

  /**
   * `next_group` walks the groups round-robin: after `k` calls (at least
   * one, so that an out-of-range start has been wrapped) the group is `k`
   * groups on from the one `get_active_group` read, modulo `nbGroups`.
   */
  lemma {:induction false} NextGroupCycles(n: Nav, nbGroups: u8, k: nat)
    requires 0 < nbGroups
    ensures 0 < k ==> NextGroupTimes(n, nbGroups, k).index.groupIndex == (Read(n.index, Group, nbGroups) + k) % nbGroups
  {
    if k > 1 {
      NextGroupCycles(n, nbGroups, k - 1);
      NextGroupSucc(NextGroupTimes(n, nbGroups, k - 1), nbGroups, Read(n.index, Group, nbGroups) + k - 1);
    } else if k == 1 {
      assert NextGroupTimes(n, nbGroups, 1) == NextGroupState(n, nbGroups);
    }
  }

  /** After `nbGroups` calls of `next_group` the starting group is active again. */
  lemma NextGroupFullCircle(n: Nav, nbGroups: u8)
    requires 0 < nbGroups && n.index.groupIndex < nbGroups
    ensures NextGroupTimes(n, nbGroups, nbGroups).index.groupIndex == n.index.groupIndex
  {
    NextGroupCycles(n, nbGroups, nbGroups);
    DivModUnique(n.index.groupIndex + nbGroups, nbGroups, 1, n.index.groupIndex);
  }

  /**
   * `next_mode`: the active group advances its mode (the group's `next_mode`
   * is taken as `set_active_mode(get_active_mode(count) + 1, count)`), the
   * mode flag is raised and the group flag lowered.
   */
  function NextModeState(n: Nav, modeCounts: seq<u8>): (r: Nav)
    requires |modeCounts| < 0x100
    ensures r.modeHasChanged && !r.groupHasChanged
    ensures r.index.groupIndex == n.index.groupIndex
    ensures r.index.rampIndex == n.index.rampIndex && r.index.customIndex == n.index.customIndex
    ensures modeCounts == [] ==> r.index == n.index
    ensures modeCounts != [] ==>
      var count := modeCounts[Read(n.index, Group, |modeCounts|)];
      0 < count ==> r.index.modeIndex == (Read(n.index, Mode, count) + 1) % count
    ensures modeCounts != [] && modeCounts[Read(n.index, Group, |modeCounts|)] == 0 ==> r.index.modeIndex == 0
  {
    var targets := Dispatched(n.index, |modeCounts|);
    if targets == [] then Nav(n.index, true, false)
    else
      var count := modeCounts[targets[0]];
      var mode := Read(n.index, Mode, count);
      WrappedSucc(mode, count);
      Nav(Write(n.index, Mode, Wrap8(mode + 1), count), true, false)
  }

  /** `loop`: both flags lowered, the index untouched. */
  function LoopState(n: Nav): (r: Nav)
    ensures !r.modeHasChanged && !r.groupHasChanged && r.index == n.index
  {
    n.(modeHasChanged := false, groupHasChanged := false)
  }

  /** The group indices in `[lo, hi)` that `pick` selects, in increasing order: an unrolled loop over the groups. */
  function Selected(lo: nat, hi: nat, pick: nat -> bool): (r: seq<nat>)
    decreases hi - lo
    ensures forall k :: 0 <= k < |r| ==> lo <= r[k] < hi && pick(r[k])
    ensures forall i :: lo <= i < hi && pick(i) ==> i in r
    ensures forall j, k :: 0 <= j < k < |r| ==> r[j] < r[k]
  {
    if hi <= lo then []
    else if pick(lo) then [lo] + Selected(lo + 1, hi, pick)
    else Selected(lo + 1, hi, pick)
  }

  /** The groups `dispatch_group` calls back: the one `get_active_group(nbGroups)` names. */
  function Dispatched(a: ActiveIndex, nbGroups: nat): (targets: seq<nat>)
    requires nbGroups < 0x100
    ensures 0 < nbGroups ==> targets == [Read(a, Group, nbGroups)]
    ensures nbGroups == 0 ==> targets == []
  {
    var groupId := Read(a, Group, nbGroups);
    SelectedOne(0, nbGroups, i => i == groupId, groupId);
    Selected(0, nbGroups, i => i == groupId)
  }

  /** Selecting one index out of a range gives that index alone, or nothing when it lies outside. */
  lemma {:induction false} SelectedOne(lo: nat, hi: nat, pick: nat -> bool, x: nat)
    requires forall i :: pick(i) <==> i == x
    ensures Selected(lo, hi, pick) == if lo <= x < hi then [x] else []
    decreases hi - lo
  {
    if lo < hi {
      SelectedOne(lo + 1, hi, pick, x);
    }
  }

  /** The groups `foreach_group<systemCallbacksOnly>` calls back, in order. */
  function ForeachGroup(systemCallbacks: seq<bool>, systemCallbacksOnly: bool): (targets: seq<nat>)
    ensures forall k :: 0 <= k < |targets| ==> targets[k] < |systemCallbacks|
    ensures forall i :: 0 <= i < |systemCallbacks| ==>
      (i in targets <==> !systemCallbacksOnly || systemCallbacks[i])
    ensures forall j, k :: 0 <= j < k < |targets| ==> targets[j] < targets[k]
    ensures !systemCallbacksOnly ==>
      |targets| == |systemCallbacks| && forall k :: 0 <= k < |targets| ==> targets[k] == k
  {
    var pick := (i: nat) => !systemCallbacksOnly || (i < |systemCallbacks| && systemCallbacks[i]);
    if systemCallbacksOnly then Selected(0, |systemCallbacks|, pick)
    else
      AllSelected(0, |systemCallbacks|, pick);
      Selected(0, |systemCallbacks|, pick)
  }

  /** When `pick` selects everything, `Selected` is the whole range, in order. */
  lemma {:induction false} AllSelected(lo: nat, hi: nat, pick: nat -> bool)
    requires lo <= hi
    requires forall i :: lo <= i < hi ==> pick(i)
    ensures |Selected(lo, hi, pick)| == hi - lo
    ensures forall k :: 0 <= k < hi - lo ==> Selected(lo, hi, pick)[k] == lo + k
    decreases hi - lo
  {
    if lo < hi {
      AllSelected(lo + 1, hi, pick);
      var rest := Selected(lo + 1, hi, pick);
      assert Selected(lo, hi, pick) == [lo] + rest;
    }
  }

  /** The manager, one per lamp. */
  class ModeManager {
    var activeIndex: ActiveIndex
    var modeHasChanged: bool
    var groupHasChanged: bool
    /** `get_modes_count()` of each group. */
    const modeCounts: seq<u8>
    /** `hasSystemCallbacks` of each group. */
    const systemCallbacks: seq<bool>

    /** `nbGroups`, the number of groups, a uint8_t. */
    predicate Shape()
    {
      |modeCounts| == |systemCallbacks| < 0x100
    }

    function NbGroups(): u8
      requires Shape()
    {
      |modeCounts|
    }

    function State(): Nav
      reads this
    {
      Nav(activeIndex, modeHasChanged, groupHasChanged)
    }

    /** The four indices start at 0; the change flags are left uninitialised. */
    constructor (modeCounts: seq<u8>, systemCallbacks: seq<bool>)
      requires |modeCounts| == |systemCallbacks| < 0x100
      ensures Shape() && this.modeCounts == modeCounts && this.systemCallbacks == systemCallbacks
      ensures activeIndex == ActiveIndex(0, 0, 0, 0)
    {
      this.modeCounts := modeCounts;
      this.systemCallbacks := systemCallbacks;
      activeIndex := ActiveIndex(0, 0, 0, 0);
    }

    /** `get_context()` */
    method GetContext() returns (ctx: Context)
      ensures fresh(ctx) && ctx.manager == this
      ensures ctx.modeHasChanged == modeHasChanged && ctx.groupHasChanged == groupHasChanged
    {
      ctx := new Context(this);
    }

    /** `next_group(ctx)` */
    method NextGroup(ctx: Context)
      requires Shape() && ctx.manager == this
      modifies this
      ensures State() == NextGroupState(old(State()), NbGroups())
    {
      var groupId := ctx.GetActiveGroup(NbGroups());
      var _ := ctx.SetActiveGroup(Wrap8(groupId + 1), NbGroups());
      var _ := ctx.SetActiveMode(0, DEFAULT_WRAP);
      modeHasChanged := true;
      groupHasChanged := true;
    }

    /** `next_mode(ctx)` */
    method NextMode(ctx: Context)
      requires Shape() && ctx.manager == this
      modifies this
      ensures State() == NextModeState(old(State()), modeCounts)
    {
      var targets := Dispatched(activeIndex, NbGroups());
      for i := 0 to |targets|
        invariant activeIndex == if i == 0 then old(activeIndex) else NextModeState(old(State()), modeCounts).index
      {
        var count := modeCounts[targets[i]];
        var mode := ctx.GetActiveMode(count);
        var _ := ctx.SetActiveMode(Wrap8(mode + 1), count);
      }
      modeHasChanged := true;
      groupHasChanged := false;
    }

    /** `loop(ctx)` */
    method Loop()
      modifies this
      ensures State() == LoopState(old(State()))
    {
      modeHasChanged := false;
      groupHasChanged := false;
    }

    /** `custom_click(ctx, nbClick)`: the result of the dispatched group's `custom_click`, or false. */
    method CustomClick(nbClick: u8, groupClick: (nat, u8) -> bool) returns (retVal: bool)
      requires Shape()
      ensures retVal <==> 0 < NbGroups() && groupClick(Read(activeIndex, Group, NbGroups()), nbClick)
    {
      retVal := false;
      var targets := Dispatched(activeIndex, NbGroups());
      for i := 0 to |targets|
        invariant retVal <==> 0 < i && groupClick(targets[i - 1], nbClick)
      {
        retVal := groupClick(targets[i], nbClick);
      }
    }

    /** `custom_hold(ctx, nbClickAndHold, isEndOfHoldEvent, holdDuration)`: likewise for `custom_hold`. */
    method CustomHold(nbClickAndHold: u8, isEndOfHoldEvent: bool, holdDuration: u32,
                      groupHold: (nat, u8, bool, u32) -> bool) returns (retVal: bool)
      requires Shape()
      ensures retVal <==> (0 < NbGroups() &&
        groupHold(Read(activeIndex, Group, NbGroups()), nbClickAndHold, isEndOfHoldEvent, holdDuration))
    {
      retVal := false;
      var targets := Dispatched(activeIndex, NbGroups());
      for i := 0 to |targets|
        invariant retVal <==> 0 < i && groupHold(targets[i - 1], nbClickAndHold, isEndOfHoldEvent, holdDuration)
      {
        retVal := groupHold(targets[i], nbClickAndHold, isEndOfHoldEvent, holdDuration);
      }
    }
  }

  /**
   * A context bound to the manager: it reads and writes the manager's active
   * index, and holds copies of the change flags taken when it was built.
   */
  class Context {
    const manager: ModeManager
    var modeHasChanged: bool
    var groupHasChanged: bool

    constructor (manager: ModeManager)
      ensures this.manager == manager
      ensures modeHasChanged == manager.modeHasChanged && groupHasChanged == manager.groupHasChanged
    {
      this.manager := manager;
      modeHasChanged := manager.modeHasChanged;
      groupHasChanged := manager.groupHasChanged;
    }

    function GetActiveGroup(maxValueWrap: u8): (r: u8)
      reads manager
      ensures r == Read(manager.activeIndex, Group, maxValueWrap)
    {
      Read(manager.activeIndex, Group, maxValueWrap)
    }

    method SetActiveGroup(value: u8, maxValueWrap: u8) returns (stored: u8)
      modifies manager
      ensures stored == Wrapped(value, maxValueWrap)
      ensures manager.activeIndex == Write(old(manager.activeIndex), Group, value, maxValueWrap)
      ensures manager.modeHasChanged == old(manager.modeHasChanged)
      ensures manager.groupHasChanged == old(manager.groupHasChanged)
    {
      stored := Wrapped(value, maxValueWrap);
      manager.activeIndex := manager.activeIndex.(groupIndex := stored);
    }

    function GetActiveMode(maxValueWrap: u8): (r: u8)
      reads manager
      ensures r == Read(manager.activeIndex, Mode, maxValueWrap)
    {
      Read(manager.activeIndex, Mode, maxValueWrap)
    }

    method SetActiveMode(value: u8, maxValueWrap: u8) returns (stored: u8)
      modifies manager
      ensures stored == Wrapped(value, maxValueWrap)
      ensures manager.activeIndex == Write(old(manager.activeIndex), Mode, value, maxValueWrap)
      ensures manager.modeHasChanged == old(manager.modeHasChanged)
      ensures manager.groupHasChanged == old(manager.groupHasChanged)
    {
      stored := Wrapped(value, maxValueWrap);
      manager.activeIndex := manager.activeIndex.(modeIndex := stored);
    }

    function GetActiveCustomRamp(maxValueWrap: u8): (r: u8)
      reads manager
      ensures r == Read(manager.activeIndex, Ramp, maxValueWrap)
    {
      Read(manager.activeIndex, Ramp, maxValueWrap)
    }

    method SetActiveCustomRamp(value: u8, maxValueWrap: u8) returns (stored: u8)
      modifies manager
      ensures stored == Wrapped(value, maxValueWrap)
      ensures manager.activeIndex == Write(old(manager.activeIndex), Ramp, value, maxValueWrap)
      ensures manager.modeHasChanged == old(manager.modeHasChanged)
      ensures manager.groupHasChanged == old(manager.groupHasChanged)
    {
      stored := Wrapped(value, maxValueWrap);
      manager.activeIndex := manager.activeIndex.(rampIndex := stored);
    }

    function GetActiveCustomIndex(maxValueWrap: u8): (r: u8)
      reads manager
      ensures r == Read(manager.activeIndex, Custom, maxValueWrap)
    {
      Read(manager.activeIndex, Custom, maxValueWrap)
    }

    method SetActiveCustomIndex(value: u8, maxValueWrap: u8) returns (stored: u8)
      modifies manager
      ensures stored == Wrapped(value, maxValueWrap)
      ensures manager.activeIndex == Write(old(manager.activeIndex), Custom, value, maxValueWrap)
      ensures manager.modeHasChanged == old(manager.modeHasChanged)
      ensures manager.groupHasChanged == old(manager.groupHasChanged)
    {
      stored := Wrapped(value, maxValueWrap);
      manager.activeIndex := manager.activeIndex.(customIndex := stored);
    }
  }
}
