/**
 * The monitor-stack model of the running window manager (swm.c): a fixed
 * array of monitors, each with an append-order stack of windows, a count and
 * a current position, plus the index of the focused monitor. This file holds
 * the arithmetic and search specifications; the state and its operations are
 * in class `Manager` below.
 */
module Swm {
  import opened Wrappers
  import opened WmTypes

  /** Capacity of one monitor's stack (`MAX_CLIENTS`). */
  const MaxClients := 256
  /** Number of monitor slots (`monitors[8]`). */
  const MaxMonitors := 8

  // ---------------------------------------------------------------------------
  // Cyclic focus

  /**
   * C's `%` on `int`: the remainder of division truncated toward zero, so it
   * takes the sign of the dividend.
   */
  function CRem(a: int, n: int): (r: int)
    requires n > 0
    ensures a == (if a >= 0 then a / n else -((-a) / n)) * n + r
    ensures if a >= 0 then 0 <= r < n else -n < r <= 0
  {
    if a >= 0 then a % n else -((-a) % n)
  }

  /** A remainder in range is the remainder: the quotient and remainder of a division are unique. */
  lemma ModUnique(a: int, n: int, q: int, r: int)
    requires n > 0 && 0 <= r < n && a == q * n + r
    ensures a % n == r
  {
    var q', r' := a / n, a % n;
    if q' < q {
      assert (q - q') * n == r' - r;
      MulAtLeast(q - q', n);
    } else if q' > q {
      assert (q' - q) * n == r - r';
      MulAtLeast(q' - q, n);
    }
  }

  /** A positive multiple of `n` is at least `n`. */
  lemma MulAtLeast(k: int, n: int)
    requires k >= 1 && n > 0
    ensures k * n >= n
  {
    if k > 1 {
      MulAtLeast(k - 1, n);
      assert k * n == (k - 1) * n + n;
    }
  }

  /** The new current position after one `cycle` step in direction `dir` over `n` windows. */
  function CycleIndex(c: int, dir: int, n: int): (r: int)
    requires n > 0
    ensures 0 <= c < n && (dir == 1 || dir == -1) ==> 0 <= r < n
  {
    CRem(c + dir + n, n)
  }

  /** One step forward moves to the next window and wraps from the last to the first; backward the reverse. */
  lemma CycleStep(c: int, dir: int, n: int)
    requires 0 <= c < n && (dir == 1 || dir == -1)
    ensures CycleIndex(c, dir, n) ==
      if dir == 1 then (if c == n - 1 then 0 else c + 1)
      else (if c == 0 then n - 1 else c - 1)
  {
    var a := c + dir + n;
    if dir == 1 && c < n - 1 {
      ModUnique(a, n, 1, c + 1);
    } else if dir == 1 {
      ModUnique(a, n, 2, 0);
    } else if c == 0 {
      ModUnique(a, n, 0, n - 1);
    } else {
      ModUnique(a, n, 1, c - 1);
    }
  }

  /** The position reached after `k` `cycle` steps in direction `dir`. */
  function CycleIterate(c: int, dir: int, n: int, k: nat): (r: int)
    requires 0 <= c < n && (dir == 1 || dir == -1)
    ensures 0 <= r < n
  {
    if k == 0 then c else CycleIndex(CycleIterate(c, dir, n, k - 1), dir, n)
  }

  /** Within one lap, `k` steps move exactly `k` positions forward or backward, modulo `n`. */
  lemma {:induction false} CycleLap(c: int, dir: int, n: int, k: nat)
    requires 0 <= c < n && (dir == 1 || dir == -1) && k <= n
    ensures CycleIterate(c, dir, n, k) ==
      if dir == 1 then (if c + k < n then c + k else c + k - n)
      else (if c - k >= 0 then c - k else c - k + n)
  {
    if k > 0 {
      CycleLap(c, dir, n, k - 1);
      CycleStep(CycleIterate(c, dir, n, k - 1), dir, n);
    }
  }

  /**
   * Cycling is a tour: `n` steps return to the starting window and the first
   * `n` positions visited are pairwise different, so every window of the stack
   * is focused exactly once per lap.
   */
  lemma CycleTour(c: int, dir: int, n: int)
    requires 0 <= c < n && (dir == 1 || dir == -1)
    ensures CycleIterate(c, dir, n, n) == c
    ensures forall j: nat, k: nat :: j < k < n ==> CycleIterate(c, dir, n, j) != CycleIterate(c, dir, n, k)
  {
    CycleLap(c, dir, n, n);
    forall j: nat, k: nat | j < k < n
      ensures CycleIterate(c, dir, n, j) != CycleIterate(c, dir, n, k)
    {
      CycleLap(c, dir, n, j);
      CycleLap(c, dir, n, k);
    }
  }

  // ---------------------------------------------------------------------------
  // Neighbouring monitor

  /** Monitor `i` lies strictly on the `dir` side of monitor `from`, judged by x-origin alone. */
  predicate OnSide(screens: seq<ScreenInfo>, from: int, i: int, dir: int)
    requires 0 <= from < |screens| && 0 <= i < |screens|
  {
    var dx := screens[i].xOrg - screens[from].xOrg;
    (dir < 0 && dx < 0) || (dir > 0 && dx > 0)
  }

  /** The horizontal distance between the x-origins of monitors `from` and `i`. */
  function Distance(screens: seq<ScreenInfo>, from: int, i: int): nat
    requires 0 <= from < |screens| && 0 <= i < |screens|
  {
    Abs(screens[i].xOrg - screens[from].xOrg)
  }

  /** The absolute value. */
  function Abs(x: int): nat {
    if x < 0 then -x else x
  }

  /** Monitor `i` is a candidate neighbour: another monitor on the `dir` side. */
  predicate Candidate(screens: seq<ScreenInfo>, from: int, dir: int, i: int)
    requires 0 <= from < |screens|
  {
    0 <= i < |screens| && i != from && OnSide(screens, from, i, dir)
  }

  /**
   * The scan of `find_neighbor_monitor` over the first `n` monitors: a
   * candidate replaces the one found so far only when strictly nearer.
   */
  function Nearest(screens: seq<ScreenInfo>, from: int, dir: int, n: int): (r: int)
    requires 0 <= from < |screens| && 0 <= n <= |screens|
    ensures -1 <= r < n
  {
    if n == 0 then -1
    else
      var r := Nearest(screens, from, dir, n - 1);
      if Candidate(screens, from, dir, n - 1) && (r == -1 || Distance(screens, from, n - 1) < Distance(screens, from, r))
      then n - 1
      else r
  }

  /**
   * `r` is the nearest neighbour among the first `n` monitors: -1 when no
   * candidate exists; otherwise a candidate no farther than any other, and
   * strictly nearer than every candidate with a lower index.
   */
  ghost predicate IsNearest(screens: seq<ScreenInfo>, from: int, dir: int, n: int, r: int)
    requires 0 <= from < |screens| && 0 <= n <= |screens|
  {
    if r == -1 then forall i :: 0 <= i < n ==> !Candidate(screens, from, dir, i)
    else
      && 0 <= r < n && Candidate(screens, from, dir, r)
      && (forall i :: 0 <= i < n && Candidate(screens, from, dir, i) ==> Distance(screens, from, r) <= Distance(screens, from, i))
      && (forall i :: 0 <= i < r && Candidate(screens, from, dir, i) ==> Distance(screens, from, r) < Distance(screens, from, i))
  }

  /** The scan finds the nearest neighbour, ties going to the lowest index. */
  lemma {:induction false} NearestIsNearest(screens: seq<ScreenInfo>, from: int, dir: int, n: int)
    requires 0 <= from < |screens| && 0 <= n <= |screens|
    ensures IsNearest(screens, from, dir, n, Nearest(screens, from, dir, n))
  {
    if n > 0 {
      NearestIsNearest(screens, from, dir, n - 1);
    }
  }

  /** At most one monitor is the nearest neighbour, so the characterisation determines the scan's answer. */
  lemma NearestUnique(screens: seq<ScreenInfo>, from: int, dir: int, n: int, r1: int, r2: int)
    requires 0 <= from < |screens| && 0 <= n <= |screens|
    requires IsNearest(screens, from, dir, n, r1) && IsNearest(screens, from, dir, n, r2)
    ensures r1 == r2
  {
  }

  // ---------------------------------------------------------------------------
  // Monitor under the pointer

  /** The half-open rectangle of monitor `s` contains point `p`. */
  predicate Contains(s: ScreenInfo, p: Point) {
    s.xOrg <= p.x < s.xOrg + s.width && s.yOrg <= p.y < s.yOrg + s.height
  }

  /** The answer when no monitor is found: the focused monitor if there is one, otherwise monitor 0. */
  function Fallback(focused: int): int {
    if focused >= 0 then focused else 0
  }

  /** The first monitor whose rectangle contains `p`, or -1. */
  function FirstContaining(screens: seq<ScreenInfo>, p: Point): (i: int)
    ensures -1 <= i < |screens|
    ensures i == -1 <==> forall j :: 0 <= j < |screens| ==> !Contains(screens[j], p)
    ensures 0 <= i ==> Contains(screens[i], p) && forall j :: 0 <= j < i ==> !Contains(screens[j], p)
  {
    if screens == [] then -1
    else if Contains(screens[0], p) then 0
    else
      var j := FirstContaining(screens[1..], p);
      if j == -1 then -1 else j + 1
  }

  /**
   * `get_monitor_at_pointer` given the pointer position (none when the
   * pointer query fails): the first monitor containing it, otherwise the
   * fallback.
   */
  function MonitorAtPointer(screens: seq<ScreenInfo>, focused: int, pointer: Option<Point>): (r: int)
    ensures pointer == None ==> r == Fallback(focused)
    ensures pointer != None && (exists j :: 0 <= j < |screens| && Contains(screens[j], pointer.value)) ==>
      0 <= r < |screens| && Contains(screens[r], pointer.value)
      && forall j :: 0 <= j < r ==> !Contains(screens[j], pointer.value)
    ensures pointer != None && (forall j :: 0 <= j < |screens| ==> !Contains(screens[j], pointer.value)) ==>
      r == Fallback(focused)
  {
    match pointer
    case None => Fallback(focused)
    case Some(p) =>
      var i := FirstContaining(screens, p);
      if i >= 0 then i else Fallback(focused)
  }

  // ---------------------------------------------------------------------------
  // Window rules

  /** A window rule: windows of class `className` go to monitor `monitor` (-1 for any). */
  datatype Rule = Rule(className: string, monitor: int)

  /** The rule table of config.h. */
  const ConfiguredRules: seq<Rule> := [Rule("discord", 2)]

  /** A rule applies to a class when the names are equal and it names a monitor. */
  predicate Applies(r: Rule, cls: string) {
    r.className == cls && r.monitor >= 0
  }

  /** The position of the first rule that applies to `cls`, or -1. */
  function FirstRule(rules: seq<Rule>, cls: string): (i: int)
    ensures -1 <= i < |rules|
    ensures i == -1 <==> forall j :: 0 <= j < |rules| ==> !Applies(rules[j], cls)
    ensures 0 <= i ==> Applies(rules[i], cls) && forall j :: 0 <= j < i ==> !Applies(rules[j], cls)
  {
    if rules == [] then -1
    else if Applies(rules[0], cls) then 0
    else
      var j := FirstRule(rules[1..], cls);
      if j == -1 then -1 else j + 1
  }

  /**
   * The monitor `handle_map` picks: the first applicable rule's monitor when
   * the class hint is known, otherwise the default target.
   */
  function RuleTarget(rules: seq<Rule>, windowClass: Option<string>, default: int): (t: int)
    ensures windowClass == None ==> t == default
    ensures windowClass != None && FirstRule(rules, windowClass.value) == -1 ==> t == default
    ensures windowClass != None && FirstRule(rules, windowClass.value) >= 0 ==>
      t == rules[FirstRule(rules, windowClass.value)].monitor && t >= 0
  {
    match windowClass
    case None => default
    case Some(cls) =>
      var i := FirstRule(rules, cls);
      if i >= 0 then rules[i].monitor else default
  }

  /**
   * The default target of `handle_map`: the focused monitor when there is
   * one; otherwise the first monitor whose rectangle holds the pointer, and
   * monitor 0 when the pointer is unknown or on no monitor. It is always a
   * slot of the monitor array.
   */
  function DefaultTarget(screens: seq<ScreenInfo>, focused: int, pointer: Option<Point>): (d: int)
    ensures focused >= 0 ==> d == focused
    ensures focused < 0 && pointer != None && (exists j :: 0 <= j < |screens| && Contains(screens[j], pointer.value)) ==>
      0 <= d < |screens| && Contains(screens[d], pointer.value)
      && forall j :: 0 <= j < d ==> !Contains(screens[j], pointer.value)
    ensures focused < 0 && (pointer == None || forall j :: 0 <= j < |screens| ==> !Contains(screens[j], pointer.value)) ==>
      d == 0
    ensures |screens| <= MaxMonitors && -1 <= focused < |screens| ==> 0 <= d < MaxMonitors
  {
    if focused >= 0 then focused else MonitorAtPointer(screens, focused, pointer)
  }

  /** With the configured rules, Discord windows go to monitor 2 and all others to the default target. */
  lemma ConfiguredRulesTarget(cls: string, default: int)
    ensures RuleTarget(ConfiguredRules, Some("discord"), default) == 2
    ensures cls != "discord" ==> RuleTarget(ConfiguredRules, Some(cls), default) == default
    ensures RuleTarget(ConfiguredRules, None, default) == default
  {
    assert Applies(ConfiguredRules[0], "discord");
  }

  /** Every default or rule target lies within the monitor array, given rules that do. */
  lemma TargetInRange(screens: seq<ScreenInfo>, focused: int, pointer: Option<Point>, rules: seq<Rule>, windowClass: Option<string>)
    requires |screens| <= MaxMonitors && -1 <= focused < |screens|
    requires forall r :: r in rules ==> r.monitor < MaxMonitors
    ensures 0 <= RuleTarget(rules, windowClass, DefaultTarget(screens, focused, pointer)) < MaxMonitors
  {
    if windowClass != None && FirstRule(rules, windowClass.value) >= 0 {
      assert rules[FirstRule(rules, windowClass.value)] in rules;
    }
  }

  // ---------------------------------------------------------------------------
  // Stack edits on values

  /**
   * `remove_client`'s adjustment: a current position at or past the new end
   * moves to the last window. The result is the larger of the positions not
   * after `current` and before `count`; after one entry is taken out of a
   * stack it restores the selection invariant.
   */
  function Clamp(current: int, count: int): (c: int)
    ensures c <= current && c < count
    ensures c == current || c == count - 1
    ensures 0 <= count && SelectionValid(count + 1, current) ==> SelectionValid(count, c)
  {
    if current >= count then count - 1 else current
  }

  /** `move_window_relative`'s adjustment of the source's current position after taking out `c`. */
  function SourceCurrent(c: int, count: int): (r: int)
    requires 0 <= c <= count
    ensures count == 0 ==> r == -1
    ensures count > 0 && c < count ==> r == c
    ensures count > 0 && c == count ==> r == 0
  {
    if count > 0 then
      if c < count then ModUnique(c, count, 0, c); CRem(c, count)
      else ModUnique(c, count, 1, 0); CRem(c, count)
    else -1
  }

  /**
   * After `remove_client` takes out the entry at `pos` and clamps, the
   * selection is still valid. It designates the same window when the removed
   * entry lay after the current one. When the entry lay at or before it, the
   * position is kept, so the window that slid into it becomes current, unless
   * the position fell off the end and the new last window is current.
   */
  lemma ClampAfterRemove(s: seq<Window>, pos: int, current: int)
    requires 0 <= pos < |s| && SelectionValid(|s|, current)
    ensures var c := Clamp(current, |s| - 1);
      && SelectionValid(|s| - 1, c)
      && (pos > current ==> RemoveAt(s, pos)[c] == s[current])
      && (pos <= current < |s| - 1 ==> c == current && RemoveAt(s, pos)[c] == s[current + 1])
      && (pos < current == |s| - 1 ==> c == current - 1 && RemoveAt(s, pos)[c] == s[current])
      && (pos == current == |s| - 1 ==> c == current - 1)
  {
  }

  /**
   * A move keeps every window that reaches a destination with room: the two
   * stacks hold together what they held before. With no room the moved
   * window is lost.
   */
  lemma MoveContents(src: seq<Window>, c: int, dst: seq<Window>)
    requires 0 <= c < |src|
    ensures multiset(RemoveAt(src, c)) + multiset(dst + [src[c]]) == multiset(src) + multiset(dst)
    ensures multiset(RemoveAt(src, c)) + multiset(dst) == multiset(src) + multiset(dst) - multiset{src[c]}
  {
    RemoveAtContents(src, c);
  }

  // ---------------------------------------------------------------------------
  // The monitors and their stacks

  /** What `set_focused_monitor` did: rejected the index, found it focused already, or moved focus. */
  datatype FocusOutcome = InvalidMonitor | AlreadyFocused | FocusMoved

  /**
   * What `move_window_relative` did: nothing; moved `window` to monitor
   * `target`; or took it off its monitor and dropped it because `target` was full.
   */
  datatype MoveOutcome = Stayed | Moved(window: Window, target: int) | Dropped(window: Window, target: int)

  /** What the placement part of `handle_map` did with a mapped window. */
  datatype MapOutcome = AlreadyManaged | Refused(monitor: int) | Placed(monitor: int)

  /**
   * The global state of swm.c: `monitors[8]` (row `m` of `stack` with
   * `count[m]` and `current[m]` is `monitors[m]`), the Xinerama screen list
   * with `num_monitors` entries, and `focused_monitor`.
   */
  class Manager {
    const stack: array2<Window>
    const count: array<int>
    const current: array<int>
    const numMonitors: int
    const screens: seq<ScreenInfo>
    var focusedMonitor: int

    /** The fixed shape of the state, and every count within the capacity of a stack. */
    predicate Bounded()
      reads count
    {
      && stack.Length0 == MaxMonitors && stack.Length1 == MaxClients
      && count.Length == MaxMonitors && current.Length == MaxMonitors && count != current
      && 0 <= numMonitors <= MaxMonitors && |screens| == numMonitors
      && forall m :: 0 <= m < MaxMonitors ==> 0 <= count[m] <= MaxClients
    }

    /**
     * The index invariant: a focused monitor is a discovered one; a non-empty
     * stack has its current position in range; and on a discovered monitor the
     * position is -1 exactly when the stack is empty.
     */
    ghost predicate Valid()
      reads this, count, current
    {
      && Bounded()
      && -1 <= focusedMonitor < numMonitors
      && (forall m :: 0 <= m < MaxMonitors && count[m] > 0 ==> 0 <= current[m] < count[m])
      && (forall m :: 0 <= m < numMonitors ==> SelectionValid(count[m], current[m]))
    }

    /** The first `n` entries of row `m` of the stack array. */
    ghost function Row(m: int, n: int): (r: seq<Window>)
      reads stack
      requires stack.Length0 == MaxMonitors && stack.Length1 == MaxClients
      requires 0 <= m < MaxMonitors && 0 <= n <= MaxClients
      ensures |r| == n && forall i :: 0 <= i < n ==> r[i] == stack[m, i]
    {
      if n == 0 then [] else Row(m, n - 1) + [stack[m, n - 1]]
    }

    /** Monitor `m`'s stack: its first `count[m]` entries, oldest first. */
    ghost function StackOf(m: int): seq<Window>
      reads stack, count
      requires Bounded() && 0 <= m < MaxMonitors
    {
      Row(m, count[m])
    }

    /** Some discovered monitor's stack holds `w`. */
    ghost predicate Manages(w: Window)
      reads stack, count
      requires Bounded()
    {
      exists m :: 0 <= m < numMonitors && w in StackOf(m)
    }

    /**
     * The state after monitor discovery: `num_monitors` is the length of the
     * screen list, every stack is empty, the discovered monitors have current
     * position -1, the other slots keep their zero initialisation, and no
     * monitor is focused yet.
     */
    constructor (screens: seq<ScreenInfo>)
      requires |screens| <= MaxMonitors
      ensures Valid() && this.screens == screens && numMonitors == |screens| && focusedMonitor == -1
      ensures fresh(stack) && fresh(count) && fresh(current)
      ensures forall m :: 0 <= m < MaxMonitors ==> StackOf(m) == []
      ensures forall m :: 0 <= m < MaxMonitors ==> current[m] == if m < |screens| then -1 else 0
    {
      this.screens := screens;
      numMonitors := |screens|;
      stack := new Window[MaxMonitors, MaxClients]((_, _) => 0);
      count := new int[MaxMonitors](_ => 0);
      current := new int[MaxMonitors](m => if m < |screens| then -1 else 0);
      focusedMonitor := -1;
    }

    /**
     * `set_focused_monitor`: an index outside the discovered monitors and the
     * index already focused are rejected; any other index becomes focused.
     */
    method SetFocusedMonitor(mon: int) returns (outcome: FocusOutcome)
      requires Valid()
      modifies this
      ensures Valid()
      ensures outcome ==
        if mon < 0 || mon >= numMonitors then InvalidMonitor
        else if old(focusedMonitor) == mon then AlreadyFocused
        else FocusMoved
      ensures focusedMonitor == if outcome == FocusMoved then mon else old(focusedMonitor)
    {
      if mon < 0 || mon >= numMonitors {
        return InvalidMonitor;
      }
      if focusedMonitor == mon {
        return AlreadyFocused;
      }
      focusedMonitor := mon;
      return FocusMoved;
    }

    /**
     * `find_neighbor_monitor`: the nearest other monitor strictly on the
     * `dir` side of the focused one, by x-origin, or -1. It measures from the
     * focused monitor, which both callers also pass as the unused argument.
     */
    method FindNeighborMonitor(dir: int) returns (found: int)
      requires Valid() && 0 <= focusedMonitor < numMonitors
      ensures found == Nearest(screens, focusedMonitor, dir, numMonitors)
      ensures IsNearest(screens, focusedMonitor, dir, numMonitors, found)
    {
      found := -1;
      var currentX := screens[focusedMonitor].xOrg;
      for i := 0 to numMonitors
        invariant found == Nearest(screens, focusedMonitor, dir, i)
      {
        if i == focusedMonitor {
          continue;
        }
        var dx := screens[i].xOrg - currentX;
        if (dir < 0 && dx < 0) || (dir > 0 && dx > 0) {
          if found == -1 || Abs(dx) < Abs(screens[found].xOrg - currentX) {
            found := i;
          }
        }
      }
      NearestIsNearest(screens, focusedMonitor, dir, numMonitors);
    }

    /**
     * `get_monitor_at_pointer`, given the pointer position or none when the
     * pointer query fails. The answer is always a usable monitor slot.
     */
    method GetMonitorAtPointer(pointer: Option<Point>) returns (mon: int)
      requires Valid()
      ensures mon == MonitorAtPointer(screens, focusedMonitor, pointer)
      ensures 0 <= mon < MaxMonitors
    {
      if pointer == None {
        return if focusedMonitor >= 0 then focusedMonitor else 0;
      }
      var p := pointer.value;
      for i := 0 to numMonitors
        invariant forall j :: 0 <= j < i ==> !Contains(screens[j], p)
      {
        var x0 := screens[i].xOrg;
        var y0 := screens[i].yOrg;
        var x1 := x0 + screens[i].width;
        var y1 := y0 + screens[i].height;
        if p.x >= x0 && p.x < x1 && p.y >= y0 && p.y < y1 {
          return i;
        }
      }
      return if focusedMonitor >= 0 then focusedMonitor else 0;
    }

    /**
     * The effect of `cycle`: with a focused monitor holding two or more
     * windows, its current position takes one cyclic step and that window
     * gets focus; otherwise nothing changes. Nothing else changes either way.
     */
    twostate predicate CycleEffect(dir: int, new focus: Option<Window>)
      reads this, stack, count, current
      requires old(Valid()) && Valid()
    {
      var f := old(focusedMonitor);
      && unchanged(this, stack, count)
      && if f < 0 || f >= numMonitors || count[f] <= 1 then
           unchanged(current) && focus == None
         else
           && current[f] == CycleIndex(old(current[f]), dir, count[f])
           && focus == Some(stack[f, current[f]])
           && forall m :: 0 <= m < MaxMonitors && m != f ==> current[m] == old(current[m])
    }

    /** `cycle`: step the focused monitor's current position by `dir`, wrapping around. */
    method Cycle(dir: int) returns (focus: Option<Window>)
      requires Valid() && (dir == 1 || dir == -1)
      modifies current
      ensures Valid()
      ensures CycleEffect(dir, focus)
    {
      var f := focusedMonitor;
      if f < 0 || f >= numMonitors {
        return None;
      }
      if count[f] <= 1 {
        return None;
      }
      current[f] := CRem(current[f] + dir + count[f], count[f]);
      focus := Some(stack[f, current[f]]);
    }

    /**
     * The shift-left loop shared by `remove_client` and `move_window_relative`:
     * the entry at `pos` is overwritten by its successors and the count drops
     * by one; the other monitors are untouched.
     */
    method CloseGap(m: int, pos: int)
      requires Bounded() && 0 <= m < MaxMonitors && 0 <= pos < count[m]
      modifies stack, count
      ensures Bounded()
      ensures count[m] == old(count[m]) - 1
      ensures StackOf(m) == RemoveAt(old(StackOf(m)), pos)
      ensures forall k :: 0 <= k < MaxMonitors && k != m ==> count[k] == old(count[k]) && StackOf(k) == old(StackOf(k))
    {
      var j := pos;
      while j + 1 < count[m]
        invariant unchanged(count) && pos <= j < count[m]
        invariant forall i :: 0 <= i < pos ==> stack[m, i] == old(stack[m, i])
        invariant forall i :: pos <= i < j ==> stack[m, i] == old(stack[m, i + 1])
        invariant forall i :: j < i < MaxClients ==> stack[m, i] == old(stack[m, i])
        invariant forall k, i :: 0 <= k < MaxMonitors && k != m && 0 <= i < MaxClients ==> stack[k, i] == old(stack[k, i])
      {
        stack[m, j] := stack[m, j + 1];
        j := j + 1;
      }
      count[m] := count[m] - 1;
    }

    /**
     * `remove_client`: find the first occurrence of `w`, scanning the
     * discovered monitors in order and each stack from the bottom; close the
     * gap; clamp the current position to the new last entry; report where
     * the window was. Without an occurrence nothing changes and -1 is reported.
     */
    method RemoveClient(w: Window) returns (found: bool, outMon: int, outIdx: int)
      requires Valid()
      modifies stack, count, current
      ensures Valid()
      ensures found <==> old(Manages(w))
      ensures !found ==> outMon == -1 && outIdx == -1 && unchanged(stack, count, current)
      ensures found ==>
        && 0 <= outMon < numMonitors
        && (forall m :: 0 <= m < outMon ==> w !in old(StackOf(m)))
        && w in old(StackOf(outMon))
        && outIdx == IndexOf(old(StackOf(outMon)), w)
        && StackOf(outMon) == RemoveAt(old(StackOf(outMon)), outIdx)
        && current[outMon] == Clamp(old(current[outMon]), count[outMon])
        && forall m :: 0 <= m < MaxMonitors && m != outMon ==> StackOf(m) == old(StackOf(m)) && current[m] == old(current[m])
    {
      label start:
      outMon, outIdx := FindWindow(w);
      assert unchanged@start(stack, count, current);
      if outMon < 0 {
        return false, -1, -1;
      }
      RemoveEntry(outMon, outIdx);
      found := true;
    }

    /**
     * The scan `remove_client` and `handle_map` share: the discovered monitors
     * in order, each stack from the bottom, stopping at the first occurrence
     * of `w`. Reports its monitor and position, or -1 and -1.
     */
    method FindWindow(w: Window) returns (mon: int, pos: int)
      requires Valid()
      ensures mon == -1 <==> !Manages(w)
      ensures mon == -1 ==> pos == -1
      ensures mon != -1 ==>
        && 0 <= mon < numMonitors
        && (forall m :: 0 <= m < mon ==> w !in StackOf(m))
        && pos == IndexOf(StackOf(mon), w) && 0 <= pos
    {
      for mi := 0 to numMonitors
        invariant forall m :: 0 <= m < mi ==> w !in StackOf(m)
      {
        var ci := FindInStack(mi, w);
        if ci >= 0 {
          return mi, ci;
        }
      }
      return -1, -1;
    }

    /** The inner scan of `remove_client`: the first position of `w` in monitor `m`'s stack, or -1. */
    method FindInStack(m: int, w: Window) returns (pos: int)
      requires Bounded() && 0 <= m < MaxMonitors
      ensures pos == IndexOf(StackOf(m), w)
    {
      for ci := 0 to count[m]
        invariant forall j :: 0 <= j < ci ==> stack[m, j] != w
      {
        if stack[m, ci] == w {
          IndexOfFirst(StackOf(m), w, ci);
          return ci;
        }
      }
      assert forall j :: 0 <= j < count[m] ==> StackOf(m)[j] != w;
      return -1;
    }

    /**
     * The removal step of `remove_client` once `pos` is found on a discovered
     * monitor: close the gap and clamp the current position to the new end.
     */
    method RemoveEntry(m: int, pos: int)
      requires Valid() && 0 <= m < numMonitors && 0 <= pos < count[m]
      modifies stack, count, current
      ensures Valid()
      ensures StackOf(m) == RemoveAt(old(StackOf(m)), pos)
      ensures current[m] == Clamp(old(current[m]), count[m])
      ensures forall k :: 0 <= k < MaxMonitors && k != m ==> StackOf(k) == old(StackOf(k)) && current[k] == old(current[k])
    {
      ghost var before := StackOf(m);
      CloseGap(m, pos);
      if current[m] >= count[m] {
        current[m] := count[m] - 1;
      }
      ClampAfterRemove(before, pos, old(current[m]));
    }

    /**
     * The effect of `move_window_relative`. Nothing changes without a focused
     * monitor, a current window on it, or a neighbour in direction `dir`.
     * Otherwise the current window leaves the source stack: the gap closes,
     * and the source's current position is kept, wraps to 0 when it fell off
     * the end, or becomes -1 when the stack emptied. The window is then pushed
     * onto the neighbour's stack and becomes its current one; when that stack
     * is full the window stays off both stacks.
     */
    twostate predicate MoveEffect(dir: int, new outcome: MoveOutcome)
      reads this, stack, count, current
      requires old(Valid()) && Valid()
    {
      var f := old(focusedMonitor);
      && unchanged(this)
      && if f < 0 || f >= numMonitors || old(count[f]) == 0 || old(current[f]) < 0
            || Nearest(screens, f, dir, numMonitors) < 0 then
           outcome == Stayed && unchanged(stack, count, current)
         else TransferEffect(f, Nearest(screens, f, dir, numMonitors), outcome)
    }

    /**
     * The stack edits of a move from monitor `f`, which has a current window,
     * to monitor `t`, as `MoveEffect` describes them.
     */
    twostate predicate TransferEffect(f: int, t: int, new outcome: MoveOutcome)
      reads this, stack, count, current
      requires old(Valid()) && Valid()
      requires 0 <= f < MaxMonitors && 0 <= t < MaxMonitors && 0 <= old(current[f]) < old(count[f])
    {
      var c := old(current[f]);
      var w := old(stack[f, c]);
      && outcome == (if old(count[t]) >= MaxClients then Dropped(w, t) else Moved(w, t))
      && count[f] == old(count[f]) - 1
      && StackOf(f) == RemoveAt(old(StackOf(f)), c)
      && current[f] == SourceCurrent(c, count[f])
      && (if old(count[t]) >= MaxClients then StackOf(t) == old(StackOf(t)) && current[t] == old(current[t])
          else StackOf(t) == old(StackOf(t)) + [w] && current[t] == old(count[t]))
      && forall m :: 0 <= m < MaxMonitors && m != f && m != t ==>
           StackOf(m) == old(StackOf(m)) && current[m] == old(current[m])
    }

    /** `move_window_relative`: move the focused monitor's current window to its neighbour in direction `dir`. */
    method MoveWindowRelative(dir: int) returns (outcome: MoveOutcome)
      requires Valid()
      modifies stack, count, current
      ensures Valid()
      ensures MoveEffect(dir, outcome)
    {
      var f := focusedMonitor;
      if f < 0 || f >= numMonitors {
        return Stayed;
      }
      if count[f] == 0 || current[f] < 0 {
        return Stayed;
      }
      var best := FindNeighborMonitor(dir);
      if best < 0 {
        return Stayed;
      }
      outcome := Transfer(f, best);
    }

    /** The stack edits of `move_window_relative` once the neighbour `t` is known. */
    method Transfer(f: int, t: int) returns (outcome: MoveOutcome)
      requires Valid() && 0 <= f < numMonitors && 0 <= t < numMonitors && f != t
      requires 0 <= current[f] < count[f]
      modifies stack, count, current
      ensures Valid()
      ensures TransferEffect(f, t, outcome)
    {
      var w := stack[f, current[f]];
      assert w == StackOf(f)[current[f]];
      TakeCurrent(f);
      assert SelectionValid(count[f], current[f]);
      if count[t] >= MaxClients {
        return Dropped(w, t);
      }
      Push(t, w);
      return Moved(w, t);
    }

    /**
     * The source half of `move_window_relative`: monitor `f`'s current entry
     * is taken out, and the current position is kept, or wraps to 0 when it
     * fell off the end, or becomes -1 when the stack emptied.
     */
    method TakeCurrent(f: int)
      requires Bounded() && 0 <= f < MaxMonitors && 0 <= current[f] < count[f]
      modifies stack, count, current
      ensures Bounded()
      ensures count[f] == old(count[f]) - 1
      ensures StackOf(f) == RemoveAt(old(StackOf(f)), old(current[f]))
      ensures current[f] == SourceCurrent(old(current[f]), count[f])
      ensures forall m :: 0 <= m < MaxMonitors && m != f ==>
        count[m] == old(count[m]) && StackOf(m) == old(StackOf(m)) && current[m] == old(current[m])
    {
      var c := current[f];
      CloseGap(f, c);
      current[f] := if count[f] > 0 then CRem(c, count[f]) else -1;
      assert current[f] == SourceCurrent(c, count[f]);
    }

    /**
     * The effect of `focus_monitor_relative`: with a focused monitor and a
     * neighbour in direction `dir`, the neighbour becomes focused and its
     * current window, if any, gets the input focus; the stacks never change.
     */
    twostate predicate FocusRelativeEffect(dir: int, new focus: Option<Window>)
      reads this, stack, count, current
      requires old(Valid()) && Valid()
    {
      var f := old(focusedMonitor);
      && unchanged(stack, count, current)
      && if f < 0 || f >= numMonitors || Nearest(screens, f, dir, numMonitors) < 0 then
           focusedMonitor == f && focus == None
         else
           var t := Nearest(screens, f, dir, numMonitors);
           && focusedMonitor == t
           && focus == if count[t] <= 0 || current[t] < 0 then None else Some(stack[t, current[t]])
    }

    /** `focus_monitor_relative`: focus the neighbouring monitor in direction `dir`. */
    method FocusMonitorRelative(dir: int) returns (focus: Option<Window>)
      requires Valid()
      modifies this
      ensures Valid()
      ensures FocusRelativeEffect(dir, focus)
    {
      if focusedMonitor < 0 || focusedMonitor >= numMonitors {
        return None;
      }
      var target := FindNeighborMonitor(dir);
      if target < 0 {
        return None;
      }
      var _ := SetFocusedMonitor(target);
      if count[target] <= 0 || current[target] < 0 {
        return None;
      }
      focus := Some(stack[target, current[target]]);
    }

    /**
     * The window `kill_focused_window` asks to close: the focused monitor's
     * current window, or none without a focused monitor or with an empty stack.
     */
    function KillTarget(): (w: Option<Window>)
      reads this, stack, count, current
      requires Valid()
      ensures w != None <==> focusedMonitor >= 0 && count[focusedMonitor] > 0
      ensures w != None ==> w.value == StackOf(focusedMonitor)[current[focusedMonitor]]
    {
      var f := focusedMonitor;
      if f < 0 || f >= numMonitors then None
      else if count[f] == 0 || current[f] < 0 || current[f] >= count[f] then None
      else Some(stack[f, current[f]])
    }

    /**
     * The append shared by `handle_map` and `move_window_relative`: `w` goes
     * on top of monitor `t`'s stack and becomes its current window.
     */
    method Push(t: int, w: Window)
      requires Bounded() && 0 <= t < MaxMonitors && count[t] < MaxClients
      modifies stack, count, current
      ensures Bounded()
      ensures count[t] == old(count[t]) + 1 && StackOf(t) == old(StackOf(t)) + [w] && current[t] == old(count[t])
      ensures forall m :: 0 <= m < MaxMonitors && m != t ==>
        count[m] == old(count[m]) && StackOf(m) == old(StackOf(m)) && current[m] == old(current[m])
    {
      ghost var before := StackOf(t);
      stack[t, count[t]] := w;
      current[t] := count[t];
      count[t] := count[t] + 1;
      assert StackOf(t) == before + [w];
    }

    /** The managed check of `handle_map`: does a discovered monitor's stack hold `w`? */
    method IsManaged(w: Window) returns (managed: bool)
      requires Valid()
      ensures managed == Manages(w)
    {
      var mon, _ := FindWindow(w);
      managed := mon != -1;
    }

    /**
     * The monitor `handle_map` chooses: the focused monitor, else the one under
     * the pointer, overridden by the first rule that applies to the class name.
     */
    method ChooseMonitor(windowClass: Option<string>, pointer: Option<Point>, rules: seq<Rule>) returns (monIdx: int)
      requires Valid()
      requires forall r :: r in rules ==> r.monitor < MaxMonitors
      ensures monIdx == RuleTarget(rules, windowClass, DefaultTarget(screens, focusedMonitor, pointer))
      ensures 0 <= monIdx < MaxMonitors
    {
      if focusedMonitor >= 0 {
        monIdx := focusedMonitor;
      } else {
        monIdx := GetMonitorAtPointer(pointer);
      }
      if windowClass != None {
        var cls := windowClass.value;
        var i := 0;
        while i < |rules| && !(rules[i].className == cls && rules[i].monitor >= 0)
          invariant 0 <= i <= |rules|
          invariant forall j :: 0 <= j < i ==> !Applies(rules[j], cls)
        {
          i := i + 1;
        }
        if i < |rules| {
          assert rules[i] in rules;
          monIdx := rules[i].monitor;
        }
      }
    }

    /**
     * The placement part of `handle_map`, given the window's class name (none
     * when the class hint is unavailable) and the pointer position (none when
     * the pointer query fails). A window on a discovered monitor's stack is
     * not added again. Otherwise a full target refuses the window; else the
     * window is pushed and becomes the target's current window.
     */
    method HandleMap(w: Window, windowClass: Option<string>, pointer: Option<Point>, rules: seq<Rule>)
      returns (outcome: MapOutcome)
      requires Valid()
      requires forall r :: r in rules ==> r.monitor < MaxMonitors
      modifies stack, count, current
      ensures Valid()
      ensures outcome == AlreadyManaged <==> old(Manages(w))
      ensures outcome == AlreadyManaged ==> unchanged(stack, count, current)
      ensures outcome != AlreadyManaged ==>
        outcome.monitor == RuleTarget(rules, windowClass, DefaultTarget(screens, focusedMonitor, pointer))
      ensures outcome.Refused? ==> old(count[outcome.monitor]) >= MaxClients && unchanged(stack, count, current)
      ensures outcome.Placed? ==>
        var t := outcome.monitor;
        && old(count[t]) < MaxClients
        && StackOf(t) == old(StackOf(t)) + [w]
        && current[t] == old(count[t])
        && forall m :: 0 <= m < MaxMonitors && m != t ==> StackOf(m) == old(StackOf(m)) && current[m] == old(current[m])
    {
      var managed := IsManaged(w);
      if managed {
        return AlreadyManaged;
      }
      var monIdx := ChooseMonitor(windowClass, pointer, rules);
      if count[monIdx] >= MaxClients {
        return Refused(monIdx);
      }
      Push(monIdx, w);
      return Placed(monIdx);
    }
  }
}
