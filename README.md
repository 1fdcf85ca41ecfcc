# swm: zone partitioner, zone registry and monitor stacks, in Dafny

This project models the decision core of the `swm` tiling window manager. It
proves what that core promises. The repository holds two generations of the
core, and both are modelled:

- `core.c`, the zone layer: `calculate_zones` splits each physical monitor
  into logical zones. A monitor wider than the ultrawide threshold becomes a
  left, a center and a right zone; any other monitor becomes one whole zone.
  A per-zone registry (`zone_clients[]` and `zone_current_index[]` of
  `DisplayManager`) keeps each zone's clients as a linked list, head first,
  plus a current index into that list.
- `swm.c`, the running window manager: `monitors[8]`, each with a fixed
  `stack[256]` of windows in mapping order, a `count` and a `current`
  position; the Xinerama screen list; and `focused_monitor`. On top of that
  state sit the commands:
  - cycle the focus within a monitor;
  - focus the neighbouring monitor, or move the current window to it;
  - close the focused window.

  Clients run these commands by writing a command name into a root-window
  property. Alongside them are window placement when a window is mapped
  (rules from `config.h`), and removal when a window goes away.

Files:

- `wrappers.dfy`: `Option`.
- `wmtypes.dfy`: shared types and the shared definitions below.
  - Window handles.
  - The Xinerama screen record.
  - The selection invariant both layers keep: the index is -1 exactly when
    the collection is empty, and is otherwise in range.
  - `IndexOf`, the first-occurrence search.
  - `RemoveAt`, taking one entry out of a sequence. It serves both the
    unlinking of a zone's list and the shift-left of a monitor's stack.
- `zones.dfy`: the pure partition (`Partition`, `MonitorZones`), its
  properties, and `CalculateZones`. `CalculateZones` is the two-pass loop that
  fills a fresh array, and it is proved to produce `Partition`.
- `registry.dfy`: one zone's add and remove as functions on a `Slot` value,
  with their properties. Class `DisplayManager` holds the two per-zone arrays
  and every client's `zone_index`. Its methods walk and relink the lists as
  the C does. Each method is proved to match the slot functions, and to keep
  the selection invariant and the ownership invariant. Ownership means each
  listed client records its own zone, and no client is listed twice.
- `swm.dfy` has two parts.
  - The pure specifications:
    - C's truncating `%`, and the cyclic step, proved to visit every window
      once per lap;
    - the nearest-neighbour scan, proved to find the nearest monitor, with
      ties going to the lowest index;
    - the monitor under the pointer;
    - rule matching;
    - stack edits as sequence functions.
  - Class `Manager`, which is the `swm.c` global state. `stack` is an
    `array2` whose row `m` is `monitors[m].stack`. Every operation is a method
    over that state, and its `ensures` gives the whole new state in terms of
    the pure specifications.
- `commands.dfy`: the handler table, and the parse of the property value:
  at most 128 bytes arrive, and the text ends at the first NUL. It also holds
  the table lookup, each handler's effect, and `handle_prop`.

Behaviour of the code that the model keeps as written:

- `core.c` has no zone-level cycle or move operation. Navigation is between
  the monitors of `swm.c`, and commands are strings looked up in a table.
- `move_window_relative` appends the window to the target stack and makes it
  that stack's current window; `focused_monitor` is left unchanged.
- `move_window_relative` takes the window out of the source stack before it
  checks that the target has room. With a full target the window is on
  neither stack (`MoveEffect`, `MoveContents`).
- `remove_client` in `swm.c` does not move `current` back when an entry
  before it is removed; it only clamps `current` at the end of the stack.
  `ClampAfterRemove` states which window then becomes current.
- `add_client_to_zone` sets the index to 0 only when it was negative. So
  after an add to a zone with a positive index, the index designates the
  client one step nearer the head (`AddCurrent`). When the index was
  positive, an add followed by a remove of the same client does not restore
  it (`AddThenRemove`).

## Model

| member | source | states |
|---|---|---|
| WmTypes.IndexOf | swm.c:398-402 | the result is -1 exactly when the window is absent; otherwise it holds the window and no earlier position does (the first-occurrence search both `remove_client` and `remove_client_from_zone` perform) |
| WmTypes.IndexOfFirst | swm.c:398-402 | conversely, a position holding the window with no earlier occurrence is the one the search finds |
| Zones.LeftWidth | core.c:33 | no ensures; the definition: the left zone's width, `(int)(width * 0.25)`, the truncated quarter; its properties are stated by `MonitorZones` and `SplitResidual` |
| Zones.CenterWidth | core.c:34 | no ensures; the definition: the center zone's width, `(int)(width * 0.5)`, the truncated half; its properties are stated by `MonitorZones` and `SplitResidual` |
| Zones.RightWidth | core.c:35 | no ensures; the definition: the right zone's width, computed like the left one and not as a remainder; its properties are stated by `MonitorZones` and `SplitResidual` |
| Zones.ZoneCount | core.c:15-24 | no ensures; the definition: the counting pass, 3 zones per ultrawide monitor and 1 per other; `PartitionLength` and `CalculateZones` state that it is the length of the zone list |
| Zones.Partition | core.c:29-69 | no ensures; the definition: the zone list, each monitor's zones in monitor order; `PartitionLength`, `PartitionPrefix`, `MonitorBlock`, `PartitionOrder` and `CalculateZones` state its properties |
| Zones.MonitorZones | core.c:30-68 | a monitor yields 3 zones if strictly wider than the threshold, else 1; each zone has `monitor_id = i`, `zone_id` equal to its position, the monitor's y and height, the first starting at `x_org` and each next one where the previous ends; a regular monitor's one zone is its full geometry; ultrawide widths are each computed independently as the truncated quarter, half and quarter |
| Zones.PartitionLength | core.c:15-24 | the zone count of the counting pass, the sum over monitors of 3 or 1, is exactly the length of the zone list |
| Zones.PartitionPrefix | core.c:29-69 | the zones of the first i monitors are a prefix of the zones of all monitors (earlier monitors' zones never move) |
| Zones.MonitorBlock | core.c:29-69 | monitor i's zones are one contiguous block of the list, starting right after the zones of monitors 0..i-1 |
| Zones.PartitionOrder | core.c:29-69 | every zone names a monitor of the input and one of its zone slots, and (monitor_id, zone_id) strictly increases along the list: monitor order, then left/center/right |
| Zones.SplitResidual | core.c:33-35 | the right zone is not a remainder: the three ultrawide zones end 0 to 2 pixels short of the monitor's right edge, and exactly at it iff the width is a multiple of 4 |
| Zones.CalculateZones | core.c:11-72 | returns a fresh array whose contents are the zone list and a count equal to its length and to the sum over monitors of 3 (width > threshold) or 1 |
| Zones.FillMonitor | core.c:30-68 | one pass of the filling loop writes exactly the monitor's zones after those already written and advances the running index by 3 or 1 |
| Zones.RegularMonitorsExample | tests/test.c:59-67 | two 1920-wide monitors give two whole zones, at x 0 and 1920, monitors 0 and 1, zone id 0 |
| Zones.UltrawideMonitorExample | tests/test.c:83-101 | a 5120-wide monitor gives widths 1280, 2560, 1280 at x 0, 1280, 3840 with zone ids 0, 1, 2 |
| Zones.MixedMonitorsExample | tests/test.c:147-163 | widths 1920, 5120, 1920 give 5 zones with monitor ids 0,1,1,1,2 and zone ids 0,0,1,2,0 |
| Registry.CurrentClient | core.c:76-95 | no ensures; the definition: the client `current` steps from the head, none for a negative index or a walk off the end; `GetCurrentClientInZone`, `RemoveCurrent` and `RemoveOtherKeepsCurrent` state its properties |
| Registry.AddFront | core.c:112-125 | no ensures; the definition: the client becomes the new head, the index becomes 0 only when it was negative; `AddKeepsConsistent`, `AddCurrent`, `AddThenRemove` and `AddKeepsOwned` state its properties |
| Registry.IndexAfterRemoval | core.c:139-155 | no ensures; the definition: the index after one node is unlinked; `RemoveCurrent`, `RemoveOtherKeepsCurrent` and `RemoveKeepsConsistent` state its properties |
| Registry.RemoveFromSlot | core.c:127-161 | no ensures; the definition: `remove_client_from_zone` on one zone, unlinking the first node holding the client; `RemoveContents`, `RemoveKeepsConsistent` and `RemoveKeepsOwned` state its properties |
| Registry.AddKeepsConsistent | core.c:112-125 | adding a client keeps the invariant (index -1 iff empty, else in range) and grows the list by one |
| Registry.AddCurrent | core.c:118-124 | after an add the new client is current when the index was -1 or 0; a positive index is unchanged, so it designates the client one position nearer the head |
| Registry.RemoveContents | core.c:132-161 | removing a client the list does not hold changes nothing; otherwise exactly its first node is unlinked, the rest keep their order, and the multiset of clients loses one copy of it |
| Registry.RemoveKeepsConsistent | core.c:139-155 | removal keeps the index invariant, keeps a list without repeats without repeats, and leaves no copy of the removed client in such a list |
| Registry.RemoveOtherKeepsCurrent | core.c:152-155 | removing a node before or after the current one leaves the same client current (index decremented, resp. unchanged) |
| Registry.RemoveCurrent | core.c:141-151 | removing the current node: with a successor the index is unchanged and designates that successor; as the last node of several the index drops by one to the predecessor; as the only node the zone becomes empty with index -1 |
| Registry.AddThenRemove | core.c:112-161 | adding a new client and removing it restores the list; the index is restored when it was -1 or 0 and ends one lower when it was positive |
| Registry.RegistryScenario | tests/test.c:188-225 | the repository's registry scenario: newest client current after two adds, a forced index 1 designating the older client, removal stepping the index back, emptying to -1, and removal of the current head passing to its successor |
| Registry.AddKeepsOwned | core.c:117-119 | a new head recording zone z keeps the list owned by z when it was not listed yet |
| Registry.OtherKeepsOwned | core.c:117 | recording a zone for a client not in a list leaves that list's ownership intact |
| Registry.RemoveKeepsOwned | core.c:135-137 | unlinking a node keeps the list owned by its zone |
| Registry.DisplayManager.constructor | tests/test.c:29-33 | a display of n zones, each with an empty list and index -1, satisfying both invariants |
| Registry.DisplayManager.CountClientsInZone | core.c:97-110 | returns the length of the zone's list, 0 for an invalid zone |
| Registry.DisplayManager.GetCurrentClientInZone | core.c:76-95 | returns the client at the current index; none for an invalid zone, a negative index, or an index at or past the end |
| Registry.DisplayManager.AddClientToZone | core.c:112-125 | no change for a NULL client or invalid zone; otherwise the zone's slot becomes the add of the client, the client records the zone, other zones are untouched; keeps the index invariant, and keeps ownership when the client was in no list |
| Registry.DisplayManager.RemoveClientFromZone | core.c:127-161 | no change for a NULL client or invalid zone; otherwise the zone's slot becomes the removal of the client (no change when absent), other zones are untouched; keeps the index invariant and ownership |
| Registry.DisplayManager.Unlink | core.c:136-157 | unlinking the first node holding the client at the found position gives the removal of the client and keeps both invariants |
| Swm.CRem | swm.c:277 | C's `%`: dividend = truncated quotient × divisor + remainder, the remainder taking the dividend's sign and lying strictly inside (-n, n) |
| Swm.CycleIndex | swm.c:277 | for a position in range and a step of ±1 the new position stays in [0, count) |
| Swm.CycleStep | swm.c:277 | one step forward goes to the next position and wraps from the last to 0; backward goes to the previous one and wraps from 0 to the last (the wrap cases tests/test.c checks on bare `%`) |
| Swm.CycleIterate | swm.c:270-277 | k repeated cycle steps stay in range |
| Swm.CycleLap | swm.c:277 | within one lap, k steps move exactly k positions forward (or backward), modulo count |
| Swm.CycleTour | swm.c:277 | count steps return to the starting window and the first count positions are pairwise different: each window is focused once per lap |
| Swm.Nearest | swm.c:155-168 | the scan's answer is -1 or a monitor index below n |
| Swm.NearestIsNearest | swm.c:155-168 | the scan returns -1 iff no other monitor lies strictly on the `dir` side by x-origin; otherwise a monitor on that side with minimal distance, strictly nearer than every lower-indexed candidate (ties to the lowest index) |
| Swm.NearestUnique | swm.c:163 | at most one monitor satisfies that characterisation, so it determines the answer |
| Swm.FirstContaining | swm.c:255-265 | -1 iff no monitor's half-open rectangle contains the point; otherwise the first monitor that does |
| Swm.MonitorAtPointer | swm.c:243-268 | a failed pointer query gives the focused monitor or 0; otherwise the first monitor containing the point, else the focused monitor or 0 |
| Swm.FirstRule | swm.c:315-321 | -1 iff no rule has exactly this class and a monitor >= 0; otherwise the first such rule |
| Swm.RuleTarget | swm.c:311-322 | without a class hint, or with no applicable rule, the default target; otherwise the first applicable rule's monitor, which is >= 0 |
| Swm.DefaultTarget | swm.c:309 | the focused monitor when there is one; otherwise the first monitor whose rectangle holds the pointer, and monitor 0 when the pointer query fails or the pointer is on no monitor; always a slot of `monitors[8]` when the focused index is -1 or a discovered monitor |
| Swm.ConfiguredRulesTarget | config.h:6-12 | with the configured rules, "discord" windows go to monitor 2, any other class or a missing hint to the default |
| Swm.TargetInRange | swm.c:309-322 | with rules whose monitors lie below 8, every placement target is a valid index of `monitors[8]` |
| WmTypes.RemoveAt | swm.c:403-406 | the shift-left leaves one entry fewer: earlier entries in place, later ones moved down by one |
| WmTypes.RemoveAtContents | swm.c:403-406 | the shift-left removes exactly one copy of the removed window |
| Swm.Clamp | swm.c:408-409 | the result is the smaller of `current` and count-1: it never moves the position forward, keeps a position still in range, and restores the selection invariant of a stack that just lost one entry |
| Swm.SourceCurrent | swm.c:191 | the source's new position after a move: -1 when the stack emptied, kept when still in range, 0 when it fell off the end |
| Swm.ClampAfterRemove | swm.c:403-409 | after remove and clamp the selection is valid; the same window stays current when the removed entry lay after it; otherwise the successor that slid into the position, or the new last window when the position fell off the end |
| Swm.MoveContents | swm.c:187-200 | a move to a destination with room conserves the windows of the two stacks; with a full destination exactly the moved window is lost |
| Swm.Manager.Row | swm.c:11-16 | the first n entries of row m of the stack array, in order |
| Swm.Manager.constructor | swm.c:545-548 | after discovery: as many monitors as screens, all stacks empty, discovered monitors at position -1, nothing focused; the invariant holds |
| Swm.Manager.SetFocusedMonitor | swm.c:82-96 | an index outside the discovered monitors is rejected, the focused index is reported as already focused, any other becomes focused; only the focus can change |
| Swm.Manager.FindNeighborMonitor | swm.c:155-168 | returns the scan's answer, hence the nearest other monitor strictly on the `dir` side (ties to the lowest index), or -1 |
| Swm.Manager.GetMonitorAtPointer | swm.c:243-268 | the loop returns the first monitor whose half-open rectangle contains the pointer, else the focused monitor or 0 (`MonitorAtPointer`), always a valid slot of `monitors[8]` |
| Swm.Manager.Cycle | swm.c:270-286 | nothing changes without a focused monitor holding two or more windows; otherwise only its position takes one cyclic step and that window gets focus; the invariant is kept |
| Swm.Manager.CloseGap | swm.c:403-406 | the shift-left loop, also at swm.c lines 187-190: the monitor's stack becomes the stack with the entry removed and its count drops by one; other monitors are untouched |
| Swm.Manager.RemoveClient | swm.c:396-418 | reports found iff a discovered monitor's stack holds the window; then the first such monitor and the first position, the stack with that entry removed, the position clamped, everything else unchanged; otherwise -1, -1 and no change; the invariant is kept |
| Swm.Manager.FindWindow | swm.c:398-401 | the scan, also at swm.c lines 299-302: -1, -1 exactly when no discovered monitor's stack holds the window; otherwise the first monitor, in index order, whose stack holds it, and the first position there |
| Swm.Manager.FindInStack | swm.c:400-401 | the first position of the window in one monitor's stack, or -1 when absent |
| Swm.Manager.RemoveEntry | swm.c:403-409 | the stack loses the entry at the position, the current position is clamped to the new end, other monitors are untouched, and the invariant is kept |
| Swm.Manager.MoveWindowRelative | swm.c:170-200 | no change without a focused monitor, a current window or a neighbour; otherwise the current window leaves the source (gap closed, position kept, wrapped to 0 or -1) and is appended to the neighbour as its current window, or is dropped when the neighbour is full; all other monitors unchanged; the invariant is kept |
| Swm.Manager.Transfer | swm.c:187-200 | from a monitor with a current window to another monitor: that window leaves the source (gap closed, position kept, wrapped to 0 or -1) and is appended to the target as its current window, or is reported dropped when the target is full; no other monitor changes; the invariant is kept |
| Swm.Manager.TakeCurrent | swm.c:187-191 | the current entry is removed from the stack and the position follows the source rule; other monitors are untouched |
| Swm.Manager.FocusMonitorRelative | swm.c:218-241 | with a focused monitor and a neighbour, the neighbour becomes focused and its current window, if any, is reported for focus; otherwise nothing changes; stacks never change |
| Swm.Manager.KillTarget | swm.c:109-117 | some window exactly when a monitor is focused and its stack is non-empty, and then its current window |
| Swm.Manager.Push | swm.c:337-338 | the append, also at swm.c lines 199-200: the window is appended to the stack and becomes its current window; other monitors are untouched |
| Swm.Manager.Manages | swm.c:298-307 | no ensures; the definition: some discovered monitor's stack holds the window; `IsManaged`, `FindWindow` and `RemoveClient` are proved against it |
| Swm.Manager.IsManaged | swm.c:298-307 | true exactly when a discovered monitor's stack holds the window |
| Swm.Manager.ChooseMonitor | swm.c:309-322 | the rule target over the default target, always a valid slot |
| Swm.Manager.HandleMap | swm.c:298-338 | an already managed window changes nothing; otherwise the target is the rule target over the default, a full target refuses the window unchanged, else the window is appended there as current and nothing else changes; the invariant is kept |
| Commands.Received | swm.c:362-364 | at most 128 bytes of the value arrive, as a prefix, and a shorter value arrives whole |
| Commands.CString | swm.c:375 | the compared string is the prefix before the first NUL, itself NUL-free |
| Commands.Lookup | swm.c:374-380 | -1 iff no handler has the name; otherwise the first handler that has it |
| Commands.FindHandler | swm.c:374-380 | the in-order search of a handler table finds the position of the first entry with the name, or -1 |
| Commands.CommandFor | swm.c:353-384 | a command runs only for a readable, non-empty value, and it is the first handler whose name equals the text before the first NUL |
| Commands.HandlerNamesDistinct | swm.c:69-78 | no two handlers share a name |
| Commands.HandlerNamesWellFormed | swm.c:69-78 | every handler name is non-empty, NUL-free and shorter than 128 bytes |
| Commands.CStringOfName | swm.c:375 | a NUL-free name compares whole, also when a NUL and further bytes follow it |
| Commands.LookupOwnName | swm.c:374-380 | the search for a handler's own name stops at that handler |
| Commands.EveryCommandReachable | swm.c:69-78 | each handler's own name runs exactly its command |
| Commands.NameThenNul | swm.c:362-375 | a short NUL-free name followed by a NUL arrives, and compares, as exactly that name |
| Commands.TrailingBytesIgnored | swm.c:362-380 | bytes after the NUL that ends a command name do not change the command run |
| Commands.UnknownRunsNothing | swm.c:373-384 | a value matching no handler name runs nothing |
| Commands.Run | swm.c:52-62 | each command has its handler's effect: next/prev cycle by ±1, focus_mon_left/right focus the neighbour, move_window_left/right move the window, kill_focused reports its target and quit the exit, both changing nothing |
| Commands.ParseCommand | swm.c:362-384 | nothing for an unusable or empty value; otherwise the in-order table scan yields the first handler named by the text before the first NUL, or nothing: exactly `CommandFor` |
| Commands.HandleProp | swm.c:353-387 | the command run is the one the value names; no command means no change; otherwise that command's effect; the invariant is kept |

## Left out

- X11 and Xinerama calls are abstracted: mapping, moving, raising, input focus, borders (`set_active_borders`), `XSync`. Where their answers matter they become parameters. The pointer position is an `Option<Point>`, with none when `XQueryPointer` fails. The class hint is an `Option<string>`, with none when `XGetClassHint` fails or gives no class. The command property is an `Option<string>`, with none for another atom, a failed read or a non-8-bit format.
- `kill_focused_window`'s `WM_DELETE_WINDOW`/`XKillClient` exchange is X protocol. Only the choice of the window (`KillTarget`) is modelled.
- `cmd_quit` closes the display and exits the process. The model reports `Exit` and changes nothing.
- `handle_enter`, `handle_destroy` and `handle_map`'s attribute checks (override-redirect, map state) depend on X window attributes. `remove_client` and the placement logic underneath them are modelled.
- `main`: the event loop, adoption of existing windows, Xinerama discovery, `load_colors` and `xerror_handler` are I/O and bootstrapping. Only the stack reset after discovery is modelled (the `Manager` constructor).
- The initial focus `set_focused_monitor(get_monitor_at_pointer())` in `main` is a composition of two modelled operations. It is not a separate member.
- The geometry reads `screens[mon_idx]` and `screens[best]` feed `XMoveResizeWindow` only. They are not modelled. For a rule monitor at or beyond `num_monitors`, that read lies outside the screen list.
- Swm.Manager.HandleMap: requires every rule's monitor to be below 8. The source never checks the rule monitor against the array, and a larger one would write outside `monitors[8]`, which the model cannot represent. Targets from 0 to 7 are allowed, including undiscovered monitor slots.
- Swm.Manager.ChooseMonitor: requires the same bound on rule monitors, for the same reason.
- Swm.Manager.FindNeighborMonitor: requires a focused, discovered monitor. Both callers check this first. The source would read `screens[-1]` otherwise. The unused `focused` parameter is dropped, since the function reads the global.
- Swm.Manager.Cycle: requires a direction of +1 or -1, the only values its callers pass.
- Swm.Manager.constructor: requires at most 8 screens. The source indexes `monitors[i]` for every discovered screen without that check.
- `ULTRAWIDE_THRESHOLD` and the `ZONE_*_RATIO` constants are not defined in `config.h`. The threshold is a parameter. The ratios are fixed at 0.25, 0.5 and 0.25, the values of the repository's tests. These are exact in binary, so `(int)(width * ratio)` is the truncated integer quotient. General floating-point ratios are not modelled.
- C `int` overflow is not modelled, for example `x_org + width` near `INT_MAX`. Coordinates, widths and counts are unbounded integers in the model.
- malloc/free and the NULL-display checks are allocation concerns. An allocation always succeeds in the model, and the display is never NULL. A NULL client is `None`.
- The `x_display`, `screen`, `root`, `zones`, `active_zone`, `command_atom` and `next` fields of `DisplayManager`, and `WindowManager`, are not used by the modelled functions.
- A client's address is modelled by its window handle.
- Registry.DisplayManager.AddClientToZone: in C, adding a client that is already listed rewrites its `next` pointer, which loses nodes or creates a cycle. The model prepends a second occurrence instead. Its ownership guarantee is therefore stated only for a client that is in no list, which is where the two agree.
- The unused globals `clients`, `nclients` and `current` of `swm.c` (lines 27-29) are not read by any modelled function.
- Commands.HandleProp: takes the command from `CommandFor` rather than by running the search loop itself. The parse reads no window-manager state, and `ParseCommand` models that loop and is proved to return `CommandFor`.
- The stderr diagnostics are not printed: the `fprintf` calls of `set_focused_monitor`, `move_window_relative` and `handle_map`, and the unknown-command message of `handle_prop` (swm.c:382-384). The outcomes stand for them: `FocusOutcome`, `MoveOutcome` and `MapOutcome`, and `ran == None` for the unknown command.
- `tests/test_client.c` is a standalone X client and is not part of this model.
