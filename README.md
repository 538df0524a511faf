# wingman tiling core in Dafny

wingman is a tiling window manager for Windows. Every monitor (a *screen*)
owns a *group*: an ordered list of at most four windows tiled left to right
over the monitor's work area. Each member carries a *border shift*
(`l_shift`): the pixels its left border has been moved by resizes. The
group's `rearrange` derives every member's rectangle from an even share of
the work-area width, the shifts, a 16-pixel margin and the frame the
previous member actually got. Hotkeys move a window one slot along its group
or onto the neighbouring monitor. They also resize a window against its
nearest neighbour that can shrink, and move the keyboard focus to the
nearest window on the left or right. Two pollers keep the model in step
with the desktop:
- a per-window watcher reports moves and kills;
- a listener diffs the list of visible top-level handles.

Every call into the operating system is answered by the `Surface` record
(surface.dfy), which is fixed for the duration of one modelled operation:
- the frame a window gets after a move;
- visibility;
- the window rectangle;
- the monitor under a rectangle;
- the title and owner of a handle;
- the probed bounding correction and minimum width;
- the top-level enumeration;
- the foreground handle.

A group operation returns the `MoveWindow` requests it makes, as `Move`
values, instead of performing them.

| file | models |
|---|---|
| position.dfy | `Rect` with derived `w`, `h`, `raw`, its constructors, the Tk geometry string and `Direction` (modules/position.py) |
| settings.dfy | the constants the core reads (modules/settings.py) |
| surface.dfy | the operating-system oracle and the visibility condition shared by both enumerations |
| lists.dfy | the Python list operations the group uses: `index`, `remove`, `insert` and the exchange of neighbours |
| windows.dfy | class `Window`: shift, opacity, minimum width, `can_shrink` and the `draw_in_rect` request (modules/windows.py) |
| layout.dfy | the arithmetic of `rearrange` as functions, and what a whole layout satisfies |
| resize.dfy | the border-shift arithmetic of `resize_window` as functions |
| arrange.dfy | class `Group` and `attach_to_any_group` (modules/arrange.py) |
| monitor.dfy | class `Screen`, the neighbour links, `get_screen`, and the walks to the leftmost and rightmost screen (modules/monitor.py) |
| desktop.dfy | the module-level state of windows.py and monitor.py, gathered in one coordinator. It holds the screens, `Group.all_groups`, `_windows_cache` and `RECENT_FOCUSED`, with `load_window_hwnd`, window creation, the kill and move callbacks, shifting, resizing and `get_focused_window` |
| focus.dfy | `shift_focus_left` / `shift_focus_right` and their nested finders |
| watcher.dfy | `_WindowUpdatesMonitor` |
| events.dfy | `_EventsListener` |

## Model

| member | source | states |
|---|---|---|
| Position.Rect.W | modules/position.py:47-50 | `w` is the distance between the left and right edges, whichever way round they lie |
| Position.Rect.H | modules/position.py:47-50 | `h` is the distance between the top and bottom edges, whichever way round they lie |
| Position.Rect.Raw | modules/position.py:51 | `raw` is the four corners in left, top, right, bottom order, and `from_list(raw)` gives the rectangle back |
| Position.Rect.Geometry | modules/position.py:53-56 | the geometry string reads back as exactly `w`, `h`, `left`, `top` in the `{w}x{h}+{left}+{top}` layout |
| Position.FromList | modules/position.py:14-17 | the four values become left, top, right and bottom, in that order |
| Position.FromXYWH | modules/position.py:20-30 | left and top are `x` and `y`, right is `x + w` and bottom is `y + h`, so the width and height equal `w` and `h` whenever those are not negative |
| Position.FromRECT | modules/position.py:33-36 | a C `RECT` keeps its four corners in the same order |
| Position.RectEquality | modules/position.py:6-11 | two rectangles are equal exactly when their four corner fields are |
| Position.Direction.Code | modules/position.py:59-61 | LEFT is 0, RIGHT is 1, and no direction has both codes |
| Position.Direction.Opposite | modules/arrange.py:145-167 | the side a window enters the neighbouring group from is never the side it left by |
| Position.NatToString | modules/position.py:56 | the decimal rendering of a count is a non-empty run of digits |
| Position.IntToString | modules/position.py:56 | the decimal rendering of an integer is made of digits and the minus sign |
| Position.NatRoundTrip | modules/position.py:56 | reading back the rendering of a natural number gives the number |
| Position.IntRoundTrip | modules/position.py:56 | reading back the rendering of an integer gives the integer, sign included |
| Position.GeometryRoundTrip | modules/position.py:56 | a formatted geometry string parses back to the four numbers it was made from |
| Lists.IndexOf | modules/arrange.py:26-30 | `__win_index`: the position of the first occurrence of a member |
| Lists.IndexOfDistinct | modules/arrange.py:26-30 | in a list without repeats the index of the member at `k` is `k` |
| Lists.DistinctAttach | modules/arrange.py:55-59 | attaching an absent window at either end keeps the list free of repeats |
| Lists.RemoveFirst | modules/arrange.py:69-70 | `list.remove` shortens the list by one exactly when the element occurs, and adds nothing |
| Lists.RemoveFirstIsSplice | modules/arrange.py:66-73 | removal cuts the list around the first occurrence and keeps the rest in order; an absent element leaves it unchanged |
| Lists.RemoveFirstAt | modules/arrange.py:69-70 | removing the element at its first position `i` cuts the list around `i` |
| Lists.RemoveFirstAbsent | modules/arrange.py:69-73 | removing an absent window changes nothing |
| Lists.RemoveFirstOfDistinct | modules/arrange.py:66-73 | in a list without repeats removal takes out exactly that element and keeps the list free of repeats |
| Lists.AttachThenRemove | modules/arrange.py:42-73 | attaching a window at either end and then removing it gives the original list back |
| Lists.Swapped | modules/arrange.py:169-180 | the exchange of two slots swaps those two and changes no other slot |
| Lists.SwappedBack | modules/arrange.py:169-180 | exchanging twice restores the list, and an exchange is a permutation |
| Lists.SwappedAround | modules/arrange.py:169-180 | exchanging neighbours reverses the pair and keeps the list around it |
| Lists.SwappedDistinct | modules/arrange.py:169-180 | an exchange keeps the list free of repeats |
| Lists.Insert | modules/arrange.py:173-177 | `list.insert(i, x)` puts `x` at `i` and moves every later element up one place |
| Lists.MoveOneSlot | modules/arrange.py:169-177 | removing a window and inserting it again one slot left or right exchanges it with that neighbour |
| Windows.ClampOpacity | modules/windows.py:257-261 | opacity is brought into [75, 255]; a value inside is kept; a value below becomes 75 and one above becomes 255 |
| Windows.OpacityStepAsWritten | modules/windows.py:271 | the step the opacity hotkeys read is not defined by the settings, which name it `OPACITY_VALUE_STEP` |
| Windows.MoveRequestAsWritten | modules/windows.py:233-252 | with the request as written, an ideal desktop puts the frame's left and top where asked but its right and bottom edges short by the left and top corrections |
| Windows.MoveRequestAsWrittenMisses | modules/windows.py:240-247 | a concrete correction and rectangle for which the frame misses the requested rectangle |
| Windows.MoveRequest | modules/windows.py:233-252 | the corrected request makes an ideal desktop put the frame exactly on any non-inverted requested rectangle |
| Windows.Window.constructor | modules/windows.py:66-76 | a new window starts with shift 0, opacity 255 and no blur, with its probed correction and minimum width |
| Windows.Window.MinimumWidth | modules/windows.py:154-159 | `minimum_width` is the larger of the probed width and `WINDOW_MIN_W` |
| Windows.Window.CanShrink | modules/windows.py:296-299 | `can_shrink` holds exactly when the width of the `rect` property (freshly queried for a window without a screen, the stored one otherwise), less one margin, meets both the probed and the global floor |
| Windows.Window.ResetShift | modules/windows.py:187-190 | the border shift becomes 0 |
| Windows.Window.UpdateOpacity | modules/windows.py:254-264 | the opacity becomes its clamp into [75, 255] |
| Windows.Window.IncreaseOpacity | modules/windows.py:274-278 | the opacity becomes the clamp of the old opacity plus the step |
| Windows.Window.DecreaseOpacity | modules/windows.py:268-272 | the opacity becomes the clamp of the old opacity less the step |
| Windows.Window.ToggleBlur | modules/windows.py:170-185 | the blur flips; enabling sets opacity 225 and disabling sets 255 |
| Windows.Window.DrawInRect | modules/windows.py:233-252 | the `MoveWindow` arguments sent are the request as written for the rectangle, and the result is the frame the surface reports after them, not the requested rectangle |
| Layout.CeilDiv | modules/arrange.py:94 | `ceil(a / n)` is the least multiple count covering `a` |
| Layout.Requested | modules/arrange.py:101-114 | a member's request: left one margin right of the previous achieved right, top and bottom one margin inside the work area. The width is the share less the margin and its own shift, plus the next member's shift; when a next member exists and that falls short of `WINDOW_MIN_W`, the width is exactly `WINDOW_MIN_W`. The last list member reaches the work area's right edge less a margin |
| Layout.PlaceMoves | modules/arrange.py:97-116 | every request made from member `i` on is well formed, for a visible member at index `i` or later, and records the frame the surface reported for the `MoveWindow` arguments as written |
| Layout.PlaceOrdered | modules/arrange.py:97-116 | requests are made in strictly increasing list order |
| Layout.PlaceCovers | modules/arrange.py:97-99 | every visible member from `i` on gets a request |
| Layout.PlaceChain | modules/arrange.py:95-116 | each request starts one margin right of the frame the previous visible member actually got |
| Layout.LayoutShape | modules/arrange.py:86-116 | one rearrange requests once per visible member, in list order, each well formed and recording the frame reported for the arguments as written; the first starts one margin in from the work area, every next one a margin after the previous achieved frame |
| Layout.Place | modules/arrange.py:97-116 | the loop of `rearrange` from member `i` on makes at most one request per remaining member |
| Layout.Arrangement | modules/arrange.py:86-116 | one `rearrange` makes at most one request per member |
| Layout.LayoutOfEmptyGroup | modules/arrange.py:89-90 | an empty group requests nothing |
| Layout.PlaceSpan | modules/arrange.py:101-116 | on a desktop that honours the right edge of every request as written, the requests from `i` on and their margins fill the space up to the work area's right margin |
| Layout.LayoutSpansWorkArea | modules/arrange.py:86-116 | with the last member visible on such a desktop (right edges of the requests as written honoured), widths plus margins add up to the work-area width |
| Layout.LayoutSeparatesByMargin | modules/arrange.py:101-116 | on such a desktop (right edges of the requests as written honoured) consecutive requests are separated by exactly one margin and never overlap |
| Layout.IdealDesktopHonoursRightEdges | modules/windows.py:233-252 | a desktop that applies each window's true bounding correction honours every right edge requested through the request as written, provided no frame sticks out on the left (left correction 0) |
| Layout.IdealDesktopEndsShort | modules/arrange.py:97-116 | on a desktop that applies each window's true bounding correction, with the request as written each frame ends `dx` short of its requested right edge, so the next request starts `dx` further left than a margin past that edge |
| Resize.ResizeTarget | modules/arrange.py:210-218 | a lone member is not resized; the leftmost resized left hands over to its right neighbour, and the rightmost resized right to its left neighbour |
| Resize.NearestLeft | modules/arrange.py:226-233 | the walk to the left finds the nearest member that can shrink, skipping only members that cannot |
| Resize.NearestRight | modules/arrange.py:226-233 | the walk to the right finds the nearest member that can shrink, skipping only members that cannot |
| Resize.NearestLeftIs | modules/arrange.py:226-233 | a shrinkable member with only unshrinkable ones between it and `k` is the one found to the left |
| Resize.NearestRightIs | modules/arrange.py:226-233 | a shrinkable member with only unshrinkable ones between `k` and it is the one found to the right |
| Resize.AddRange | modules/arrange.py:239-245 | the shifts in `lo..hi` change by `d`, every other shift is kept |
| Resize.StretchAsWritten | modules/arrange.py:220-248 | the resize on the shifts exactly as written; it keeps the number of shifts |
| Resize.StretchLeftAsWrittenNarrowsSkipped | modules/arrange.py:234-237 | with two members skipped on the left, the member next to the resized one narrows although it cannot shrink |
| Resize.StretchLeftAsWrittenFound | modules/arrange.py:229-237 | once the left walk finds `j`, the stretch as written takes a margin from `k`'s shift and from `j + 1`'s when that is not `k`, and nothing else |
| Resize.StretchRightAsWrittenFound | modules/arrange.py:226-245 | for a member without a negative shift, the stretch to the right as written adds a margin to every shift from `k + 1` up to the member found, and changes nothing when none is found |
| Resize.Stretch | modules/arrange.py:220-248 | nothing changes exactly when the window gets no margin back and no member in the walk direction can shrink |
| Resize.StretchGivesBack | modules/arrange.py:221-224 | to the right, a negative shift only gets one margin back |
| Resize.StretchFound | modules/arrange.py:229-248 | once the shrinking member is found, the borders between it and the resized member move one margin towards it |
| Resize.StretchIsLocal | modules/arrange.py:226-248 | only borders between the resized member and the member that shrinks change, and no shrinkable member lies between |
| Resize.StretchTradesOneMargin | modules/arrange.py:226-248 | the resized member gains exactly one margin of width, the nearest shrinkable member loses it, every other member keeps its width |
| Resize.StretchRightGivesBack | modules/arrange.py:220-224 | giving a negative shift back narrows the member by one margin and widens its left neighbour by one |
| Resize.StretchWithoutRoom | modules/arrange.py:229-250 | when nothing in the walk direction can shrink, no shift changes |
| Resize.StretchAsWrittenAgreesNearby | modules/arrange.py:234-245 | the source's left resize and the intended one agree whenever at most one member is skipped |
| Resize.Resized | modules/arrange.py:207-250 | the whole resize on the shifts, as written: the redirect at the group ends, then `StretchAsWritten`; it keeps the number of shifts |
| Resize.ResizeSingleIsNoOp | modules/arrange.py:210-211 | a one-member group is never resized |
| Arrange.WidthDemandConcat | modules/arrange.py:78 | the width a list needs is the sum over its parts |
| Arrange.WidthDemandPair | modules/arrange.py:78 | two members need the same in either order |
| Arrange.WidthDemandSwap | modules/arrange.py:169-180 | exchanging neighbours does not change the width the group needs |
| Arrange.WidthDemandRemove | modules/arrange.py:66-73 | removing a member never makes the group need more width |
| Arrange.SwapWindowShifts | modules/arrange.py:12-13 | the two windows exchange their border shifts |
| Arrange.Group.constructor | modules/arrange.py:21-24 | a group starts empty over the given work area |
| Arrange.Group.CanFitWindow | modules/arrange.py:75-84 | the group fits the window exactly when the members' minimum widths plus a margin each, plus the newcomer's minimum width without a margin, fit the work-area width |
| Arrange.Group.IsLeftmost | modules/arrange.py:124-127 | true exactly for the member at index 0 |
| Arrange.Group.IsRightmost | modules/arrange.py:129-132 | true exactly for the last member |
| Arrange.Group.GetNeighbour | modules/arrange.py:184-195 | none exactly at the end of the list towards the direction, otherwise another member |
| Arrange.Group.NeighboursAreMutual | modules/arrange.py:184-195 | a window's neighbour towards a direction has the window as its neighbour the other way |
| Arrange.Group.WindowsOnLeft | modules/arrange.py:197-200 | the members before the window; with the window and those after it they make up the list |
| Arrange.Group.WindowsOnRight | modules/arrange.py:202-205 | the members after the window, which do not include it |
| Arrange.Group.Rearrange | modules/arrange.py:86-116 | the loop makes exactly the requests of `Arrangement` over the group's members |
| Arrange.Group.RectFor | modules/arrange.py:101-114 | the loop body computes exactly `Requested` for the member |
| Arrange.Group.ResetShifts | modules/arrange.py:118-122 | every member's shift becomes 0 |
| Arrange.Group.AttachWindow | modules/arrange.py:42-64 | refused with nothing changed when the group is full or the window does not fit. Otherwise the window joins at the named end, the members keep their order, every shift including the newcomer's is 0, and the group is rearranged |
| Arrange.Group.Join | modules/arrange.py:52-59 | the admitting half: every shift reset and the window placed at the named end |
| Arrange.Group.RemoveWindow | modules/arrange.py:66-73 | the window leaves and the others keep their order; an absent window changes nothing; the group is rearranged in both cases |
| Arrange.Group.AddShift | modules/arrange.py:234-237 | one member's shift changes by `d`, no other shift changes |
| Arrange.Group.MoveMember | modules/arrange.py:169-177 | remove-and-insert one slot towards the direction exchanges the window with that neighbour |
| Arrange.Group.Exchange | modules/arrange.py:169-180 | the window trades places with its neighbour and the two swap shifts, so the shift of every list position is unchanged |
| Arrange.Group.HandOver | modules/arrange.py:145-167 | when the neighbouring group accepts, the window leaves this group and enters the neighbour from the opposite side, every shift in the neighbour then 0 and this group's remaining members keeping theirs; when it refuses, nothing changes, shifts included |
| Arrange.Group.Register | modules/arrange.py:137-143 | a window that is not a member is attached from the left when the group accepts it, every shift then 0; otherwise nothing changes, shifts included |
| Arrange.Group.ShiftInside | modules/arrange.py:169-182 | the in-group shift: neighbours exchanged, shifts per position kept, group rearranged |
| Arrange.Group.ShiftWindow | modules/arrange.py:134-182 | all four cases of `shift_window`, with the lists and the shifts each leaves: registering a non-member; an end member with no neighbouring monitor, which changes nothing; the hand-over to the neighbour group; the in-group exchange |
| Arrange.Group.FindShrinkableLeft | modules/arrange.py:226-233 | the loop finds `NearestLeft` of the members' shrink answers |
| Arrange.Group.FindShrinkableRight | modules/arrange.py:226-233 | the loop finds `NearestRight` of the members' shrink answers |
| Arrange.Group.AddShifts | modules/arrange.py:239-245 | the shifts become `AddRange` of the old ones |
| Arrange.Group.StretchLeft | modules/arrange.py:226-237 | the left walk finds `NearestLeft`; when it finds member `j`, the shifts change as written: `k` loses a margin, and so does `j + 1` when that is not `k`; no other shift changes, and nothing changes when nothing is found |
| Arrange.Group.StretchRight | modules/arrange.py:239-245 | the right walk: the shrinking member and every skipped one gain a margin of shift |
| Arrange.Group.StretchMember | modules/arrange.py:220-248 | the shifts become exactly `StretchAsWritten` of the old ones, and the result says whether anything changed |
| Arrange.Group.ResizeWindow | modules/arrange.py:207-250 | for a member, the shifts become `Resized` (the resize as written) of the old ones and the group is rearranged exactly when they change |
| Arrange.Group.ResizeShifts | modules/arrange.py:207-248 | the resize on the shifts alone, with the redirect at the ends: the shifts become `Resized` of the old ones |
| Arrange.Group.ResizeOutsider | modules/arrange.py:207-224 | for a window that is not a member: raises on an empty group and on anything but a right resize with a negative shift, which gets one margin back |
| Arrange.FirstAccepting | modules/arrange.py:253-260 | the first group, in order, with room and width for the window; none exactly when no group accepts it |
| Arrange.FirstAcceptingIs | modules/arrange.py:253-260 | an accepting group with no accepting group before it is the one found |
| Arrange.AttachToAnyGroup | modules/arrange.py:253-260 | the first accepting group (`FirstAccepting` of the lists at the call) takes the window from the right, every shift there reset, and is rearranged; every other group keeps its list and its members their shifts; when none accepts, nothing changes |
| Monitor.Screen.constructor | modules/monitor.py:14-29 | a screen keeps its handle, work area and physical rectangle, gets an empty group over the work area, and starts with no links |
| Monitor.Screen.W | modules/monitor.py:23 | `w` is the absolute horizontal extent of the work area |
| Monitor.Screen.H | modules/monitor.py:24 | `h` is the absolute vertical extent of the work area |
| Monitor.Screen.ArrangeBoundingMonitors | modules/monitor.py:31-42 | the links become the last touching screen on each side, the left match winning over the right; an unmatched link keeps its value |
| Monitor.LeftOf | modules/monitor.py:34-39 | a left match is another screen whose right edge is this screen's left edge; none exactly when no screen matches |
| Monitor.RightOf | modules/monitor.py:34-42 | a right match is another screen, not a left match, whose left edge is this screen's right edge; none exactly when none matches |
| Monitor.LeftOfIsLastMatch | modules/monitor.py:34-39 | the last left match in list order wins |
| Monitor.RightOfIsLastMatch | modules/monitor.py:34-42 | the last right match in list order wins |
| Monitor.LinksTouch | modules/monitor.py:31-42 | a screen is never its own neighbour; a left neighbour's right edge is its left edge and a right neighbour's left edge is its right edge; a link is empty exactly when nothing touches that side |
| Monitor.BuildScreens | modules/monitor.py:55-57 | one fresh screen per monitor, in order, each with its own empty group and links computed over the whole list |
| Monitor.BuildTopology | modules/monitor.py:56-57 | after the loop every screen carries its links |
| Monitor.Screen.AttachWindow | modules/monitor.py:44-47 | delegates to the group's `attach_window`, from the right by default |
| Monitor.Screen.DettachWindow | modules/monitor.py:49-52 | delegates to the group's `remove_window` |
| Monitor.GetScreen | modules/monitor.py:60-65 | the first screen with the handle, or none exactly when no screen has it |
| Monitor.LeftHop | modules/monitor.py:72-73 | with left edges left of right edges, a left hop reaches a listed screen strictly further left |
| Monitor.RightHop | modules/monitor.py:82-83 | with left edges left of right edges, a right hop reaches a listed screen strictly further right |
| Monitor.LeftEnd | modules/monitor.py:68-75 | following left links ends on a screen without a left link, no further right than the start |
| Monitor.RightEnd | modules/monitor.py:78-85 | following right links ends on a screen without a right link, no further left than the start |
| Monitor.LeftmostScreen | modules/monitor.py:68-75 | the walk terminates on the end of the left links from the first screen |
| Monitor.RightmostScreen | modules/monitor.py:78-85 | the walk terminates on the end of the right links from the first screen |
| Desktop.GroupsOf | modules/monitor.py:26 | one group per screen |
| Desktop.HomeOf | modules/windows.py:78-82 | the group a new window lands in, if any, is a group of the list |
| Desktop.HomeOfMeaning | modules/windows.py:78-82 | a new window finds a group exactly when it has a screen and some group accepts it. Its own screen's group is preferred whenever it accepts, and otherwise the first accepting group takes it |
| Desktop.ShiftedLists | modules/arrange.py:134-182 | after a shift there is still one member list per group |
| Desktop.Taker | modules/arrange.py:134-182 | one case per branch of `shift_window`: a registered non-member is taken in by its group when accepted, and a refusal changes nothing; an end member is taken in by the linked group when that accepts, and otherwise nothing changes; the in-group exchange is taken in by nobody and keeps the group's members. A taker accepts the window and holds it afterwards |
| Desktop.Desktop.constructor | modules/monitor.py:55-57 | one screen per monitor with an empty group and its links, an empty cache and no recently focused window |
| Desktop.Desktop.ResolveScreen | modules/windows.py:134-138 | a stored screen is returned unchanged; otherwise the rectangle is queried again and stored, and the screen of the monitor under it is stored and returned |
| Desktop.Desktop.ResolvedScreen | modules/windows.py:134-138 | the value the `screen` property resolves to, without storing it: for a window in range, a listed screen when there is one |
| Desktop.Desktop.Settle | modules/windows.py:161-165 | the rectangle becomes the one the operating system reports after the restore, and a window without a screen gets the screen of the monitor under it |
| Desktop.Desktop.HomeOn | modules/windows.py:78-82 | a window without a screen stays out of every group; one with a screen is homed as `HomeOf` says, every shift in its new group reset and every other shift kept |
| Desktop.Desktop.OnRectUpdate | modules/windows.py:94-102 | the new rectangle is stored and the screen is looked up from it |
| Desktop.Desktop.Home | modules/windows.py:78-82 | the window lands exactly in `HomeOf`'s group, appended there with every shift in that group 0; every other list, and every other window's shift, is unchanged |
| Desktop.Desktop.HomeOwn | modules/windows.py:78-79 | its own screen's group takes it from the right, every shift there reset, exactly when it accepts it; nothing else changes |
| Desktop.Desktop.HomeElsewhere | modules/windows.py:80-82 | after its own screen refused, the first accepting group takes it with every shift there reset, or none does and the window keeps its shift; no other list or shift changes |
| Desktop.Desktop.Minimise | modules/windows.py:192-202 | `minimize` of a window no group took: the requests are the rearrangement of the screen's group, which is what removing the absent window and rearranging gives |
| Desktop.Desktop.Dettach | modules/monitor.py:49-52 | the window leaves that screen's group, which is rearranged; no other group changes |
| Desktop.Desktop.OnWindowKilled | modules/windows.py:104-115 | a window without a screen raises and changes nothing; otherwise it leaves its screen's group, which is rearranged, and its handle leaves the cache |
| Desktop.Desktop.NewWindow | modules/windows.py:66-76 | a fresh window with the initial attributes (shift 0, opacity 255, no blur, the probed correction and floor), cached under its handle; no member list changes and it is in no group |
| Desktop.Desktop.Place | modules/windows.py:73-82 | the rectangle is re-read once the window is restored and the screen resolved; a window with a screen is homed by `HomeOf` with every shift in its new group reset, and every other window keeps its shift |
| Desktop.Desktop.LoadNew | modules/windows.py:319-333 | an owned handle, while some window is cached, gives nothing and changes nothing; any other gives a fresh window cached under the handle, on the screen of the monitor under its rectangle and homed where `HomeOf` says |
| Desktop.Desktop.LoadWindowHwnd | modules/windows.py:302-333 | an ignored title gives nothing and changes nothing, and a cached handle gives its window unless forced. Otherwise the handle is dropped from the cache, and it gives nothing when it has an owner and some window is cached. Else a fresh window is cached and placed on the screen of the monitor under its rectangle |
| Desktop.Desktop.Load | modules/windows.py:312-317 | without forcing, no cached entry changes and a cached, non-ignored handle gives its cached window |
| Desktop.Desktop.Forget | modules/windows.py:112-113 | the handle leaves the cache and nothing else does |
| Desktop.Desktop.Link | modules/monitor.py:28-42 | the index of the linked screen on a side is another screen's, and none exactly when there is no link |
| Desktop.Desktop.ShiftOn | modules/arrange.py:134-182 | the member lists become exactly `ShiftedLists` of the old ones, with the group of the linked screen as neighbour; the group that takes the window in (`Taker`) has every shift 0 and every other window keeps its shift |
| Desktop.Desktop.ShiftAlone | modules/arrange.py:137-182 | the cases where no neighbour group is consulted give `ShiftedLists`, with the shifts `ShiftsAfter` states |
| Desktop.Desktop.ShiftBeside | modules/arrange.py:145-167 | the hand-over to the linked screen's group gives `ShiftedLists`, with the shifts `ShiftsAfter` states |
| Desktop.Desktop.ShiftWindow | modules/windows.py:280-288 | the screen is resolved; no screen raises and changes no list and no shift, else the lists become `ShiftedLists` on that screen |
| Desktop.Desktop.ResizeOn | modules/arrange.py:207-250 | the resize on screen `i`'s group leaves exactly what `resize_window` does, raising for the cases the source raises on |
| Desktop.Desktop.ResizeWindow | modules/windows.py:290-294 | the screen is resolved; no screen raises and changes no shift, else that group resizes the window |
| Desktop.Desktop.GetFocusedWindow | modules/windows.py:374-388 | an uncached foreground handle is loaded; a cached foreground window becomes the recently focused one and is returned, otherwise the recently focused one is returned |
| Desktop.Desktop.Recall | modules/windows.py:383-388 | a cached handle's window becomes the recently focused one and is returned; otherwise the recently focused one is returned unchanged |
| Desktop.Desktop.WithoutWindow | modules/events.py:73-74 | every member list with the window removed |
| Desktop.Desktop.RemoveEverywhere | modules/events.py:73-74 | the window is removed from every group, and nothing else changes |
| Desktop.Desktop.LoadVisible | modules/windows.py:336-366 | every collected window is the cached one of a listed top-level handle; every listed handle already cached under a non-ignored title contributes it; no cached entry is lost |
| Desktop.Desktop.Visit | modules/windows.py:351-364 | the enumeration callback: a listed handle is loaded and its window collected; collected windows stay the cached ones of listed handles, and a cached, non-ignored listed handle contributes its window |
| Focus.EdgeOf | modules/windows.py:401-459 | the left finder compares left edges, the right finder right edges |
| Windows.CurrentRect | modules/windows.py:123-128 | a window without a screen answers with a freshly queried rectangle, any other with the stored one |
| Focus.ScreenOf | modules/windows.py:134-138 | the stored screen, or the screen of the monitor under the current rectangle |
| Focus.NextIndex | modules/windows.py:401-413 | the candidate lies past the current edge and no candidate past it is nearer; the first is kept on ties; none exactly when nothing lies past the edge |
| Focus.NextIndexUnique | modules/windows.py:401-413 | those properties determine the finder's answer |
| Focus.EdgesOf | modules/windows.py:404-405 | one edge per window, read through the `rect` property |
| Focus.NextIsBeyond | modules/windows.py:401-413 | what the finder returns is a given window past the edge |
| Focus.NextBeats | modules/windows.py:401-413 | any given window past the edge makes the finder return one at least as near |
| Focus.FindNext | modules/windows.py:401-413 | the loop with its running candidate returns the `NextIndex` window |
| Focus.OnScreen | modules/windows.py:368-369 | the filter keeps exactly the windows whose `screen` is the one asked for, or all of them without one |
| Focus.EdgeOfWindow | modules/windows.py:405 | the edge compared for a window, through its `rect` property |
| Focus.FindOn | modules/windows.py:401-413 | the result is a shown window on the screen past the edge; any known window there past the edge makes it return one at least as near |
| Focus.FarEnd | modules/windows.py:430-437 | focus wraps to a screen with no further link in the direction of travel |
| Focus.EndWindow | modules/windows.py:434-435 | the last member when moving left, the first when moving right |
| Focus.WrapFocus | modules/windows.py:423-437 | first the neighbour screen, complete for known windows; failing that, the far end's end window unless the far end is the current screen or its group is empty |
| Focus.ShiftFrom | modules/windows.py:397-437 | the search from a focused window on its own screen first, complete for known windows. With overlapping off, any target is on the focused window's screen. With overlapping on, a known window past the edge on the linked neighbour screen makes it focus a window past the edge on its own screen, or one on the neighbour at least as near; any target is on its own screen, on the neighbour or the wrapped end window; it stays put only when the far end is its screen or that group is empty. It raises only when overlapping is on and the window has no screen |
| Focus.SearchFrom | modules/windows.py:415-437 | the finder on the focused window's screen, or on every window when there is none: complete for known windows past the edge, returning a shown one at least as near on that screen. With overlapping off, any target is on that screen, and it fails only when overlapping is on and no screen was given. With overlapping on, a known window past the edge on the linked screen makes it focus a window past the edge on its own screen, or one on the linked screen at least as near; any target is on its own screen, on the linked screen or the far end's end window; it stays put only when the far end is its own screen or that group is empty |
| Focus.SearchBeyond | modules/windows.py:420-437 | once nothing was found on the screen, focus stays put with overlapping off. With it on, a window without a screen raises; otherwise the linked screen is searched first, complete for known windows past the edge there, and a target is on the linked screen or is the far end's end window; it stays put only when the far end is that screen or its group is empty |
| Focus.ShiftFocus | modules/windows.py:394-483 | with no focused window nothing moves. Otherwise a known window past the focused one's edge on its screen makes the target one on that screen at least as near; with overlapping off any target is on that screen; with overlapping on, a known window past the edge on the neighbour screen makes the target one past the edge on its own screen or one on the neighbour at least as near, any target is on its screen, on the neighbour or the wrapped end window, and focus stays put only when the far end is its screen or that group is empty |
| Watcher.Observe | modules/windows.py:48-57 | a failed read reports the kill, a changed rectangle reports the move to it, an unchanged one nothing |
| Watcher.Watch | modules/windows.py:44-57 | polling stops exactly after the first failed read, and every move reported is the rectangle observed |
| Watcher.WatchFirst | modules/windows.py:44-57 | one poll, then the run from the rectangle it saw |
| Watcher.StillWindowIsQuiet | modules/windows.py:54-55 | a window that keeps its rectangle is never reported moved |
| Watcher.MoveReportedOnce | modules/windows.py:54-57 | a move is reported once, since the stored rectangle becomes the new one |
| Watcher.WindowUpdatesMonitor.constructor | modules/windows.py:31-39 | the watcher starts from the rectangle read at construction, polling every 0.1 s |
| Watcher.WindowUpdatesMonitor.Poll | modules/windows.py:45-57 | one tick reports `Observe`, stores the new rectangle and stops exactly when the read failed |
| Watcher.WindowUpdatesMonitor.Run | modules/windows.py:44-57 | the loop reports exactly `Watch` of the observations and runs on exactly when nothing was killed |
| Events.ListedHandles | modules/events.py:31-46 | a handle is kept exactly when it is enumerated and passes all five visibility conditions |
| Events.VisibleHandles | modules/events.py:19-50 | the enumeration loop returns `ListedHandles` of the top-level handles |
| Events.Reload | modules/events.py:62 | only the handle's cache entry changes; a non-ignored handle without an owner always gives a fresh cached window; an ignored one changes nothing |
| Events.LoadOne | modules/events.py:61-65 | the reload, then the rearrange of the screen its window resolves to |
| Events.RearrangeHome | modules/events.py:64-65 | the requests are the arrangement of the group of the screen the window's `screen` property resolves to, and none without a screen; the cache is unchanged |
| Events.LoadAppeared | modules/events.py:60-65 | only appeared handles are loaded; handles present in both lists keep their cache entries |
| Events.DropVanished | modules/events.py:67-74 | every vanished handle's cached window leaves every group; a vanished handle without a cached window changes no group |
| Events.EventsListener.constructor | modules/events.py:13-17 | the buffer starts as the handles visible at construction |
| Events.EventsListener.Tick | modules/events.py:55-76 | the buffer becomes the handles seen now; handles present in both lists keep their cache entries; appeared ones are reloaded; vanished cached windows leave every group; with no change, no group changes |

## Left out

- Operating-system calls (win32gui, win32api, ctypes, dwmapi) are functions of the `Surface` value, fixed during one operation. A surface that changes between two calls of one operation is not modelled.
- The bounding-difference and minimum-width probes of modules/screen_test.py are surface functions (`boundingDiff`, `probedMinWidth`). modules/screen_test.py is not part of this model.
- Threads and `time.sleep`: the watcher and the listener are modelled as one tick (`Poll`, `Tick`), or as a run over a finite sequence of observations (`Run`). Races between the watcher, the listener and the hotkeys are out of scope.
- The blur overlay window (modules/blur.py) is reduced to the `blurred` flag and the opacity `toogle_blur` sets. Resizing or destroying the overlay is not modelled.
- Logging (modules/logs.py) is a no-op; `Window.text` is read only through the surface's title.
- Window identity: membership is object identity, while the source's dataclass equality compares `hwnd`, `_rect` and `_screen`. Two windows with equal fields would be equal in the source.
- `ceil(self.screen_rect.w / len(self.windows))` uses floating point; it is modelled as exact integer ceiling division.
- The `ShowWindow` calls of `__fix_max_win`, `minimize`, `maximize`, `unmaximize` and `focus` change only the desktop and are not modelled. `maximize` and `unmaximize` are hotkey actions outside the tiling core.
- Windows.Window.DrawInRect: `draw_in_rect` first runs `__fix_max_win` (modules/windows.py:161-165, 239), which stores the rectangle the operating system reports in `_rect`; the model does not store it there. The request depends only on the rectangle asked for, and `rearrange` overwrites nothing else with it. Window creation keeps that store (Desktop.Desktop.Settle).
- Desktop.Desktop.Minimise: `minimize` also stores the rectangle reported after minimising in `_rect` (modules/windows.py:196); the model does not. It is modelled only for a window no group took, where `remove_window` finds nothing to remove, so what remains is the rearrangement of that screen's group.
- Windows.CurrentRect: the `rect` property also stores the freshly queried rectangle in `_rect` when `_screen` is None (modules/windows.py:125-126); the function does not store it. Any later read through the property queries again, so only the stored field, never a value read through `rect`, differs.
- Desktop.Desktop.ShiftWindow: requires that a hand-over would not offer the window to a neighbour group that already holds it (`HandOverFree`); `attach_window` would then add it a second time, which the distinct member lists of the model do not represent. The shifts of the `Done` case are stated by Desktop.Desktop.ShiftOn, not by this method.
- The `screen` property's setter (modules/windows.py:140-146) is not called anywhere in the core and is not modelled.
- `BLUR_MODE_ONLY` is taken as `False`: window creation always runs the tiling part.
- `attach_window` does not check for an existing membership. The model requires the window not to be a member of the group it attaches to, and a group's members are kept distinct.
- Arrange.Group.ResizeWindow: the source's recursive call on the neighbour at a group end is modelled as one redirect (`ResizeTarget`). The recursion never goes deeper, because the neighbour is then not at that end.
- Desktop.Desktop.constructor: requires every monitor's physical rectangle to run left to right, which the walks to the leftmost and rightmost screen need to terminate.
- The import-time call `RECENT_FOCUSED = get_focused_window()` (modules/windows.py:391) raises `NameError` when the foreground window cannot be loaded. The model starts with no recently focused window instead.
- Arrange.AttachToAnyGroup: the offers to the groups in turn are modelled as finding the first accepting group and attaching there; a refusing group changes nothing.
- Desktop.Desktop.ShiftOn: the neighbour screen's `attach_window` is called as its group's `attach_window`, to which it only delegates.
- Focus.ShiftFocus: requires every cached window and the recently focused one to name a listed screen, if any. Loading establishes this, and it is not carried as a global invariant.
- Focus.OnScreen: the lazy `filter` is applied eagerly to the loaded list. The `screen` and `rect` properties it evaluates would store a freshly resolved screen and rectangle on a window without one; those stores are not kept by the filter or by the finders.
- Focus.FindNext: the current window's edge is read once per finder, where the source re-reads `current.rect` on every comparison; the two agree because the rectangle of a window with a screen is stored.
- `OVERLAPPING_FOCUS_SHIFT` is passed as the parameter `overlapping`.
- `focus()` (`SetForegroundWindow`) is not modelled: the shift returns the window it would focus.
- Events.EventsListener.Tick: does not state the placement requests of the rearranges it causes. It states completeness of the reload only for handles whose window has no owner.
- Desktop.Desktop.ResizeWindow: does not state the shifts for a window whose screen the call itself resolves.
- Desktop.Desktop.RemoveEverywhere: does not state the requests of the rearranges it causes.
- Desktop.Desktop.LoadVisible: does not state the order of the collected windows, nor which new windows appear.
- Desktop.Desktop.LoadWindowHwnd: the owner check runs once per cached window in the source, with the same answer each time; it is modelled as one check made when the cache is not empty.

## Findings

| source | as written | input that shows it | evidently intended | confidence | as-written member | corrected member |
|---|---|---|---|---|---|---|
| modules/windows.py:240-247 | the width and height sent to `MoveWindow` are corrected by the right and bottom frame offsets alone | a window with frame offsets (7, 0, -7, -7) asked for the rectangle (16, 16, 784, 884) gets a frame ending 7 pixels short on the right | correct the size by the difference of the opposite offsets, so the frame lands on the requested rectangle | not executed | Windows.MoveRequestAsWrittenMisses | Windows.MoveRequest |
| modules/windows.py:271 | the opacity hotkeys read `settings.OPACITY_VALUE_CHANGE`, which modules/settings.py does not define (it defines `OPACITY_VALUE_STEP` = 5), so both raise `AttributeError` | any press of the increase or decrease opacity hotkey | step the opacity by `OPACITY_VALUE_STEP` | not executed | Windows.OpacityStepAsWritten | Windows.Window.IncreaseOpacity |
| modules/arrange.py:234-237 | a resize to the left takes a margin from the resized window's shift and from the shift right of the shrinking window only | four members, the leftmost the only one on the left that can shrink, resizing the last to the left: the third member narrows by a margin although it cannot shrink | every border between the shrinking window and the resized one moves one margin, as the resize to the right does with its skipped windows | not executed | Resize.StretchLeftAsWrittenNarrowsSkipped | Resize.Stretch |
