/**
 * The focus navigator of modules/windows.py (`shift_focus_left`,
 * `shift_focus_right` and their nested finders): focus moves to the nearest
 * visible window past the focused one's edge on its screen, then on the
 * neighbouring screen, and finally wraps to the far end of the screen row.
 *
 * Both directions share one definition, parameterised by `Direction`: to the
 * left the edge compared is `rect.left` and the nearest is the greatest one
 * below the current's; to the right it is `rect.right` and the least above.
 */
module Focus {
  import opened Wrappers
  import opened Position
  import opened Surface
  import opened Windows
  import opened Lists
  import opened Arrange
  import opened Monitor
  import opened Desktop

  /** What a focus shift ends in: a window to focus, nothing, or the exception it raised. */
  datatype Shift = Focused(target: Window) | Unmoved | Failed

  /** The edge of a rectangle the search compares in direction `dir`. */
  function EdgeOf(r: Rect, dir: Direction): (e: int)
    ensures e == if dir == Left then r.left else r.right
  {
    match dir
    case Left => r.left
    case Right => r.right
  }

  /** Whether edge `e` lies strictly past `edge` in direction `dir`. */
  predicate Beyond(e: int, edge: int, dir: Direction)
  {
    if dir == Left then e < edge else e > edge
  }

  /** Whether edge `e` lies strictly closer to the start edge than `best` does. */
  predicate Nearer(e: int, best: int, dir: Direction)
  {
    if dir == Left then e > best else e < best
  }

  /**
   * The `screen` property as a value: the stored screen, or the one the
   * monitor under the window's current rectangle belongs to.
   */
  function ScreenOf(screens: seq<Screen>, w: Window, surface: Surface): (s: Option<nat>)
    reads w`screen, w`rect
    ensures w.screen.Some? ==> s == w.screen
    ensures w.screen.None? ==> s == GetScreen(screens, surface.monitorFromRect(CurrentRect(w, surface)))
  {
    if w.screen.Some? then w.screen else GetScreen(screens, surface.monitorFromRect(CurrentRect(w, surface)))
  }

  /**
   * The position the finder's running candidate ends on, for the edges of the
   * windows it is given in order: the first edge strictly past `edge` is
   * taken, and a later one replaces it only when strictly nearer.
   */
  function NextIndex(edges: seq<int>, edge: int, dir: Direction): (r: Option<nat>)
    ensures r.None? ==> forall k :: 0 <= k < |edges| ==> !Beyond(edges[k], edge, dir)
    ensures r.Some? ==> r.value < |edges| && Beyond(edges[r.value], edge, dir)
    ensures r.Some? ==> forall k :: 0 <= k < |edges| && Beyond(edges[k], edge, dir) ==>
      !Nearer(edges[k], edges[r.value], dir)
    ensures r.Some? ==> forall k :: 0 <= k < r.value && Beyond(edges[k], edge, dir) ==>
      Nearer(edges[r.value], edges[k], dir)
  {
    if edges == [] then None
    else
      var n := |edges| - 1;
      var p := NextIndex(edges[..n], edge, dir);
      assert forall k :: 0 <= k < n ==> edges[..n][k] == edges[k];
      if Beyond(edges[n], edge, dir) && (p.None? || Nearer(edges[n], edges[p.value], dir)) then Some(n)
      else p
  }

  /**
   * The finder's answer is determined by what it promises: a position past
   * the edge that no other edge past it beats, and that beats every earlier
   * one past it, is the position the finder ends on.
   */
  lemma NextIndexUnique(edges: seq<int>, edge: int, dir: Direction, i: nat)
    requires i < |edges| && Beyond(edges[i], edge, dir)
    requires forall k :: 0 <= k < |edges| && Beyond(edges[k], edge, dir) ==> !Nearer(edges[k], edges[i], dir)
    requires forall k :: 0 <= k < i && Beyond(edges[k], edge, dir) ==> Nearer(edges[i], edges[k], dir)
    ensures NextIndex(edges, edge, dir) == Some(i)
  {
  }

  /** The edges the finder compares, one per window, read through the `rect` property. */
  function EdgesOf(ws: seq<Window>, dir: Direction, surface: Surface): (es: seq<int>)
    reads ws
    ensures |es| == |ws|
    ensures forall k :: 0 <= k < |ws| ==> es[k] == EdgeOf(CurrentRect(ws[k], surface), dir)
  {
    seq(|ws|, k requires 0 <= k < |ws| reads ws => EdgeOf(CurrentRect(ws[k], surface), dir))
  }

  /** `next` is the window at the position `NextIndex` names among `cands`, or none when it names none. */
  ghost predicate IsNext(cands: seq<Window>, edge: int, dir: Direction, surface: Surface, next: Window?)
    reads cands
  {
    var r := NextIndex(EdgesOf(cands, dir, surface), edge, dir);
    && (r.None? ==> next == null)
    && (r.Some? ==> next == cands[r.value])
  }

  /** What the finder returns is one of the windows it was given, past the edge. */
  lemma NextIsBeyond(cands: seq<Window>, edge: int, dir: Direction, surface: Surface, next: Window?)
    requires IsNext(cands, edge, dir, surface, next) && next != null
    ensures next in cands && Beyond(EdgeOfWindow(next, dir, surface), edge, dir)
  {
    var es := EdgesOf(cands, dir, surface);
    var k := NextIndex(es, edge, dir).value;
    assert es[k] == EdgeOfWindow(cands[k], dir, surface);
  }

  /** Any window given to the finder that lies past the edge makes it return one at least as near. */
  lemma NextBeats(cands: seq<Window>, edge: int, dir: Direction, surface: Surface, next: Window?, x: Window)
    requires IsNext(cands, edge, dir, surface, next)
    requires x in cands && Beyond(EdgeOfWindow(x, dir, surface), edge, dir)
    ensures next != null && !Nearer(EdgeOfWindow(x, dir, surface), EdgeOfWindow(next, dir, surface), dir)
  {
    var es := EdgesOf(cands, dir, surface);
    var j :| 0 <= j < |cands| && cands[j] == x;
    assert es[j] == EdgeOfWindow(x, dir, surface);
    var k := NextIndex(es, edge, dir).value;
    assert es[k] == EdgeOfWindow(cands[k], dir, surface);
  }

  /**
   * `_find_next_left_win` / `_find_next_right_win` over the windows handed to
   * them: the window at the position `NextIndex` names, or none.
   */
  method FindNext(cands: seq<Window>, edge: int, dir: Direction, surface: Surface) returns (next: Window?)
    ensures IsNext(cands, edge, dir, surface, next)
  {
    ghost var es := EdgesOf(cands, dir, surface);
    ghost var ci: Option<nat> := None;
    next := null;
    for i := 0 to |cands|
      invariant ci == NextIndex(es[..i], edge, dir)
      invariant ci.None? ==> next == null
      invariant ci.Some? ==> ci.value < i && next == cands[ci.value]
    {
      assert es[..i + 1][..i] == es[..i];
      var e := EdgeOf(CurrentRect(cands[i], surface), dir);
      if Beyond(e, edge, dir) {
        if next == null {
          next := cands[i];
          ci := Some(i);
        } else if Nearer(e, EdgeOf(CurrentRect(next, surface), dir), dir) {
          next := cands[i];
          ci := Some(i);
        }
      }
    }
    assert es[..|cands|] == es;
  }

  /**
   * `filter(lambda w: w.screen == only_screen, ...)`: with a screen given,
   * the windows whose `screen` property is that screen, in order; without
   * one, every window.
   */
  function OnScreen(screens: seq<Screen>, ws: seq<Window>, only: Option<nat>, surface: Surface): (r: seq<Window>)
    reads ws
    ensures only.None? ==> r == ws
    ensures forall k :: 0 <= k < |r| ==> r[k] in ws && (only.None? || ScreenOf(screens, r[k], surface) == only)
    ensures forall k :: 0 <= k < |ws| && (only.None? || ScreenOf(screens, ws[k], surface) == only) ==> ws[k] in r
    ensures |r| <= |ws|
    decreases |ws|
  {
    if only.None? || ws == [] then ws
    else
      var rest := OnScreen(screens, ws[1..], only, surface);
      if ScreenOf(screens, ws[0], surface) == only then [ws[0]] + rest else rest
  }

  /** A window the surface lists at top level and shows, cached under its handle. */
  predicate Shown(cache: map<int, Window>, x: Window, surface: Surface)
  {
    && x.hwnd in surface.topLevel && Listed(surface, x.hwnd)
    && x.hwnd in cache && cache[x.hwnd] == x
  }

  /** A shown window whose title is not ignored: loading its handle gives it back. */
  predicate Known(cache: map<int, Window>, x: Window, surface: Surface)
  {
    Shown(cache, x, surface) && !Ignored(surface.title(x.hwnd))
  }

  /** The edge of window `x` in direction `dir`, through the `rect` property. */
  function EdgeOfWindow(x: Window, dir: Direction, surface: Surface): (e: int)
    reads x`rect, x`screen
    ensures e == EdgeOf(CurrentRect(x, surface), dir)
  {
    EdgeOf(CurrentRect(x, surface), dir)
  }

  /**
   * The nested finder with its `load_visible_windows(screen)` call: the
   * visible windows are loaded, kept when on `only` (all of them when there
   * is no screen), and the nearest past `edge` is returned. It never misses
   * a window it already knew that lies past the edge on that screen.
   */
  method FindOn(d: Desktop, only: Option<nat>, edge: int, dir: Direction, surface: Surface) returns (next: Window?)
    requires d.Valid()
    modifies d`cache, d.groups`windows, Members(d.groups)`lShift
    ensures d.Valid()
    ensures forall h :: h in old(d.cache) ==> h in d.cache && d.cache[h] == old(d.cache)[h]
    ensures forall x :: x in Members(d.groups) ==> x in old(Members(d.groups)) || fresh(x)
    ensures next != null ==> Shown(d.cache, next, surface) && Beyond(EdgeOfWindow(next, dir, surface), edge, dir)
    ensures next != null && only.Some? ==> ScreenOf(d.screens, next, surface) == only
    ensures forall x :: (Known(old(d.cache), x, surface) && (only.None? || ScreenOf(d.screens, x, surface) == only) &&
      Beyond(EdgeOfWindow(x, dir, surface), edge, dir)) ==>
        next != null && !Nearer(EdgeOfWindow(x, dir, surface), EdgeOfWindow(next, dir, surface), dir)
  {
    var vis := d.LoadVisible(surface);
    var cands := OnScreen(d.screens, vis, only, surface);
    next := FindNext(cands, edge, dir, surface);
    forall x | Known(old(d.cache), x, surface) && (only.None? || ScreenOf(d.screens, x, surface) == only) &&
      Beyond(EdgeOfWindow(x, dir, surface), edge, dir)
      ensures next != null && !Nearer(EdgeOfWindow(x, dir, surface), EdgeOfWindow(next, dir, surface), dir)
    {
      assert x in vis;
      var j :| 0 <= j < |vis| && vis[j] == x;
      NextBeats(cands, edge, dir, surface, next, x);
    }
    if next != null {
      NextIsBeyond(cands, edge, dir, surface, next);
    }
  }

  /** The screen focus wraps to: the rightmost when moving left, the leftmost when moving right. */
  ghost function FarEnd(screens: seq<Screen>, dir: Direction): (r: nat)
    requires |screens| > 0 && Linked(screens) && Proper(screens)
    reads screens`leftMonitor, screens`rightMonitor
    ensures r < |screens|
    ensures dir == Left ==> screens[r].rightMonitor == null
    ensures dir == Right ==> screens[r].leftMonitor == null
  {
    if dir == Left then RightEnd(screens, 0) else LeftEnd(screens, 0)
  }

  /** The window focus wraps to in a group: its last when moving left, its first when moving right. */
  function EndWindow(ws: seq<Window>, dir: Direction): (w: Window)
    requires ws != []
    ensures w in ws
    ensures dir == Left ==> w == ws[|ws| - 1]
    ensures dir == Right ==> w == ws[0]
  {
    if dir == Left then ws[|ws| - 1] else ws[0]
  }

  /**
   * The overlapping part of a focus shift from screen `i`: the finder runs on
   * the linked neighbour screen, if any, and when that finds nothing focus
   * wraps to the end window of the far screen's group, unless that screen is
   * `i` itself or its group is empty.
   */
  method WrapFocus(d: Desktop, i: nat, edge: int, dir: Direction, surface: Surface) returns (out: Shift)
    requires d.Valid() && i < |d.screens|
    modifies d`cache, d.groups`windows, Members(d.groups)`lShift
    ensures d.Valid()
    ensures forall h :: h in old(d.cache) ==> h in d.cache && d.cache[h] == old(d.cache)[h]
    ensures !out.Failed?
    ensures var n := d.Link(i, dir);
      forall x :: (Known(old(d.cache), x, surface) && n.Some? && ScreenOf(d.screens, x, surface) == n &&
        Beyond(EdgeOfWindow(x, dir, surface), edge, dir)) ==>
          && out.Focused? && Shown(d.cache, out.target, surface) && ScreenOf(d.screens, out.target, surface) == n
          && !Nearer(EdgeOfWindow(x, dir, surface), EdgeOfWindow(out.target, dir, surface), dir)
    ensures out.Focused? ==>
      || (&& d.Link(i, dir).Some? && Shown(d.cache, out.target, surface)
          && ScreenOf(d.screens, out.target, surface) == d.Link(i, dir)
          && Beyond(EdgeOfWindow(out.target, dir, surface), edge, dir))
      || (var f := FarEnd(d.screens, dir);
          f != i && d.screens[f].group.windows != [] && out.target == EndWindow(d.screens[f].group.windows, dir))
    ensures out.Unmoved? ==> var f := FarEnd(d.screens, dir); f == i || d.screens[f].group.windows == []
  {
    ghost var n := d.Link(i, dir);
    var link := if dir == Left then d.screens[i].leftMonitor else d.screens[i].rightMonitor;
    if link != null {
      var next := FindOn(d, Some(IndexOf(d.screens, link)), edge, dir, surface);
      if next != null {
        return Focused(next);
      }
    }
    var far;
    if dir == Left {
      far := RightmostScreen(d.screens);
    } else {
      far := LeftmostScreen(d.screens);
    }
    ghost var f := FarEnd(d.screens, dir);
    assert far == d.screens[f];
    if f != i {
      DistinctPair(d.screens, f, i);
    }
    if far == d.screens[i] {
      return Unmoved;
    }
    if far.group.windows == [] {
      return Unmoved;
    }
    out := Focused(EndWindow(far.group.windows, dir));
  }

  /**
   * The search part of `shift_focus_left` (`dir == Left`) and
   * `shift_focus_right` from the focused window `current`: its screen is
   * resolved; the finder runs on that screen (on every visible window when
   * it has none); when it finds nothing and overlapping shifts are on, the
   * search moves to the neighbour screen and then wraps. A focused window
   * without a screen raises there, on `current.screen.left_monitor`.
   * `overlapping` is the `OVERLAPPING_FOCUS_SHIFT` setting; `start` is an
   * earlier cache that the current one extends.
   */
  method ShiftFrom(d: Desktop, current: Window, dir: Direction, overlapping: bool, ghost start: map<int, Window>, surface: Surface) returns (out: Shift)
    requires d.Valid() && d.InRange(current)
    requires forall h :: h in start ==> h in d.cache && d.cache[h] == start[h]
    modifies d`cache, d.groups`windows, Members(d.groups)`lShift, current`rect, current`screen
    ensures d.Valid() && d.InRange(current)
    ensures forall h :: h in old(d.cache) ==> h in d.cache && d.cache[h] == old(d.cache)[h]
    ensures out.Failed? ==> overlapping && current.screen.None?
    ensures forall x :: (Known(start, x, surface) &&
      (current.screen.None? || ScreenOf(d.screens, x, surface) == current.screen) &&
      Beyond(EdgeOfWindow(x, dir, surface), EdgeOfWindow(current, dir, surface), dir)) ==>
        && out.Focused? && Shown(d.cache, out.target, surface)
        && (current.screen.Some? ==> ScreenOf(d.screens, out.target, surface) == current.screen)
        && !Nearer(EdgeOfWindow(x, dir, surface), EdgeOfWindow(out.target, dir, surface), dir)
    ensures out.Focused? ==>
      || (Shown(d.cache, out.target, surface) &&
          Beyond(EdgeOfWindow(out.target, dir, surface), EdgeOfWindow(current, dir, surface), dir))
      || (&& overlapping && current.screen.Some?
          && var f := FarEnd(d.screens, dir);
          f != current.screen.value && d.screens[f].group.windows != []
          && out.target == EndWindow(d.screens[f].group.windows, dir))
    ensures out.Focused? && !overlapping && current.screen.Some? ==> ScreenOf(d.screens, out.target, surface) == current.screen
    ensures out.Unmoved? && overlapping && current.screen.Some? ==>
      var f := FarEnd(d.screens, dir); f == current.screen.value || d.screens[f].group.windows == []
    ensures overlapping && current.screen.Some? ==> var n := d.Link(current.screen.value, dir);
      forall x :: (Known(start, x, surface) && n.Some? && ScreenOf(d.screens, x, surface) == n &&
        Beyond(EdgeOfWindow(x, dir, surface), EdgeOfWindow(current, dir, surface), dir)) ==>
          && out.Focused? && Shown(d.cache, out.target, surface)
          && (|| (&& ScreenOf(d.screens, out.target, surface) == current.screen
                  && Beyond(EdgeOfWindow(out.target, dir, surface), EdgeOfWindow(current, dir, surface), dir))
              || (ScreenOf(d.screens, out.target, surface) == n && !Nearer(EdgeOfWindow(x, dir, surface), EdgeOfWindow(out.target, dir, surface), dir)))
    ensures out.Focused? && current.screen.Some? ==>
      || ScreenOf(d.screens, out.target, surface) == current.screen
      || (&& d.Link(current.screen.value, dir).Some? && ScreenOf(d.screens, out.target, surface) == d.Link(current.screen.value, dir))
      || (var f := FarEnd(d.screens, dir);
          f != current.screen.value && d.screens[f].group.windows != [] && out.target == EndWindow(d.screens[f].group.windows, dir))
  {
    assert forall x :: Known(start, x, surface) ==> Known(d.cache, x, surface);
    var s := d.ResolveScreen(current, surface);
    var edge := EdgeOfWindow(current, dir, surface);
    out := SearchFrom(d, s, edge, dir, overlapping, surface);
  }

  /**
   * The search of a focus shift once the focused window's screen `only` and
   * its edge are known: the finder runs on that screen (on every visible
   * window when there is none); when it finds nothing and overlapping
   * shifts are on, the search moves to the neighbour screen and then wraps.
   */
  method SearchFrom(d: Desktop, only: Option<nat>, edge: int, dir: Direction, overlapping: bool, surface: Surface) returns (out: Shift)
    requires d.Valid() && (only.Some? ==> only.value < |d.screens|)
    modifies d`cache, d.groups`windows, Members(d.groups)`lShift
    ensures d.Valid()
    ensures forall h :: h in old(d.cache) ==> h in d.cache && d.cache[h] == old(d.cache)[h]
    ensures out.Failed? ==> overlapping && only.None?
    ensures forall x :: (Known(old(d.cache), x, surface) &&
      (only.None? || ScreenOf(d.screens, x, surface) == only) &&
      Beyond(EdgeOfWindow(x, dir, surface), edge, dir)) ==>
        && out.Focused? && Shown(d.cache, out.target, surface)
        && (only.Some? ==> ScreenOf(d.screens, out.target, surface) == only)
        && !Nearer(EdgeOfWindow(x, dir, surface), EdgeOfWindow(out.target, dir, surface), dir)
    ensures out.Focused? ==>
      || (Shown(d.cache, out.target, surface) && Beyond(EdgeOfWindow(out.target, dir, surface), edge, dir))
      || (&& overlapping && only.Some?
          && var f := FarEnd(d.screens, dir);
          f != only.value && d.screens[f].group.windows != []
          && out.target == EndWindow(d.screens[f].group.windows, dir))
    ensures out.Focused? && !overlapping && only.Some? ==> ScreenOf(d.screens, out.target, surface) == only
    ensures out.Unmoved? && overlapping && only.Some? ==>
      var f := FarEnd(d.screens, dir); f == only.value || d.screens[f].group.windows == []
    ensures overlapping && only.Some? ==> var n := d.Link(only.value, dir);
      forall x :: (Known(old(d.cache), x, surface) && n.Some? && ScreenOf(d.screens, x, surface) == n &&
        Beyond(EdgeOfWindow(x, dir, surface), edge, dir)) ==>
          && out.Focused? && Shown(d.cache, out.target, surface)
          && (|| (ScreenOf(d.screens, out.target, surface) == only && Beyond(EdgeOfWindow(out.target, dir, surface), edge, dir))
              || (ScreenOf(d.screens, out.target, surface) == n && !Nearer(EdgeOfWindow(x, dir, surface), EdgeOfWindow(out.target, dir, surface), dir)))
    ensures out.Focused? && only.Some? ==>
      || ScreenOf(d.screens, out.target, surface) == only
      || (&& d.Link(only.value, dir).Some? && ScreenOf(d.screens, out.target, surface) == d.Link(only.value, dir))
      || (var f := FarEnd(d.screens, dir);
          f != only.value && d.screens[f].group.windows != [] && out.target == EndWindow(d.screens[f].group.windows, dir))
  {
    var next := FindOn(d, only, edge, dir, surface);
    if next != null {
      return Focused(next);
    }
    out := SearchBeyond(d, only, edge, dir, overlapping, surface);
  }

  /**
   * A focus shift once the finder found nothing on the focused window's
   * screen `only`: focus stays put unless overlapping shifts are on; then a
   * window without a screen raises, and one with a screen wraps.
   */
  method SearchBeyond(d: Desktop, only: Option<nat>, edge: int, dir: Direction, overlapping: bool, surface: Surface) returns (out: Shift)
    requires d.Valid() && (only.Some? ==> only.value < |d.screens|)
    modifies d`cache, d.groups`windows, Members(d.groups)`lShift
    ensures d.Valid()
    ensures forall h :: h in old(d.cache) ==> h in d.cache && d.cache[h] == old(d.cache)[h]
    ensures !overlapping ==> out.Unmoved?
    ensures out.Failed? <==> overlapping && only.None?
    ensures out.Focused? ==> overlapping && only.Some?
    ensures out.Focused? ==>
      || (Shown(d.cache, out.target, surface) && Beyond(EdgeOfWindow(out.target, dir, surface), edge, dir))
      || (&& only.Some? && var f := FarEnd(d.screens, dir);
          f != only.value && d.screens[f].group.windows != [] && out.target == EndWindow(d.screens[f].group.windows, dir))
    ensures out.Unmoved? && overlapping && only.Some? ==>
      var f := FarEnd(d.screens, dir); f == only.value || d.screens[f].group.windows == []
    ensures overlapping && only.Some? ==> var n := d.Link(only.value, dir);
      forall x :: (Known(old(d.cache), x, surface) && n.Some? && ScreenOf(d.screens, x, surface) == n &&
        Beyond(EdgeOfWindow(x, dir, surface), edge, dir)) ==>
          && out.Focused? && Shown(d.cache, out.target, surface) && ScreenOf(d.screens, out.target, surface) == n
          && !Nearer(EdgeOfWindow(x, dir, surface), EdgeOfWindow(out.target, dir, surface), dir)
    ensures out.Focused? && only.Some? ==>
      || (&& d.Link(only.value, dir).Some? && ScreenOf(d.screens, out.target, surface) == d.Link(only.value, dir))
      || (var f := FarEnd(d.screens, dir);
          f != only.value && d.screens[f].group.windows != [] && out.target == EndWindow(d.screens[f].group.windows, dir))
  {
    if !overlapping {
      return Unmoved;
    }
    if only.None? {
      return Failed;
    }
    out := WrapFocus(d, only.value, edge, dir, surface);
  }

  /**
   * `shift_focus_left` (`dir == Left`) and `shift_focus_right`: nothing
   * happens without a focused window; otherwise the search runs from it.
   */
  method ShiftFocus(d: Desktop, dir: Direction, overlapping: bool, surface: Surface) returns (out: Shift)
    requires d.Valid() && d.ScreensKnown()
    modifies d`cache, d`recentFocused, d.groups`windows, Members(d.groups)`lShift
    modifies d.cache.Values`rect, d.cache.Values`screen, {d.recentFocused}`rect, {d.recentFocused}`screen
    ensures d.Valid()
    ensures d.recentFocused == null ==> out.Unmoved?
    ensures out.Failed? ==> overlapping && d.recentFocused != null && d.recentFocused.screen.None?
    ensures var cur := d.recentFocused;
      forall x :: (Known(old(d.cache), x, surface) && cur != null &&
        (cur.screen.None? || ScreenOf(d.screens, x, surface) == cur.screen) &&
        Beyond(EdgeOfWindow(x, dir, surface), EdgeOfWindow(cur, dir, surface), dir)) ==>
          && out.Focused? && Shown(d.cache, out.target, surface)
          && (cur.screen.Some? ==> ScreenOf(d.screens, out.target, surface) == cur.screen)
          && !Nearer(EdgeOfWindow(x, dir, surface), EdgeOfWindow(out.target, dir, surface), dir)
    ensures out.Focused? ==> d.recentFocused != null && d.InRange(d.recentFocused)
    ensures out.Focused? ==>
      || (Shown(d.cache, out.target, surface) &&
          Beyond(EdgeOfWindow(out.target, dir, surface), EdgeOfWindow(d.recentFocused, dir, surface), dir))
      || (&& overlapping && d.recentFocused.screen.Some?
          && var f := FarEnd(d.screens, dir);
          f != d.recentFocused.screen.value && d.screens[f].group.windows != []
          && out.target == EndWindow(d.screens[f].group.windows, dir))
    ensures d.recentFocused != null ==> d.InRange(d.recentFocused)
    ensures var cur := d.recentFocused;
      out.Focused? && !overlapping && cur != null && cur.screen.Some? ==> ScreenOf(d.screens, out.target, surface) == cur.screen
    ensures var cur := d.recentFocused;
      out.Unmoved? && overlapping && cur != null && cur.screen.Some? ==>
        var f := FarEnd(d.screens, dir); f == cur.screen.value || d.screens[f].group.windows == []
    ensures var cur := d.recentFocused;
      overlapping && cur != null && cur.screen.Some? ==> var n := d.Link(cur.screen.value, dir);
        forall x :: (Known(old(d.cache), x, surface) && n.Some? && ScreenOf(d.screens, x, surface) == n &&
          Beyond(EdgeOfWindow(x, dir, surface), EdgeOfWindow(cur, dir, surface), dir)) ==>
            && out.Focused? && Shown(d.cache, out.target, surface)
            && (|| (&& ScreenOf(d.screens, out.target, surface) == cur.screen
                    && Beyond(EdgeOfWindow(out.target, dir, surface), EdgeOfWindow(cur, dir, surface), dir))
                || (ScreenOf(d.screens, out.target, surface) == n && !Nearer(EdgeOfWindow(x, dir, surface), EdgeOfWindow(out.target, dir, surface), dir)))
    ensures var cur := d.recentFocused;
      out.Focused? && cur != null && cur.screen.Some? ==>
        || ScreenOf(d.screens, out.target, surface) == cur.screen
        || (&& d.Link(cur.screen.value, dir).Some? && ScreenOf(d.screens, out.target, surface) == d.Link(cur.screen.value, dir))
        || (var f := FarEnd(d.screens, dir);
            f != cur.screen.value && d.screens[f].group.windows != [] && out.target == EndWindow(d.screens[f].group.windows, dir))
  {
    var current := d.GetFocusedWindow(surface);
    if current == null {
      return Unmoved;
    }
    if surface.foreground in old(d.cache) {
      assert current == old(d.cache)[surface.foreground];
    }
    out := ShiftFrom(d, current, dir, overlapping, old(d.cache), surface);
  }
}
