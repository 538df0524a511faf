/**
 * The module-level state of modules/windows.py and modules/monitor.py
 * gathered in one coordinator: the screen list, every group
 * (`Group.all_groups`), the hwnd-keyed window cache and the most recently
 * focused window; with the operations that load, place and forget windows.
 */
module Desktop {
  import opened Wrappers
  import opened Position
  import opened Settings
  import opened Surface
  import opened Windows
  import opened Layout
  import opened Lists
  import opened Arrange
  import opened Monitor
  import opened Resize

  /** The result of an operation the source lets raise: the moves it requested, or the exception ended it. */
  datatype Outcome = Done(moves: seq<Move>) | Raised

  /** The group of every screen, in screen order. */
  function GroupsOf(screens: seq<Screen>): (gs: seq<Group>)
    ensures |gs| == |screens|
  {
    seq(|screens|, i requires 0 <= i < |screens| => screens[i].group)
  }

  /**
   * The group the tiling-mode part of `__post_init__` puts a new window in:
   * none for a window without a screen; otherwise its own screen's group
   * when that accepts it, or else the first group that accepts it, or else
   * none (the window is minimised).
   */
  function HomeOf(lists: seq<seq<Window>>, areas: seq<Rect>, own: Option<nat>, w: Window): (home: Option<nat>)
    requires |areas| == |lists| && (own.Some? ==> own.value < |lists|)
    ensures home.Some? ==> home.value < |lists|
  {
    if own.None? then None
    else if Accepts(lists[own.value], areas[own.value], w) then own
    else FirstAccepting(lists, areas, w)
  }

  /**
   * A new window finds a group exactly when it has a screen and some group
   * accepts it; the group it finds accepts it, its own screen's group is
   * preferred whenever that accepts it, and no group before the one found
   * accepts it unless that is its own.
   */
  lemma HomeOfMeaning(lists: seq<seq<Window>>, areas: seq<Rect>, own: Option<nat>, w: Window)
    requires |areas| == |lists| && (own.Some? ==> own.value < |lists|)
    ensures var home := HomeOf(lists, areas, own, w);
      && (home.Some? <==> own.Some? && exists i :: 0 <= i < |lists| && Accepts(lists[i], areas[i], w))
      && (home.Some? ==> Accepts(lists[home.value], areas[home.value], w))
      && (own.Some? && Accepts(lists[own.value], areas[own.value], w) ==> home == own)
      && (home.Some? && home != own ==> forall h :: 0 <= h < home.value ==> !Accepts(lists[h], areas[h], w))
  {
    var home := HomeOf(lists, areas, own, w);
    if own.Some? && !Accepts(lists[own.value], areas[own.value], w) && home.None? {
      assert forall i :: 0 <= i < |lists| ==> !Accepts(lists[i], areas[i], w);
    }
  }

  /** Taking an absent key out of a map leaves the map as it was. */
  lemma AbsentKey<K, V>(m: map<K, V>, k: K)
    requires k !in m
    ensures m - {k} == m
  {
    assert forall j :: j in m <==> j in m - {k};
  }

  /**
   * The member lists after `shift_window(w, dir)` in group `i`, whose screen
   * is linked on side `dir` to the screen of group `link`, if any: a window
   * that is not a member joins from the left when the group accepts it; a
   * member at the end towards `dir` moves to the linked group, entering it
   * from the opposite side, when that group accepts it; any other member
   * changes places with its neighbour towards `dir`.
   */
  function ShiftedLists(lists: seq<seq<Window>>, areas: seq<Rect>, i: nat, link: Option<nat>, w: Window, dir: Direction): (after: seq<seq<Window>>)
    requires |areas| == |lists| && i < |lists| && (link.Some? ==> link.value < |lists| && link.value != i)
    ensures |after| == |lists|
  {
    var before := lists[i];
    if w !in before then
      if Accepts(before, areas[i], w) then lists[i := [w] + before] else lists
    else if AtEnd(before, w, dir) then
      if link.Some? && Accepts(lists[link.value], areas[link.value], w) then
        lists[i := RemoveFirst(before, w)][link.value := Inserted(lists[link.value], w, dir.Opposite())]
      else lists
    else
      var k := IndexOf(before, w);
      if dir.Left? then lists[i := Swapped(before, k, k - 1)]
      else lists[i := Swapped(before, k, k + 1)]
  }

  /**
   * The group that `shift_window(w, dir)` in group `i` makes take `w` in,
   * if any: group `i` itself when `w` was not a member and is accepted, the
   * linked group when a member at the end towards `dir` is handed over and
   * accepted there, and none otherwise.
   */
  function Taker(lists: seq<seq<Window>>, areas: seq<Rect>, i: nat, link: Option<nat>, w: Window, dir: Direction): (t: Option<nat>)
    requires |areas| == |lists| && i < |lists| && (link.Some? ==> link.value < |lists| && link.value != i)
    ensures t.Some? ==> t.value < |lists| && Accepts(lists[t.value], areas[t.value], w)
    ensures t.Some? ==> w in ShiftedLists(lists, areas, i, link, w, dir)[t.value]
    // registering a window that is not a member: taken in by group `i`, or refused with nothing changed
    ensures w !in lists[i] && Accepts(lists[i], areas[i], w) ==> t == Some(i)
    ensures w !in lists[i] && !Accepts(lists[i], areas[i], w) ==> t.None? && ShiftedLists(lists, areas, i, link, w, dir) == lists
    // a member at the end towards `dir`: taken in by the linked group, or nothing changes
    ensures w in lists[i] && AtEnd(lists[i], w, dir) && link.Some? && Accepts(lists[link.value], areas[link.value], w) ==> t == link
    ensures w in lists[i] && AtEnd(lists[i], w, dir) && !(link.Some? && Accepts(lists[link.value], areas[link.value], w)) ==>
      t.None? && ShiftedLists(lists, areas, i, link, w, dir) == lists
    // the exchange inside group `i`: nobody takes the window in, and the group keeps its members
    ensures w in lists[i] && !AtEnd(lists[i], w, dir) ==> t.None? && multiset(ShiftedLists(lists, areas, i, link, w, dir)[i]) == multiset(lists[i])
  {
    var before := lists[i];
    if w !in before then
      if Accepts(before, areas[i], w) then Some(i) else None
    else if AtEnd(before, w, dir) then
      if link.Some? && Accepts(lists[link.value], areas[link.value], w) then link else None
    else
      var k := IndexOf(before, w);
      SwappedBack(before, k, if dir.Left? then k - 1 else k + 1);
      None
  }

  /** Titles `load_window_hwnd` refuses to manage: the empty one and the configured ones. */
  predicate Ignored(title: string)
  {
    title == "" || title in IgnoreWinText
  }

  /** Re-binding a key after taking it out is binding it in the original map. */
  lemma RebindKey<K, V>(m: map<K, V>, k: K, v: V)
    ensures (m - {k})[k := v] == m[k := v]
  {
    assert ((m - {k})[k := v]).Keys == m[k := v].Keys;
  }

  class Desktop {
    /** `monitor.screens`, in EnumDisplayMonitors order. */
    const screens: seq<Screen>
    /** `Group.all_groups`: one group per screen, built with it. */
    const groups: seq<Group>
    /** `_windows_cache`. */
    var cache: map<int, Window>
    /** `RECENT_FOCUSED`. */
    var recentFocused: Window?

    /** A window's screen index, when it has one, names a screen of the list. */
    predicate InRange(w: Window)
      reads w`screen
    {
      w.screen.Some? ==> w.screen.value < |screens|
    }

    /**
     * The groups are the screens' own groups, the screen links are those
     * monitor.py computes over the whole list, and every physical rectangle
     * runs left to right.
     */
    ghost predicate Structure()
      reads screens`leftMonitor, screens`rightMonitor
    {
      && groups == GroupsOf(screens)
      && Distinct(screens) && Distinct(groups)
      && Linked(screens) && Proper(screens)
    }

    /** Every group keeps its invariant. */
    ghost predicate GroupsValid()
      reads groups
    {
      forall i :: 0 <= i < |groups| ==> groups[i].Valid()
    }

    /** The cache maps every handle to a window with that handle. */
    ghost predicate CacheValid()
      reads this
    {
      forall h :: h in cache ==> cache[h].hwnd == h
    }

    /** Every cached window, and the recently focused one, names a screen of the list if any. */
    ghost predicate ScreensKnown()
      reads this, cache.Values, recentFocused
    {
      && (forall h :: h in cache ==> InRange(cache[h]))
      && (recentFocused != null ==> InRange(recentFocused))
    }

    ghost predicate Valid()
      reads this, screens`leftMonitor, screens`rightMonitor, groups
    {
      Structure() && GroupsValid() && CacheValid()
    }

    /** Only the list of group `i` differs from `before`. */
    ghost predicate OnlyChanged(before: seq<seq<Window>>, i: nat)
      reads groups
    {
      |before| == |groups| && forall h :: 0 <= h < |groups| && h != i ==> groups[h].windows == before[h]
    }

    /** The member lists are `before` with `w` appended to the list of group `home`, if any. */
    ghost predicate Homed(before: seq<seq<Window>>, home: Option<nat>, w: Window)
      reads groups
    {
      && |before| == |groups|
      && forall h :: 0 <= h < |groups| ==> groups[h].windows == if home == Some(h) then before[h] + [w] else before[h]
    }

    /**
     * The border shifts after `shift_window(w, dir)` in group `i` turned the
     * member lists `before` into the current ones, `taker` being the group
     * that took `w` in (see `Taker`): every member of that group is
     * unshifted and every other window of `before` keeps its shift. With no
     * taker, group `i` keeps its shift at every position, every window
     * outside it keeps its own, and so does `w` when it was not a member.
     */
    twostate predicate ShiftsAfter(before: seq<seq<Window>>, i: nat, taker: Option<nat>, w: Window)
      requires i < |groups| && |before| == |groups| && (taker.Some? ==> taker.value < |groups|)
      reads groups, groups[i].windows`lShift, (if taker.Some? then groups[taker.value].windows else [])`lShift, w`lShift
      reads (set h, x | 0 <= h < |before| && x in before[h] :: x)`lShift
    {
      if taker.Some? then
        && (forall x :: x in groups[taker.value].windows ==> x.lShift == 0)
        && KeptShifts(before, before[taker.value] + [w])
      else
        && groups[i].Shifts() == old(groups[i].Shifts())
        && KeptShifts(before, before[i])
        && (w !in before[i] ==> w.lShift == old(w.lShift))
    }

    /** The member lists are exactly `lists`. */
    ghost predicate TilingIs(lists: seq<seq<Window>>)
      reads groups
    {
      |lists| == |groups| && forall h :: 0 <= h < |groups| ==> groups[h].windows == lists[h]
    }

    /** Every group's member list, in group order. */
    ghost function Tiling(): (t: seq<seq<Window>>)
      reads groups
      ensures |t| == |groups|
    {
      ListsOf(groups)
    }

    /**
     * Import time of monitor.py and windows.py: one screen per monitor, each
     * with an empty group and its links, and an empty cache.
     */
    constructor (monitors: seq<(int, Rect, Rect)>)
      requires forall k :: 0 <= k < |monitors| ==> monitors[k].2.left < monitors[k].2.right
      ensures Valid() && fresh(screens) && fresh(groups)
      ensures |screens| == |monitors| && cache == map[] && recentFocused == null
      ensures forall k :: 0 <= k < |screens| ==>
        && screens[k].hMonitor == monitors[k].0 && screens[k].workArea == monitors[k].1 && screens[k].rect == monitors[k].2
        && groups[k].windows == [] && groups[k].screenRect == monitors[k].1
    {
      var s := BuildScreens(monitors);
      screens := s;
      groups := GroupsOf(s);
      cache := map[];
      recentFocused := null;
      new;
      forall i, j | 0 <= i < j < |groups|
        ensures Apart(groups, i, j)
      {
        assert groups[i] == s[i].group && groups[j] == s[j].group;
      }
    }

    /** Membership in one group is membership in all groups. */
    lemma MemberOfSome(i: nat)
      requires i < |groups|
      ensures forall w :: w in groups[i].windows ==> w in Members(groups)
    {
      forall w | w in groups[i].windows
        ensures w in Members(groups)
      {
        assert groups[i] in groups;
      }
    }

    /**
     * When the member lists became `before` with `w` appended to at most one
     * of them, every member was a member before or is `w`.
     */
    lemma HomedMembers(before: seq<seq<Window>>, home: Option<nat>, w: Window, ms: set<Window>)
      requires Homed(before, home, w)
      requires forall h, x :: 0 <= h < |before| && x in before[h] ==> x in ms
      ensures forall x :: x in Members(groups) ==> x in ms || x == w
    {
      forall x | x in Members(groups)
        ensures x in ms || x == w
      {
        var g :| g in groups && x in g.windows;
        var h :| 0 <= h < |groups| && groups[h] == g;
        assert x in before[h] || x == w;
      }
    }

    /** Every member of a listed group is a member of some group. */
    lemma ListedMembers()
      ensures forall h, x :: 0 <= h < |groups| && x in groups[h].windows ==> x in Members(groups)
    {
      forall h, x | 0 <= h < |groups| && x in groups[h].windows
        ensures x in Members(groups)
      {
        assert groups[h] in groups;
      }
    }

    /** The group at index `i` is the only one at that index. */
    lemma OtherGroups(i: nat)
      requires Distinct(groups) && i < |groups|
      ensures forall h :: 0 <= h < |groups| && h != i ==> groups[h] != groups[i]
    {
      forall h | 0 <= h < |groups| && h != i
        ensures groups[h] != groups[i]
      {
        DistinctPair(groups, h, i);
      }
    }

    /**
     * The `screen` property: the stored screen, or else the screen of the
     * monitor the window's freshly queried rectangle lies on, which is also
     * stored, together with that rectangle.
     */
    method ResolveScreen(w: Window, surface: Surface) returns (s: Option<nat>)
      modifies w`rect, w`screen
      ensures old(InRange(w)) ==> InRange(w)
      ensures w.screen == s
      ensures old(w.screen).Some? ==> s == old(w.screen) && w.rect == old(w.rect)
      ensures old(w.screen).None? ==>
        && w.rect == surface.windowRect(w.hwnd)
        && s == GetScreen(screens, surface.monitorFromRect(w.rect))
    {
      if w.screen.None? {
        w.rect := surface.windowRect(w.hwnd);
        w.screen := GetScreen(screens, surface.monitorFromRect(w.rect));
      }
      s := w.screen;
    }

    /** `on_rect_update`: the new rectangle is stored and the screen is looked up again from it. */
    method OnRectUpdate(w: Window, rect: Rect, surface: Surface)
      modifies w`rect, w`screen
      ensures w.rect == rect && InRange(w)
      ensures w.screen == GetScreen(screens, surface.monitorFromRect(rect))
    {
      w.rect := rect;
      w.screen := GetScreen(screens, surface.monitorFromRect(rect));
    }

    /**
     * The tiling-mode part of `__post_init__` for a window whose screen is
     * `i`: it joins that screen's group from the right, or else any group
     * that accepts it, or else it is minimised, which takes it out of its
     * screen's group (where it is not) and rearranges that group.
     */
    method Home(i: nat, w: Window, surface: Surface) returns (home: Option<nat>, moves: seq<Move>)
      requires Structure() && GroupsValid() && i < |groups|
      requires forall h :: 0 <= h < |groups| ==> w !in groups[h].windows
      modifies groups`windows, Members(groups)`lShift, w`lShift
      ensures GroupsValid()
      ensures home == HomeOf(old(Tiling()), AreasOf(groups), Some(i), w)
      ensures Homed(old(Tiling()), home, w)
      ensures home.Some? ==> forall x :: x in groups[home.value].windows ==> x.lShift == 0
      ensures home.None? ==> w.lShift == old(w.lShift)
      ensures KeptShifts(old(Tiling()), if home.Some? then old(Tiling())[home.value] + [w] else [])
    {
      ghost var tiling := Tiling();
      var ok;
      ok, moves := HomeOwn(i, w, surface);
      if ok {
        home := Some(i);
      } else {
        assert Tiling() == tiling;
        home, moves := HomeElsewhere(i, w, surface);
      }
    }

    /** The first attempt of `__post_init__`: the window's own screen `i` takes it from the right if its group accepts it. */
    method HomeOwn(i: nat, w: Window, surface: Surface) returns (ok: bool, moves: seq<Move>)
      requires Structure() && GroupsValid() && i < |groups|
      requires forall h :: 0 <= h < |groups| ==> w !in groups[h].windows
      modifies (groups[i] as Group)`windows, Members(groups)`lShift, w`lShift
      ensures GroupsValid()
      ensures ok <==> Accepts(old(groups[i].windows), groups[i].screenRect, w)
      ensures groups[i].windows == if ok then old(groups[i].windows) + [w] else old(groups[i].windows)
      ensures forall h :: 0 <= h < |groups| && h != i ==> groups[h].windows == old(groups[h].windows)
      ensures ok ==> forall x :: x in groups[i].windows ==> x.lShift == 0
      ensures !ok ==> w.lShift == old(w.lShift)
      ensures KeptShifts(old(Tiling()), if ok then old(groups[i].windows) + [w] else [])
    {
      assert Distinct(groups);
      OtherGroups(i);
      var screen := screens[i];
      assert screen.group == groups[i];
      MemberOfSome(i);
      ok, moves := screen.AttachWindow(w, surface);
    }

    /**
     * The rest of `__post_init__` once the window's own screen `i` refused it:
     * the first group that accepts it takes it, and otherwise it is minimised.
     */
    method HomeElsewhere(i: nat, w: Window, surface: Surface) returns (home: Option<nat>, moves: seq<Move>)
      requires Structure() && GroupsValid() && i < |groups|
      requires forall h :: 0 <= h < |groups| ==> w !in groups[h].windows
      modifies groups`windows, Members(groups)`lShift, w`lShift
      ensures GroupsValid()
      ensures home == FirstAccepting(old(Tiling()), AreasOf(groups), w)
      ensures Homed(old(Tiling()), home, w)
      ensures home.Some? ==> forall x :: x in groups[home.value].windows ==> x.lShift == 0
      ensures home.None? ==> w.lShift == old(w.lShift)
      ensures KeptShifts(old(Tiling()), if home.Some? then old(Tiling())[home.value] + [w] else [])
    {
      ghost var tiling := Tiling();
      assert Distinct(groups);
      home, moves := AttachToAnyGroup(groups, w, tiling, surface);
      assert old(Tiling()) == tiling;
      if home.Some? {
        OtherGroups(home.value);
      } else {
        moves := Minimise(i, w, surface);
      }
    }

    /**
     * `minimize` of a window no group took: `dettach_window` from screen
     * `i` reaches `remove_window`, which finds the window in no member list
     * and drops nothing, so what remains is the rearrangement of that
     * screen's group.
     */
    method Minimise(i: nat, w: Window, surface: Surface) returns (moves: seq<Move>)
      requires Structure() && GroupsValid() && i < |groups|
      requires forall h :: 0 <= h < |groups| ==> w !in groups[h].windows
      ensures moves == Arrangement(groups[i].screenRect, groups[i].Tiles(), surface)
      ensures moves == Arrangement(groups[i].screenRect, TilesOf(RemoveFirst(groups[i].windows, w)), surface)
    {
      RemoveFirstAbsent(groups[i].windows, w);
      moves := groups[i].Rearrange(surface);
    }

    /** `dettach_window` on screen `i`: the window leaves that screen's group, which is rearranged. */
    method Dettach(i: nat, w: Window, surface: Surface) returns (moves: seq<Move>)
      requires Structure() && GroupsValid() && i < |groups|
      modifies (groups[i] as Group)`windows
      ensures GroupsValid()
      ensures groups[i].windows == RemoveFirst(old(groups[i].windows), w) && w !in groups[i].windows
      ensures OnlyChanged(old(Tiling()), i)
      ensures moves == Arrangement(groups[i].screenRect, groups[i].Tiles(), surface)
    {
      OtherGroups(i);
      assert screens[i].group == groups[i];
      moves := screens[i].DettachWindow(w, surface);
    }

    /**
     * `on_window_killed`. A window whose screen was never resolved raises at
     * once (its rectangle can no longer be queried) and nothing changes.
     * Otherwise it leaves its screen's group, which is rearranged, and its
     * handle leaves the cache, whichever window the cache holds under it.
     */
    method OnWindowKilled(w: Window, surface: Surface) returns (out: Outcome)
      requires Valid() && InRange(w)
      modifies this`cache, groups`windows
      ensures Valid()
      ensures old(w.screen).None? ==> out == Raised && cache == old(cache) && OnlyChanged(old(Tiling()), |groups|)
      ensures old(w.screen).Some? ==>
        var i := old(w.screen).value;
        && out.Done?
        && cache == old(cache) - {w.hwnd}
        && groups[i].windows == RemoveFirst(old(groups[i].windows), w) && w !in groups[i].windows
        && OnlyChanged(old(Tiling()), i)
        && out.moves == Arrangement(groups[i].screenRect, groups[i].Tiles(), surface)
    {
      if w.screen.None? {
        return Raised;
      }
      var moves := Dettach(w.screen.value, w, surface);
      Forget(w.hwnd);
      out := Done(moves);
    }

    /** The attribute part of `__post_init__`: a fresh window, cached under its handle. */
    method NewWindow(hwnd: int, rect: Rect, screen: Option<nat>, surface: Surface) returns (w: Window)
      requires CacheValid() && (screen.Some? ==> screen.value < |screens|)
      modifies this`cache
      ensures CacheValid() && fresh(w) && w.Valid()
      ensures Tiling() == old(Tiling()) && forall h :: 0 <= h < |groups| ==> w !in groups[h].windows
      ensures w.Initial(hwnd, surface.boundingDiff(hwnd), surface.probedMinWidth(hwnd))
      ensures w.rect == rect && w.screen == screen && w.lShift == 0
      ensures cache == old(cache)[hwnd := w]
    {
      w := new Window(hwnd, rect, screen, surface.boundingDiff(hwnd), surface.probedMinWidth(hwnd));
      cache := cache[hwnd := w];
    }

    /** `__fix_max_win` stores the rectangle the OS reports, then the `screen` property resolves the screen. */
    method Settle(w: Window, surface: Surface) returns (s: Option<nat>)
      modifies w`rect, w`screen
      ensures old(InRange(w)) ==> InRange(w)
      ensures w.rect == surface.windowRect(w.hwnd) && w.screen == s
      ensures s == if old(w.screen).Some? then old(w.screen) else GetScreen(screens, surface.monitorFromRect(w.rect))
    {
      w.rect := surface.windowRect(w.hwnd);
      s := ResolveScreen(w, surface);
    }

    /**
     * The placing part of `__post_init__`: the window takes the rectangle the
     * OS reports once it is restored, resolves its screen and, when it has
     * one, is homed.
     */
    method Place(w: Window, surface: Surface) returns (home: Option<nat>, moves: seq<Move>)
      requires Structure() && GroupsValid() && InRange(w)
      requires forall h :: 0 <= h < |groups| ==> w !in groups[h].windows
      modifies w`rect, w`screen, w`lShift, groups`windows, Members(groups)`lShift
      ensures Structure() && GroupsValid() && InRange(w)
      ensures w.rect == surface.windowRect(w.hwnd)
      ensures w.screen == if old(w.screen).Some? then old(w.screen) else GetScreen(screens, surface.monitorFromRect(w.rect))
      ensures home == HomeOf(old(Tiling()), AreasOf(groups), w.screen, w)
      ensures Homed(old(Tiling()), home, w)
      ensures home.Some? ==> forall x :: x in groups[home.value].windows ==> x.lShift == 0
      ensures home.None? ==> w.lShift == old(w.lShift)
      ensures KeptShifts(old(Tiling()), if home.Some? then old(Tiling())[home.value] + [w] else [])
    {
      ghost var tiling := Tiling();
      var s := Settle(w, surface);
      assert Tiling() == tiling;
      label resolved:
      home, moves := HomeOn(s, w, surface);
      assert old(Tiling()) == tiling;
      forall h, x | 0 <= h < |tiling| && x in tiling[h] && x !in (if home.Some? then tiling[home.value] + [w] else [])
        ensures x.lShift == old(x.lShift)
      {
        assert x.lShift == old@resolved(x.lShift);
      }
    }

    /** The homing of `__post_init__` once the screen `s` is resolved: a window without a screen stays out of every group. */
    method HomeOn(s: Option<nat>, w: Window, surface: Surface) returns (home: Option<nat>, moves: seq<Move>)
      requires Structure() && GroupsValid() && (s.Some? ==> s.value < |groups|)
      requires forall h :: 0 <= h < |groups| ==> w !in groups[h].windows
      modifies groups`windows, Members(groups)`lShift, w`lShift
      ensures GroupsValid()
      ensures home == HomeOf(old(Tiling()), AreasOf(groups), s, w)
      ensures Homed(old(Tiling()), home, w)
      ensures home.Some? ==> forall x :: x in groups[home.value].windows ==> x.lShift == 0
      ensures home.None? ==> w.lShift == old(w.lShift)
      ensures KeptShifts(old(Tiling()), if home.Some? then old(Tiling())[home.value] + [w] else [])
    {
      if s.Some? {
        home, moves := Home(s.value, w, surface);
      } else {
        home, moves := None, [];
      }
    }

    /**
     * `load_window_hwnd`: an ignored title gives nothing; a cached handle
     * gives its cached window unless a reload is forced, which drops it from
     * the cache first; a handle with an owner gives nothing once any window
     * is cached; any other handle becomes a new window on the screen of the
     * monitor its rectangle lies on.
     */
    method LoadWindowHwnd(hwnd: int, forceReinit: bool, surface: Surface) returns (w: Window?, moves: seq<Move>)
      requires Valid()
      modifies this`cache, groups`windows, Members(groups)`lShift
      ensures Valid()
      ensures Ignored(surface.title(hwnd)) ==> w == null && cache == old(cache) && OnlyChanged(old(Tiling()), |groups|)
      ensures !Ignored(surface.title(hwnd)) && hwnd in old(cache) && !forceReinit ==>
        w == old(cache[hwnd]) && cache == old(cache) && OnlyChanged(old(Tiling()), |groups|)
      ensures !Ignored(surface.title(hwnd)) && (hwnd !in old(cache) || forceReinit) ==>
        var kept := old(cache) - {hwnd};
        if IgnoreChildren && |kept| > 0 && surface.owner(hwnd) != 0 then
          w == null && cache == kept && OnlyChanged(old(Tiling()), |groups|)
        else
          && w != null && fresh(w) && w.hwnd == hwnd && cache == old(cache)[hwnd := w]
          && w.screen == GetScreen(screens, surface.monitorFromRect(surface.windowRect(hwnd)))
          && Homed(old(Tiling()), HomeOf(old(Tiling()), AreasOf(groups), w.screen, w), w)
      ensures forall x :: x in Members(groups) ==> x in old(Members(groups)) || fresh(x)
    {
      ghost var tiling := Tiling();
      ghost var members := Members(groups);
      ListedMembers();
      moves := [];
      var title := surface.title(hwnd);
      if title == "" || title in IgnoreWinText {
        return null, [];
      }
      if hwnd in cache && !forceReinit {
        return cache[hwnd], [];
      }
      Forget(hwnd);
      assert Tiling() == tiling && Members(groups) == members;
      w, moves := LoadNew(hwnd, surface);
      if w != null {
        RebindKey(old(cache), hwnd, w);
      }
    }

    /**
     * The end of `load_window_hwnd` for a handle that is not cached: a handle
     * with an owner gives nothing once any window is cached; any other
     * becomes a new window on the screen of the monitor its rectangle lies on.
     */
    method LoadNew(hwnd: int, surface: Surface) returns (w: Window?, moves: seq<Move>)
      requires Valid() && hwnd !in cache
      modifies this`cache, groups`windows, Members(groups)`lShift
      ensures Valid()
      ensures IgnoreChildren && |old(cache)| > 0 && surface.owner(hwnd) != 0 ==>
        w == null && cache == old(cache) && OnlyChanged(old(Tiling()), |groups|)
      ensures !(IgnoreChildren && |old(cache)| > 0 && surface.owner(hwnd) != 0) ==>
        && w != null && fresh(w) && w.hwnd == hwnd && cache == old(cache)[hwnd := w]
        && w.screen == GetScreen(screens, surface.monitorFromRect(surface.windowRect(hwnd)))
        && Homed(old(Tiling()), HomeOf(old(Tiling()), AreasOf(groups), w.screen, w), w)
      ensures forall x :: x in Members(groups) ==> x in old(Members(groups)) || fresh(x)
    {
      ghost var tiling := Tiling();
      ghost var members := Members(groups);
      ListedMembers();
      if IgnoreChildren && |cache| > 0 && surface.owner(hwnd) != 0 {
        return null, [];
      }
      var rect := surface.windowRect(hwnd);
      var screen := GetScreen(screens, surface.monitorFromRect(rect));
      var home;
      w := NewWindow(hwnd, rect, screen, surface);
      home, moves := Place(w, surface);
      HomedMembers(tiling, home, w, members);
    }

    /** `_windows_cache.pop(hwnd)`, when the handle is cached. */
    method Forget(hwnd: int)
      requires CacheValid()
      modifies this`cache
      ensures CacheValid() && cache == old(cache) - {hwnd}
    {
      if hwnd in cache {
        cache := cache - {hwnd};
      } else {
        AbsentKey(cache, hwnd);
      }
    }

    /** The index of the screen linked to screen `i` on side `dir`, if any. */
    ghost function Link(i: nat, dir: Direction): (k: Option<nat>)
      requires Structure() && i < |screens|
      reads screens`leftMonitor, screens`rightMonitor
      ensures k.None? <==> (if dir.Left? then screens[i].leftMonitor else screens[i].rightMonitor) == null
      ensures k.Some? ==> k.value < |screens| && k.value != i
      ensures k.Some? ==> screens[k.value] == if dir.Left? then screens[i].leftMonitor else screens[i].rightMonitor
    {
      var s := if dir.Left? then screens[i].leftMonitor else screens[i].rightMonitor;
      if s == null then None
      else
        LinksTouch(screens, i);
        Some(IndexOf(screens, s))
    }

    /**
     * The screen the `screen` property gives `w`: the stored one, or else
     * the screen of the monitor its freshly queried rectangle lies on.
     */
    function ResolvedScreen(w: Window, surface: Surface): (s: Option<nat>)
      reads w`screen
      ensures InRange(w) && s.Some? ==> s.value < |screens|
    {
      if w.screen.Some? then w.screen else GetScreen(screens, surface.monitorFromRect(surface.windowRect(w.hwnd)))
    }

    /**
     * A hand-over of `w` from the group of screen `i` towards `dir` would not
     * offer it to a neighbour's group that already holds it: `attach_window`
     * would put it there a second time.
     */
    predicate HandOverFree(i: nat, w: Window, dir: Direction)
      requires i < |screens|
      reads screens[i], screens[i].group, Maybe(NeighbourGroup(i, dir))
    {
      var g := screens[i].group;
      var next := NeighbourGroup(i, dir);
      w in g.windows && AtEnd(g.windows, w, dir) && next != null ==> w !in next.windows
    }

    /** The group of the screen linked to screen `i` on side `dir`, if any. */
    function NeighbourGroup(i: nat, dir: Direction): (g: Group?)
      requires i < |screens|
      reads screens[i]
      ensures g == null <==> (if dir.Left? then screens[i].leftMonitor else screens[i].rightMonitor) == null
    {
      var next := if dir.Left? then screens[i].leftMonitor else screens[i].rightMonitor;
      if next == null then null else next.group
    }

    /**
     * `shift_left` / `shift_right` once the window's screen `i` is known: the
     * group of that screen shifts the window, with the group of the screen
     * linked on that side as the neighbour. The neighbour is consulted only
     * for a member at the end of the list towards `dir`, as in the source.
     */
    method ShiftOn(i: nat, w: Window, dir: Direction, surface: Surface) returns (moves: seq<Move>)
      requires Structure() && GroupsValid() && i < |groups|
      requires HandOverFree(i, w, dir)
      modifies groups`windows, Members(groups)`lShift, w`lShift
      ensures GroupsValid()
      ensures TilingIs(ShiftedLists(old(Tiling()), AreasOf(groups), i, old(Link(i, dir)), w, dir))
      ensures ShiftsAfter(old(Tiling()), i, Taker(old(Tiling()), AreasOf(groups), i, old(Link(i, dir)), w, dir), w)
    {
      ghost var link := Link(i, dir);
      var screen := screens[i];
      assert screen.group == groups[i];
      var next := if dir.Left? then screen.leftMonitor else screen.rightMonitor;
      MemberOfSome(i);
      if next != null && w in groups[i].windows && AtEnd(groups[i].windows, w, dir) {
        LinksTouch(screens, i);
        var k := IndexOf(screens, next);
        assert link == Some(k);
        MemberOfSome(k);
        moves := ShiftBeside(i, k, w, dir, surface);
      } else {
        moves := ShiftAlone(i, link, w, dir, surface);
      }
    }

    /**
     * `shift_window` in the group of screen `i` when the neighbour's group is
     * not consulted: the window is not a member, is not at the end of the
     * list towards `dir`, or no screen is linked on that side.
     */
    method ShiftAlone(i: nat, ghost link: Option<nat>, w: Window, dir: Direction, surface: Surface) returns (moves: seq<Move>)
      requires Structure() && GroupsValid() && i < |groups|
      requires link.Some? ==> link.value < |groups| && link.value != i
      requires link.Some? && w in groups[i].windows ==> !AtEnd(groups[i].windows, w, dir)
      modifies (groups[i] as Group)`windows, groups[i].windows`lShift, w`lShift
      ensures GroupsValid()
      ensures TilingIs(ShiftedLists(old(Tiling()), AreasOf(groups), i, link, w, dir))
      ensures ShiftsAfter(old(Tiling()), i, Taker(old(Tiling()), AreasOf(groups), i, link, w, dir), w)
    {
      assert Distinct(groups);
      OtherGroups(i);
      ghost var lists := Tiling();
      moves := groups[i].ShiftWindow(w, dir, null, surface);
      ghost var after := ShiftedLists(lists, AreasOf(groups), i, link, w, dir);
      assert after == lists[i := groups[i].windows];
      forall h | 0 <= h < |groups|
        ensures groups[h].windows == after[h]
      {
        if h != i {
          assert groups[h].windows == lists[h];
        }
      }
      ghost var taken := w !in lists[i] && Accepts(lists[i], AreasOf(groups)[i], w);
      assert Taker(lists, AreasOf(groups), i, link, w, dir) == if taken then Some(i) else None;
      forall h, x | 0 <= h < |lists| && x in lists[h] && x !in lists[i] && x != w
        ensures x.lShift == old(x.lShift)
      {
      }
    }

    /**
     * `shift_window` for a member at the end of the list of screen `i`'s group
     * towards `dir`, with the group of the linked screen `k` as the
     * neighbour: the hand-over branch, in which the window moves there when
     * that group accepts it.
     */
    method ShiftBeside(i: nat, k: nat, w: Window, dir: Direction, surface: Surface) returns (moves: seq<Move>)
      requires Structure() && GroupsValid() && i < |groups| && k < |groups| && k != i
      requires w in groups[i].windows && AtEnd(groups[i].windows, w, dir) && w !in groups[k].windows
      modifies (groups[i] as Group)`windows, (groups[k] as Group)`windows, groups[i].windows`lShift, groups[k].windows`lShift, w`lShift
      ensures GroupsValid()
      ensures TilingIs(ShiftedLists(old(Tiling()), AreasOf(groups), i, Some(k), w, dir))
      ensures ShiftsAfter(old(Tiling()), i, Taker(old(Tiling()), AreasOf(groups), i, Some(k), w, dir), w)
    {
      assert Distinct(groups);
      OtherGroups(i);
      OtherGroups(k);
      ghost var lists := Tiling();
      ghost var areas := AreasOf(groups);
      ghost var accepted := Accepts(lists[k], areas[k], w);
      moves := groups[i].HandOver(w, dir, groups[k], surface);
      ghost var after := ShiftedLists(lists, areas, i, Some(k), w, dir);
      assert accepted ==> after == lists[i := RemoveFirst(lists[i], w)][k := Inserted(lists[k], w, dir.Opposite())];
      assert !accepted ==> after == lists;
      forall h | 0 <= h < |groups|
        ensures groups[h].windows == after[h]
      {
        if h != i && h != k {
          assert groups[h].windows == lists[h];
        }
      }
      assert Taker(lists, areas, i, Some(k), w, dir) == if accepted then Some(k) else None;
      forall h, x | 0 <= h < |lists| && x in lists[h] && x !in (if accepted then lists[k] + [w] else [])
        ensures x.lShift == old(x.lShift)
      {
        if !accepted && x in lists[k] {
          assert x in groups[k].windows;
        }
      }
    }

    /**
     * `shift_left` / `shift_right`: the window's screen is resolved (a window
     * without one raises, as `None.group` does) and that screen's group
     * shifts it.
     */
    method ShiftWindow(w: Window, dir: Direction, surface: Surface) returns (out: Outcome)
      requires Valid() && InRange(w)
      requires ResolvedScreen(w, surface).Some? ==> HandOverFree(ResolvedScreen(w, surface).value, w, dir)
      modifies w`rect, w`screen, w`lShift, groups`windows, Members(groups)`lShift
      ensures Valid()
      ensures w.screen == if old(w.screen).Some? then old(w.screen) else GetScreen(screens, surface.monitorFromRect(surface.windowRect(w.hwnd)))
      ensures out.Raised? <==> w.screen.None?
      ensures out.Raised? ==> TilingIs(old(Tiling())) && KeptShifts(old(Tiling()), []) && w.lShift == old(w.lShift)
      ensures out.Done? ==> var i := w.screen.value;
        TilingIs(ShiftedLists(old(Tiling()), AreasOf(groups), i, old(Link(i, dir)), w, dir))
    {
      ghost var lists := Tiling();
      var s := ResolveScreen(w, surface);
      assert Tiling() == lists;
      if s.None? {
        return Raised;
      }
      assert Link(s.value, dir) == old(Link(s.value, dir));
      var moves := ShiftOn(s.value, w, dir, surface);
      assert old(Tiling()) == lists;
      out := Done(moves);
    }

    /**
     * What `resize_window` on group `i` leaves behind for window `w`, given
     * the group's shifts, the members' shrink answers and `w`'s own shift
     * before it. A member: the shifts become `Resized` of the old ones and
     * the group is rearranged when they change. A window that is not a
     * member: an empty group raises, as does any direction other than a
     * right resize of a window with a negative shift, which gets one margin
     * back. The group's shifts change only for a member.
     */
    ghost predicate ResizedIn(i: nat, w: Window, dir: Direction, surface: Surface, out: Outcome,
                              shifts: seq<int>, shrinkable: seq<bool>, shift: int)
      requires i < |groups|
      reads groups, groups[i].windows, w
    {
      var g := groups[i];
      if w in g.windows then
        && |shifts| == |g.windows| && |shrinkable| == |g.windows|
        && match Resized(shifts, shrinkable, IndexOf(g.windows, w), dir)
           case None => out == Done([]) && g.Shifts() == shifts
           case Some(s) => out == Done(Arrangement(g.screenRect, g.Tiles(), surface)) && g.Shifts() == s
      else
        && g.Shifts() == shifts
        && if g.windows == [] || !(dir.Right? && shift < 0) then out == Raised && w.lShift == shift
           else out == Done(Arrangement(g.screenRect, g.Tiles(), surface)) && w.lShift == shift + MarginPx
    }

    /** `resize_window` on the group of screen `i`. */
    method ResizeOn(i: nat, w: Window, dir: Direction, surface: Surface) returns (out: Outcome)
      requires GroupsValid() && i < |groups|
      modifies groups[i].windows`lShift, w`lShift
      ensures ResizedIn(i, w, dir, surface, out, old(groups[i].Shifts()), old(groups[i].Shrinkable(surface)), old(w.lShift))
    {
      var g := groups[i];
      if w in g.windows {
        var moves := g.ResizeWindow(w, dir, surface);
        out := Done(moves);
      } else {
        var raised, moves := g.ResizeOutsider(w, dir, surface);
        out := if raised then Raised else Done(moves);
      }
    }

    /**
     * `resize_left` / `resize_right`: the window's screen is resolved (a
     * window without one raises) and that screen's group resizes it.
     */
    method ResizeWindow(w: Window, dir: Direction, surface: Surface) returns (out: Outcome)
      requires Valid() && InRange(w)
      modifies w`rect, w`screen, w`lShift, Members(groups)`lShift
      ensures Valid()
      ensures w.screen == if old(w.screen).Some? then old(w.screen) else GetScreen(screens, surface.monitorFromRect(surface.windowRect(w.hwnd)))
      ensures w.screen.None? ==> out == Raised && w.lShift == old(w.lShift)
      ensures old(w.screen).Some? ==>
        ResizedIn(w.screen.value, w, dir, surface, out, old(groups[w.screen.value].Shifts()), old(groups[w.screen.value].Shrinkable(surface)), old(w.lShift))
    {
      ListedMembers();
      ghost var shifts := if w.screen.Some? then groups[w.screen.value].Shifts() else [];
      ghost var shrinkable := if w.screen.Some? then groups[w.screen.value].Shrinkable(surface) else [];
      ghost var known := w.screen.Some?;
      var s := ResolveScreen(w, surface);
      if s.None? {
        return Raised;
      }
      assert known ==> groups[s.value].Shifts() == shifts && groups[s.value].Shrinkable(surface) == shrinkable;
      assert known ==> s == old(w.screen) && w.lShift == old(w.lShift);
      out := ResizeOn(s.value, w, dir, surface);
    }

    /**
     * `get_focused_window`: the foreground handle is loaded when it is not
     * cached; its cached window, if any, becomes the recently focused one and
     * is returned, and otherwise the recently focused one is returned.
     */
    method GetFocusedWindow(surface: Surface) returns (w: Window?)
      requires Valid()
      modifies this`cache, this`recentFocused, groups`windows, Members(groups)`lShift
      ensures Valid() && recentFocused == w
      ensures surface.foreground in cache ==> w == cache[surface.foreground]
      ensures surface.foreground !in cache ==> w == old(recentFocused) && cache == old(cache) && TilingIs(old(Tiling()))
      ensures surface.foreground in old(cache) ==> cache == old(cache) && TilingIs(old(Tiling()))
      ensures surface.foreground !in old(cache) && surface.foreground in cache ==>
        fresh(w) && cache == old(cache)[surface.foreground := w]
      ensures forall x :: x in Members(groups) ==> x in old(Members(groups)) || fresh(x)
      ensures old(ScreensKnown()) && w != null ==> InRange(w)
    {
      var hwnd := surface.foreground;
      if hwnd !in cache {
        var loaded, moves := LoadWindowHwnd(hwnd, false, surface);
        if hwnd !in cache {
          AbsentKey(old(cache), hwnd);
        }
      }
      w := Recall(hwnd);
    }

    /** The end of `get_focused_window`: a cached handle's window becomes the recently focused one; otherwise that one is kept. */
    method Recall(hwnd: int) returns (w: Window?)
      modifies this`recentFocused
      ensures recentFocused == w
      ensures hwnd in cache ==> w == cache[hwnd]
      ensures hwnd !in cache ==> w == old(recentFocused)
    {
      if hwnd in cache {
        w := cache[hwnd];
        recentFocused := w;
      } else {
        w := recentFocused;
      }
    }

    /** The windows of `lists`, every list but with `w` taken out. */
    ghost function WithoutWindow(lists: seq<seq<Window>>, w: Window): (r: seq<seq<Window>>)
      ensures |r| == |lists|
      ensures forall h :: 0 <= h < |lists| ==> r[h] == RemoveFirst(lists[h], w)
    {
      seq(|lists|, h requires 0 <= h < |lists| => RemoveFirst(lists[h], w))
    }

    /**
     * `for group in Group.all_groups: group.remove_window(win)`: the window
     * leaves every group, each of which is rearranged.
     */
    method RemoveEverywhere(w: Window, surface: Surface) returns (moves: seq<Move>)
      requires Structure() && GroupsValid()
      modifies groups`windows
      ensures GroupsValid()
      ensures TilingIs(WithoutWindow(old(Tiling()), w))
      ensures forall h :: 0 <= h < |groups| ==> w !in groups[h].windows
    {
      ghost var lists := Tiling();
      moves := [];
      for j := 0 to |groups|
        invariant GroupsValid()
        invariant forall h :: 0 <= h < |groups| ==> groups[h].windows == if h < j then RemoveFirst(lists[h], w) else lists[h]
        invariant forall h :: 0 <= h < j ==> w !in groups[h].windows
      {
        OtherGroups(j);
        var m := groups[j].RemoveWindow(w, surface);
        moves := moves + m;
      }
    }

    /**
     * The enumeration of `load_visible_windows`: every top-level handle that
     * passes the visibility test is loaded, in enumeration order, and the
     * windows obtained are collected. Loading never drops a cached window, so
     * every collected window is the one cached under its handle, and every
     * listed handle that was cached already (under a title that is not
     * ignored) contributes its cached window.
     */
    method LoadVisible(surface: Surface) returns (vis: seq<Window>)
      requires Valid()
      modifies this`cache, groups`windows, Members(groups)`lShift
      ensures Valid()
      ensures forall h :: h in old(cache) ==> h in cache && cache[h] == old(cache)[h]
      ensures forall j :: 0 <= j < |vis| ==>
        && vis[j].hwnd in surface.topLevel && Listed(surface, vis[j].hwnd)
        && vis[j].hwnd in cache && cache[vis[j].hwnd] == vis[j]
      ensures forall h :: h in surface.topLevel && Listed(surface, h) && !Ignored(surface.title(h)) && h in old(cache) ==>
        old(cache)[h] in vis
      ensures forall x :: x in Members(groups) ==> x in old(Members(groups)) || fresh(x)
    {
      vis := [];
      var top := surface.topLevel;
      for i := 0 to |top|
        invariant Valid()
        invariant forall h :: h in old(cache) ==> h in cache && cache[h] == old(cache)[h]
        invariant forall j :: 0 <= j < |vis| ==>
          && vis[j].hwnd in top && Listed(surface, vis[j].hwnd)
          && vis[j].hwnd in cache && cache[vis[j].hwnd] == vis[j]
        invariant forall h :: h in top[..i] && Listed(surface, h) && !Ignored(surface.title(h)) && h in old(cache) ==>
          old(cache)[h] in vis
        invariant forall x :: x in Members(groups) ==> x in old(Members(groups)) || fresh(x)
      {
        vis := Visit(i, top, vis, old(cache), surface);
      }
      assert top[..|top|] == top;
    }

    /**
     * One handle of the enumeration, `top[i]`: it is loaded when it passes
     * the visibility test, and the window obtained, if any, is collected.
     * `start` is the cache when the enumeration began.
     */
    method Visit(i: nat, top: seq<int>, vis: seq<Window>, ghost start: map<int, Window>, surface: Surface) returns (after: seq<Window>)
      requires Valid() && i < |top|
      requires forall k :: k in start ==> k in cache && cache[k] == start[k]
      requires forall j :: 0 <= j < |vis| ==>
        && vis[j].hwnd in top && Listed(surface, vis[j].hwnd)
        && vis[j].hwnd in cache && cache[vis[j].hwnd] == vis[j]
      requires forall h :: h in top[..i] && Listed(surface, h) && !Ignored(surface.title(h)) && h in start ==> start[h] in vis
      modifies this`cache, groups`windows, Members(groups)`lShift
      ensures Valid()
      ensures forall k :: k in start ==> k in cache && cache[k] == start[k]
      ensures forall j :: 0 <= j < |after| ==>
        && after[j].hwnd in top && Listed(surface, after[j].hwnd)
        && after[j].hwnd in cache && cache[after[j].hwnd] == after[j]
      ensures forall h :: h in top[..i + 1] && Listed(surface, h) && !Ignored(surface.title(h)) && h in start ==> start[h] in after
      ensures forall x :: x in Members(groups) ==> x in old(Members(groups)) || fresh(x)
    {
      ghost var known := cache;
      after := vis;
      if Listed(surface, top[i]) {
        var w := Load(top[i], surface);
        if w != null {
          after := vis + [w];
        }
      }
      assert top[..i + 1] == top[..i] + [top[i]];
      if top[i] in start {
        assert known[top[i]] == start[top[i]];
      }
    }

    /**
     * `load_window_hwnd(hwnd)` with the default `force_reinit=False`: no
     * cached window is dropped or replaced, a window obtained is the one
     * cached under the handle, and a handle already cached under a title
     * that is not ignored gives its cached window.
     */
    method Load(hwnd: int, surface: Surface) returns (w: Window?)
      requires Valid()
      modifies this`cache, groups`windows, Members(groups)`lShift
      ensures Valid()
      ensures forall h :: h in old(cache) ==> h in cache && cache[h] == old(cache)[h]
      ensures w != null ==> hwnd in cache && cache[hwnd] == w
      ensures !Ignored(surface.title(hwnd)) && hwnd in old(cache) ==> w == old(cache)[hwnd]
      ensures forall x :: x in Members(groups) ==> x in old(Members(groups)) || fresh(x)
    {
      if hwnd !in cache {
        AbsentKey(cache, hwnd);
      }
      var moves;
      w, moves := LoadWindowHwnd(hwnd, false, surface);
    }
  }
}
