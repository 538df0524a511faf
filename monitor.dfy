/**
 * Display monitors and their neighbourhood (modules/monitor.py).
 *
 * A `Screen` carries the monitor's work area, its physical rectangle and the
 * group tiled over the work area. Neighbour links are decided on the physical
 * rectangles: a screen whose right edge is this screen's left edge is its
 * left neighbour, and one whose left edge is this screen's right edge is its
 * right neighbour.
 */
module Monitor {
  import opened Wrappers
  import opened Position
  import opened Settings
  import opened Surface
  import opened Windows
  import opened Layout
  import opened Lists
  import opened Arrange

  class Screen {
    /** The OS monitor handle. */
    const hMonitor: int
    /** `monitor_info["Work"]`: the area the group tiles. */
    const workArea: Rect
    /** `monitor_info["Monitor"]`: the physical rectangle neighbourhood is decided on. */
    const rect: Rect
    const group: Group
    var leftMonitor: Screen?
    var rightMonitor: Screen?

    /** The group is built over the work area, and the links start empty. */
    constructor (hMonitor: int, workArea: Rect, rect: Rect)
      ensures this.hMonitor == hMonitor && this.workArea == workArea && this.rect == rect
      ensures fresh(group) && group.screenRect == workArea && group.windows == [] && group.Valid()
      ensures leftMonitor == null && rightMonitor == null
    {
      this.hMonitor := hMonitor;
      this.workArea := workArea;
      this.rect := rect;
      group := new Group(workArea);
      leftMonitor := null;
      rightMonitor := null;
    }

    /** `w`: the absolute horizontal extent of the work area. */
    function W(): (w: nat)
      ensures workArea.left + w == workArea.right || workArea.right + w == workArea.left
    {
      if workArea.right >= workArea.left then workArea.right - workArea.left else workArea.left - workArea.right
    }

    /** `h`: the absolute vertical extent of the work area. */
    function H(): (h: nat)
      ensures workArea.top + h == workArea.bottom || workArea.bottom + h == workArea.top
    {
      if workArea.bottom >= workArea.top then workArea.bottom - workArea.top else workArea.top - workArea.bottom
    }

    /**
     * `arrange_bounding_monitors`: every other screen, in list order, whose
     * right edge touches this screen's left edge becomes the left link, and
     * otherwise one whose left edge touches the right edge becomes the right
     * link; the last match wins and a link without a match keeps its value.
     */
    method ArrangeBoundingMonitors(all: seq<Screen>)
      modifies this`leftMonitor, this`rightMonitor
      ensures leftMonitor == Or(LeftOf(all, this), old(leftMonitor))
      ensures rightMonitor == Or(RightOf(all, this), old(rightMonitor))
    {
      var i := 0;
      while i < |all|
        invariant i <= |all|
        invariant leftMonitor == Or(LeftOf(all[..i], this), old(leftMonitor))
        invariant rightMonitor == Or(RightOf(all[..i], this), old(rightMonitor))
      {
        var screen := all[i];
        assert all[..i + 1][..i] == all[..i];
        if screen != this {
          if screen.rect.right == rect.left {
            leftMonitor := screen;
          } else if screen.rect.left == rect.right {
            rightMonitor := screen;
          }
        }
        i := i + 1;
      }
      assert all[..i] == all;
    }

    /** `attach_window`: the window is offered to this screen's group, from the right unless told otherwise. */
    method AttachWindow(window: Window, surface: Surface, from: Direction := Right) returns (ok: bool, moves: seq<Move>)
      requires group.Valid() && window !in group.windows
      modifies group`windows, group.windows`lShift, window`lShift
      ensures group.Valid()
      ensures ok <==> |old(group.windows)| < MaxWinsInGroup && old(group.CanFitWindow(window))
      ensures ok ==> group.windows == Inserted(old(group.windows), window, from)
      ensures ok ==> (forall w :: w in group.windows ==> w.lShift == 0) && moves == Arrangement(group.screenRect, group.Tiles(), surface)
      ensures !ok ==> group.windows == old(group.windows) && moves == [] && window.lShift == old(window.lShift)
      ensures !ok ==> forall w :: w in group.windows ==> w.lShift == old(w.lShift)
    {
      ok, moves := group.AttachWindow(window, from, surface);
    }

    /** `dettach_window`: the window leaves this screen's group, which is rearranged. */
    method DettachWindow(window: Window, surface: Surface) returns (moves: seq<Move>)
      requires group.Valid()
      modifies group`windows
      ensures group.Valid()
      ensures group.windows == RemoveFirst(old(group.windows), window)
      ensures window !in group.windows
      ensures moves == Arrangement(group.screenRect, group.Tiles(), surface)
    {
      moves := group.RemoveWindow(window, surface);
    }
  }

  /** The first screen when there is one, the fallback otherwise. */
  function Or(s: Screen?, fallback: Screen?): Screen?
  {
    if s != null then s else fallback
  }

  /** Whether `s` is a screen other than `self` whose right edge is `self`'s left edge. */
  predicate TouchesLeft(s: Screen, self: Screen)
  {
    s != self && s.rect.right == self.rect.left
  }

  /** Whether `s` is a screen other than `self` that is not a left match and whose left edge is `self`'s right edge. */
  predicate TouchesRight(s: Screen, self: Screen)
  {
    s != self && s.rect.right != self.rect.left && s.rect.left == self.rect.right
  }

  /** The last screen of `all` touching `self` on the left, if any. */
  function LeftOf(all: seq<Screen>, self: Screen): (r: Screen?)
    ensures r != null ==> r in all && TouchesLeft(r, self)
    ensures r == null <==> forall k :: 0 <= k < |all| ==> !TouchesLeft(all[k], self)
  {
    if all == [] then null
    else if TouchesLeft(all[|all| - 1], self) then all[|all| - 1]
    else
      LeftOf(all[..|all| - 1], self)
  }

  /** The last screen of `all` touching `self` on the right, if any. */
  function RightOf(all: seq<Screen>, self: Screen): (r: Screen?)
    ensures r != null ==> r in all && TouchesRight(r, self)
    ensures r == null <==> forall k :: 0 <= k < |all| ==> !TouchesRight(all[k], self)
  {
    if all == [] then null
    else if TouchesRight(all[|all| - 1], self) then all[|all| - 1]
    else
      RightOf(all[..|all| - 1], self)
  }

  /** The left link is the last screen in list order that touches on the left. */
  lemma {:induction false} LeftOfIsLastMatch(all: seq<Screen>, self: Screen, k: nat)
    requires k < |all| && TouchesLeft(all[k], self)
    requires forall m :: k < m < |all| ==> !TouchesLeft(all[m], self)
    ensures LeftOf(all, self) == all[k]
  {
    if k < |all| - 1 {
      LeftOfIsLastMatch(all[..|all| - 1], self, k);
    }
  }

  /** The right link is the last screen in list order that touches on the right and not on the left. */
  lemma {:induction false} RightOfIsLastMatch(all: seq<Screen>, self: Screen, k: nat)
    requires k < |all| && TouchesRight(all[k], self)
    requires forall m :: k < m < |all| ==> !TouchesRight(all[m], self)
    ensures RightOf(all, self) == all[k]
  {
    if k < |all| - 1 {
      RightOfIsLastMatch(all[..|all| - 1], self, k);
    }
  }

  /** Screen `k` carries the links `arrange_bounding_monitors` computes over the whole list. */
  ghost predicate LinkedAt(screens: seq<Screen>, k: nat)
    requires k < |screens|
    reads screens`leftMonitor, screens`rightMonitor
  {
    screens[k].leftMonitor == LeftOf(screens, screens[k]) && screens[k].rightMonitor == RightOf(screens, screens[k])
  }

  /** Every screen of the list carries its links. */
  ghost predicate Linked(screens: seq<Screen>)
    reads screens`leftMonitor, screens`rightMonitor
  {
    forall k :: 0 <= k < |screens| ==> LinkedAt(screens, k)
  }

  /** Every physical rectangle has its left edge strictly left of its right edge. */
  predicate Proper(screens: seq<Screen>)
  {
    forall k :: 0 <= k < |screens| ==> screens[k].rect.left < screens[k].rect.right
  }

  /**
   * In a linked list of screens a screen is never its own neighbour, a left
   * neighbour's right edge is the screen's left edge, a right neighbour's
   * left edge is its right edge, and a link is empty exactly when no other
   * screen touches that side.
   */
  lemma LinksTouch(screens: seq<Screen>, k: nat)
    requires Linked(screens) && k < |screens|
    ensures var s := screens[k];
      && s.leftMonitor != s && s.rightMonitor != s
      && (s.leftMonitor != null ==> s.leftMonitor in screens && s.leftMonitor.rect.right == s.rect.left)
      && (s.rightMonitor != null ==> s.rightMonitor in screens && s.rightMonitor.rect.left == s.rect.right)
      && (s.leftMonitor == null <==> forall m :: 0 <= m < |screens| ==> !TouchesLeft(screens[m], s))
      && (s.rightMonitor == null <==> forall m :: 0 <= m < |screens| ==> !TouchesRight(screens[m], s))
  {
    assert LinkedAt(screens, k);
  }

  /**
   * `screens = [Screen(m) for m in EnumDisplayMonitors()]` followed by
   * `arrange_bounding_monitors` on each: one fresh screen per monitor, in
   * order, with its links computed over the whole list.
   */
  method BuildScreens(monitors: seq<(int, Rect, Rect)>) returns (screens: seq<Screen>)
    ensures |screens| == |monitors| && Distinct(screens)
    ensures forall k, m :: 0 <= k < m < |screens| ==> screens[k].group != screens[m].group
    ensures forall k :: 0 <= k < |screens| ==>
      && fresh(screens[k]) && fresh(screens[k].group)
      && screens[k].hMonitor == monitors[k].0 && screens[k].workArea == monitors[k].1 && screens[k].rect == monitors[k].2
      && screens[k].group.screenRect == monitors[k].1 && screens[k].group.windows == []
    ensures Linked(screens)
  {
    screens := [];
    for i := 0 to |monitors|
      invariant |screens| == i && Distinct(screens)
      invariant forall k, m :: 0 <= k < m < i ==> screens[k].group != screens[m].group
      invariant forall k :: 0 <= k < i ==>
        && fresh(screens[k]) && fresh(screens[k].group)
        && screens[k].hMonitor == monitors[k].0 && screens[k].workArea == monitors[k].1 && screens[k].rect == monitors[k].2
        && screens[k].group.screenRect == monitors[k].1 && screens[k].group.windows == []
        && screens[k].leftMonitor == null && screens[k].rightMonitor == null
    {
      var s := new Screen(monitors[i].0, monitors[i].1, monitors[i].2);
      DistinctAttach(screens, s);
      screens := screens + [s];
    }
    BuildTopology(screens);
  }

  /** The module-level loop of monitor.py: every screen arranges its links over the whole list. */
  method BuildTopology(screens: seq<Screen>)
    requires Distinct(screens)
    requires forall k :: 0 <= k < |screens| ==> screens[k].leftMonitor == null && screens[k].rightMonitor == null
    modifies screens`leftMonitor, screens`rightMonitor
    ensures Linked(screens)
  {
    for i := 0 to |screens|
      invariant forall k :: 0 <= k < i ==>
        screens[k].leftMonitor == LeftOf(screens, screens[k]) && screens[k].rightMonitor == RightOf(screens, screens[k])
      invariant forall k :: i <= k < |screens| ==> screens[k].leftMonitor == null && screens[k].rightMonitor == null
    {
      forall k | 0 <= k < |screens| && k != i
        ensures screens[k] != screens[i]
      {
        DistinctPair(screens, k, i);
      }
      screens[i].ArrangeBoundingMonitors(screens);
    }
    assert forall k :: 0 <= k < |screens| ==> LinkedAt(screens, k);
  }

  /** `get_screen`: the index of the first screen with the given monitor handle, if any. */
  function GetScreen(screens: seq<Screen>, handle: int): (r: Option<nat>)
    ensures r.Some? ==> r.value < |screens| && screens[r.value].hMonitor == handle
    ensures r.Some? ==> forall k :: 0 <= k < r.value ==> screens[k].hMonitor != handle
    ensures r.None? <==> forall k :: 0 <= k < |screens| ==> screens[k].hMonitor != handle
  {
    if screens == [] then None
    else if screens[0].hMonitor == handle then Some(0)
    else
      match GetScreen(screens[1..], handle)
      case None => None
      case Some(k) => Some(k + 1)
  }

  /** How many screens of the list start strictly left of `x`. */
  function LeftOfCount(screens: seq<Screen>, x: int): nat
  {
    |set s | s in screens && s.rect.left < x|
  }

  /** How many screens of the list start strictly right of `x`. */
  function RightOfCount(screens: seq<Screen>, x: int): nat
  {
    |set s | s in screens && s.rect.left > x|
  }

  /** A screen of the list starting at `x`, left of `y`, has fewer screens of the list left of it than `y` has. */
  lemma FewerLeftOf(screens: seq<Screen>, t: Screen, y: int)
    requires t in screens && t.rect.left < y
    ensures LeftOfCount(screens, t.rect.left) < LeftOfCount(screens, y)
  {
    var below := set u | u in screens && u.rect.left < t.rect.left;
    var above := set u | u in screens && u.rect.left < y;
    assert t in above && t !in below;
    assert below <= above;
    assert above == below + (above - below) && below * (above - below) == {};
    assert |above - below| >= 1 by { assert t in above - below; }
  }

  /** A screen of the list starting right of `y` has fewer screens of the list right of it than `y` has. */
  lemma FewerRightOf(screens: seq<Screen>, t: Screen, y: int)
    requires t in screens && t.rect.left > y
    ensures RightOfCount(screens, t.rect.left) < RightOfCount(screens, y)
  {
    var beyond := set u | u in screens && u.rect.left > t.rect.left;
    var past := set u | u in screens && u.rect.left > y;
    assert t in past && t !in beyond;
    assert beyond <= past;
    assert past == beyond + (past - beyond) && beyond * (past - beyond) == {};
    assert |past - beyond| >= 1 by { assert t in past - beyond; }
  }

  /** Following a left link leads to a screen of the list that starts strictly further left. */
  lemma LeftHop(screens: seq<Screen>, k: nat)
    requires Linked(screens) && Proper(screens) && k < |screens| && screens[k].leftMonitor != null
    ensures screens[k].leftMonitor in screens
    ensures screens[k].leftMonitor.rect.left < screens[k].rect.left
    ensures LeftOfCount(screens, screens[k].leftMonitor.rect.left) < LeftOfCount(screens, screens[k].rect.left)
  {
    var t := screens[k].leftMonitor;
    LinksTouch(screens, k);
    var j := IndexOf(screens, t);
    assert t.rect.left < t.rect.right;
    FewerLeftOf(screens, t, screens[k].rect.left);
  }

  /** Following a right link leads to a screen of the list that starts strictly further right. */
  lemma RightHop(screens: seq<Screen>, k: nat)
    requires Linked(screens) && Proper(screens) && k < |screens| && screens[k].rightMonitor != null
    ensures screens[k].rightMonitor in screens
    ensures screens[k].rightMonitor.rect.left > screens[k].rect.left
    ensures RightOfCount(screens, screens[k].rightMonitor.rect.left) < RightOfCount(screens, screens[k].rect.left)
  {
    var t := screens[k].rightMonitor;
    LinksTouch(screens, k);
    assert screens[k].rect.left < screens[k].rect.right;
    FewerRightOf(screens, t, screens[k].rect.left);
  }

  /** The screen reached from `screens[k]` by following left links until there is none. */
  ghost function LeftEnd(screens: seq<Screen>, k: nat): (r: nat)
    requires Linked(screens) && Proper(screens) && k < |screens|
    reads screens`leftMonitor, screens`rightMonitor
    ensures r < |screens| && screens[r].leftMonitor == null
    ensures screens[r].rect.left <= screens[k].rect.left
    decreases LeftOfCount(screens, screens[k].rect.left)
  {
    if screens[k].leftMonitor == null then k
    else
      LeftHop(screens, k);
      LeftEnd(screens, IndexOf(screens, screens[k].leftMonitor))
  }

  /** The screen reached from `screens[k]` by following right links until there is none. */
  ghost function RightEnd(screens: seq<Screen>, k: nat): (r: nat)
    requires Linked(screens) && Proper(screens) && k < |screens|
    reads screens`leftMonitor, screens`rightMonitor
    ensures r < |screens| && screens[r].rightMonitor == null
    ensures screens[r].rect.left >= screens[k].rect.left
    decreases RightOfCount(screens, screens[k].rect.left)
  {
    if screens[k].rightMonitor == null then k
    else
      RightHop(screens, k);
      RightEnd(screens, IndexOf(screens, screens[k].rightMonitor))
  }

  /** `leftmost_screen`: from the first screen, left links are followed until there is none. */
  method LeftmostScreen(screens: seq<Screen>) returns (screen: Screen)
    requires |screens| > 0 && Linked(screens) && Proper(screens)
    ensures screen == screens[LeftEnd(screens, 0)]
    ensures screen.leftMonitor == null && screen.rect.left <= screens[0].rect.left
  {
    screen := screens[0];
    ghost var k: nat := 0;
    while screen.leftMonitor != null
      invariant k < |screens| && screen == screens[k]
      invariant LeftEnd(screens, k) == LeftEnd(screens, 0)
      decreases LeftOfCount(screens, screen.rect.left)
    {
      LeftHop(screens, k);
      screen := screen.leftMonitor;
      k := IndexOf(screens, screen);
    }
  }

  /** `rightmost_screen`: from the first screen, right links are followed until there is none. */
  method RightmostScreen(screens: seq<Screen>) returns (screen: Screen)
    requires |screens| > 0 && Linked(screens) && Proper(screens)
    ensures screen == screens[RightEnd(screens, 0)]
    ensures screen.rightMonitor == null && screen.rect.left >= screens[0].rect.left
  {
    screen := screens[0];
    ghost var k: nat := 0;
    while screen.rightMonitor != null
      invariant k < |screens| && screen == screens[k]
      invariant RightEnd(screens, k) == RightEnd(screens, 0)
      decreases RightOfCount(screens, screen.rect.left)
    {
      RightHop(screens, k);
      screen := screen.rightMonitor;
      k := IndexOf(screens, screen);
    }
  }
}
