/**
 * `_EventsListener` of modules/events.py: a poller that keeps the handles
 * of the windows it last saw visible and, on every tick, loads the handles
 * that appeared (rearranging the group of the screen each lands on), takes
 * the cached window of every handle that vanished out of every group, and
 * then remembers the handles it just saw.
 */
module Events {
  import opened Wrappers
  import opened Surface
  import opened Settings
  import opened Windows
  import opened Lists
  import opened Layout
  import opened Arrange
  import opened Desktop

  /** The handles of `hs` that pass the visibility test, in enumeration order. */
  function ListedHandles(hs: seq<int>, surface: Surface): (r: seq<int>)
    ensures |r| <= |hs|
    ensures forall h :: h in r <==> h in hs && Listed(surface, h)
  {
    if hs == [] then []
    else
      var n := |hs| - 1;
      var front := ListedHandles(hs[..n], surface);
      assert hs == hs[..n] + [hs[n]];
      if Listed(surface, hs[n]) then front + [hs[n]] else front
  }

  /** `__load_visible_hwnds`: the enumeration of top-level handles, keeping those that pass the visibility test. */
  method VisibleHandles(surface: Surface) returns (visible: seq<int>)
    ensures visible == ListedHandles(surface.topLevel, surface)
  {
    var top := surface.topLevel;
    visible := [];
    for i := 0 to |top|
      invariant visible == ListedHandles(top[..i], surface)
    {
      assert top[..i + 1][..i] == top[..i];
      if Listed(surface, top[i]) {
        visible := visible + [top[i]];
      }
    }
    assert top[..|top|] == top;
  }

  /** The cache entry of every handle but `hwnd` is as in `before`. */
  ghost predicate KeptBut(before: map<int, Window>, after: map<int, Window>, hwnd: int)
  {
    forall h :: h != hwnd ==> (h in after <==> h in before) && (h in after ==> after[h] == before[h])
  }

  /**
   * `load_window_hwnd(hwnd, force_reinit=True)`: only the entry of `hwnd`
   * changes; a window obtained is new, cached under its handle and on a
   * screen of the list if any; a handle whose title is not ignored and that
   * has no owner always gives one.
   */
  method Reload(d: Desktop, hwnd: int, surface: Surface) returns (w: Window?)
    requires d.Valid()
    modifies d`cache, d.groups`windows, Members(d.groups)`lShift
    ensures d.Valid()
    ensures KeptBut(old(d.cache), d.cache, hwnd)
    ensures w != null ==> fresh(w) && hwnd in d.cache && d.cache[hwnd] == w && d.InRange(w)
    ensures !Ignored(surface.title(hwnd)) && surface.owner(hwnd) == 0 ==> w != null
    ensures Ignored(surface.title(hwnd)) ==> w == null && d.TilingIs(old(d.Tiling()))
    ensures forall x :: x in Members(d.groups) ==> x in old(Members(d.groups)) || fresh(x)
  {
    var moves;
    w, moves := d.LoadWindowHwnd(hwnd, true, surface);
  }

  /**
   * The loop body for one appeared handle: it is reloaded and, when that
   * gives a window whose `screen` property resolves, that screen's group is
   * rearranged.
   */
  method LoadOne(d: Desktop, hwnd: int, surface: Surface) returns (moves: seq<Move>)
    requires d.Valid()
    modifies d`cache, d.groups`windows, Members(d.groups)`lShift
    ensures d.Valid()
    ensures KeptBut(old(d.cache), d.cache, hwnd)
    ensures !Ignored(surface.title(hwnd)) && surface.owner(hwnd) == 0 ==> hwnd in d.cache && fresh(d.cache[hwnd])
    ensures forall x :: x in Members(d.groups) ==> x in old(Members(d.groups)) || fresh(x)
  {
    moves := [];
    var w := Reload(d, hwnd, surface);
    if w != null {
      moves := RearrangeHome(d, w, surface);
    }
  }

  /** `rearrange` of the group of the screen `w`'s `screen` property resolves to, when there is one. */
  method RearrangeHome(d: Desktop, w: Window, surface: Surface) returns (moves: seq<Move>)
    requires d.Valid() && d.InRange(w)
    modifies w`rect, w`screen
    ensures d.Valid() && d.InRange(w) && d.cache == old(d.cache)
    ensures w.screen.None? ==> moves == []
    ensures w.screen.Some? ==>
      moves == Arrangement(d.groups[w.screen.value].screenRect, d.groups[w.screen.value].Tiles(), surface)
  {
    moves := [];
    ghost var tiling := d.Tiling();
    var s := d.ResolveScreen(w, surface);
    assert d.TilingIs(tiling);
    if s.Some? {
      moves := d.groups[s.value].Rearrange(surface);
    }
  }

  /**
   * The first half of a tick: every handle of `active` not in `buffer` is
   * reloaded, and the group of the screen a window obtained resolves to is
   * rearranged. Only the entries of those handles change in the cache.
   */
  method LoadAppeared(d: Desktop, active: seq<int>, buffer: seq<int>, surface: Surface) returns (moves: seq<Move>)
    requires d.Valid()
    modifies d`cache, d.groups`windows, Members(d.groups)`lShift
    ensures d.Valid()
    ensures forall h :: h !in active || h in buffer ==>
      (h in d.cache <==> h in old(d.cache)) && (h in d.cache ==> d.cache[h] == old(d.cache)[h])
    ensures forall h :: h in active && h !in buffer && !Ignored(surface.title(h)) && surface.owner(h) == 0 ==>
      h in d.cache && fresh(d.cache[h])
    ensures (forall h :: h in active ==> h in buffer) ==> d.TilingIs(old(d.Tiling()))
  {
    ghost var tiling := d.Tiling();
    moves := [];
    for i := 0 to |active|
      invariant d.Valid()
      invariant forall h :: h !in active[..i] || h in buffer ==>
        (h in d.cache <==> h in old(d.cache)) && (h in d.cache ==> d.cache[h] == old(d.cache)[h])
      invariant forall h :: h in active[..i] && h !in buffer && !Ignored(surface.title(h)) && surface.owner(h) == 0 ==>
        h in d.cache && fresh(d.cache[h])
      invariant forall x :: x in Members(d.groups) ==> x in old(Members(d.groups)) || fresh(x)
      invariant (forall h :: h in active ==> h in buffer) ==> d.TilingIs(tiling)
    {
      assert active[..i + 1] == active[..i] + [active[i]];
      var hwnd := active[i];
      if hwnd !in buffer {
        var m := LoadOne(d, hwnd, surface);
        moves := moves + m;
      }
    }
  }

  /**
   * The second half of a tick: for every handle of `buffer` not in `active`
   * whose window is cached, the window is removed from every group. The
   * cache is not touched.
   */
  method DropVanished(d: Desktop, buffer: seq<int>, active: seq<int>, surface: Surface) returns (moves: seq<Move>)
    requires d.Valid()
    modifies d.groups`windows
    ensures d.Valid() && d.cache == old(d.cache)
    ensures forall h, g :: h in buffer && h !in active && h in d.cache && 0 <= g < |d.groups| ==>
      d.cache[h] !in d.groups[g].windows
    ensures (forall h :: h in buffer && h !in active ==> h !in d.cache) ==> d.TilingIs(old(d.Tiling()))
  {
    ghost var tiling := d.Tiling();
    moves := [];
    for i := 0 to |buffer|
      invariant d.Valid()
      invariant forall h, g :: h in buffer[..i] && h !in active && h in d.cache && 0 <= g < |d.groups| ==>
        d.cache[h] !in d.groups[g].windows
      invariant (forall h :: h in buffer && h !in active ==> h !in d.cache) ==> d.TilingIs(tiling)
    {
      assert buffer[..i + 1] == buffer[..i] + [buffer[i]];
      var hwnd := buffer[i];
      if hwnd !in active && hwnd in d.cache {
        ghost var before := d.Tiling();
        var m := d.RemoveEverywhere(d.cache[hwnd], surface);
        moves := moves + m;
        forall h, g | h in buffer[..i] && h !in active && h in d.cache && 0 <= g < |d.groups|
          ensures d.cache[h] !in d.groups[g].windows
        {
          assert d.cache[h] !in before[g];
        }
      }
    }
    assert buffer[..|buffer|] == buffer;
  }

  class EventsListener {
    /** `CHECK_FREQ`: seconds between ticks. */
    const CheckFreq: real
    /** The handles seen visible at the previous tick. */
    var buffer: seq<int>

    /** The listener starts from the handles visible at construction. */
    constructor (surface: Surface)
      ensures buffer == ListedHandles(surface.topLevel, surface)
      ensures CheckFreq == 0.1
    {
      CheckFreq := 0.1;
      var visible := VisibleHandles(surface);
      buffer := visible;
    }

    /**
     * One iteration of `__listen` after its sleep: appeared handles are
     * loaded, vanished ones are taken out of every group, and the buffer
     * becomes the handles seen now.
     */
    method Tick(d: Desktop, surface: Surface) returns (moves: seq<Move>)
      requires d.Valid()
      modifies this`buffer, d`cache, d.groups`windows, Members(d.groups)`lShift
      ensures d.Valid()
      ensures buffer == ListedHandles(surface.topLevel, surface)
      ensures forall h :: h !in buffer || h in old(buffer) ==>
        (h in d.cache <==> h in old(d.cache)) && (h in d.cache ==> d.cache[h] == old(d.cache)[h])
      ensures forall h :: h in buffer && h !in old(buffer) && !Ignored(surface.title(h)) && surface.owner(h) == 0 ==>
        h in d.cache && fresh(d.cache[h])
      ensures forall h, g :: h in old(buffer) && h !in buffer && h in old(d.cache) && 0 <= g < |d.groups| ==>
        old(d.cache)[h] !in d.groups[g].windows
      ensures ((forall h :: h in buffer ==> h in old(buffer)) &&
        (forall h :: h in old(buffer) && h !in buffer ==> h !in old(d.cache))) ==> d.TilingIs(old(d.Tiling()))
    {
      var active := VisibleHandles(surface);
      var loaded := LoadAppeared(d, active, buffer, surface);
      var dropped := DropVanished(d, buffer, active, surface);
      moves := loaded + dropped;
      buffer := active;
    }
  }
}
