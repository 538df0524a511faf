/**
 * The group engine of modules/arrange.py: a `Group` owns the ordered list of
 * windows tiled over one monitor's work area, changes that list in place and
 * edits the members' border shifts; every change ends with a rearrange,
 * whose requests the methods return so that they can be compared with
 * `Layout.Arrangement`.
 */
module Arrange {
  import opened Wrappers
  import opened Position
  import opened Settings
  import opened Surface
  import opened Windows
  import opened Layout
  import opened Lists
  import opened Resize

  /** The width a list of members needs at least: each member's minimum width plus one margin. */
  function WidthDemand(ws: seq<Window>): int
  {
    if ws == [] then 0 else ws[0].MinimumWidth() + MarginPx + WidthDemand(ws[1..])
  }

  lemma {:induction false} WidthDemandConcat(a: seq<Window>, b: seq<Window>)
    ensures WidthDemand(a + b) == WidthDemand(a) + WidthDemand(b)
  {
    if a == [] {
      assert a + b == b;
    } else {
      assert (a + b)[1..] == a[1..] + b;
      WidthDemandConcat(a[1..], b);
    }
  }

  /** Two members need the same in either order. */
  lemma WidthDemandPair(a: Window, b: Window)
    ensures WidthDemand([a, b]) == WidthDemand([b, a])
  {
    assert [a, b][1..] == [b] && [b, a][1..] == [a];
    assert [b][1..] == [] && [a][1..] == [];
  }

  /** Exchanging two neighbours does not change what the list needs. */
  lemma {:induction false} WidthDemandSwap(ws: seq<Window>, i: nat, j: nat)
    requires i < |ws| && j < |ws| && (j == i + 1 || i == j + 1)
    ensures WidthDemand(Swapped(ws, i, j)) == WidthDemand(ws)
  {
    var lo := if i < j then i else j;
    var a, b := ws[lo], ws[lo + 1];
    var pre, post := ws[..lo], ws[lo + 2..];
    SwappedAround(ws, i, j);
    WidthDemandPair(a, b);
    WidthDemandConcat(pre + [a, b], post);
    WidthDemandConcat(pre, [a, b]);
    WidthDemandConcat(pre + [b, a], post);
    WidthDemandConcat(pre, [b, a]);
  }

  /** Removing a member never makes the list need more. */
  lemma WidthDemandRemove(ws: seq<Window>, w: Window)
    ensures WidthDemand(RemoveFirst(ws, w)) <= WidthDemand(ws)
  {
    RemoveFirstIsSplice(ws, w);
    if w in ws {
      var i := IndexOf(ws, w);
      assert ws == ws[..i] + [ws[i]] + ws[i + 1..];
      WidthDemandConcat(ws[..i] + [ws[i]], ws[i + 1..]);
      WidthDemandConcat(ws[..i], [ws[i]]);
      WidthDemandConcat(ws[..i], ws[i + 1..]);
    }
  }

  /** What rearrange reads of each member, in list order. */
  function TilesOf(ws: seq<Window>): (ts: seq<Tile>)
    reads ws`lShift
    ensures |ts| == |ws|
  {
    if ws == [] then [] else [Tile(ws[0].hwnd, ws[0].lShift, ws[0].boundingError)] + TilesOf(ws[1..])
  }

  /** The tile at position `i` is what rearrange reads of the member at `i`. */
  lemma {:induction false} TilesOfAt(ws: seq<Window>, i: nat)
    requires i < |ws|
    ensures TilesOf(ws)[i] == Tile(ws[i].hwnd, ws[i].lShift, ws[i].boundingError)
  {
    if i > 0 {
      TilesOfAt(ws[1..], i - 1);
    }
  }

  /** The members' border shifts, in list order. */
  function ShiftsOf(ws: seq<Window>): (s: seq<int>)
    reads ws`lShift
    ensures |s| == |ws|
  {
    if ws == [] then [] else [ws[0].lShift] + ShiftsOf(ws[1..])
  }

  /** The shift at position `i` is the member at `i`'s own. */
  lemma {:induction false} ShiftsOfAt(ws: seq<Window>, i: nat)
    requires i < |ws|
    ensures ShiftsOf(ws)[i] == ws[i].lShift
  {
    if i > 0 {
      ShiftsOfAt(ws[1..], i - 1);
    }
  }

  /** The shift list read member by member. */
  lemma ShiftsOfAll(ws: seq<Window>)
    ensures forall i :: 0 <= i < |ws| ==> ShiftsOf(ws)[i] == ws[i].lShift
  {
    forall i | 0 <= i < |ws| {
      ShiftsOfAt(ws, i);
    }
  }

  /** The shift list is determined by the members' shifts one by one. */
  lemma ShiftsOfPointwise(ws: seq<Window>, s: seq<int>)
    requires |s| == |ws| && forall i :: 0 <= i < |ws| ==> ws[i].lShift == s[i]
    ensures ShiftsOf(ws) == s
  {
    ShiftsOfAll(ws);
  }

  /** The members' `can_shrink` answers, in list order. */
  function ShrinkableOf(ws: seq<Window>, surface: Surface): (s: seq<bool>)
    reads ws`rect, ws`screen
    ensures |s| == |ws|
  {
    if ws == [] then [] else [ws[0].CanShrink(surface)] + ShrinkableOf(ws[1..], surface)
  }

  /** The answer at position `i` is the member at `i`'s own. */
  lemma {:induction false} ShrinkableOfAt(ws: seq<Window>, surface: Surface, i: nat)
    requires i < |ws|
    ensures ShrinkableOf(ws, surface)[i] == ws[i].CanShrink(surface)
  {
    if i > 0 {
      ShrinkableOfAt(ws[1..], surface, i - 1);
    }
  }

  /** A member list with `w` attached at the end `from` names. */
  function Inserted(ws: seq<Window>, w: Window, from: Direction): seq<Window>
  {
    if from.Left? then [w] + ws else ws + [w]
  }

  /** Whether `w` is the member at the end of `ws` that `dir` points to. */
  predicate AtEnd(ws: seq<Window>, w: Window, dir: Direction)
    requires ws != []
  {
    if dir.Left? then ws[0] == w else ws[|ws| - 1] == w
  }

  /** `swap_window_shifts`: the two windows exchange their border shifts. */
  method SwapWindowShifts(w1: Window, w2: Window)
    modifies w1`lShift, w2`lShift
    ensures w1.lShift == old(w2.lShift) && w2.lShift == old(w1.lShift)
  {
    w1.lShift, w2.lShift := w2.lShift, w1.lShift;
  }

  class Group {
    /** The monitor work area the members are tiled over. */
    const screenRect: Rect
    /** The members, left to right. */
    var windows: seq<Window>

    /**
     * A window is a member at most once, the group holds at most
     * `MaxWinsInGroup` members, and their minimum widths with one margin each
     * fit the work area plus one margin (the fit test admits a member without
     * counting its own margin).
     */
    ghost predicate Valid()
      reads this
    {
      && Distinct(windows)
      && |windows| <= MaxWinsInGroup
      && WidthDemand(windows) <= screenRect.W() + MarginPx
    }

    constructor (screenRect: Rect)
      ensures this.screenRect == screenRect && windows == []
      ensures Valid()
    {
      this.screenRect := screenRect;
      windows := [];
    }

    function Tiles(): seq<Tile>
      reads this`windows, windows`lShift
    {
      TilesOf(windows)
    }

    function Shifts(): seq<int>
      reads this`windows, windows`lShift
    {
      ShiftsOf(windows)
    }

    function Shrinkable(surface: Surface): seq<bool>
      reads this`windows, windows`rect, windows`screen
    {
      ShrinkableOf(windows, surface)
    }

    /** `can_fit_window`: the members' minimum widths and margins plus the newcomer's minimum width fit the work area. */
    function CanFitWindow(window: Window): (fits: bool)
      reads this
      ensures fits <==> WidthDemand(windows + [window]) <= screenRect.W() + MarginPx
    {
      WidthDemandConcat(windows, [window]);
      WidthDemand(windows) + window.MinimumWidth() <= screenRect.W()
    }

    function IsLeftmost(window: Window): (r: bool)
      requires windows != []
      reads this
      ensures r ==> window in windows
      ensures Distinct(windows) && window in windows ==> (r <==> IndexOf(windows, window) == 0)
    {
      IndexOfDistinctHere(0);
      windows[0] == window
    }

    function IsRightmost(window: Window): (r: bool)
      requires windows != []
      reads this
      ensures r ==> window in windows
      ensures Distinct(windows) && window in windows ==> (r <==> IndexOf(windows, window) == |windows| - 1)
    {
      IndexOfDistinctHere(|windows| - 1);
      windows[|windows| - 1] == window
    }

    /** In a list without repetitions, the member at `k` is found at `k`. */
    lemma IndexOfDistinctHere(k: nat)
      requires k < |windows|
      ensures Distinct(windows) ==> IndexOf(windows, windows[k]) == k
    {
      if Distinct(windows) {
        IndexOfDistinct(windows, k);
      }
    }

    /**
     * `get_neighbour`: the member next to `window` towards `dir`, or None when
     * `window` is the member at that end of the list.
     */
    function GetNeighbour(window: Window, dir: Direction): (r: Option<Window>)
      requires window in windows
      reads this
      ensures r.None? <==> AtEnd(windows, window, dir)
      ensures r.Some? ==> r.value in windows
      ensures r.Some? && Distinct(windows) ==> r.value != window
    {
      if (IsLeftmost(window) && dir.Left?) || (IsRightmost(window) && dir.Right?) then None
      else
        var i := IndexOf(windows, window);
        if dir.Left? then Some(windows[i - 1])
        else
          DistinctPair(windows, i, i + 1);
          Some(windows[i + 1])
    }

    /** `windows_on_left`: the members before `window`; with those after it and `window` they make up the list. */
    function WindowsOnLeft(window: Window): (l: seq<Window>)
      requires window in windows
      reads this
      ensures l + [window] + WindowsOnRight(window) == windows
      ensures window !in l
    {
      var i := IndexOf(windows, window);
      assert windows == windows[..i] + [window] + windows[i + 1..];
      windows[..i]
    }

    /** `windows_on_right`: the members after `window`. */
    function WindowsOnRight(window: Window): (r: seq<Window>)
      requires window in windows
      reads this
      ensures |r| == |windows| - 1 - IndexOf(windows, window)
      ensures Distinct(windows) ==> window !in r
    {
      var i := IndexOf(windows, window);
      var r := windows[i + 1..];
      assert Distinct(windows) ==> forall k :: 0 <= k < |r| ==> r[k] == windows[i + 1 + k] && r[k] != windows[i] by {
        if Distinct(windows) {
          DistinctApart(windows);
        }
      }
      r
    }

    /** `rearrange`: asks every visible member for its rectangle, left to right. */
    method Rearrange(surface: Surface) returns (moves: seq<Move>)
      requires Valid()
      ensures moves == Arrangement(screenRect, Tiles(), surface)
    {
      moves := [];
      if windows == [] {
        return;
      }
      var n := |windows|;
      var base := CeilDiv(screenRect.W(), n);
      var prevRight := screenRect.left;
      ghost var tiles := Tiles();
      var i := 0;
      while i < n
        invariant 0 <= i <= n
        invariant moves + Place(screenRect, tiles, surface, base, i, prevRight) == Arrangement(screenRect, tiles, surface)
      {
        var win := windows[i];
        TilesOfAt(windows, i);
        if surface.isVisible(win.hwnd) {
          var rect := RectFor(i, base, prevRight);
          var got := win.DrawInRect(rect, surface);
          assert Place(screenRect, tiles, surface, base, i, prevRight)
              == [Move(i, win.hwnd, rect, got)] + Place(screenRect, tiles, surface, base, i + 1, got.right);
          moves := moves + [Move(i, win.hwnd, rect, got)];
          prevRight := got.right;
        } else {
          assert Place(screenRect, tiles, surface, base, i, prevRight) == Place(screenRect, tiles, surface, base, i + 1, prevRight);
        }
        i := i + 1;
      }
    }

    /**
     * The rectangle rearrange computes for the member at `i`: one margin
     * right of `prevRight`, the default width less its own shift plus its
     * right neighbour's, at least the minimum width unless it is the last
     * member, which reaches the right edge of the work area.
     */
    method RectFor(i: nat, base: int, prevRight: int) returns (rect: Rect)
      requires Distinct(windows) && i < |windows|
      ensures rect == Requested(screenRect, Tiles(), base, i, prevRight)
    {
      ghost var tiles := Tiles();
      TilesOfAt(windows, i);
      var n := |windows|;
      var win := windows[i];
      var newLeft := prevRight + MarginPx;
      var newRight := newLeft + base - MarginPx - win.lShift;
      if i + 1 < n {
        TilesOfAt(windows, i + 1);
        newRight := newRight + windows[i + 1].lShift;
        if newRight - newLeft < WindowMinW {
          newRight := newLeft + WindowMinW;
        }
      }
      assert IsRightmost(win) <==> i == n - 1 by {
        IndexOfDistinct(windows, i);
      }
      if IsRightmost(win) {
        newRight := screenRect.right - MarginPx;
      }
      rect := Rect(newLeft, screenRect.top + MarginPx, newRight, screenRect.bottom - MarginPx);
    }

    /** `reset_shifts`: every member's border shift becomes 0. */
    method ResetShifts()
      modifies windows`lShift
      ensures forall w :: w in windows ==> w.lShift == 0
    {
      var i := 0;
      while i < |windows|
        invariant 0 <= i <= |windows|
        invariant forall k :: 0 <= k < i ==> windows[k].lShift == 0
      {
        windows[i].ResetShift();
        i := i + 1;
      }
    }

    /**
     * `attach_window`: refused, with nothing changed, when the group is full
     * or the newcomer does not fit; otherwise every shift is reset, the window
     * joins at the end `from` names and the group is rearranged.
     */
    method AttachWindow(window: Window, from: Direction, surface: Surface) returns (ok: bool, moves: seq<Move>)
      requires Valid() && window !in windows
      modifies this`windows, windows`lShift, window`lShift
      ensures Valid()
      ensures ok <==> |old(windows)| < MaxWinsInGroup && old(CanFitWindow(window))
      ensures ok ==> windows == Inserted(old(windows), window, from)
      ensures ok ==> (forall w :: w in windows ==> w.lShift == 0) && moves == Arrangement(screenRect, Tiles(), surface)
      ensures !ok ==> windows == old(windows) && moves == [] && Shifts() == old(Shifts()) && window.lShift == old(window.lShift)
      ensures !ok ==> forall w :: w in windows ==> w.lShift == old(w.lShift)
    {
      if |windows| >= MaxWinsInGroup {
        return false, [];
      }
      if !CanFitWindow(window) {
        return false, [];
      }
      Join(window, from);
      moves := Rearrange(surface);
      ok := true;
    }

    /** The admitting half of `attach_window`: all shifts reset, the window placed at the end `from` names. */
    method Join(window: Window, from: Direction)
      requires Valid() && window !in windows && CanFitWindow(window) && |windows| < MaxWinsInGroup
      modifies this`windows, windows`lShift, window`lShift
      ensures Valid()
      ensures windows == Inserted(old(windows), window, from)
      ensures forall w :: w in windows ==> w.lShift == 0
    {
      WidthDemandConcat([window], windows);
      WidthDemandConcat(windows, [window]);
      DistinctAttach(windows, window);
      ResetShifts();
      window.ResetShift();
      if from == Left {
        windows := [window] + windows;
      }
      if from == Right {
        windows := windows + [window];
      }
    }

    /** `remove_window`: drops the window if it is a member, then rearranges in any case. */
    method RemoveWindow(window: Window, surface: Surface) returns (moves: seq<Move>)
      requires Valid()
      modifies this`windows
      ensures Valid()
      ensures windows == RemoveFirst(old(windows), window)
      ensures forall w :: w in windows <==> w in old(windows) && w != window
      ensures moves == Arrangement(screenRect, Tiles(), surface)
    {
      RemoveFirstOfDistinct(windows, window);
      WidthDemandRemove(windows, window);
      if window in windows {
        windows := RemoveFirst(windows, window);
      }
      RemoveFirstIsSplice(old(windows), window);
      moves := Rearrange(surface);
    }

    /** Adds `d` to the border shift of the member at `m`. */
    method AddShift(m: nat, d: int)
      requires Distinct(windows) && m < |windows|
      modifies (windows[m] as Window)`lShift
      ensures Shifts() == old(Shifts())[m := old(Shifts())[m] + d]
    {
      DistinctApart(windows);
      ghost var shifts := Shifts();
      ShiftsOfAll(windows);
      windows[m].lShift := windows[m].lShift + d;
      ShiftsOfPointwise(windows, shifts[m := shifts[m] + d]);
    }

    /** Neighbourhood is mutual: the neighbour of `window` towards `dir` has `window` as its neighbour the other way. */
    lemma NeighboursAreMutual(window: Window, dir: Direction)
      requires Distinct(windows) && window in windows
      ensures GetNeighbour(window, dir).Some? ==>
        var v := GetNeighbour(window, dir).value;
        v in windows && GetNeighbour(v, dir.Opposite()) == Some(window)
    {
      if GetNeighbour(window, dir).Some? {
        var i := IndexOf(windows, window);
        var j := if dir.Left? then i - 1 else i + 1;
        assert 0 <= j < |windows| && GetNeighbour(window, dir) == Some(windows[j]);
        IndexOfDistinct(windows, j);
        IndexOfDistinct(windows, i);
      }
    }

    /**
     * The reordering step of `shift_window`: the member is removed and
     * inserted again one place towards `dir`, which exchanges it with its
     * neighbour there.
     */
    method MoveMember(window: Window, dir: Direction) returns (i: nat, j: nat)
      requires Valid() && window in windows && !AtEnd(windows, window, dir)
      modifies this`windows
      ensures Valid()
      ensures i == old(IndexOf(windows, window)) && j == (if dir.Left? then i - 1 else i + 1)
      ensures j < |windows| && windows == Swapped(old(windows), i, j)
    {
      i := IndexOf(windows, window);
      j := if dir.Left? then i - 1 else i + 1;
      MoveOneSlot(windows, i, j);
      SwappedDistinct(windows, i, j);
      WidthDemandSwap(windows, i, j);
      windows := RemoveFirst(windows, window);
      if dir == Left {
        windows := Insert(windows, i - 1, window);
      }
      if dir == Right {
        windows := Insert(windows, i + 1, window);
      }
    }

    /**
     * The in-group half of `shift_window`: the member changes places with its
     * neighbour towards `dir` and the two exchange their border shifts, so
     * that every border keeps its shift.
     */
    method Exchange(window: Window, dir: Direction)
      requires Valid() && window in windows && !AtEnd(windows, window, dir)
      modifies this`windows, windows`lShift
      ensures Valid()
      ensures var i := old(IndexOf(windows, window));
              var j := if dir.Left? then i - 1 else i + 1;
        0 <= j < |old(windows)| && windows == Swapped(old(windows), i, j)
      ensures Shifts() == old(Shifts())
    {
      ghost var before := windows;
      ghost var shifts := Shifts();
      ShiftsOfAll(windows);
      var shifted := GetNeighbour(window, dir);
      var i, j := MoveMember(window, dir);
      assert shifted == Some(before[j]);
      if shifted.Some? {
        SwapWindowShifts(window, shifted.value);
      }
      forall k | 0 <= k < |windows|
        ensures windows[k].lShift == shifts[k]
      {
        if k != i && k != j {
          DistinctPair(before, k, i);
          DistinctPair(before, k, j);
        }
      }
      ShiftsOfPointwise(windows, shifts);
    }

    /**
     * The cross-monitor half of `shift_window`: the member at the end of the
     * list towards `dir` is offered to `neighbour`, which attaches it from the
     * opposite side; when it accepts, the window leaves this group and its
     * shift is reset. When it refuses, nothing changes.
     */
    method HandOver(window: Window, dir: Direction, neighbour: Group, surface: Surface) returns (moves: seq<Move>)
      requires Valid() && window in windows
      requires neighbour != this && neighbour.Valid() && window !in neighbour.windows
      modifies this`windows, window`lShift, neighbour`windows, neighbour.windows`lShift
      ensures Valid() && neighbour.Valid()
      ensures var accepted := |old(neighbour.windows)| < MaxWinsInGroup && old(neighbour.CanFitWindow(window));
        && (accepted ==>
              && windows == RemoveFirst(old(windows), window)
              && neighbour.windows == Inserted(old(neighbour.windows), window, dir.Opposite())
              && (forall w :: w in neighbour.windows ==> w.lShift == 0)
              && (forall w :: w in windows && w !in old(neighbour.windows) ==> w.lShift == old(w.lShift))
              && moves == Arrangement(neighbour.screenRect, neighbour.Tiles(), surface) + Arrangement(screenRect, Tiles(), surface))
        && (!accepted ==>
              && windows == old(windows) && neighbour.windows == old(neighbour.windows) && moves == []
              && Shifts() == old(Shifts()) && neighbour.Shifts() == old(neighbour.Shifts())
              && (forall w :: w in neighbour.windows ==> w.lShift == old(w.lShift))
              && window.lShift == old(window.lShift))
    {
      var ok;
      ok, moves := neighbour.AttachWindow(window, dir.Opposite(), surface);
      if ok {
        ghost var taken := neighbour.Tiles();
        var more := RemoveWindow(window, surface);
        ghost var left := Tiles();
        assert window.lShift == 0;
        window.ResetShift();
        assert neighbour.Tiles() == taken && Tiles() == left;
        moves := moves + more;
      }
    }

    /**
     * The first case of `shift_window`: a window that is not a member is
     * attached from the left, and the group is rearranged once more when
     * that succeeds.
     */
    method Register(window: Window, surface: Surface) returns (moves: seq<Move>)
      requires Valid() && window !in windows
      modifies this`windows, windows`lShift, window`lShift
      ensures Valid()
      ensures if |old(windows)| < MaxWinsInGroup && old(CanFitWindow(window))
        then && windows == [window] + old(windows)
             && (forall w :: w in windows ==> w.lShift == 0)
             && moves == Arrangement(screenRect, Tiles(), surface) + Arrangement(screenRect, Tiles(), surface)
        else windows == old(windows) && Shifts() == old(Shifts()) && window.lShift == old(window.lShift) && moves == []
    {
      var ok;
      ok, moves := AttachWindow(window, Left, surface);
      if ok {
        var again := Rearrange(surface);
        moves := moves + again;
      }
    }

    /** The last case of `shift_window`: the exchange with the neighbour, then a rearrange. */
    method ShiftInside(window: Window, dir: Direction, surface: Surface) returns (moves: seq<Move>)
      requires Valid() && window in windows && !AtEnd(windows, window, dir)
      modifies this`windows, windows`lShift
      ensures Valid()
      ensures var i := old(IndexOf(windows, window));
              var j := if dir.Left? then i - 1 else i + 1;
        && 0 <= j < |old(windows)|
        && windows == Swapped(old(windows), i, j)
        && Shifts() == old(Shifts())
        && moves == Arrangement(screenRect, Tiles(), surface)
    {
      Exchange(window, dir);
      moves := Rearrange(surface);
    }

    /**
     * `shift_window`. A window that is not a member is attached from the left,
     * and the group is rearranged once more when that succeeds. A member at
     * the end of the list towards `dir` is handed to `neighbour`, the group of
     * the monitor on that side, and stays when there is none. Any other member
     * changes places with its neighbour towards `dir`.
     */
    method ShiftWindow(window: Window, dir: Direction, neighbour: Group?, surface: Surface) returns (moves: seq<Move>)
      requires Valid()
      requires neighbour != null ==> neighbour != this && neighbour.Valid() && window !in neighbour.windows
      modifies this`windows, windows`lShift, window`lShift, Maybe(neighbour)`windows, NeighbourMembers(neighbour)`lShift
      ensures Valid()
      ensures neighbour != null ==> neighbour.Valid()
      ensures window !in old(windows) ==>
        if |old(windows)| < MaxWinsInGroup && old(CanFitWindow(window))
        then && windows == [window] + old(windows)
             && (forall w :: w in windows ==> w.lShift == 0)
             && moves == Arrangement(screenRect, Tiles(), surface) + Arrangement(screenRect, Tiles(), surface)
        else windows == old(windows) && Shifts() == old(Shifts()) && window.lShift == old(window.lShift) && moves == []
      ensures window in old(windows) && AtEnd(old(windows), window, dir) && neighbour == null ==>
        windows == old(windows) && Shifts() == old(Shifts()) && moves == []
      ensures window in old(windows) && AtEnd(old(windows), window, dir) && neighbour != null ==>
        var accepted := |old(neighbour.windows)| < MaxWinsInGroup && old(neighbour.CanFitWindow(window));
        && (accepted ==>
              && windows == RemoveFirst(old(windows), window)
              && neighbour.windows == Inserted(old(neighbour.windows), window, dir.Opposite())
              && (forall w :: w in neighbour.windows ==> w.lShift == 0)
              && (forall w :: w in windows && w !in old(neighbour.windows) ==> w.lShift == old(w.lShift))
              && moves == Arrangement(neighbour.screenRect, neighbour.Tiles(), surface) + Arrangement(screenRect, Tiles(), surface))
        && (!accepted ==>
              && windows == old(windows) && neighbour.windows == old(neighbour.windows) && moves == []
              && Shifts() == old(Shifts()) && neighbour.Shifts() == old(neighbour.Shifts())
              && (forall w :: w in neighbour.windows ==> w.lShift == old(w.lShift))
              && window.lShift == old(window.lShift))
      ensures window in old(windows) && !AtEnd(old(windows), window, dir) ==>
        var i := old(IndexOf(windows, window));
        var j := if dir.Left? then i - 1 else i + 1;
        && 0 <= j < |old(windows)|
        && windows == Swapped(old(windows), i, j)
        && Shifts() == old(Shifts())
        && moves == Arrangement(screenRect, Tiles(), surface)
    {
      if window !in windows {
        moves := Register(window, surface);
      } else if (dir == Left && IsLeftmost(window)) || (dir == Right && IsRightmost(window)) {
        if neighbour == null {
          moves := [];
        } else {
          moves := HandOver(window, dir, neighbour, surface);
        }
      } else {
        moves := ShiftInside(window, dir, surface);
      }
    }

    /** The walk to the left of `resize_window`: the nearest member left of `k` that can shrink. */
    method FindShrinkableLeft(k: nat, surface: Surface) returns (j: Option<nat>)
      requires k < |windows|
      ensures j == NearestLeft(Shrinkable(surface), k)
    {
      ghost var shrinkable := Shrinkable(surface);
      var b := k;
      while b > 0 && !windows[b - 1].CanShrink(surface)
        invariant 0 <= b <= k
        invariant forall m :: b <= m < k ==> !shrinkable[m]
      {
        ShrinkableOfAt(windows, surface, b - 1);
        b := b - 1;
      }
      if b == 0 {
        return None;
      }
      ShrinkableOfAt(windows, surface, b - 1);
      NearestLeftIs(shrinkable, k, b - 1);
      return Some(b - 1);
    }

    /** The walk to the right of `resize_window`: the nearest member right of `k` that can shrink. */
    method FindShrinkableRight(k: nat, surface: Surface) returns (j: Option<nat>)
      requires k < |windows|
      ensures j == NearestRight(Shrinkable(surface), k)
    {
      ghost var shrinkable := Shrinkable(surface);
      var b := k + 1;
      while b < |windows| && !windows[b].CanShrink(surface)
        invariant k < b <= |windows|
        invariant forall m :: k < m < b ==> !shrinkable[m]
      {
        ShrinkableOfAt(windows, surface, b);
        b := b + 1;
      }
      if b == |windows| {
        return None;
      }
      ShrinkableOfAt(windows, surface, b);
      NearestRightIs(shrinkable, k, b);
      return Some(b);
    }

    /** Adds `d` to the shifts of the members at `lo..hi` (both ends included), from `hi` down. */
    method AddShifts(lo: nat, hi: nat, d: int)
      requires Distinct(windows) && lo <= hi + 1 && hi < |windows|
      modifies windows`lShift
      ensures Shifts() == AddRange(old(Shifts()), lo, hi, d)
    {
      ghost var shifts := Shifts();
      ShiftsOfAll(windows);
      var m := hi + 1;
      while m > lo
        invariant lo <= m <= hi + 1
        invariant forall i :: 0 <= i < |windows| ==> windows[i].lShift == if m <= i <= hi then shifts[i] + d else shifts[i]
      {
        m := m - 1;
        forall i | 0 <= i < |windows| && i != m
          ensures windows[i] != windows[m]
        {
          DistinctPair(windows, i, m);
        }
        windows[m].lShift := windows[m].lShift + d;
      }
      ShiftsOfPointwise(windows, AddRange(shifts, lo, hi, d));
    }

    /**
     * The walk to the left of `resize_window` and its shifts, as written:
     * when some member left of `k` can shrink, member `k`'s shift loses one
     * margin, and so does the shift of the member right of the nearest such
     * member when that member is not `k`'s left neighbour.
     */
    method StretchLeft(k: nat, surface: Surface) returns (found: Option<nat>)
      requires Distinct(windows) && k < |windows|
      modifies windows`lShift
      ensures found == NearestLeft(old(Shrinkable(surface)), k)
      ensures found.None? ==> Shifts() == old(Shifts())
      ensures found.Some? ==>
        var s := old(Shifts())[k := old(Shifts())[k] - MarginPx];
        Shifts() == if found.value + 1 != k then s[found.value + 1 := s[found.value + 1] - MarginPx] else s
    {
      found := FindShrinkableLeft(k, surface);
      if found.Some? {
        AddShift(k, -MarginPx);
        if found.value + 1 != k {
          AddShift(found.value + 1, -MarginPx);
        }
      }
    }

    /**
     * The walk to the right of `resize_window` and its shifts: when some
     * member right of `k` can shrink, every shift after `k` up to the
     * nearest such member gains one margin.
     */
    method StretchRight(k: nat, surface: Surface) returns (found: Option<nat>)
      requires Distinct(windows) && k < |windows|
      modifies windows`lShift
      ensures found == NearestRight(old(Shrinkable(surface)), k)
      ensures Shifts() == if found.None? then old(Shifts()) else AddRange(old(Shifts()), k + 1, found.value, MarginPx)
    {
      found := FindShrinkableRight(k, surface);
      if found.Some? {
        AddShifts(k + 1, found.value, MarginPx);
      }
    }

    /**
     * The stretch step of `resize_window` on the member at `k`: the shifts
     * become exactly `StretchAsWritten` of the old ones, and `changed`
     * reports whether there was anything to stretch.
     */
    method StretchMember(k: nat, dir: Direction, surface: Surface) returns (changed: bool)
      requires Distinct(windows) && k < |windows|
      modifies windows`lShift
      ensures changed <==> StretchAsWritten(old(Shifts()), old(Shrinkable(surface)), k, dir).Some?
      ensures Shifts() == if changed then StretchAsWritten(old(Shifts()), old(Shrinkable(surface)), k, dir).value else old(Shifts())
    {
      ghost var shifts, shrinkable := Shifts(), Shrinkable(surface);
      ShiftsOfAt(windows, k);
      if dir == Right && windows[k].lShift < 0 {
        assert StretchAsWritten(shifts, shrinkable, k, dir) == Some(shifts[k := shifts[k] + MarginPx]);
        AddShift(k, MarginPx);
        return true;
      }
      var found;
      if dir == Left {
        found := StretchLeft(k, surface);
        if found.Some? {
          StretchLeftAsWrittenFound(shifts, shrinkable, k, found.value);
        }
      } else {
        found := StretchRight(k, surface);
        StretchRightAsWrittenFound(shifts, shrinkable, k, found);
      }
      changed := found.Some?;
    }

    /**
     * `resize_window`: nothing in a one-member group; the leftmost member
     * resized to the left hands the resize to its right neighbour and the
     * rightmost member resized to the right to its left neighbour; then the
     * stretch. The resulting shifts are exactly `Resized` of the old ones.
     */
    method ResizeWindow(window: Window, dir: Direction, surface: Surface) returns (moves: seq<Move>)
      requires Valid() && window in windows
      modifies windows`lShift
      ensures match Resized(old(Shifts()), old(Shrinkable(surface)), old(IndexOf(windows, window)), dir)
        case None => Shifts() == old(Shifts()) && moves == []
        case Some(s) => Shifts() == s && moves == Arrangement(screenRect, Tiles(), surface)
    {
      var changed := ResizeShifts(window, dir, surface);
      if !changed {
        return [];
      }
      moves := Rearrange(surface);
    }

    /** `resize_window` on the shifts alone: the redirect at the group's ends, then the stretch. */
    method ResizeShifts(window: Window, dir: Direction, surface: Surface) returns (changed: bool)
      requires Valid() && window in windows
      modifies windows`lShift
      ensures match Resized(old(Shifts()), old(Shrinkable(surface)), old(IndexOf(windows, window)), dir)
        case None => !changed && Shifts() == old(Shifts())
        case Some(s) => changed && Shifts() == s
    {
      var k := IndexOf(windows, window);
      IndexOfDistinctHere(0);
      IndexOfDistinctHere(|windows| - 1);
      if IsLeftmost(window) && IsRightmost(window) {
        return false;
      }
      var target := window;
      if IsLeftmost(window) && dir == Left {
        target := GetNeighbour(window, Right).value;
        IndexOfDistinctHere(1);
      } else if IsRightmost(window) && dir == Right {
        target := GetNeighbour(window, Left).value;
        IndexOfDistinctHere(|windows| - 2);
      }
      var t := IndexOf(windows, target);
      assert ResizeTarget(|windows|, k, dir) == Some(t);
      changed := StretchMember(t, dir, surface);
    }

    /**
     * `resize_window` for a window that is not a member: an empty group
     * raises on `windows[0]`; to the right a negative shift gets one margin
     * back and the group is rearranged (without the window); any other case
     * raises when the member list is searched for the window.
     */
    method ResizeOutsider(window: Window, dir: Direction, surface: Surface) returns (raised: bool, moves: seq<Move>)
      requires Valid() && window !in windows
      modifies window`lShift
      ensures raised <==> windows == [] || !(dir.Right? && old(window.lShift) < 0)
      ensures raised ==> window.lShift == old(window.lShift) && moves == []
      ensures !raised ==> window.lShift == old(window.lShift) + MarginPx && moves == Arrangement(screenRect, Tiles(), surface)
    {
      if windows == [] {
        return true, [];
      }
      if dir == Right && window.lShift < 0 {
        window.lShift := window.lShift + MarginPx;
        moves := Rearrange(surface);
        return false, moves;
      }
      return true, [];
    }
  }

  /** The group, if there is one, as a set. */
  function Maybe(g: Group?): set<Group>
  {
    if g == null then {} else {g}
  }

  /** The members of the group, if there is one. */
  function NeighbourMembers(g: Group?): seq<Window>
    reads g
  {
    if g == null then [] else g.windows
  }

  /** Every member of every group in `groups`. */
  function Members(groups: seq<Group>): set<Window>
    reads groups
  {
    set g, w | g in groups && w in g.windows :: w
  }

  /** Whether group `g` takes `w` when asked: it has room for one more member and the widths fit. */
  predicate Accepts(members: seq<Window>, area: Rect, w: Window)
  {
    |members| < MaxWinsInGroup && WidthDemand(members + [w]) <= area.W() + MarginPx
  }

  /** Every group's member list, in order. */
  ghost function ListsOf(groups: seq<Group>): (ls: seq<seq<Window>>)
    reads groups
    ensures |ls| == |groups|
  {
    seq(|groups|, i reads groups requires 0 <= i < |groups| => groups[i].windows)
  }

  /**
   * Between the two states no member of the lists `lists` changed its
   * border shift, except the windows in `reset`.
   */
  twostate predicate KeptShifts(lists: seq<seq<Window>>, new reset: seq<Window>)
    reads (set h, w | 0 <= h < |lists| && w in lists[h] :: w)`lShift
  {
    forall h, w :: 0 <= h < |lists| && w in lists[h] && w !in reset ==> w.lShift == old(w.lShift)
  }

  /** Every group's work area, in order. */
  function AreasOf(groups: seq<Group>): (areas: seq<Rect>)
    ensures |areas| == |groups|
  {
    seq(|groups|, i requires 0 <= i < |groups| => groups[i].screenRect)
  }

  /** The first group, in order, whose members and area accept `w`. */
  function FirstAccepting(lists: seq<seq<Window>>, areas: seq<Rect>, w: Window): (r: Option<nat>)
    requires |areas| == |lists|
    ensures r.Some? ==> r.value < |lists| && Accepts(lists[r.value], areas[r.value], w)
    ensures r.Some? ==> forall h :: 0 <= h < r.value ==> !Accepts(lists[h], areas[h], w)
    ensures r.None? <==> forall h :: 0 <= h < |lists| ==> !Accepts(lists[h], areas[h], w)
  {
    if lists == [] then None
    else if Accepts(lists[0], areas[0], w) then Some(0)
    else
      match FirstAccepting(lists[1..], areas[1..], w)
      case None => None
      case Some(i) => Some(i + 1)
  }

  /** A group that accepts `w` with none accepting before it is the first accepting one. */
  lemma FirstAcceptingIs(lists: seq<seq<Window>>, areas: seq<Rect>, w: Window, i: nat)
    requires |areas| == |lists| && i < |lists| && Accepts(lists[i], areas[i], w)
    requires forall h :: 0 <= h < i ==> !Accepts(lists[h], areas[h], w)
    ensures FirstAccepting(lists, areas, w) == Some(i)
  {
  }

  /**
   * `attach_to_any_group`: offers the window to the groups in order,
   * attaching it from the right to the first that accepts it. A refusing
   * group changes nothing, so the offers come down to finding the first
   * group that accepts and attaching there. The source's boolean is
   * `home.Some?`; `home` also names the group that took the window.
   * `before` is the list of member lists at the call.
   */
  method AttachToAnyGroup(groups: seq<Group>, window: Window, ghost before: seq<seq<Window>>, surface: Surface) returns (home: Option<nat>, moves: seq<Move>)
    requires forall h :: 0 <= h < |groups| ==> groups[h].Valid() && window !in groups[h].windows
    requires before == ListsOf(groups)
    modifies groups`windows, Members(groups)`lShift, window`lShift
    ensures forall h :: 0 <= h < |groups| ==> groups[h].Valid()
    ensures home == FirstAccepting(before, AreasOf(groups), window)
    ensures home.Some? ==>
      var g := groups[home.value];
      && g.windows == before[home.value] + [window]
      && (forall w :: w in g.windows ==> w.lShift == 0)
      && moves == Arrangement(g.screenRect, g.Tiles(), surface)
    ensures forall h :: 0 <= h < |groups| && (home.None? || groups[h] != groups[home.value]) ==>
      groups[h].windows == before[h]
    ensures home.None? ==> forall h :: 0 <= h < |groups| ==> groups[h].Shifts() == old(groups[h].Shifts())
    ensures KeptShifts(before, if home.Some? then before[home.value] + [window] else [])
    ensures home.None? ==> window.lShift == old(window.lShift) && moves == []
  {
    var i := 0;
    while i < |groups| && !(|groups[i].windows| < MaxWinsInGroup && groups[i].CanFitWindow(window))
      invariant i <= |groups|
      invariant forall h :: 0 <= h < i ==> !Accepts(groups[h].windows, groups[h].screenRect, window)
    {
      i := i + 1;
    }
    if i == |groups| {
      assert forall h :: 0 <= h < |groups| ==> !Accepts(before[h], AreasOf(groups)[h], window);
      return None, [];
    }
    FirstAcceptingIs(before, AreasOf(groups), window, i);
    var group := groups[i];
    assert forall w :: w in group.windows ==> w in Members(groups);
    var ok;
    ok, moves := group.AttachWindow(window, Right, surface);
    home := Some(i);
  }
}