/**
 * The arithmetic of `Group.rearrange` (modules/arrange.py) as functions on
 * values: which rectangle each member is asked for, given the achieved right
 * edge of the member placed before it, and the properties of the resulting
 * sequence of requests. The class `Arrange.Group` runs the same computation
 * as a loop and is proved equal to `Arrangement`.
 */
module Layout {
  import opened Position
  import opened Settings
  import opened Surface
  import opened Windows

  /** What rearrange reads of one member: handle, border shift and bounding correction. */
  datatype Tile = Tile(hwnd: int, lShift: int, err: Bounding)

  /**
   * One draw_in_rect call: the member's index in the group, its handle, the
   * rectangle it was asked for and the frame the surface reported back.
   */
  datatype Move = Move(slot: nat, hwnd: int, requested: Rect, achieved: Rect)

  /** `ceil(a / n)` on non-negative integers. */
  function CeilDiv(a: nat, n: nat): (q: nat)
    requires n > 0
    ensures q * n >= a
    ensures q * n < a + n
  {
    var q := (a + n - 1) / n;
    assert a + n - 1 == q * n + (a + n - 1) % n;
    q
  }

  /**
   * The rectangle rearrange asks member `i` for, when the member placed
   * before it ended at `prevRight` and the default width is `base`.
   */
  function Requested(screen: Rect, tiles: seq<Tile>, base: int, i: nat, prevRight: int): (r: Rect)
    requires i < |tiles|
    ensures r.left == prevRight + MarginPx
    ensures r.top == screen.top + MarginPx && r.bottom == screen.bottom - MarginPx
    ensures i + 1 < |tiles| ==> r.right - r.left >= WindowMinW
    ensures i + 1 < |tiles| && base - MarginPx - tiles[i].lShift + tiles[i + 1].lShift < WindowMinW ==>
              r.right == r.left + WindowMinW
    ensures i + 1 < |tiles| && base - MarginPx - tiles[i].lShift + tiles[i + 1].lShift >= WindowMinW ==>
              r.right == r.left + base - MarginPx - tiles[i].lShift + tiles[i + 1].lShift
    ensures i + 1 == |tiles| ==> r.right == screen.right - MarginPx
  {
    var left := prevRight + MarginPx;
    var right := left + base - MarginPx - tiles[i].lShift;
    var right :=
      if i + 1 < |tiles| then
        var shifted := right + tiles[i + 1].lShift;
        if shifted - left < WindowMinW then left + WindowMinW else shifted
      else right;
    var right := if i == |tiles| - 1 then screen.right - MarginPx else right;
    Rect(left, screen.top + MarginPx, right, screen.bottom - MarginPx)
  }

  /** The requests rearrange makes for members `i..` when the previous visible member ended at `prevRight`. */
  function Place(screen: Rect, tiles: seq<Tile>, surface: Surface, base: int, i: nat, prevRight: int): (ms: seq<Move>)
    requires i <= |tiles|
    ensures |ms| <= |tiles| - i
    decreases |tiles| - i
  {
    if i == |tiles| then []
    else if !surface.isVisible(tiles[i].hwnd) then Place(screen, tiles, surface, base, i + 1, prevRight)
    else
      var req := Requested(screen, tiles, base, i, prevRight);
      var got := surface.frameAfter(tiles[i].hwnd, MoveRequestAsWritten(tiles[i].err, req));
      [Move(i, tiles[i].hwnd, req, got)] + Place(screen, tiles, surface, base, i + 1, got.right)
  }

  /** All requests of one rearrange of a group over the work area `screen`. */
  function Arrangement(screen: Rect, tiles: seq<Tile>, surface: Surface): (ms: seq<Move>)
    ensures |ms| <= |tiles|
  {
    if tiles == [] then [] else Place(screen, tiles, surface, CeilDiv(screen.W(), |tiles|), 0, screen.left)
  }

  /** What every single request of a layout satisfies. */
  ghost predicate WellFormedMove(screen: Rect, tiles: seq<Tile>, surface: Surface, m: Move)
  {
    && m.slot < |tiles|
    && m.hwnd == tiles[m.slot].hwnd
    && surface.isVisible(m.hwnd)
    && m.requested.top == screen.top + MarginPx
    && m.requested.bottom == screen.bottom - MarginPx
    && (m.slot + 1 < |tiles| ==> m.requested.right - m.requested.left >= WindowMinW)
    && (m.slot + 1 == |tiles| ==> m.requested.right == screen.right - MarginPx)
    && m.achieved == surface.frameAfter(m.hwnd, MoveRequestAsWritten(tiles[m.slot].err, m.requested))
  }

  /** Every request in `ms` is well formed and concerns a member at index `i` or later. */
  ghost predicate WellFormedFrom(screen: Rect, tiles: seq<Tile>, surface: Surface, ms: seq<Move>, i: nat)
  {
    forall k :: 0 <= k < |ms| ==> i <= ms[k].slot && WellFormedMove(screen, tiles, surface, ms[k])
  }

  lemma {:induction false} PlaceMoves(screen: Rect, tiles: seq<Tile>, surface: Surface, base: int, i: nat, prevRight: int)
    requires i <= |tiles|
    ensures WellFormedFrom(screen, tiles, surface, Place(screen, tiles, surface, base, i, prevRight), i)
    decreases |tiles| - i
  {
    if i < |tiles| {
      if !surface.isVisible(tiles[i].hwnd) {
        var ms := Place(screen, tiles, surface, base, i, prevRight);
        assert ms == Place(screen, tiles, surface, base, i + 1, prevRight);
        PlaceMoves(screen, tiles, surface, base, i + 1, prevRight);
        forall k | 0 <= k < |ms|
          ensures i <= ms[k].slot && WellFormedMove(screen, tiles, surface, ms[k])
        {
        }
      } else {
        var req := Requested(screen, tiles, base, i, prevRight);
        var got := surface.frameAfter(tiles[i].hwnd, MoveRequestAsWritten(tiles[i].err, req));
        var rest := Place(screen, tiles, surface, base, i + 1, got.right);
        var ms := Place(screen, tiles, surface, base, i, prevRight);
        assert ms == [Move(i, tiles[i].hwnd, req, got)] + rest;
        PlaceMoves(screen, tiles, surface, base, i + 1, got.right);
        assert WellFormedMove(screen, tiles, surface, ms[0]);
        forall k | 0 <= k < |ms|
          ensures i <= ms[k].slot && WellFormedMove(screen, tiles, surface, ms[k])
        {
          if k > 0 {
            assert ms[k] == rest[k - 1];
          }
        }
      }
    }
  }

  /** The requests concern members in strictly increasing list order. */
  ghost predicate SlotsIncrease(ms: seq<Move>)
  {
    forall k, l :: 0 <= k < l < |ms| ==> ms[k].slot < ms[l].slot
  }

  lemma {:induction false} PlaceOrdered(screen: Rect, tiles: seq<Tile>, surface: Surface, base: int, i: nat, prevRight: int)
    requires i <= |tiles|
    ensures SlotsIncrease(Place(screen, tiles, surface, base, i, prevRight))
    decreases |tiles| - i
  {
    if i < |tiles| {
      if !surface.isVisible(tiles[i].hwnd) {
        var ms := Place(screen, tiles, surface, base, i, prevRight);
        assert ms == Place(screen, tiles, surface, base, i + 1, prevRight);
        PlaceOrdered(screen, tiles, surface, base, i + 1, prevRight);
        forall k, l | 0 <= k < l < |ms|
          ensures ms[k].slot < ms[l].slot
        {
        }
      } else {
        var req := Requested(screen, tiles, base, i, prevRight);
        var got := surface.frameAfter(tiles[i].hwnd, MoveRequestAsWritten(tiles[i].err, req));
        var rest := Place(screen, tiles, surface, base, i + 1, got.right);
        var ms := Place(screen, tiles, surface, base, i, prevRight);
        assert ms == [Move(i, tiles[i].hwnd, req, got)] + rest;
        PlaceOrdered(screen, tiles, surface, base, i + 1, got.right);
        PlaceMoves(screen, tiles, surface, base, i + 1, got.right);
        forall k, l | 0 <= k < l < |ms|
          ensures ms[k].slot < ms[l].slot
        {
          assert ms[l] == rest[l - 1];
          assert i + 1 <= rest[l - 1].slot;
          if k > 0 {
            assert ms[k] == rest[k - 1];
          }
        }
      }
    }
  }

  /** Some request of `ms` is for the member in slot `j`. */
  predicate HasSlot(ms: seq<Move>, j: nat)
  {
    exists k :: 0 <= k < |ms| && ms[k].slot == j
  }

  lemma {:induction false} PlaceCovers(screen: Rect, tiles: seq<Tile>, surface: Surface, base: int, i: nat, prevRight: int)
    requires i <= |tiles|
    ensures forall j :: i <= j < |tiles| && surface.isVisible(tiles[j].hwnd) ==>
      HasSlot(Place(screen, tiles, surface, base, i, prevRight), j)
    decreases |tiles| - i
  {
    if i < |tiles| {
      var ms := Place(screen, tiles, surface, base, i, prevRight);
      if !surface.isVisible(tiles[i].hwnd) {
        assert ms == Place(screen, tiles, surface, base, i + 1, prevRight);
        PlaceCovers(screen, tiles, surface, base, i + 1, prevRight);
      } else {
        var req := Requested(screen, tiles, base, i, prevRight);
        var got := surface.frameAfter(tiles[i].hwnd, MoveRequestAsWritten(tiles[i].err, req));
        var rest := Place(screen, tiles, surface, base, i + 1, got.right);
        PlaceCovers(screen, tiles, surface, base, i + 1, got.right);
        assert ms == [Move(i, tiles[i].hwnd, req, got)] + rest;
        forall j | i <= j < |tiles| && surface.isVisible(tiles[j].hwnd)
          ensures HasSlot(ms, j)
        {
          if j == i {
            assert ms[0].slot == j;
          } else {
            assert HasSlot(rest, j);
            var k :| 0 <= k < |rest| && rest[k].slot == j;
            assert ms[k + 1].slot == j;
          }
        }
      }
    }
  }

  lemma {:induction false} PlaceChain(screen: Rect, tiles: seq<Tile>, surface: Surface, base: int, i: nat, prevRight: int)
    requires i <= |tiles|
    ensures var ms := Place(screen, tiles, surface, base, i, prevRight);
      && (|ms| > 0 ==> ms[0].requested.left == prevRight + MarginPx)
      && (forall k :: 0 <= k < |ms| - 1 ==> ms[k + 1].requested.left == ms[k].achieved.right + MarginPx)
    decreases |tiles| - i
  {
    if i < |tiles| {
      if !surface.isVisible(tiles[i].hwnd) {
        PlaceChain(screen, tiles, surface, base, i + 1, prevRight);
      } else {
        var req := Requested(screen, tiles, base, i, prevRight);
        var got := surface.frameAfter(tiles[i].hwnd, MoveRequestAsWritten(tiles[i].err, req));
        PlaceChain(screen, tiles, surface, base, i + 1, got.right);
      }
    }
  }

  /**
   * Shape of one rearrange: one request per visible member, in list order,
   * each inside the work area's margins vertically, no narrower than the
   * global floor unless it is the last list member, whose right edge is pinned
   * to the work area; the first starts one margin right of the work area's
   * left edge and every other one margin right of the frame the previous
   * member actually got.
   */
  lemma LayoutShape(screen: Rect, tiles: seq<Tile>, surface: Surface)
    ensures var ms := Arrangement(screen, tiles, surface);
      && (forall k :: 0 <= k < |ms| ==> WellFormedMove(screen, tiles, surface, ms[k]))
      && (forall k, l :: 0 <= k < l < |ms| ==> ms[k].slot < ms[l].slot)
      && (forall j :: 0 <= j < |tiles| && surface.isVisible(tiles[j].hwnd) ==> HasSlot(ms, j))
      && (|ms| > 0 ==> ms[0].requested.left == screen.left + MarginPx)
      && (forall k :: 0 <= k < |ms| - 1 ==> ms[k + 1].requested.left == ms[k].achieved.right + MarginPx)
  {
    if tiles != [] {
      var base := CeilDiv(screen.W(), |tiles|);
      PlaceMoves(screen, tiles, surface, base, 0, screen.left);
      PlaceOrdered(screen, tiles, surface, base, 0, screen.left);
      PlaceCovers(screen, tiles, surface, base, 0, screen.left);
      PlaceChain(screen, tiles, surface, base, 0, screen.left);
    }
  }

  /** An empty group requests nothing. */
  lemma LayoutOfEmptyGroup(screen: Rect, surface: Surface)
    ensures Arrangement(screen, [], surface) == []
  {
  }

  /**
   * The surface puts every member's right edge where it was asked to, for any
   * rectangle that is not inverted.
   */
  ghost predicate HonoursRightEdges(surface: Surface, tiles: seq<Tile>)
  {
    forall i, r: Rect :: 0 <= i < |tiles| && r.left <= r.right ==>
      surface.frameAfter(tiles[i].hwnd, MoveRequestAsWritten(tiles[i].err, r)).right == r.right
  }

  /** Total width taken by a run of requests, each counted with the margin on its left. */
  function Span(ms: seq<Move>): int
  {
    if ms == [] then 0 else ms[0].requested.right - ms[0].requested.left + MarginPx + Span(ms[1..])
  }

  lemma {:induction false} PlaceSpan(screen: Rect, tiles: seq<Tile>, surface: Surface, base: int, i: nat, prevRight: int)
    requires i < |tiles| && surface.isVisible(tiles[|tiles| - 1].hwnd)
    requires HonoursRightEdges(surface, tiles)
    ensures Span(Place(screen, tiles, surface, base, i, prevRight)) == screen.right - MarginPx - prevRight
    decreases |tiles| - i
  {
    if !surface.isVisible(tiles[i].hwnd) {
      PlaceSpan(screen, tiles, surface, base, i + 1, prevRight);
    } else {
      var req := Requested(screen, tiles, base, i, prevRight);
      var got := surface.frameAfter(tiles[i].hwnd, MoveRequestAsWritten(tiles[i].err, req));
      var ms := Place(screen, tiles, surface, base, i, prevRight);
      assert ms[1..] == Place(screen, tiles, surface, base, i + 1, got.right);
      if i + 1 < |tiles| {
        assert got.right == req.right;
        PlaceSpan(screen, tiles, surface, base, i + 1, got.right);
      }
    }
  }

  /**
   * On a surface that honours right edges, when the last member is visible
   * the visible members and their margins fill the work area exactly: the
   * widths plus one margin per member plus the closing margin add up to the
   * distance between the work area's left and right edges.
   */
  lemma LayoutSpansWorkArea(screen: Rect, tiles: seq<Tile>, surface: Surface)
    requires tiles != [] && surface.isVisible(tiles[|tiles| - 1].hwnd)
    requires HonoursRightEdges(surface, tiles)
    ensures Span(Arrangement(screen, tiles, surface)) + MarginPx == screen.right - screen.left
  {
    PlaceSpan(screen, tiles, surface, CeilDiv(screen.W(), |tiles|), 0, screen.left);
  }

  /**
   * On a surface that honours right edges, consecutive visible members are
   * separated by exactly one margin: no two requests overlap.
   */
  lemma LayoutSeparatesByMargin(screen: Rect, tiles: seq<Tile>, surface: Surface)
    requires HonoursRightEdges(surface, tiles)
    ensures var ms := Arrangement(screen, tiles, surface);
      forall k :: 0 <= k < |ms| - 1 ==>
        ms[k + 1].requested.left == ms[k].requested.right + MarginPx &&
        ms[k].requested.left < ms[k].requested.right < ms[k + 1].requested.left
  {
    var ms := Arrangement(screen, tiles, surface);
    LayoutShape(screen, tiles, surface);
    forall k | 0 <= k < |ms| - 1
      ensures ms[k + 1].requested.left == ms[k].requested.right + MarginPx
      ensures ms[k].requested.left < ms[k].requested.right < ms[k + 1].requested.left
    {
      assert ms[k].slot < ms[k + 1].slot;
      assert WellFormedMove(screen, tiles, surface, ms[k]);
      var m := ms[k];
      assert m.achieved.right == m.requested.right;
    }
  }

  /**
   * A desktop that behaves as `IdealFrame` honours every right edge rearrange
   * asks for when no window's frame sticks out on the left (the left
   * bounding correction is 0): the request as written then lands exactly.
   */
  lemma IdealDesktopHonoursRightEdges(surface: Surface, tiles: seq<Tile>)
    requires forall i, p :: 0 <= i < |tiles| ==> surface.frameAfter(tiles[i].hwnd, p) == IdealFrame(tiles[i].err, p)
    requires forall i :: 0 <= i < |tiles| ==> tiles[i].err.dx == 0
    ensures HonoursRightEdges(surface, tiles)
  {
    forall i, r: Rect | 0 <= i < |tiles| && r.left <= r.right
      ensures surface.frameAfter(tiles[i].hwnd, MoveRequestAsWritten(tiles[i].err, r)).right == r.right
    {
      var p := MoveRequestAsWritten(tiles[i].err, r);
      assert IdealFrame(tiles[i].err, p).right == r.right - tiles[i].err.dx;
    }
  }

  /**
   * On a desktop that behaves as `IdealFrame`, every frame rearrange places
   * starts where it was asked to but ends `dx` pixels short of the requested
   * right edge, `dx` being that window's left bounding correction; so each
   * following request starts `dx` pixels left of one margin past the
   * previous requested right edge.
   */
  lemma IdealDesktopEndsShort(screen: Rect, tiles: seq<Tile>, surface: Surface)
    requires forall i, p :: 0 <= i < |tiles| ==> surface.frameAfter(tiles[i].hwnd, p) == IdealFrame(tiles[i].err, p)
    ensures var ms := Arrangement(screen, tiles, surface);
      forall k :: 0 <= k < |ms| ==>
        && ms[k].slot < |tiles|
        && ms[k].achieved.left == ms[k].requested.left
        && (ms[k].requested.left <= ms[k].requested.right ==>
              ms[k].achieved.right == ms[k].requested.right - tiles[ms[k].slot].err.dx)
        && (k + 1 < |ms| ==>
              ms[k + 1].requested.left == ms[k].requested.right - tiles[ms[k].slot].err.dx + MarginPx)
  {
    var ms := Arrangement(screen, tiles, surface);
    LayoutShape(screen, tiles, surface);
    forall k | 0 <= k < |ms|
      ensures ms[k].slot < |tiles|
      ensures ms[k].achieved.left == ms[k].requested.left
      ensures ms[k].requested.left <= ms[k].requested.right ==>
                ms[k].achieved.right == ms[k].requested.right - tiles[ms[k].slot].err.dx
      ensures k + 1 < |ms| ==>
                ms[k + 1].requested.left == ms[k].requested.right - tiles[ms[k].slot].err.dx + MarginPx
    {
      assert WellFormedMove(screen, tiles, surface, ms[k]);
      if k + 1 < |ms| {
        assert ms[k].slot < ms[k + 1].slot;
        assert ms[k].requested.left <= ms[k].requested.right;
      }
    }
  }
}
