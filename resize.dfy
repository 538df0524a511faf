/**
 * The border-shift arithmetic of `Group.resize_window` (modules/arrange.py)
 * as functions on the members' shifts and their `can_shrink` answers.
 *
 * Member `i`'s border shift moves the border between members `i - 1` and
 * `i`: rearrange takes it from member `i`'s width and gives it to member
 * `i - 1`. Resizing member `k` towards a direction widens it by one margin
 * and takes that margin from the nearest member in that direction that can
 * shrink; the members skipped over keep their widths.
 */
module Resize {
  import opened Wrappers
  import opened Position
  import opened Settings

  /**
   * What the border shifts contribute to member `i`'s requested width: the
   * next member's shift minus its own (the last member has no next border).
   */
  function BorderWidth(shifts: seq<int>, i: nat): int
    requires i < |shifts|
  {
    (if i + 1 < |shifts| then shifts[i + 1] else 0) - shifts[i]
  }

  /**
   * The member resize_window actually works on: none in a one-member group;
   * the right neighbour when the leftmost member is resized to the left;
   * the left neighbour when the rightmost member is resized to the right.
   */
  function ResizeTarget(n: nat, k: nat, dir: Direction): (t: Option<nat>)
    requires k < n
    ensures t.None? <==> n == 1
    ensures t.Some? ==> t.value < n && (dir.Left? ==> t.value > 0) && (dir.Right? ==> t.value + 1 < n)
    ensures t.Some? && t.value != k ==> (k == 0 && dir.Left? && t.value == 1) || (k == n - 1 && dir.Right? && t.value == n - 2)
  {
    if n == 1 then None
    else if k == 0 && dir.Left? then Some(1)
    else if k == n - 1 && dir.Right? then Some(n - 2)
    else Some(k)
  }

  /** The nearest member to the left of `k` that can shrink, walking from `k - 1` down. */
  function NearestLeft(shrinkable: seq<bool>, k: nat): (j: Option<nat>)
    requires k <= |shrinkable|
    ensures j.Some? ==> j.value < k && shrinkable[j.value] && forall i :: j.value < i < k ==> !shrinkable[i]
    ensures j.None? ==> forall i :: 0 <= i < k ==> !shrinkable[i]
    decreases k
  {
    if k == 0 then None
    else if shrinkable[k - 1] then Some(k - 1)
    else NearestLeft(shrinkable, k - 1)
  }

  /** The nearest member to the right of `k` that can shrink, walking from `k + 1` up. */
  function NearestRight(shrinkable: seq<bool>, k: nat): (j: Option<nat>)
    requires k < |shrinkable|
    ensures j.Some? ==> k < j.value < |shrinkable| && shrinkable[j.value] && forall i :: k < i < j.value ==> !shrinkable[i]
    ensures j.None? ==> forall i :: k < i < |shrinkable| ==> !shrinkable[i]
    decreases |shrinkable| - k
  {
    if k + 1 == |shrinkable| then None
    else if shrinkable[k + 1] then Some(k + 1)
    else NearestRight(shrinkable, k + 1)
  }

  /** The nearest shrinkable member on the left is the one with no shrinkable member between it and `k`. */
  lemma NearestLeftIs(shrinkable: seq<bool>, k: nat, j: nat)
    requires j < k <= |shrinkable| && shrinkable[j]
    requires forall i :: j < i < k ==> !shrinkable[i]
    ensures NearestLeft(shrinkable, k) == Some(j)
  {
  }

  /** The nearest shrinkable member on the right is the one with no shrinkable member between `k` and it. */
  lemma NearestRightIs(shrinkable: seq<bool>, k: nat, j: nat)
    requires k < j < |shrinkable| && shrinkable[j]
    requires forall i :: k < i < j ==> !shrinkable[i]
    ensures NearestRight(shrinkable, k) == Some(j)
  {
  }

  /** The shifts with `d` added to every shift at an index in `lo..hi` (both ends included). */
  function AddRange(shifts: seq<int>, lo: nat, hi: nat, d: int): (r: seq<int>)
    ensures |r| == |shifts|
    ensures forall i :: 0 <= i < |shifts| ==> r[i] == if lo <= i <= hi then shifts[i] + d else shifts[i]
  {
    seq(|shifts|, i requires 0 <= i < |shifts| => if lo <= i <= hi then shifts[i] + d else shifts[i])
  }

  /**
   * Resizing member `k` towards `dir`, AS WRITTEN. To the right, a member
   * with a negative shift only gets one margin back. Otherwise, to the left,
   * member `k`'s shift loses one margin and so does the shift of the member
   * right of the shrinking one, when that is not `k`; to the right, every
   * shift from `k + 1` up to the shrinking member gains one margin. None
   * when no member in that direction can shrink.
   */
  function StretchAsWritten(shifts: seq<int>, shrinkable: seq<bool>, k: nat, dir: Direction): (r: Option<seq<int>>)
    requires |shrinkable| == |shifts| && k < |shifts|
    ensures r.None? <==>
      && !(dir.Right? && shifts[k] < 0)
      && (if dir.Left? then NearestLeft(shrinkable, k).None? else NearestRight(shrinkable, k).None?)
    ensures r.Some? ==> |r.value| == |shifts|
  {
    if dir.Right? && shifts[k] < 0 then Some(shifts[k := shifts[k] + MarginPx])
    else if dir.Left? then
      match NearestLeft(shrinkable, k)
      case None => None
      case Some(j) =>
        var s := shifts[k := shifts[k] - MarginPx];
        Some(if j + 1 != k then s[j + 1 := s[j + 1] - MarginPx] else s)
    else
      match NearestRight(shrinkable, k)
      case None => None
      case Some(j) => Some(AddRange(shifts, k + 1, j, MarginPx))
  }

  /**
   * With two members skipped over, the as-written left resize narrows the
   * skipped member next to the resized one by a margin although it cannot
   * shrink, and widens the one next to the shrinking member instead.
   */
  lemma StretchLeftAsWrittenNarrowsSkipped()
    ensures var shifts, shrinkable := [0, 0, 0, 0], [true, false, false, true];
      && !shrinkable[2]
      && StretchAsWritten(shifts, shrinkable, 3, Left).Some?
      && BorderWidth(StretchAsWritten(shifts, shrinkable, 3, Left).value, 2) == BorderWidth(shifts, 2) - MarginPx
  {
    var shifts, shrinkable := [0, 0, 0, 0], [true, false, false, true];
    assert NearestLeft(shrinkable, 1) == Some(0);
    assert NearestLeft(shrinkable, 3) == Some(0);
    var s := shifts[3 := -MarginPx];
    assert StretchAsWritten(shifts, shrinkable, 3, Left) == Some(s[1 := -MarginPx]);
    assert s[1 := -MarginPx][2] == 0 && s[1 := -MarginPx][3] == -MarginPx;
  }

  /** The as-written stretch to the left once the walk has found member `j`, the nearest one that can shrink. */
  lemma StretchLeftAsWrittenFound(shifts: seq<int>, shrinkable: seq<bool>, k: nat, j: nat)
    requires |shrinkable| == |shifts| && k < |shifts|
    requires NearestLeft(shrinkable, k) == Some(j)
    ensures j < k
    ensures var s := shifts[k := shifts[k] - MarginPx];
      StretchAsWritten(shifts, shrinkable, k, Left) == Some(if j + 1 != k then s[j + 1 := s[j + 1] - MarginPx] else s)
  {
  }

  /** The as-written stretch to the right of a member without a negative shift, once the walk has found the member that shrinks, or found none. */
  lemma StretchRightAsWrittenFound(shifts: seq<int>, shrinkable: seq<bool>, k: nat, found: Option<nat>)
    requires |shrinkable| == |shifts| && k < |shifts| && shifts[k] >= 0
    requires found == NearestRight(shrinkable, k)
    ensures found.None? ==> StretchAsWritten(shifts, shrinkable, k, Right).None?
    ensures found.Some? ==> StretchAsWritten(shifts, shrinkable, k, Right) == Some(AddRange(shifts, k + 1, found.value, MarginPx))
  {
  }

  /**
   * Resizing member `k` towards `dir`: to the right, a member with a
   * negative shift only gets one margin back; otherwise every shift on the
   * borders between `k` and the nearest member that can shrink moves one
   * margin towards that member (to the left the shifts `j + 1 .. k` lose a
   * margin, to the right the shifts `k + 1 .. j` gain one). None when no
   * member in that direction can shrink. Only those shifts change.
   */
  function Stretch(shifts: seq<int>, shrinkable: seq<bool>, k: nat, dir: Direction): (r: Option<seq<int>>)
    requires |shrinkable| == |shifts| && k < |shifts|
    ensures r.None? <==>
      && !(dir.Right? && shifts[k] < 0)
      && (if dir.Left? then NearestLeft(shrinkable, k).None? else NearestRight(shrinkable, k).None?)
    ensures r.Some? ==> |r.value| == |shifts|
  {
    if dir.Right? && shifts[k] < 0 then Some(shifts[k := shifts[k] + MarginPx])
    else if dir.Left? then
      match NearestLeft(shrinkable, k)
      case None => None
      case Some(j) => Some(AddRange(shifts, j + 1, k, -MarginPx))
    else
      match NearestRight(shrinkable, k)
      case None => None
      case Some(j) => Some(AddRange(shifts, k + 1, j, MarginPx))
  }

  /** To the right, a member with a negative shift only gets one margin of it back. */
  lemma StretchGivesBack(shifts: seq<int>, shrinkable: seq<bool>, k: nat)
    requires |shrinkable| == |shifts| && k < |shifts| && shifts[k] < 0
    ensures Stretch(shifts, shrinkable, k, Right) == Some(shifts[k := shifts[k] + MarginPx])
  {
  }

  /** The stretch once the walk has found the member that shrinks. */
  lemma StretchFound(shifts: seq<int>, shrinkable: seq<bool>, k: nat, dir: Direction, j: nat)
    requires |shrinkable| == |shifts| && k < |shifts|
    requires !(dir.Right? && shifts[k] < 0)
    requires if dir.Left? then NearestLeft(shrinkable, k) == Some(j) else NearestRight(shrinkable, k) == Some(j)
    ensures Stretch(shifts, shrinkable, k, dir)
      == Some(if dir.Left? then AddRange(shifts, j + 1, k, -MarginPx) else AddRange(shifts, k + 1, j, MarginPx))
  {
  }

  /**
   * Only the shifts between the resized member and the member that shrinks
   * change: to the left, shifts at or left of `k` with no shrinkable member
   * from there up to `k`; to the right, the resized member's own negative
   * shift, or shifts right of `k` with no shrinkable member in between.
   */
  lemma StretchIsLocal(shifts: seq<int>, shrinkable: seq<bool>, k: nat, dir: Direction)
    requires |shrinkable| == |shifts| && k < |shifts|
    ensures var r := Stretch(shifts, shrinkable, k, dir);
      r.Some? && dir.Left? ==> forall i :: 0 <= i < |shifts| && r.value[i] != shifts[i] ==>
        i <= k && forall m :: i <= m < k ==> !shrinkable[m]
    ensures var r := Stretch(shifts, shrinkable, k, dir);
      r.Some? && dir.Right? ==> forall i :: 0 <= i < |shifts| && r.value[i] != shifts[i] ==>
        (i == k && shifts[k] < 0) || (k < i && forall m :: k < m < i ==> !shrinkable[m])
  {
  }

  /** The whole of resize_window on the shifts, as written: the redirect at the group's ends, then the stretch. */
  function Resized(shifts: seq<int>, shrinkable: seq<bool>, k: nat, dir: Direction): (r: Option<seq<int>>)
    requires |shrinkable| == |shifts| && k < |shifts|
    ensures r.Some? ==> |r.value| == |shifts|
  {
    match ResizeTarget(|shifts|, k, dir)
    case None => None
    case Some(t) => StretchAsWritten(shifts, shrinkable, t, dir)
  }

  /** A one-member group is never resized. */
  lemma ResizeSingleIsNoOp(shifts: seq<int>, shrinkable: seq<bool>, dir: Direction)
    requires |shifts| == 1 && |shrinkable| == 1
    ensures Resized(shifts, shrinkable, 0, dir).None?
  {
  }

  /**
   * The stretch trades exactly one margin of width: the resized member gains
   * it, the nearest member that can shrink loses it, and every other member
   * keeps its width.
   */
  lemma StretchTradesOneMargin(shifts: seq<int>, shrinkable: seq<bool>, k: nat, dir: Direction)
    requires |shrinkable| == |shifts| && k < |shifts|
    requires !(dir.Right? && shifts[k] < 0)
    requires Stretch(shifts, shrinkable, k, dir).Some?
    ensures var j := if dir.Left? then NearestLeft(shrinkable, k).value else NearestRight(shrinkable, k).value;
            var r := Stretch(shifts, shrinkable, k, dir).value;
      && shrinkable[j] && j != k
      && forall i :: 0 <= i < |shifts| ==>
           BorderWidth(r, i) == BorderWidth(shifts, i) + (if i == k then MarginPx else if i == j then -MarginPx else 0)
  {
  }

  /** Undoing a widening to the left gives the margin back to the left neighbour. */
  lemma StretchRightGivesBack(shifts: seq<int>, shrinkable: seq<bool>, k: nat)
    requires |shrinkable| == |shifts| && 0 < k < |shifts|
    requires shifts[k] < 0
    ensures var r := Stretch(shifts, shrinkable, k, Right).value;
      && BorderWidth(r, k) == BorderWidth(shifts, k) - MarginPx
      && BorderWidth(r, k - 1) == BorderWidth(shifts, k - 1) + MarginPx
      && forall i :: 0 <= i < |shifts| && i != k && i != k - 1 ==> BorderWidth(r, i) == BorderWidth(shifts, i)
  {
  }

  /** When nothing in the walking direction can shrink, no shift changes. */
  lemma StretchWithoutRoom(shifts: seq<int>, shrinkable: seq<bool>, k: nat, dir: Direction)
    requires |shrinkable| == |shifts| && k < |shifts|
    requires !(dir.Right? && shifts[k] < 0)
    requires dir.Left? ==> forall i :: 0 <= i < k ==> !shrinkable[i]
    requires dir.Right? ==> forall i :: k < i < |shifts| ==> !shrinkable[i]
    ensures Stretch(shifts, shrinkable, k, dir).None?
  {
  }

  /** The source's left stretch and the intended one agree unless two or more members are skipped over. */
  lemma StretchAsWrittenAgreesNearby(shifts: seq<int>, shrinkable: seq<bool>, k: nat, dir: Direction)
    requires |shrinkable| == |shifts| && k < |shifts|
    requires dir.Left? && NearestLeft(shrinkable, k).Some? ==> NearestLeft(shrinkable, k).value + 2 >= k
    ensures StretchAsWritten(shifts, shrinkable, k, dir) == Stretch(shifts, shrinkable, k, dir)
  {
    if dir.Left? && NearestLeft(shrinkable, k).Some? {
      var j := NearestLeft(shrinkable, k).value;
      var s := shifts[k := shifts[k] - MarginPx];
      var a := if j + 1 != k then s[j + 1 := s[j + 1] - MarginPx] else s;
      var b := AddRange(shifts, j + 1, k, -MarginPx);
      assert StretchAsWritten(shifts, shrinkable, k, dir) == Some(a);
      assert Stretch(shifts, shrinkable, k, dir) == Some(b);
      assert |a| == |b| && forall i :: 0 <= i < |shifts| ==> a[i] == b[i];
      assert a == b;
    }
  }
}
