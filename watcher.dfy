/**
 * `_WindowUpdatesMonitor` of modules/windows.py: a per-window poller that
 * remembers the last rectangle it saw, reports a move whenever the observed
 * rectangle differs from it, and reports the window killed (and stops) when
 * the rectangle can no longer be read.
 *
 * The surface query is the parameter `observed`: `Some(r)` when the
 * rectangle reads as `r`, `None` when reading it raises.
 */
module Watcher {
  import opened Wrappers
  import opened Position

  /** What one poll reports: the kill callback, the position callback with the new rectangle, or nothing. */
  datatype Report = Killed | Moved(rect: Rect) | Quiet

  /** The report of one poll that saw `observed` after last seeing `last`. */
  function Observe(last: Rect, observed: Option<Rect>): (r: Report)
    ensures r.Killed? <==> observed.None?
    ensures r.Moved? <==> observed.Some? && observed.value != last
    ensures r.Moved? ==> r.rect == observed.value
  {
    match observed
    case None => Killed
    case Some(n) => if n != last then Moved(n) else Quiet
  }

  /**
   * The reports of successive polls over the observations `obs`, starting
   * from `last`: polling stops after the first failed read.
   */
  function Watch(last: Rect, obs: seq<Option<Rect>>): (rs: seq<Report>)
    ensures |rs| <= |obs|
    ensures |rs| < |obs| ==> |rs| > 0 && rs[|rs| - 1].Killed?
    ensures forall k :: 0 <= k < |rs| - 1 ==> !rs[k].Killed?
    ensures forall k :: 0 <= k < |rs| ==> rs[k].Moved? ==> obs[k] == Some(rs[k].rect)
    decreases |obs|
  {
    if obs == [] then []
    else
      match obs[0]
      case None => [Killed]
      case Some(n) => [Observe(last, obs[0])] + Watch(n, obs[1..])
  }

  /** One poll of a run: its report, then the run from the rectangle it saw, unless it saw none. */
  lemma WatchFirst(last: Rect, obs: seq<Option<Rect>>)
    requires obs != []
    ensures obs[0].None? ==> Watch(last, obs) == [Killed]
    ensures obs[0].Some? ==> Watch(last, obs) == [Observe(last, obs[0])] + Watch(obs[0].value, obs[1..])
  {
  }

  /** A window that keeps its rectangle is never reported moved. */
  lemma {:induction false} StillWindowIsQuiet(last: Rect, obs: seq<Option<Rect>>)
    requires forall k :: 0 <= k < |obs| ==> obs[k] == Some(last)
    ensures |Watch(last, obs)| == |obs|
    ensures forall k :: 0 <= k < |obs| ==> Watch(last, obs)[k] == Quiet
  {
    if obs != [] {
      StillWindowIsQuiet(last, obs[1..]);
    }
  }

  /** A move is reported once: seeing the same rectangle again is quiet. */
  lemma MoveReportedOnce(last: Rect, r: Rect)
    requires r != last
    ensures Watch(last, [Some(r), Some(r)]) == [Moved(r), Quiet]
  {
    assert [Some(r), Some(r)][1..] == [Some(r)];
    assert [Some(r)][1..] == [];
  }

  class WindowUpdatesMonitor {
    /** `CHECK_FREQ`: seconds between polls. */
    const CheckFreq: real
    const hwnd: int
    /** `__rect`: the last rectangle the poller saw. */
    var rect: Rect
    /** Whether the polling thread still runs. */
    var running: bool

    /** The poller starts from the rectangle read at construction. */
    constructor (hwnd: int, initial: Rect)
      ensures this.hwnd == hwnd && rect == initial && running
      ensures CheckFreq == 0.1
    {
      this.hwnd := hwnd;
      CheckFreq := 0.1;
      rect := initial;
      running := true;
    }

    /** One iteration of `threaded_checker`'s loop, after its sleep. */
    method Poll(observed: Option<Rect>) returns (report: Report)
      requires running
      modifies this`rect, this`running
      ensures report == Observe(old(rect), observed)
      ensures running <==> observed.Some?
      ensures observed.Some? ==> rect == observed.value
      ensures observed.None? ==> rect == old(rect)
    {
      match observed {
        case None =>
          running := false;
          report := Killed;
        case Some(n) =>
          if n != rect {
            report := Moved(n);
          } else {
            report := Quiet;
          }
          rect := n;
      }
    }

    /** `threaded_checker` over a finite run of observations: it polls until a read fails. */
    method Run(obs: seq<Option<Rect>>) returns (reports: seq<Report>)
      requires running
      modifies this`rect, this`running
      ensures reports == Watch(old(rect), obs)
      ensures running <==> forall k :: 0 <= k < |reports| ==> !reports[k].Killed?
    {
      ghost var all := Watch(rect, obs);
      reports := [];
      var i := 0;
      while i < |obs| && running
        invariant 0 <= i <= |obs| && |reports| == i
        invariant running ==> reports + Watch(rect, obs[i..]) == all
        invariant running ==> forall k :: 0 <= k < i ==> !reports[k].Killed?
        invariant !running ==> reports == all && i > 0 && reports[i - 1].Killed?
      {
        ghost var rest := obs[i + 1..];
        WatchFirst(rect, obs[i..]);
        assert obs[i..][1..] == rest;
        ghost var before := reports;
        var r := Poll(obs[i]);
        reports := reports + [r];
        i := i + 1;
        if running {
          assert before + ([r] + Watch(rect, rest)) == all;
          assert reports + Watch(rect, obs[i..]) == all;
        } else {
          assert before + [r] == all;
        }
      }
      if running {
        assert obs[i..] == [];
      }
    }
  }
}
