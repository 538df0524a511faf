/**
 * The per-window record the tiling engine reads and writes
 * (class Window of modules/windows.py): border shift, opacity, the probed
 * minimum width and the placement request sent to the surface.
 *
 * The window's screen is kept as an index into the coordinator's screen
 * list rather than as a reference, so that this module does not depend on
 * the monitor topology; the coordinator resolves it (module Desktop).
 */
module Windows {
  import opened Wrappers
  import opened Position
  import opened Settings
  import opened Surface

  /** An opacity brought back into the range the source allows. */
  function ClampOpacity(v: int): (r: int)
    ensures OpacityMin <= r <= OpacityMax
    ensures OpacityMin <= v <= OpacityMax ==> r == v
    ensures v < OpacityMin ==> r == OpacityMin
    ensures v > OpacityMax ==> r == OpacityMax
  {
    if v < OpacityMin then OpacityMin else if v > OpacityMax then OpacityMax else v
  }

  /** Looks a numeric setting up by name, as `settings.<NAME>` does. */
  function SettingValue(name: string): Option<int>
  {
    if name in NumericSettings then Some(NumericSettings[name]) else None
  }

  /**
   * The step the opacity hotkeys read as written: `settings.OPACITY_VALUE_CHANGE`,
   * a name the settings module does not define, so the lookup fails.
   */
  function OpacityStepAsWritten(): (step: Option<int>)
    ensures step.None?
    ensures SettingValue("OPACITY_VALUE_STEP") == Some(OpacityValueStep)
  {
    assert "OPACITY_VALUE_CHANGE" != "MARGIN_PX" && "OPACITY_VALUE_CHANGE" != "WINDOW_MIN_W";
    assert "OPACITY_VALUE_CHANGE"[14] != "OPACITY_VALUE_STEP"[14];
    assert "OPACITY_VALUE_CHANGE" != "DEFAULT_OPACITY_ON_BLUR" && "OPACITY_VALUE_CHANGE" != "MAX_WINS_IN_GROUP";
    SettingValue("OPACITY_VALUE_CHANGE")
  }

  /**
   * The MoveWindow arguments draw_in_rect sends, AS WRITTEN: the rectangle's
   * position corrected by the left and top offsets, and its size corrected by
   * the right and bottom offsets. On a desktop that behaves as `IdealFrame`
   * the achieved frame ends `d.dx` pixels left of the requested right edge.
   */
  function MoveRequestAsWritten(d: Bounding, r: Rect): (p: Placement)
    ensures r.left <= r.right ==> IdealFrame(d, p).right == r.right - d.dx
    ensures r.top <= r.bottom ==> IdealFrame(d, p).bottom == r.bottom - d.dy
    ensures IdealFrame(d, p).left == r.left && IdealFrame(d, p).top == r.top
  {
    Placement(r.left - d.dx, r.top - d.dy, r.W() - d.dw, r.H() - d.dh)
  }

  /** A rectangle and a correction for which the as-written request misses. */
  lemma MoveRequestAsWrittenMisses()
    ensures var d, r := Bounding(7, 0, -7, -7), Rect(16, 16, 784, 884);
            IdealFrame(d, MoveRequestAsWritten(d, r)) != r
  {
    var d, r := Bounding(7, 0, -7, -7), Rect(16, 16, 784, 884);
    assert IdealFrame(d, MoveRequestAsWritten(d, r)).right == 777;
  }

  /**
   * The MoveWindow arguments draw_in_rect sends for a requested rectangle:
   * position corrected by the left/top offsets, size corrected by the
   * difference of the opposite offsets, so that a desktop behaving as
   * `IdealFrame` puts the frame exactly on the requested rectangle.
   */
  function MoveRequest(d: Bounding, r: Rect): (p: Placement)
    ensures r.left <= r.right && r.top <= r.bottom ==> IdealFrame(d, p) == r
  {
    Placement(r.left - d.dx, r.top - d.dy, r.W() - (d.dw - d.dx), r.H() - (d.dh - d.dy))
  }

  class Window {
    /** The OS handle: the window's identity. */
    const hwnd: int
    /** `_rect`: the last rectangle the engine knows for the window. */
    var rect: Rect
    /** `_screen`: index of the window's screen in the coordinator's list, if resolved. */
    var screen: Option<nat>
    /** Border shift: pixels taken from this window's default width at its left border. */
    var lShift: int
    var opacity: int
    /** Whether the blurred background window exists (`blur_bg is not None`). */
    var blurred: bool
    /** `_bounding_error`, probed once at creation. */
    const boundingError: Bounding
    /** `_min_w`, probed once at creation. */
    const minW: int

    ghost predicate Valid()
      reads this
    {
      OpacityMin <= opacity <= OpacityMax
    }

    /** The attribute part of `__post_init__`: a new window starts unshifted and opaque. */
    constructor (hwnd: int, rect: Rect, screen: Option<nat>, boundingError: Bounding, minW: int)
      ensures Valid()
      ensures this.hwnd == hwnd && this.rect == rect && this.screen == screen
      ensures this.boundingError == boundingError && this.minW == minW
      ensures lShift == 0 && opacity == OpacityMax && !blurred
    {
      this.hwnd := hwnd;
      this.rect := rect;
      this.screen := screen;
      this.boundingError := boundingError;
      this.minW := minW;
      lShift := 0;
      opacity := 255;
      blurred := false;
    }

    /**
     * The attributes `__post_init__` gives a window of handle `hwnd`: full
     * opacity, no blurred background, and the bounding error and floor probed
     * for it.
     */
    ghost predicate Initial(hwnd: int, boundingError: Bounding, minW: int)
      reads this`opacity, this`blurred
    {
      && this.hwnd == hwnd && opacity == OpacityMax && !blurred
      && this.boundingError == boundingError && this.minW == minW
    }

    /** The narrowest width the window may be given: its probed floor or the global one. */
    function MinimumWidth(): (m: int)
      ensures m >= WindowMinW && m >= minW
      ensures m == WindowMinW || m == minW
    {
      if minW > WindowMinW then minW else WindowMinW
    }

    /**
     * `can_shrink`: whether the window, measured through the `rect`
     * property, can give up one margin of width and keep both its own
     * probed floor and the global one.
     */
    predicate CanShrink(surface: Surface): (ok: bool)
      reads this`rect, this`screen
      ensures ok <==> CurrentRect(this, surface).W() - MarginPx >= WindowMinW
                      && CurrentRect(this, surface).W() - MarginPx >= minW
    {
      CurrentRect(this, surface).W() - MarginPx >= MinimumWidth()
    }

    method ResetShift()
      modifies this`lShift
      ensures lShift == 0
    {
      lShift := 0;
    }

    /** `__update_opacity`: clamps the opacity before it is applied. */
    method UpdateOpacity()
      modifies this`opacity
      ensures Valid()
      ensures opacity == ClampOpacity(old(opacity))
    {
      if opacity < 75 {
        opacity := 75;
      }
      if opacity > 255 {
        opacity := 255;
      }
    }

    method IncreaseOpacity(step: int)
      modifies this`opacity
      ensures Valid()
      ensures opacity == ClampOpacity(old(opacity) + step)
    {
      opacity := opacity + step;
      UpdateOpacity();
    }

    method DecreaseOpacity(step: int)
      modifies this`opacity
      ensures Valid()
      ensures opacity == ClampOpacity(old(opacity) - step)
    {
      opacity := opacity - step;
      UpdateOpacity();
    }

    /** The opacity part of `toogle_blur`: the background is created or destroyed. */
    method ToggleBlur()
      modifies this`opacity, this`blurred
      ensures Valid()
      ensures blurred == !old(blurred)
      ensures opacity == if blurred then DefaultOpacityOnBlur else OpacityMax
    {
      if !blurred {
        blurred := true;
        opacity := DefaultOpacityOnBlur;
        UpdateOpacity();
      } else {
        blurred := false;
        opacity := 255;
        UpdateOpacity();
      }
    }

    /**
     * Asks the surface to move the window onto `r`, with the MoveWindow
     * arguments as written, and returns the frame it actually got.
     */
    method DrawInRect(r: Rect, surface: Surface) returns (achieved: Rect)
      ensures achieved == surface.frameAfter(hwnd, MoveRequestAsWritten(boundingError, r))
    {
      var request := MoveRequestAsWritten(boundingError, r);
      achieved := surface.frameAfter(hwnd, request);
    }
  }

  /**
   * The `rect` property: a window whose screen was never resolved asks the
   * surface for its rectangle again, every other window answers with the
   * stored one.
   */
  function CurrentRect(w: Window, surface: Surface): (r: Rect)
    reads w`rect, w`screen
    ensures w.screen.Some? ==> r == w.rect
    ensures w.screen.None? ==> r == surface.windowRect(w.hwnd)
  {
    if w.screen.None? then surface.windowRect(w.hwnd) else w.rect
  }
}
