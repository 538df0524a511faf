/**
 * The window surface: every call the engine makes into the operating
 * system (win32gui, win32api, dwmapi) is answered by one of the functions
 * below, fixed for the duration of one modelled operation.
 */
module Surface {
  import opened Position

  /**
   * The bounding-frame correction measured when a window is first managed:
   * extended frame minus window rectangle, edge by edge
   * (left, top, right, bottom), in the order the source returns it.
   */
  datatype Bounding = Bounding(dx: int, dy: int, dw: int, dh: int)

  /** The four arguments of a MoveWindow call: position and size. */
  datatype Placement = Placement(x: int, y: int, w: int, h: int)

  /**
   * What the enumeration callbacks learn about a top-level window besides its
   * title: IsIconic, IsWindowVisible, the DWMWA_CLOAKED attribute and the
   * first state word of its TITLEBARINFO.
   */
  datatype HwndInfo = HwndInfo(iconic: bool, visible: bool, cloaked: int, titleBarState: bv32)

  /** What the operating system answers. */
  datatype Surface = Surface(
    /** Extended frame bounds reported by the OS after MoveWindow(hwnd, placement). */
    frameAfter: (int, Placement) -> Rect,
    /** Window.is_visible: not iconic, visible, and not shown minimised. */
    isVisible: int -> bool,
    /** GetWindowRect. */
    windowRect: int -> Rect,
    /** MonitorFromRect: the handle of the monitor a rectangle lies on. */
    monitorFromRect: Rect -> int,
    /** GetWindowText. */
    title: int -> string,
    /** GetWindow(hwnd, GW_OWNER); 0 when the window has no owner. */
    owner: int -> int,
    /** The bounding-frame correction probed for a window. */
    boundingDiff: int -> Bounding,
    /** The width a window keeps when asked to shrink to the global floor. */
    probedMinWidth: int -> int,
    /** EnumWindows: the top-level handles, in enumeration order. */
    topLevel: seq<int>,
    /** What the enumeration callbacks query of a handle. */
    hwndInfo: int -> HwndInfo,
    /** GetForegroundWindow. */
    foreground: int
  )

  /**
   * The test both enumerations apply to a handle: not iconic, visible, with a
   * non-empty title, not cloaked, and with the title bar's 0x8000 state bit
   * clear.
   */
  predicate Listed(surface: Surface, hwnd: int)
  {
    var info := surface.hwndInfo(hwnd);
    && !info.iconic
    && info.visible
    && surface.title(hwnd) != ""
    && info.cloaked == 0
    && info.titleBarState & 0x0000_8000 == 0
  }

  /**
   * How MoveWindow behaves on a real desktop: the window rectangle becomes
   * (x, y, x + w, y + h), and its extended frame differs from the window
   * rectangle edge by edge by the window's true bounding correction `d`.
   */
  function IdealFrame(d: Bounding, p: Placement): Rect
  {
    Rect(p.x + d.dx, p.y + d.dy, p.x + p.w + d.dw, p.y + p.h + d.dh)
  }
}
