/**
 * The configuration constants of the tiling engine (modules/settings.py).
 * Only the values the core reads are carried over; the hotkey strings are
 * wiring and are not modelled.
 */
module Settings {

  /** Gap in pixels between tiles and between a tile and the work-area edge. */
  const MarginPx: int := 16

  /** Global floor for the width of a tile. */
  const WindowMinW: int := 480

  /** Step used by the opacity hotkeys (settings.py calls it OPACITY_VALUE_STEP). */
  const OpacityValueStep: int := 5

  /** Opacity given to a window when its blurred background is switched on. */
  const DefaultOpacityOnBlur: int := 225

  /** Largest number of windows one group accepts. */
  const MaxWinsInGroup: nat := 4

  /** Lowest and highest opacity a window may have. */
  const OpacityMin: int := 75
  const OpacityMax: int := 255

  /** Titles of windows that are never managed. */
  const IgnoreWinText: seq<string> :=
    ["Snipping Tool Overlay", "Recording toolbar", "Calculator", "Mechvibes", "Delete File"]

  /** Whether a window with an owner is skipped once any window is cached. */
  const IgnoreChildren: bool := true

  /** Names of the numeric settings the settings module defines, with their values. */
  const NumericSettings: map<string, int> := map[
    "MARGIN_PX" := MarginPx,
    "WINDOW_MIN_W" := WindowMinW,
    "OPACITY_VALUE_STEP" := OpacityValueStep,
    "DEFAULT_OPACITY_ON_BLUR" := DefaultOpacityOnBlur,
    "MAX_WINS_IN_GROUP" := MaxWinsInGroup as int
  ]

}
