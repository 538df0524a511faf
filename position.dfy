/**
 * Integer rectangles and directions (modules/position.py).
 *
 * The source keeps `w`, `h` and `raw` as attributes that a `__setattr__`
 * hook recomputes whenever a corner is assigned; here they are functions of
 * the four corners, so they can never be out of date, and a corner update is
 * the datatype update `r.(left := x)`.
 */
module Position {
  import opened Wrappers

  /** A rectangle given by its four edges, in screen pixels. */
  datatype Rect = Rect(left: int, top: int, right: int, bottom: int)
  {
    /** Horizontal extent: the distance between the two vertical edges. */
    function W(): (w: nat)
      ensures left + w == right || right + w == left
    {
      if left <= right then right - left else left - right
    }

    /** Vertical extent: the distance between the two horizontal edges. */
    function H(): (h: nat)
      ensures top + h == bottom || bottom + h == top
    {
      if top <= bottom then bottom - top else top - bottom
    }

    /** The corners as the (left, top, right, bottom) list the OS calls take. */
    function Raw(): (raw: seq<int>)
      ensures |raw| == 4 && FromList(raw) == this
    {
      [left, top, right, bottom]
    }

    /** The rectangle in the "{w}x{h}+{left}+{top}" geometry format of Tk. */
    function Geometry(): (g: string)
      ensures ParseGeometry(g) == Some(Geo(W(), H(), left, top))
    {
      GeometryRoundTrip(W(), H(), left, top);
      FormatGeometry(W(), H(), left, top)
    }
  }

  /** Builds a rectangle from its corners listed as left, top, right, bottom. */
  function FromList(vals: seq<int>): (r: Rect)
    requires |vals| == 4
    ensures r.left == vals[0] && r.top == vals[1] && r.right == vals[2] && r.bottom == vals[3]
  {
    Rect(vals[0], vals[1], vals[2], vals[3])
  }

  /** Builds a rectangle from its top-left corner and its size. */
  function FromXYWH(x: int, y: int, w: int, h: int): (r: Rect)
    ensures r.left == x && r.top == y
    ensures r.right == x + w && r.bottom == y + h
    ensures w >= 0 ==> r.W() == w
    ensures h >= 0 ==> r.H() == h
  {
    Rect(x, y, x + w, y + h)
  }

  /** The C `RECT` structure the desktop window manager fills in. */
  datatype WinRect = WinRect(left: int, top: int, right: int, bottom: int)

  /** Converts a C `RECT` into a rectangle with the same four corners. */
  function FromRECT(c: WinRect): (r: Rect)
    ensures r.Raw() == [c.left, c.top, c.right, c.bottom]
  {
    FromList([c.left, c.top, c.right, c.bottom])
  }

  /** Rectangles are equal exactly when their corner lists are: width and height play no part. */
  lemma {:induction false} RectEquality(a: Rect, b: Rect)
    ensures a == b <==> a.Raw() == b.Raw()
  {
    if a.Raw() == b.Raw() {
      assert a.Raw()[0] == b.Raw()[0] && a.Raw()[1] == b.Raw()[1];
      assert a.Raw()[2] == b.Raw()[2] && a.Raw()[3] == b.Raw()[3];
    }
  }

  /** The two horizontal directions; the source encodes them as 0 and 1. */
  datatype Direction = Left | Right
  {
    function Code(): (c: int)
      ensures c == 0 <==> Left?
      ensures c == 1 <==> Right?
    {
      if Left? then 0 else 1
    }

    /** The other direction. */
    function Opposite(): (d: Direction)
      ensures d != this
    {
      if Left? then Right else Left
    }
  }

  // ---------------------------------------------------------------------
  // Decimal rendering of integers, as Python's str() does it, and a parser
  // for the geometry format so that the rendering can be shown faithful.
  // ---------------------------------------------------------------------

  predicate IsDigit(c: char) { '0' <= c <= '9' }

  predicate AllDigits(s: string) { forall k :: 0 <= k < |s| ==> IsDigit(s[k]) }

  function DigitChar(d: nat): (c: char)
    requires d < 10
    ensures IsDigit(c) && c as int - '0' as int == d
  {
    (d + '0' as int) as char
  }

  /** Decimal digits of a natural number, most significant first, no leading zero. */
  function NatToString(n: nat): (s: string)
    ensures |s| > 0 && AllDigits(s)
    decreases n
  {
    if n < 10 then [DigitChar(n)] else NatToString(n / 10) + [DigitChar(n % 10)]
  }

  /** Decimal rendering of an integer, with a leading '-' when it is negative. */
  function IntToString(i: int): (s: string)
    ensures |s| > 0
    ensures forall k :: 0 <= k < |s| ==> IsDigit(s[k]) || s[k] == '-'
  {
    if i < 0 then "-" + NatToString(-i) else NatToString(i)
  }

  /** The number a string of decimal digits denotes. */
  function DigitsValue(s: string): nat
    requires AllDigits(s)
  {
    if s == [] then 0 else DigitsValue(s[..|s| - 1]) * 10 + (s[|s| - 1] as int - '0' as int)
  }

  function ParseNat(s: string): Option<nat>
  {
    if s != [] && AllDigits(s) then Some(DigitsValue(s)) else None
  }

  function ParseInt(s: string): Option<int>
  {
    var negative := s != [] && s[0] == '-';
    match ParseNat(if negative then s[1..] else s)
    case Some(n) => Some(if negative then 0 - n else n as int)
    case None => None
  }

  lemma {:induction false} NatToStringValue(n: nat)
    ensures DigitsValue(NatToString(n)) == n
    decreases n
  {
    if n >= 10 {
      var s := NatToString(n);
      assert s[..|s| - 1] == NatToString(n / 10);
      NatToStringValue(n / 10);
    }
  }

  lemma NatRoundTrip(n: nat)
    ensures ParseNat(NatToString(n)) == Some(n)
  {
    NatToStringValue(n);
  }

  lemma IntRoundTrip(i: int)
    ensures ParseInt(IntToString(i)) == Some(i)
  {
    if i < 0 {
      NatRoundTrip(-i);
      assert IntToString(i)[1..] == NatToString(-i);
    } else {
      NatRoundTrip(i);
    }
  }

  /** Splits a string at the first occurrence of a separator. */
  function SplitFirst(s: string, sep: char): Option<(string, string)>
  {
    if s == [] then None
    else if s[0] == sep then Some(([], s[1..]))
    else
      match SplitFirst(s[1..], sep)
      case None => None
      case Some(parts) => Some(([s[0]] + parts.0, parts.1))
  }

  lemma {:induction false} SplitFirstAt(a: string, sep: char, b: string)
    requires forall k :: 0 <= k < |a| ==> a[k] != sep
    ensures SplitFirst(a + [sep] + b, sep) == Some((a, b))
  {
    if a != [] {
      assert (a + [sep] + b)[1..] == a[1..] + [sep] + b;
      SplitFirstAt(a[1..], sep, b);
      assert [a[0]] + a[1..] == a;
    }
  }

  /** The four numbers a geometry string carries. */
  datatype Geo = Geo(w: nat, h: nat, left: int, top: int)

  function FormatGeometry(w: nat, h: nat, left: int, top: int): string
  {
    NatToString(w) + "x" + NatToString(h) + "+" + IntToString(left) + "+" + IntToString(top)
  }

  /** Reads back a "{w}x{h}+{left}+{top}" string. */
  function ParseGeometry(g: string): Option<Geo>
  {
    match SplitFirst(g, 'x')
    case None => None
    case Some(p1) =>
      match SplitFirst(p1.1, '+')
      case None => None
      case Some(p2) =>
        match SplitFirst(p2.1, '+')
        case None => None
        case Some(p3) =>
          match (ParseNat(p1.0), ParseNat(p2.0), ParseInt(p3.0), ParseInt(p3.1))
          case (Some(w), Some(h), Some(l), Some(t)) => Some(Geo(w, h, l, t))
          case _ => None
  }

  lemma GeometryRoundTrip(w: nat, h: nat, left: int, top: int)
    ensures ParseGeometry(FormatGeometry(w, h, left, top)) == Some(Geo(w, h, left, top))
  {
    var ws, hs, ls, ts := NatToString(w), NatToString(h), IntToString(left), IntToString(top);
    var rest2 := ls + "+" + ts;
    var rest1 := hs + "+" + rest2;
    assert FormatGeometry(w, h, left, top) == ws + "x" + rest1;
    SplitFirstAt(ws, 'x', rest1);
    SplitFirstAt(hs, '+', rest2);
    SplitFirstAt(ls, '+', ts);
    NatRoundTrip(w);
    NatRoundTrip(h);
    IntRoundTrip(left);
    IntRoundTrip(top);
  }
}
