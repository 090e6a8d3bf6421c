/** Integer rectangles and sizes, as pygame's `Rect` and `Font.size` give them. */
module Rects {

  /** A measured size: what `Font.size(text)` or `Surface.get_size()` returns. */
  datatype Size = Size(w: nat, h: nat)

  /** An axis-aligned rectangle with its top-left corner and its size. */
  datatype Rect = Rect(left: int, top: int, w: nat, h: nat) {

    function Bottom(): int { top + h }

    function Right(): int { left + w }

    /** `Rect.move(dx, dy)`: a translated copy; the size never changes. */
    function Move(dx: int, dy: int): (r: Rect)
      ensures r.w == w && r.h == h
      ensures r.left - left == dx && r.top - top == dy
      ensures r.Bottom() == Bottom() + dy
    {
      Rect(left + dx, top + dy, w, h)
    }
  }

  /** Assigning `rect.topleft = (x, y)`. */
  function SetTopLeft(r: Rect, x: int, y: int): (q: Rect)
    ensures q.left == x && q.top == y && q.w == r.w && q.h == r.h
  {
    r.(left := x, top := y)
  }

  /** Assigning `rect.topright = (x, y)`: the right edge goes to `x`. */
  function SetTopRight(r: Rect, x: int, y: int): (q: Rect)
    ensures q.Right() == x && q.top == y && q.w == r.w && q.h == r.h
  {
    r.(left := x - r.w, top := y)
  }

  /** Assigning `rect.midtop = (x, y)`: the horizontal centre goes to `x`. */
  function SetMidTop(r: Rect, x: int, y: int): (q: Rect)
    ensures CenterX(q) == x && q.top == y && q.w == r.w && q.h == r.h
  {
    r.(left := x - r.w / 2, top := y)
  }

  /** The rectangle of a surface of the given size, as `get_rect()` gives it. */
  function SurfaceRect(s: Size): Rect
  {
    Rect(0, 0, s.w, s.h)
  }

  /** `centerx` of a rectangle (pygame divides the width by two, rounding down). */
  function CenterX(r: Rect): int
  {
    r.left + r.w / 2
  }

  function Max(a: int, b: int): int
  {
    if a < b then b else a
  }
}
