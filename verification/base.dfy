/** The display's value types: a colour with 8-bit alpha, a point, and a
    rectangle given by its origin and size. All coordinates and components
    are `u64`s. */
module Base {
  type u64 = n: nat | n < 0x1_0000_0000_0000_0000

  datatype Color = Color(red: u64, green: u64, blue: u64, alpha: u64)

  /** `Color::new_alpha`: the components are kept as given; an alpha of 256
      or more is refused by an assertion, hence the precondition. */
  function NewAlpha(r: u64, g: u64, b: u64, a: u64): (c: Color)
    requires a < 256
    ensures Intensities(c) == (r, g, b) && c.alpha == a
  {
    Color(r, g, b, a)
  }

  /** An opaque colour. */
  function New(r: u64, g: u64, b: u64): (c: Color)
    ensures Intensities(c) == (r, g, b) && c.alpha == 255
  {
    NewAlpha(r, g, b, 255)
  }

  /** Black with no opacity at all. */
  function Transparent(): (c: Color)
    ensures Intensities(c) == (0, 0, 0) && c.alpha == 0
  {
    NewAlpha(0, 0, 0, 0)
  }

  /** An opaque gray of the given intensity. */
  function Gray(intensity: u64): (c: Color)
    ensures Intensities(c) == (intensity, intensity, intensity) && c.alpha == 255
  {
    NewAlpha(intensity, intensity, intensity, 255)
  }

  /** `overlay` does not blend: the colour on top replaces the one below,
      its intensities and its alpha alike. */
  function Overlay(below: Color, above: Color): (c: Color)
    ensures Intensities(c) == Intensities(above) && c.alpha == above.alpha
  {
    above
  }

  /** The red, green and blue components. */
  function Intensities(c: Color): (u64, u64, u64) {
    (c.red, c.green, c.blue)
  }

  /** A colour is determined by its intensities and its alpha. */
  lemma ColorDetermined(c: Color, d: Color)
    requires Intensities(c) == Intensities(d) && c.alpha == d.alpha
    ensures c == d
  {
  }

  /** Whatever lies below, overlaying the same colour gives the same result,
      and overlaying twice is overlaying once. */
  lemma OverlayIgnoresBelow(below1: Color, below2: Color, above: Color)
    ensures Overlay(below1, above) == Overlay(below2, above)
    ensures Overlay(Overlay(below1, above), above) == Overlay(below1, above)
  {
  }

  datatype Point = Point(x: u64, y: u64)

  function Origin(): (p: Point)
    ensures p.x == 0 && p.y == 0
  {
    Point(0, 0)
  }

  datatype Rect = Rect(origin: Point, width: u64, height: u64)

  /** `Rect::from_origin`: a rectangle of the given size at the origin. */
  function FromOrigin(w: u64, h: u64): (r: Rect)
    ensures r.origin == Origin() && r.width == w && r.height == h
  {
    Rect(Origin(), w, h)
  }

  /** Whether the point `(x, y)` lies in `r`: the origin is included, the far
      edges are not. */
  predicate InRect(r: Rect, x: int, y: int) {
    r.origin.x <= x < r.origin.x + r.width && r.origin.y <= y < r.origin.y + r.height
  }
}
