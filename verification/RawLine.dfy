/** `inner_draw_raw_line`: the integer line walk. */
module RawLine {
  import opened Basics
  import opened Bits

  datatype Pixel = Pixel(x: int, y: int)

  function Steep(a: Pixel, b: Pixel): bool { Abs(b.y - a.y) > Abs(b.x - a.x) }

  /** Exchanging the axes. */
  function Flip(p: Pixel, steep: bool): Pixel { if steep then Pixel(p.y, p.x) else p }

  /** The end from which the walk starts, and the other, in walking coordinates. */
  function Start(a: Pixel, b: Pixel): Pixel {
    var u, v := Flip(a, Steep(a, b)), Flip(b, Steep(a, b));
    if u.x > v.x then v else u
  }

  function End(a: Pixel, b: Pixel): Pixel {
    var u, v := Flip(a, Steep(a, b)), Flip(b, Steep(a, b));
    if u.x > v.x then u else v
  }

  /** The error after `i` steps, `k` of which moved along the minor axis. */
  function Error(dx: int, dy: int, i: int, k: int): int { dx / 2 - i * dy + k * dx }

  /** `minor` is the position of the walk from `s` to `e` after `i` steps: the error is in its range. */
  ghost predicate OnWalk(s: Pixel, e: Pixel, i: nat, minor: int) {
    var dx, dy := e.x - s.x, Abs(e.y - s.y);
    var k := if s.y < e.y then minor - s.y else s.y - minor;
    if dx == 0 then minor == s.y else 0 <= Error(dx, dy, i, k) < dx
  }

  /** `set_pixel` appends to the result. */
  method DrawLine(a: Pixel, b: Pixel) returns (pixels: seq<Pixel>)
    ensures IsLine(a, b, pixels)
  {
    var steep := Abs(a.y - b.y) > Abs(a.x - b.x);
    var u, v := Flip(a, steep), Flip(b, steep);
    if u.x > v.x { u, v := v, u; }
    var dx, dy := v.x - u.x, Abs(v.y - u.y);
    var step := if u.y < v.y then 1 else -1;
    var error := dx / 2;
    var x, y := u.x, u.y;
    ghost var k := 0;
    pixels := [];
    ErrorStart(dx, dy);
    hide Error;
    hide OnWalk;
    while x <= v.x
      invariant u.x <= x <= v.x + 1 && |pixels| == x - u.x
      invariant y == if u.y < v.y then u.y + k else u.y - k
      invariant error == Error(dx, dy, x - u.x, k) && (if dx == 0 then k == 0 else 0 <= error < dx)
      invariant forall i :: 0 <= i < |pixels| ==> IsStep(a, b, i, pixels[i])
    {
      OnWalkIs(u, v, x - u.x, y, k);
      pixels := pixels + [if steep then Pixel(y, x) else Pixel(x, y)];
      ErrorStep(dx, dy, x - u.x, k);
      error := error - dy;
      if error < 0 {
        y := y + step;
        error := error + dx;
        k := k + 1;
      }
      x := x + 1;
    }
  }

  lemma OnWalkIs(s: Pixel, e: Pixel, i: nat, y: int, k: nat)
    requires y == if s.y < e.y then s.y + k else s.y - k
    ensures var dx, dy := e.x - s.x, Abs(e.y - s.y);
      OnWalk(s, e, i, y) <==> if dx == 0 then k == 0 else 0 <= Error(dx, dy, i, k) < dx
  {}

  lemma ErrorStart(dx: int, dy: int)
    ensures Error(dx, dy, 0, 0) == dx / 2
  {}

  lemma ErrorStep(dx: int, dy: int, i: int, k: int)
    ensures Error(dx, dy, i + 1, k) == Error(dx, dy, i, k) - dy
    ensures Error(dx, dy, i + 1, k + 1) == Error(dx, dy, i, k) - dy + dx
  {
    assert (i + 1) * dy == i * dy + dy && (k + 1) * dx == k * dx + dx;
  }

  /** The walk never strays more than half a pixel from the true line on the minor axis. */
  lemma WithinHalfPixel(s: Pixel, e: Pixel, i: nat, minor: int)
    requires s.x < e.x && OnWalk(s, e, i, minor)
    ensures 2 * Abs((minor - s.y) * (e.x - s.x) - i * (e.y - s.y)) <= e.x - s.x
  {
    var dx, dy := e.x - s.x, e.y - s.y;
    if s.y < e.y {
      assert (minor - s.y) * dx - i * dy == Error(dx, dy, i, minor - s.y) - dx / 2;
    } else {
      assert (minor - s.y) * dx == -((s.y - minor) * dx) && i * dy == -(i * -dy);
    }
  }

  /** The walk starts exactly at one end of the line and stops exactly at the other. */
  lemma WalkIsExact(s: Pixel, e: Pixel, y: int)
    requires s.x <= e.x && Abs(e.y - s.y) <= e.x - s.x
    ensures OnWalk(s, e, 0, y) <==> y == s.y
    ensures OnWalk(s, e, e.x - s.x, y) <==> y == e.y
  {
    var dx, dy := e.x - s.x, Abs(e.y - s.y);
    if dx > 0 {
      var k := if s.y < e.y then y - s.y else s.y - y;
      MulBound(k, dx);
      MulBound(k - dy, dx);
      assert Error(dx, dy, dx, k) == dx / 2 + (k - dy) * dx;
    }
  }

  /** The range of the error leaves one pixel for each step. */
  lemma OnePixel(s: Pixel, e: Pixel, i: nat, y: int, z: int)
    requires s.x <= e.x && OnWalk(s, e, i, y) && OnWalk(s, e, i, z)
    ensures y == z
  {
    var dx, dy := e.x - s.x, Abs(e.y - s.y);
    if dx > 0 {
      var k, l := if s.y < e.y then y - s.y else s.y - y, if s.y < e.y then z - s.y else s.y - z;
      MulBound(k - l, dx);
      assert Error(dx, dy, i, k) - Error(dx, dy, i, l) == (k - l) * dx;
    }
  }

  /** `ps` is the line from `a` to `b` as `DrawLine` describes it. */
  ghost predicate IsLine(a: Pixel, b: Pixel, ps: seq<Pixel>) {
    && |ps| == End(a, b).x - Start(a, b).x + 1
    && forall i :: 0 <= i < |ps| ==> IsStep(a, b, i, ps[i])
  }

  ghost predicate IsStep(a: Pixel, b: Pixel, i: nat, pixel: Pixel) {
    var p := Flip(pixel, Steep(a, b));
    p.x == Start(a, b).x + i && OnWalk(Start(a, b), End(a, b), i, p.y)
  }

  lemma EndsExchanged(a: Pixel, b: Pixel)
    ensures Steep(a, b) == Steep(b, a) && Start(a, b) == Start(b, a) && End(a, b) == End(b, a)
    ensures End(a, b).x - Start(a, b).x == (if Steep(a, b) then Abs(b.y - a.y) else Abs(b.x - a.x))
    ensures Abs(End(a, b).y - Start(a, b).y) <= End(a, b).x - Start(a, b).x
    ensures {Flip(Start(a, b), Steep(a, b)), Flip(End(a, b), Steep(a, b))} == {a, b}
  {}

  /** Drawing from either end plots the same pixels in the same order, as many as the longer axis has, from one end
      exactly to the other. */
  lemma SameLine(a: Pixel, b: Pixel, ps: seq<Pixel>, qs: seq<Pixel>)
    requires IsLine(a, b, ps) && IsLine(b, a, qs)
    ensures ps == qs
    ensures |ps| == (if Steep(a, b) then Abs(b.y - a.y) else Abs(b.x - a.x)) + 1
    ensures {ps[0], ps[|ps| - 1]} == {a, b}
  {
    EndsExchanged(a, b);
    var s, e, steep := Start(a, b), End(a, b), Steep(a, b);
    assert IsStep(a, b, 0, ps[0]) && IsStep(a, b, |ps| - 1, ps[|ps| - 1]);
    WalkIsExact(s, e, Flip(ps[0], steep).y);
    WalkIsExact(s, e, Flip(ps[|ps| - 1], steep).y);
    forall i | 0 <= i < |ps| ensures ps[i] == qs[i] {
      assert IsStep(a, b, i, ps[i]) && IsStep(b, a, i, qs[i]);
      OnePixel(s, e, i, Flip(ps[i], steep).y, Flip(qs[i], steep).y);
    }
  }
}
