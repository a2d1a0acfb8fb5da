/** Bresenham's line: the error term of the loop, and what it makes of the pixels. */
module Line {
  import opened Basics

  datatype Pixel = Pixel(x: int, y: int)

  function Sgn(a: int): int {
    if a < 0 then -1 else if a > 0 then 1 else 0
  }

  /** The minor coordinate after `i` of `long` major steps, for a line that covers `short` in all:
      `i * short / long`, rounded to nearest. */
  function Minor(long: nat, short: nat, i: nat): int {
    if long == 0 then 0 else (long / 2 + i * short) / long
  }

  /** Pixel `i` of the line. */
  function PixelAt(x1: int, y1: int, x2: int, y2: int, i: nat): Pixel {
    var dx, dy := x2 - x1, y2 - y1;
    if Abs(dx) >= Abs(dy) then Pixel(x1 + i * Sgn(dx), y1 + Minor(Abs(dx), Abs(dy), i) * Sgn(dy))
    else Pixel(x1 + Minor(Abs(dy), Abs(dx), i) * Sgn(dx), y1 + i * Sgn(dy))
  }

  function Length(x1: int, y1: int, x2: int, y2: int): nat {
    if Abs(x2 - x1) >= Abs(y2 - y1) then Abs(x2 - x1) else Abs(y2 - y1)
  }

  /** Quotient and remainder are the only such pair. */
  lemma DivisionIsUnique(a: int, q: int, r: int, d: int)
    requires d > 0 && a == q * d + r && 0 <= r < d
    ensures a / d == q
  {
    var q', r' := a / d, a % d;
    assert a == q' * d + r';
    assert (q' - q) * d == r - r' && (q - q') * d == r' - r;
    if q' > q {
      MulAtLeast(q' - q, d);
    } else if q' < q {
      MulAtLeast(q - q', d);
    }
  }

  lemma MulAtLeast(k: int, d: int)
    requires k >= 1 && d > 0
    ensures k * d >= d
  {
  }

  /** The loop's error term is the remainder of the division that gives the minor coordinate. */
  lemma ErrorTerm(long: nat, short: nat, i: nat, error: int, m: int)
    requires long > 0 && 0 <= error < long && error == long / 2 + i * short - m * long
    ensures m == Minor(long, short, i)
  {
    DivisionIsUnique(long / 2 + i * short, m, error, long);
  }

  /** The value of a 32-bit signed variable after `a` is stored in it. */
  function Int32(a: int): (r: int)
    ensures -0x8000_0000 <= r < 0x8000_0000
    ensures r == a <==> -0x8000_0000 <= a < 0x8000_0000
  {
    if -0x8000_0000 <= a < 0x8000_0000 then a else (a + 0x8000_0000) % 0x1_0000_0000 - 0x8000_0000
  }

  /** The error term `e` after `i` major steps and `m` minor ones. */
  predicate Error(long: nat, short: nat, i: nat, e: int, m: int) {
    e == long / 2 + i * short - m * long && (long > 0 ==> 0 <= e < long)
  }

  lemma NextProduct(i: int, a: int)
    ensures (i + 1) * a == i * a + a
  {
  }

  lemma ErrorStarts(long: nat, short: nat)
    ensures Error(long, short, 0, long / 2, 0)
  {
  }

  /** One round of the loop: the sum fits, and the minor coordinate moves on when it should. */
  lemma NextError(long: nat, short: nat, i: nat, e: int, m: int)
    requires 0 < long && short <= long && long + short < 0x8000_0000 && Error(long, short, i, e, m)
    ensures Int32(e + short) == e + short
    ensures
      if e + short >= long then Error(long, short, i + 1, e + short - long, m + 1) && m + 1 == Minor(long, short, i + 1)
      else Error(long, short, i + 1, e + short, m) && m == Minor(long, short, i + 1)
  {
    NextProduct(i, short);
    NextProduct(m, long);
    if e + short >= long {
      ErrorTerm(long, short, i + 1, e + short - long, m + 1);
    } else {
      ErrorTerm(long, short, i + 1, e + short, m);
    }
    hide Minor;
  }

  lemma Distances(x1: int, y1: int, x2: int, y2: int)
    requires Abs(x2 - x1) + Abs(y2 - y1) < 0x8000_0000
    ensures Int32(x2 - x1) == x2 - x1 && Int32(y2 - y1) == y2 - y1
    ensures Length(x1, y1, x2, y2) == if Abs(x2 - x1) >= Abs(y2 - y1) then Abs(x2 - x1) else Abs(y2 - y1)
  {
  }

  lemma FirstPixel(x1: int, y1: int, x2: int, y2: int)
    ensures PixelAt(x1, y1, x2, y2, 0) == Pixel(x1, y1)
  {
    MinorStarts(Abs(x2 - x1), Abs(y2 - y1));
    MinorStarts(Abs(y2 - y1), Abs(x2 - x1));
    hide Minor;
  }

  lemma PixelAcross(x1: int, y1: int, x2: int, y2: int, i: nat, m: int)
    requires Abs(x2 - x1) >= Abs(y2 - y1) && m == Minor(Abs(x2 - x1), Abs(y2 - y1), i)
    ensures PixelAt(x1, y1, x2, y2, i) == Pixel(x1 + i * Sgn(x2 - x1), y1 + m * Sgn(y2 - y1))
  {
    hide Minor, Abs, Sgn;
  }

  lemma PixelDown(x1: int, y1: int, x2: int, y2: int, i: nat, m: int)
    requires Abs(x2 - x1) < Abs(y2 - y1) && m == Minor(Abs(y2 - y1), Abs(x2 - x1), i)
    ensures PixelAt(x1, y1, x2, y2, i) == Pixel(x1 + m * Sgn(x2 - x1), y1 + i * Sgn(y2 - y1))
  {
    hide Minor, Abs, Sgn;
  }

  /** draw_line.  Coordinates are any 32-bit numbers, negative ones too, of points that are less
      than 2^31 apart, going along the axes: then no sum leaves 32 bits. */
  method DrawLine(x1: int, y1: int, x2: int, y2: int) returns (plotted: seq<Pixel>)
    requires Int32(x1) == x1 && Int32(y1) == y1 && Int32(x2) == x2 && Int32(y2) == y2
    requires Abs(x2 - x1) + Abs(y2 - y1) < 0x8000_0000
    ensures |plotted| == Length(x1, y1, x2, y2) + 1
    ensures forall i :: 0 <= i < |plotted| ==> plotted[i] == PixelAt(x1, y1, x2, y2, i)
  {
    hide Minor, Error, PixelAt, Int32, Abs, Sgn;
    Distances(x1, y1, x2, y2);
    var dx, dy := Int32(x2 - x1), Int32(y2 - y1);
    var dxabs, dyabs, sdx, sdy := Abs(dx), Abs(dy), Sgn(dx), Sgn(dy);
    var x, y, px, py := dyabs / 2, dxabs / 2, x1, y1;
    plotted := [Pixel(px, py)];
    FirstPixel(x1, y1, x2, y2);
    ErrorStarts(dxabs, dyabs);
    ErrorStarts(dyabs, dxabs);
    ghost var m: int := 0;
    if dxabs >= dyabs {
      for i := 0 to dxabs
        invariant Error(dxabs, dyabs, i, y, m)
        invariant px == x1 + i * sdx && py == y1 + m * sdy && |plotted| == i + 1
        invariant forall k :: 0 <= k <= i ==> plotted[k] == PixelAt(x1, y1, x2, y2, k)
      {
        NextError(dxabs, dyabs, i, y, m);
        NextProduct(i, sdx);
        NextProduct(m, sdy);
        y := Int32(y + dyabs);
        if y >= dxabs {
          y := y - dxabs;
          py := py + sdy;
          m := m + 1;
        }
        px := px + sdx;
        PixelAcross(x1, y1, x2, y2, i + 1, m);
        plotted := plotted + [Pixel(px, py)];
      }
    } else {
      for i := 0 to dyabs
        invariant Error(dyabs, dxabs, i, x, m)
        invariant py == y1 + i * sdy && px == x1 + m * sdx && |plotted| == i + 1
        invariant forall k :: 0 <= k <= i ==> plotted[k] == PixelAt(x1, y1, x2, y2, k)
      {
        NextError(dyabs, dxabs, i, x, m);
        NextProduct(i, sdy);
        NextProduct(m, sdx);
        x := Int32(x + dxabs);
        if x >= dyabs {
          x := x - dyabs;
          px := px + sdx;
          m := m + 1;
        }
        py := py + sdy;
        PixelDown(x1, y1, x2, y2, i + 1, m);
        plotted := plotted + [Pixel(px, py)];
      }
    }
  }

  lemma MinorStarts(long: nat, short: nat)
    ensures Minor(long, short, 0) == 0
  {
    if long > 0 {
      DivisionIsUnique(long / 2 + 0 * short, 0, long / 2, long);
    }
  }

  // ---------- what the pixels are ----------

  /** After every major step the pixel is within half a pixel of the true line. */
  lemma MinorIsClosest(long: nat, short: nat, i: nat)
    requires long > 0
    ensures 2 * (Minor(long, short, i) * long - i * short) <= long
    ensures 2 * (i * short - Minor(long, short, i) * long) <= long
  {
    var a: int := long / 2 + i * short;
    assert a == a / long * long + a % long;
  }

  lemma MinorEnds(long: nat, short: nat)
    requires short <= long
    ensures Minor(long, short, long) == short
  {
    if long > 0 {
      DivisionIsUnique(long / 2 + long * short, short, long / 2, long);
    }
  }

  /** From one major step to the next the minor coordinate stays, or moves on by one. */
  lemma MinorSteps(long: nat, short: nat, i: nat)
    requires 0 < long && short <= long
    ensures Minor(long, short, i) <= Minor(long, short, i + 1) <= Minor(long, short, i) + 1
  {
    var a: int := long / 2 + i * short;
    var q, r := a / long, a % long;
    NextProduct(i, short);
    if r + short < long {
      DivisionIsUnique(a + short, q, r + short, long);
    } else {
      DivisionIsUnique(a + short, q + 1, r + short - long, long);
    }
  }

  lemma {:induction false} MinorInRange(long: nat, short: nat, i: nat)
    requires 0 < long && short <= long && i <= long
    ensures 0 <= Minor(long, short, i) <= short
    decreases long - i
  {
    MinorAtLeastZero(long, short, i);
    if i == long {
      MinorEnds(long, short);
    } else {
      MinorInRange(long, short, i + 1);
      MinorSteps(long, short, i);
    }
  }

  lemma MinorAtLeastZero(long: nat, short: nat, i: nat)
    requires long > 0
    ensures Minor(long, short, i) >= 0
  {
    assert i * short >= 0;
  }

  predicate Between(a: int, lo: int, hi: int) {
    if lo <= hi then lo <= a <= hi else hi <= a <= lo
  }

  /** In every octant: the line starts and ends at the given points, and stays in their box. */
  lemma LineJoinsItsEnds(x1: int, y1: int, x2: int, y2: int, i: nat)
    requires i <= Length(x1, y1, x2, y2)
    ensures PixelAt(x1, y1, x2, y2, 0) == Pixel(x1, y1)
    ensures PixelAt(x1, y1, x2, y2, Length(x1, y1, x2, y2)) == Pixel(x2, y2)
    ensures Between(PixelAt(x1, y1, x2, y2, i).x, x1, x2) && Between(PixelAt(x1, y1, x2, y2, i).y, y1, y2)
  {
    var dx, dy := Abs(x2 - x1), Abs(y2 - y1);
    var long, short := if dx >= dy then dx else dy, if dx >= dy then dy else dx;
    FirstPixel(x1, y1, x2, y2);
    MinorEnds(long, short);
    if long > 0 { MinorInRange(long, short, i); }
    hide Minor;
  }

  /** Successive pixels are one apart along the major axis, and at most one along the other. */
  lemma LineIsConnected(x1: int, y1: int, x2: int, y2: int, i: nat)
    requires i < Length(x1, y1, x2, y2)
    ensures
      var p, q := PixelAt(x1, y1, x2, y2, i), PixelAt(x1, y1, x2, y2, i + 1);
      if Abs(x2 - x1) >= Abs(y2 - y1) then Abs(q.x - p.x) == 1 && Abs(q.y - p.y) <= 1
      else Abs(q.y - p.y) == 1 && Abs(q.x - p.x) <= 1
  {
    var dx, dy := Abs(x2 - x1), Abs(y2 - y1);
    MinorSteps(if dx >= dy then dx else dy, if dx >= dy then dy else dx, i);
    hide Minor;
  }

  /** No pixel is further than half a pixel, along the minor axis, from the true line. */
  lemma LineIsStraight(x1: int, y1: int, x2: int, y2: int, i: nat)
    requires 0 < Length(x1, y1, x2, y2)
    ensures
      var p, dx, dy := PixelAt(x1, y1, x2, y2, i), Abs(x2 - x1), Abs(y2 - y1);
      if dx >= dy then 2 * Abs(Abs(p.y - y1) * dx - i * dy) <= dx
      else 2 * Abs(Abs(p.x - x1) * dy - i * dx) <= dy
  {
    var dx, dy := Abs(x2 - x1), Abs(y2 - y1);
    var long, short := if dx >= dy then dx else dy, if dx >= dy then dy else dx;
    MinorIsClosest(long, short, i);
    MinorAtLeastZero(long, short, i);
    if short == 0 {
      DivisionIsUnique(long / 2, 0, long / 2, long);
      assert Minor(long, short, i) == 0;
    }
    hide Minor;
  }
}
