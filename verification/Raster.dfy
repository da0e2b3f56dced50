/**
 * The triangle rasteriser of dp-test/render.c: incremental edge functions and a fixed-point depth plane against
 * their closed forms, and the z-buffer over all faces.
 */
module Raster {
  import opened Bytes

  datatype Vertex = Vertex(x: int, y: int, z: nat)

  datatype Face = Face(a: Vertex, b: Vertex, c: Vertex)

  /** A pixel of the box: its depth, and the face whose colour was stored last (-1 for the black background). */
  datatype Pixel = Pixel(depth: nat, owner: int)

  /** Twice the signed area of (p, q, (x, y)). */
  function Edge(p: Vertex, q: Vertex, x: int, y: int): int {
    (p.x - x) * (q.y - y) - (q.x - x) * (p.y - y)
  }

  function Area(t: Face): int {
    (t.b.x - t.a.x) * (t.c.y - t.a.y) - (t.c.x - t.a.x) * (t.b.y - t.a.y)
  }

  /** The winding flip: b and c change places when the area is negative. */
  function Oriented(t: Face): Face { if Area(t) < 0 then Face(t.a, t.c, t.b) else t }

  lemma OrientedArea(t: Face)
    ensures Area(Oriented(t)) == if Area(t) < 0 then -Area(t) else Area(t)
  {
  }

  lemma EdgeSteps(p: Vertex, q: Vertex, x: int, y: int)
    ensures Edge(p, q, x + 1, y) == Edge(p, q, x, y) + (p.y - q.y)
    ensures Edge(p, q, x, y + 1) == Edge(p, q, x, y) + (q.x - p.x)
  {
  }

  /** The three edge functions are barycentric weights: they sum to the area everywhere. */
  lemma EdgesSumToArea(t: Face, x: int, y: int)
    ensures Edge(t.b, t.c, x, y) + Edge(t.c, t.a, x, y) + Edge(t.a, t.b, x, y) == Area(t)
  {
  }

  /** The weights reproduce the point. */
  lemma WeightsGivePoint(t: Face, x: int, y: int)
    ensures Edge(t.b, t.c, x, y) * (t.a.x - x) + Edge(t.c, t.a, x, y) * (t.b.x - x) + Edge(t.a, t.b, x, y) * (t.c.x - x) == 0
    ensures Edge(t.b, t.c, x, y) * (t.a.y - y) + Edge(t.c, t.a, x, y) * (t.b.y - y) + Edge(t.a, t.b, x, y) * (t.c.y - y) == 0
  {
    Weights(t.a.x - x, t.b.x - x, t.c.x - x, t.a.y - y, t.b.y - y, t.c.y - y);
  }

  lemma Weights(px: int, qx: int, rx: int, py: int, qy: int, ry: int)
    ensures (qx * ry - rx * qy) * px + (rx * py - px * ry) * qx + (px * qy - qx * py) * rx == 0
    ensures (qx * ry - rx * qy) * py + (rx * py - px * ry) * qy + (px * qy - qx * py) * ry == 0
  {
    var u, v, w := qx * ry - rx * qy, rx * py - px * ry, px * qy - qx * py;
    assert u * px == (qx * ry) * px - (rx * qy) * px;
    assert v * qx == (rx * py) * qx - (px * ry) * qx;
    assert w * rx == (px * qy) * rx - (qx * py) * rx;
    assert u * py == (qx * ry) * py - (rx * qy) * py;
    assert v * qy == (rx * py) * qy - (px * ry) * qy;
    assert w * ry == (px * qy) * ry - (qx * py) * ry;
  }

  predicate Inside(t: Face, x: int, y: int) {
    Edge(t.b, t.c, x, y) >= 0 && Edge(t.c, t.a, x, y) >= 0 && Edge(t.a, t.b, x, y) >= 0
  }

  function Min3(a: int, b: int, c: int): int { var m := if a < b then a else b; if c < m then c else m }
  function Max3(a: int, b: int, c: int): int { var m := if a > b then a else b; if c > m then c else m }

  /** The bounding box clipped to the 288 x 288 target. */
  function MinX(t: Face): int { var m := Min3(t.a.x, t.b.x, t.c.x); if m < 0 then 0 else m }
  function MinY(t: Face): int { var m := Min3(t.a.y, t.b.y, t.c.y); if m < 0 then 0 else m }
  function MaxX(t: Face): int { var m := Max3(t.a.x, t.b.x, t.c.x); if m > 287 then 287 else m }
  function MaxY(t: Face): int { var m := Max3(t.a.y, t.b.y, t.c.y); if m > 287 then 287 else m }

  /** Non-negative weights with a positive sum cannot average numbers all of one sign to zero. */
  lemma Balance(w0: int, w1: int, w2: int, p: int, q: int, r: int)
    requires w0 >= 0 && w1 >= 0 && w2 >= 0 && w0 + w1 + w2 > 0 && w0 * p + w1 * q + w2 * r == 0
    ensures Min3(p, q, r) <= 0 <= Max3(p, q, r)
  {
    Pull(w0, p);
    Pull(w1, q);
    Pull(w2, r);
  }

  lemma Pull(w: nat, p: int)
    ensures p > 0 ==> w * p >= w
    ensures p < 0 ==> w * p + w <= 0
  {
  }

  /** No covered pixel lies outside the bounding box. */
  lemma InsideIsInBounds(t: Face, x: int, y: int)
    requires Area(t) > 0 && Inside(t, x, y)
    ensures Min3(t.a.x, t.b.x, t.c.x) <= x <= Max3(t.a.x, t.b.x, t.c.x)
    ensures Min3(t.a.y, t.b.y, t.c.y) <= y <= Max3(t.a.y, t.b.y, t.c.y)
  {
    var w0, w1, w2 := Edge(t.b, t.c, x, y), Edge(t.c, t.a, x, y), Edge(t.a, t.b, x, y);
    EdgesSumToArea(t, x, y);
    WeightsGivePoint(t, x, y);
    Balance(w0, w1, w2, t.a.x - x, t.b.x - x, t.c.x - x);
    Balance(w0, w1, w2, t.a.y - y, t.b.y - y, t.c.y - y);
  }

  // ---------------------------------------------------------------- depth

  /** C's division by a positive number: it truncates toward zero. */
  function Quotient(n: int, d: int): (q: int)
    requires d > 0
    ensures -d < q * d - n < d
  {
    if n >= 0 then n / d else -((-n) / d)
  }

  /** The numerators of the depth plane's origin and slopes, times 256. */
  function OriginTop(t: Face): int {
    ((t.b.z - t.a.z) * Edge(t.c, t.a, MinX(t), MinY(t)) + (t.c.z - t.a.z) * Edge(t.a, t.b, MinX(t), MinY(t))) * 256
  }
  function SlopeTopX(t: Face): int { ((t.b.z - t.a.z) * (t.c.y - t.a.y) + (t.c.z - t.a.z) * (t.a.y - t.b.y)) * 256 }
  function SlopeTopY(t: Face): int { ((t.b.z - t.a.z) * (t.a.x - t.c.x) + (t.c.z - t.a.z) * (t.b.x - t.a.x)) * 256 }

  function Dzdx(t: Face): int
    requires Area(t) > 0
  {
    Quotient(SlopeTopX(t), Area(t))
  }

  function Dzdy(t: Face): int
    requires Area(t) > 0
  {
    Quotient(SlopeTopY(t), Area(t))
  }

  function Zorigin(t: Face): int
    requires Area(t) > 0
  {
    t.a.z * 256 + Quotient(OriginTop(t), Area(t))
  }

  /** The accumulated 24.8 depth at (x, y). */
  function Zfp(t: Face, x: int, y: int): int
    requires Area(t) > 0
  {
    Zorigin(t) + (x - MinX(t)) * Dzdx(t) + (y - MinY(t)) * Dzdy(t)
  }

  /** The quantised depth: the accumulator as an unsigned 32-bit number, shifted. */
  function Depth(t: Face, x: int, y: int): nat
    requires Area(t) > 0
  {
    (Zfp(t, x, y) % 0x1_0000_0000) / 256
  }

  /** Area times the exact plane depth. */
  function ExactTimesArea(t: Face, x: int, y: int): int {
    t.a.z * Edge(t.b, t.c, x, y) + t.b.z * Edge(t.c, t.a, x, y) + t.c.z * Edge(t.a, t.b, x, y)
  }

  /** Edge functions are planes. */
  lemma EdgeIsPlane(p: Vertex, q: Vertex, x: int, y: int, i: int, j: int)
    ensures Edge(p, q, x + i, y + j) == Edge(p, q, x, y) + i * (p.y - q.y) + j * (q.x - p.x)
  {
    var px, py, qx, qy := p.x - x, p.y - y, q.x - x, q.y - y;
    assert (px - i) * (qy - j) == px * qy - px * j - i * qy + i * j;
    assert (qx - i) * (py - j) == qx * py - qx * j - i * py + i * j;
    assert i * (p.y - q.y) == i * py - i * qy;
    assert j * (q.x - p.x) == j * qx - j * px;
  }

  lemma DepthIsPlane(t: Face, x: int, y: int)
    ensures 256 * ExactTimesArea(t, x, y) ==
            256 * (t.a.z * Area(t)) + OriginTop(t) + (x - MinX(t)) * SlopeTopX(t) + (y - MinY(t)) * SlopeTopY(t)
  {
    var x0, y0 := MinX(t), MinY(t);
    var i, j := x - x0, y - y0;
    EdgesSumToArea(t, x, y);
    EdgeIsPlane(t.c, t.a, x0, y0, i, j);
    EdgeIsPlane(t.a, t.b, x0, y0, i, j);
    Interpolated(t.a.z, t.b.z, t.c.z, Area(t), Edge(t.c, t.a, x, y), Edge(t.a, t.b, x, y));
    Spread(t.b.z - t.a.z, Edge(t.c, t.a, x0, y0), i, t.c.y - t.a.y, j, t.a.x - t.c.x);
    Spread(t.c.z - t.a.z, Edge(t.a, t.b, x0, y0), i, t.a.y - t.b.y, j, t.b.x - t.a.x);
    Gather(i, (t.b.z - t.a.z) * (t.c.y - t.a.y), (t.c.z - t.a.z) * (t.a.y - t.b.y));
    Gather(j, (t.b.z - t.a.z) * (t.a.x - t.c.x), (t.c.z - t.a.z) * (t.b.x - t.a.x));
  }

  lemma Interpolated(za: int, zb: int, zc: int, area: int, w1: int, w2: int)
    ensures za * (area - w1 - w2) + zb * w1 + zc * w2 == za * area + (zb - za) * w1 + (zc - za) * w2
  {
  }

  lemma Spread(d: int, e: int, i: int, u: int, j: int, v: int)
    ensures d * (e + i * u + j * v) == d * e + i * (d * u) + j * (d * v)
  {
    assert d * (e + i * u + j * v) == d * e + d * (i * u) + d * (j * v);
    assert d * (i * u) == i * (d * u);
    assert d * (j * v) == j * (d * v);
  }

  lemma Gather(i: int, u: int, v: int)
    ensures i * ((u + v) * 256) == 256 * (i * u) + 256 * (i * v)
  {
  }

  /** Three truncated divisions, two of them repeated once a step. */
  lemma ErrorSum(area: int, q0: int, n0: int, qx: int, nx: int, qy: int, ny: int, i: nat, j: nat)
    requires -area < q0 * area - n0 < area && -area < qx * area - nx < area && -area < qy * area - ny < area
    ensures var e := (q0 + i * qx + j * qy) * area - (n0 + i * nx + j * ny); -(area * (1 + i + j)) < e < area * (1 + i + j)
  {
    var ex, ey := qx * area - nx, qy * area - ny;
    assert i * ex == i * (qx * area) - i * nx;
    assert j * ey == j * (qy * area) - j * ny;
    assert (i * qx) * area == i * (qx * area);
    assert (j * qy) * area == j * (qy * area);
    assert (q0 + i * qx + j * qy) * area == q0 * area + (i * qx) * area + (j * qy) * area;
    Bounded(i, ex, area);
    Bounded(j, ey, area);
    assert area * (1 + i + j) == area + area * i + area * j;
  }

  lemma Bounded(i: nat, e: int, area: int)
    requires -area < e < area
    ensures -(area * i) <= i * e <= area * i
  {
    assert i * (area - e) >= 0;
    assert i * (area + e) >= 0;
    assert i * (area - e) == i * area - i * e;
    assert i * (area + e) == i * area + i * e;
  }

  /**
   * The accumulated depth is within 1 + (x - minx) + (y - miny) of 256 times the exact plane depth,
   * stated times the area.
   */
  lemma FixedPointBound(t: Face, x: int, y: int)
    requires Area(t) > 0 && MinX(t) <= x && MinY(t) <= y
    ensures var e := Zfp(t, x, y) * Area(t) - 256 * ExactTimesArea(t, x, y);
      var steps := 1 + (x - MinX(t)) + (y - MinY(t));
      -(Area(t) * steps) < e < Area(t) * steps
  {
    var area := Area(t);
    var i, j := x - MinX(t), y - MinY(t);
    DepthIsPlane(t, x, y);
    var q0, qx, qy := Quotient(OriginTop(t), area), Dzdx(t), Dzdy(t);
    ErrorSum(area, q0, OriginTop(t), qx, SlopeTopX(t), qy, SlopeTopY(t), i, j);
    Scaled(t.a.z, q0 + i * qx + j * qy, area);
  }

  lemma Scaled(z: int, s: int, area: int)
    ensures (z * 256 + s) * area == 256 * (z * area) + s * area
  {
  }

  // ---------------------------------------------------------------- the sign test

  /** Bitwise or. */
  function Or(a: nat, b: nat): nat
    decreases a + b
  {
    if a == 0 && b == 0 then 0 else 2 * Or(a / 2, b / 2) + if a % 2 == 0 && b % 2 == 0 then 0 else 1
  }

  /** The top bit of an or is the or of the top bits. */
  lemma {:induction false} OrTopBit(a: nat, b: nat, n: nat)
    requires a < 2 * Pow2(n) && b < 2 * Pow2(n)
    ensures Or(a, b) < 2 * Pow2(n) && (Or(a, b) >= Pow2(n) <==> a >= Pow2(n) || b >= Pow2(n))
    decreases n
  {
    if n > 0 {
      OrTopBit(a / 2, b / 2, n - 1);
    } else {
      assert Or(0, 0) == 0;
    }
  }

  lemma Pow2Is31()
    ensures Pow2(31) == 0x8000_0000
  {
    assert Pow2(8) == 0x100;
    assert Pow2(16) == 0x1_0000;
    assert Pow2(24) == 0x100_0000;
  }

  predicate Int32(w: int) { -0x8000_0000 <= w < 0x8000_0000 }

  /** (w0 | w1 | w2) >= 0 in two's complement. */
  predicate SignTest(w0: int, w1: int, w2: int) {
    Or(Or(w0 % 0x1_0000_0000, w1 % 0x1_0000_0000), w2 % 0x1_0000_0000) < 0x8000_0000
  }

  lemma SignBit(w: int)
    requires Int32(w)
    ensures w % 0x1_0000_0000 == if w >= 0 then w else w + 0x1_0000_0000
  {
  }

  lemma SignTestMeansAll(w0: int, w1: int, w2: int)
    requires Int32(w0) && Int32(w1) && Int32(w2)
    ensures SignTest(w0, w1, w2) <==> w0 >= 0 && w1 >= 0 && w2 >= 0
  {
    SignBit(w0);
    SignBit(w1);
    SignBit(w2);
    OrSigns(w0 % 0x1_0000_0000, w1 % 0x1_0000_0000, w2 % 0x1_0000_0000);
  }

  lemma OrSigns(u0: nat, u1: nat, u2: nat)
    requires u0 < 0x1_0000_0000 && u1 < 0x1_0000_0000 && u2 < 0x1_0000_0000
    ensures Or(Or(u0, u1), u2) < 0x8000_0000 <==> u0 < 0x8000_0000 && u1 < 0x8000_0000 && u2 < 0x8000_0000
  {
    Pow2Is31();
    OrTopBit(u0, u1, 31);
    OrTopBit(Or(u0, u1), u2, 31);
  }

  predicate Fits32(w: int) { -0x8000_0000 < w < 0x8000_0000 }

  predicate EdgesFit(t: Face, x: int, y: int) {
    Fits32(Edge(t.b, t.c, x, y)) && Fits32(Edge(t.c, t.a, x, y)) && Fits32(Edge(t.a, t.b, x, y))
  }

  /** The area and the edge values of the box fit 32 bits. */
  ghost predicate NoOverflow(t: Face) {
    Fits32(Area(t)) && forall x, y | 0 <= x < 288 && 0 <= y < 288 :: EdgesFit(t, x, y)
  }

  predicate Near(v: Vertex) { -0x3FFF <= v.x <= 0x3FFF && -0x3FFF <= v.y <= 0x3FFF }

  lemma ProductFits(u: int, v: int)
    requires -0x7FFE <= u <= 0x7FFE && -0x7FFE <= v <= 0x7FFE
    ensures -0x3FFE_8002 <= u * v <= 0x3FFE_8002
  {
    Bounded(if u >= 0 then u else -u, v, 0x7FFF);
    assert u < 0 ==> (-u) * v == -(u * v);
  }

  lemma EdgeFits(p: Vertex, q: Vertex, x: int, y: int)
    requires Near(p) && Near(q) && -0x3FFF <= x <= 0x3FFF && -0x3FFF <= y <= 0x3FFF
    ensures Fits32(Edge(p, q, x, y))
  {
    ProductFits(p.x - x, q.y - y);
    ProductFits(q.x - x, p.y - y);
  }

  /** Vertices within 16383 pixels of the box's corner overflow nothing. */
  lemma NearIsEnough(t: Face)
    requires Near(t.a) && Near(t.b) && Near(t.c)
    ensures NoOverflow(t)
  {
    EdgesSumToArea(t, t.a.x, t.a.y);
    EdgeFits(t.b, t.c, t.a.x, t.a.y);
    forall x, y | 0 <= x < 288 && 0 <= y < 288
      ensures EdgesFit(t, x, y)
    {
      EdgeFits(t.b, t.c, x, y);
      EdgeFits(t.c, t.a, x, y);
      EdgeFits(t.a, t.b, x, y);
    }
  }

  /** The winding flip overflows nothing new. */
  lemma OrientedFits(t: Face)
    requires NoOverflow(t)
    ensures NoOverflow(Oriented(t))
  {
    OrientedArea(t);
    forall x, y | 0 <= x < 288 && 0 <= y < 288
      ensures EdgesFit(Oriented(t), x, y)
    {
      assert EdgesFit(t, x, y);
      EdgeFlips(t.b, t.c, x, y);
      EdgeFlips(t.c, t.a, x, y);
      EdgeFlips(t.a, t.b, x, y);
    }
  }

  // ---------------------------------------------------------------- painting

  /** What one face of positive area leaves at a pixel. */
  function Painted(t: Face, f: int, x: int, y: int, p: Pixel): Pixel
    requires Area(t) > 0
  {
    if Inside(t, x, y) && Depth(t, x, y) < p.depth then Pixel(Depth(t, x, y), f) else p
  }

  /** What the faces before n leave at a pixel of a fresh box; slivers of area below 4 are skipped. */
  function PixelAfter(faces: seq<Face>, n: nat, x: int, y: int): Pixel
    requires n <= |faces|
  {
    if n == 0 then Pixel(0xFFFF, -1) else FaceAfter(faces[n - 1], n - 1, x, y, PixelAfter(faces, n - 1, x, y))
  }

  function FaceAfter(t: Face, f: int, x: int, y: int, p: Pixel): Pixel {
    OrientedArea(t);
    if Area(Oriented(t)) < 4 then p else Painted(Oriented(t), f, x, y, p)
  }

  /** Face f covers (x, y): it is no sliver and the three edge functions agree with its winding. */
  predicate Covers(t: Face, x: int, y: int) { Area(Oriented(t)) >= 4 && Inside(Oriented(t), x, y) }

  /** Which way round the vertices come does not matter to what is covered. */
  lemma CoversBothWindings(t: Face, x: int, y: int)
    ensures Covers(t, x, y) <==>
            || (Area(t) >= 4 && Inside(t, x, y))
            || (Area(t) <= -4 && Edge(t.b, t.c, x, y) <= 0 && Edge(t.c, t.a, x, y) <= 0 && Edge(t.a, t.b, x, y) <= 0)
  {
    EdgeFlips(t.b, t.c, x, y);
    EdgeFlips(t.c, t.a, x, y);
    EdgeFlips(t.a, t.b, x, y);
  }

  lemma EdgeFlips(p: Vertex, q: Vertex, x: int, y: int)
    ensures Edge(q, p, x, y) == -Edge(p, q, x, y)
  {
  }

  /** The depth a covering face has to offer. */
  function Offer(t: Face, x: int, y: int): nat
    requires Covers(t, x, y)
  {
    Depth(Oriented(t), x, y)
  }

  /** Face f is the nearest of the first n, and the first of the nearest. */
  ghost predicate Wins(faces: seq<Face>, n: nat, x: int, y: int, f: int)
    requires n <= |faces|
  {
    && 0 <= f < n && Covers(faces[f], x, y)
    && (forall g | 0 <= g < n && Covers(faces[g], x, y) :: Offer(faces[f], x, y) <= Offer(faces[g], x, y))
    && (forall g | 0 <= g < f && Covers(faces[g], x, y) :: Offer(faces[f], x, y) < Offer(faces[g], x, y))
  }

  /**
   * The final depth is the minimum of 0xFFFF and the depths of all covering faces, and the colour is that of
   * the first face to reach it.
   */
  lemma {:induction false} FinalPixel(faces: seq<Face>, n: nat, x: int, y: int)
    requires n <= |faces|
    ensures var p := PixelAfter(faces, n, x, y);
      && p.depth <= 0xFFFF
      && (forall g | 0 <= g < n && Covers(faces[g], x, y) :: p.depth <= Offer(faces[g], x, y))
      && (if p.owner == -1 then p.depth == 0xFFFF
          else Wins(faces, n, x, y, p.owner) && p.depth == Offer(faces[p.owner], x, y) < 0xFFFF)
  {
    if n > 0 {
      FinalPixel(faces, n - 1, x, y);
    }
  }

  // ---------------------------------------------------------------- the loops

  ghost predicate Box(px: array2<Pixel>) { px.Length0 == 288 && px.Length1 == 288 }

  /** A store into the framebuffer: a pixel of the box, one of its three bytes, and a value. */
  datatype Put = Put(x: nat, y: nat, channel: nat, v: byte)

  predicate InBox(p: Put) { p.x < 288 && p.y < 288 && p.channel < 3 }

  predicate AllInBox(puts: seq<Put>) { forall k | 0 <= k < |puts| :: InBox(puts[k]) }

  predicate StoresByte(puts: seq<Put>, x: int, y: int, channel: int) {
    exists k | 0 <= k < |puts| :: puts[k].x == x && puts[k].y == y && puts[k].channel == channel
  }

  /** All three bytes of the pixel are stored. */
  predicate Stored(puts: seq<Put>, x: int, y: int) {
    StoresByte(puts, x, y, 0) && StoresByte(puts, x, y, 1) && StoresByte(puts, x, y, 2)
  }

  lemma StoresMore(puts: seq<Put>, more: seq<Put>, x: int, y: int, channel: int)
    ensures StoresByte(puts, x, y, channel) || StoresByte(more, x, y, channel) ==> StoresByte(puts + more, x, y, channel)
  {
    var all := puts + more;
    if StoresByte(puts, x, y, channel) {
      var k :| 0 <= k < |puts| && puts[k].x == x && puts[k].y == y && puts[k].channel == channel;
      assert all[k] == puts[k];
    } else if StoresByte(more, x, y, channel) {
      var k :| 0 <= k < |more| && more[k].x == x && more[k].y == y && more[k].channel == channel;
      assert all[|puts| + k] == more[k];
    }
  }

  /** Further stores keep the earlier ones. */
  lemma StoredMore(puts: seq<Put>, more: seq<Put>)
    ensures AllInBox(puts) && AllInBox(more) ==> AllInBox(puts + more)
    ensures forall x, y | Stored(puts, x, y) || Stored(more, x, y) :: Stored(puts + more, x, y)
  {
    forall x, y | Stored(puts, x, y) || Stored(more, x, y)
      ensures Stored(puts + more, x, y)
    {
      StoresMore(puts, more, x, y, 0);
      StoresMore(puts, more, x, y, 1);
      StoresMore(puts, more, x, y, 2);
    }
  }

  /** The three byte stores of a painted pixel; their values are not modelled. */
  method Colour(x: nat, y: nat) returns (puts: seq<Put>)
    requires x < 288 && y < 288
    ensures AllInBox(puts) && Stored(puts, x, y)
  {
    var r: byte, g: byte, b: byte :| 0 <= r && 0 <= g && 0 <= b;
    puts := [Put(x, y, 0, r), Put(x, y, 1, g), Put(x, y, 2, b)];
    assert puts[0].channel == 0 && puts[1].channel == 1 && puts[2].channel == 2;
  }

  /** The body of the inner loop. */
  method Plot(px: array2<Pixel>, t: Face, f: int, x: int, y: int, w0: int, w1: int, w2: int, zfp: int)
    returns (puts: seq<Put>)
    requires Box(px) && NoOverflow(t) && Area(t) > 0 && 0 <= x < 288 && 0 <= y < 288
    requires w0 == Edge(t.b, t.c, x, y) && w1 == Edge(t.c, t.a, x, y) && w2 == Edge(t.a, t.b, x, y)
    requires zfp == Zfp(t, x, y)
    modifies px
    ensures px[y, x] == Painted(t, f, x, y, old(px[y, x]))
    ensures forall i, j | 0 <= i < 288 && 0 <= j < 288 && !(i == y && j == x) :: px[i, j] == old(px[i, j])
    ensures AllInBox(puts) && (px[y, x] != old(px[y, x]) ==> Stored(puts, x, y))
  {
    assert EdgesFit(t, x, y);
    SignTestMeansAll(w0, w1, w2);
    puts := [];
    if SignTest(w0, w1, w2) {
      var zq := (zfp % 0x1_0000_0000) / 256;
      if zq < px[y, x].depth {
        px[y, x] := Pixel(zq, f);
        puts := Colour(x, y);
      }
    }
  }

  lemma ZfpSteps(t: Face, x: int, y: int)
    requires Area(t) > 0
    ensures Zfp(t, x + 1, y) == Zfp(t, x, y) + Dzdx(t)
    ensures Zfp(t, x, y + 1) == Zfp(t, x, y) + Dzdy(t)
  {
    Distribute(x - MinX(t), Dzdx(t));
    Distribute(y - MinY(t), Dzdy(t));
  }

  lemma Distribute(k: int, d: int)
    ensures (k + 1) * d == k * d + d
  {
  }

  /** The edge values and the depth at (x, y), as the loops carry them. */
  datatype Walk = Walk(w0: int, w1: int, w2: int, zfp: int)

  function At(t: Face, x: int, y: int): Walk
    requires Area(t) > 0
  {
    Walk(Edge(t.b, t.c, x, y), Edge(t.c, t.a, x, y), Edge(t.a, t.b, x, y), Zfp(t, x, y))
  }

  method StepRight(t: Face, ghost x: int, ghost y: int, w: Walk, dzdx: int) returns (w': Walk)
    requires Area(t) > 0 && w == At(t, x, y) && dzdx == Dzdx(t)
    ensures w' == At(t, x + 1, y)
  {
    EdgeSteps(t.b, t.c, x, y);
    EdgeSteps(t.c, t.a, x, y);
    EdgeSteps(t.a, t.b, x, y);
    ZfpSteps(t, x, y);
    w' := Walk(w.w0 + (t.b.y - t.c.y), w.w1 + (t.c.y - t.a.y), w.w2 + (t.a.y - t.b.y), w.zfp + dzdx);
  }

  method StepDown(t: Face, ghost x: int, ghost y: int, w: Walk, dzdy: int) returns (w': Walk)
    requires Area(t) > 0 && w == At(t, x, y) && dzdy == Dzdy(t)
    ensures w' == At(t, x, y + 1)
  {
    EdgeSteps(t.b, t.c, x, y);
    EdgeSteps(t.c, t.a, x, y);
    EdgeSteps(t.a, t.b, x, y);
    ZfpSteps(t, x, y);
    w' := Walk(w.w0 + (t.c.x - t.b.x), w.w1 + (t.a.x - t.c.x), w.w2 + (t.b.x - t.a.x), w.zfp + dzdy);
  }

  /** One row of the bounding box. */
  method FillRow(px: array2<Pixel>, t: Face, f: int, y: int, row: Walk, dzdx: int) returns (puts: seq<Put>)
    requires Box(px) && NoOverflow(t) && Area(t) > 0 && 0 <= y < 288 && MinX(t) <= MaxX(t)
    requires row == At(t, MinX(t), y) && dzdx == Dzdx(t)
    modifies px
    ensures forall i, j | 0 <= i < 288 && 0 <= j < 288 ::
        px[i, j] == if i == y && MinX(t) <= j <= MaxX(t) then Painted(t, f, j, i, old(px[i, j])) else old(px[i, j])
    ensures AllInBox(puts) && forall i, j | 0 <= i < 288 && 0 <= j < 288 && px[i, j] != old(px[i, j]) :: Stored(puts, j, i)
  {
    puts := [];
    var w := row;
    var x := MinX(t);
    while x <= MaxX(t)
      invariant MinX(t) <= x <= MaxX(t) + 1 && w == At(t, x, y)
      invariant forall i, j | 0 <= i < 288 && 0 <= j < 288 ::
          px[i, j] == if i == y && MinX(t) <= j < x then Painted(t, f, j, i, old(px[i, j])) else old(px[i, j])
      invariant AllInBox(puts) && forall i, j | 0 <= i < 288 && 0 <= j < 288 && px[i, j] != old(px[i, j]) :: Stored(puts, j, i)
    {
      var more := Plot(px, t, f, x, y, w.w0, w.w1, w.w2, w.zfp);
      StoredMore(puts, more);
      puts := puts + more;
      w := StepRight(t, x, y, w, dzdx);
      x := x + 1;
    }
  }

  /** Every row of the bounding box: afterwards the face has been painted wherever it covers the box. */
  method FillFace(px: array2<Pixel>, t: Face, f: int) returns (puts: seq<Put>)
    requires Box(px) && NoOverflow(t) && Area(t) > 0
    modifies px
    ensures forall i, j | 0 <= i < 288 && 0 <= j < 288 :: px[i, j] == Painted(t, f, j, i, old(px[i, j]))
    ensures AllInBox(puts) && forall i, j | 0 <= i < 288 && 0 <= j < 288 && px[i, j] != old(px[i, j]) :: Stored(puts, j, i)
  {
    puts := [];
    if MinX(t) <= MaxX(t) && MinY(t) <= MaxY(t) {
      puts := FillBounds(px, t, f);
    }
    OutsideBoundsKept(t, f);
  }

  method FillBounds(px: array2<Pixel>, t: Face, f: int) returns (puts: seq<Put>)
    requires Box(px) && NoOverflow(t) && Area(t) > 0 && MinX(t) <= MaxX(t) && MinY(t) <= MaxY(t)
    modifies px
    ensures forall i, j | 0 <= i < 288 && 0 <= j < 288 ::
        px[i, j] == if InBounds(t, j, i) then Painted(t, f, j, i, old(px[i, j])) else old(px[i, j])
    ensures AllInBox(puts) && forall i, j | 0 <= i < 288 && 0 <= j < 288 && px[i, j] != old(px[i, j]) :: Stored(puts, j, i)
  {
    puts := [];
    var dzdx, dzdy := Dzdx(t), Dzdy(t);
    var row := At(t, MinX(t), MinY(t));
    var y := MinY(t);
    while y <= MaxY(t)
      invariant MinY(t) <= y <= MaxY(t) + 1 && row == At(t, MinX(t), y)
      invariant forall i, j | 0 <= i < 288 && 0 <= j < 288 ::
          px[i, j] == if InBounds(t, j, i) && i < y then Painted(t, f, j, i, old(px[i, j])) else old(px[i, j])
      invariant AllInBox(puts) && forall i, j | 0 <= i < 288 && 0 <= j < 288 && px[i, j] != old(px[i, j]) :: Stored(puts, j, i)
    {
      var more := FillRow(px, t, f, y, row, dzdx);
      StoredMore(puts, more);
      puts := puts + more;
      row := StepDown(t, MinX(t), y, row, dzdy);
      y := y + 1;
    }
  }

  predicate InBounds(t: Face, x: int, y: int) { MinX(t) <= x <= MaxX(t) && MinY(t) <= y <= MaxY(t) }

  lemma OutsideBoundsKept(t: Face, f: int)
    requires Area(t) > 0
    ensures forall x, y, p | 0 <= x < 288 && 0 <= y < 288 && !InBounds(t, x, y) :: Painted(t, f, x, y, p) == p
  {
    forall x, y, p | 0 <= x < 288 && 0 <= y < 288 && !InBounds(t, x, y)
      ensures Painted(t, f, x, y, p) == p
    {
      if Inside(t, x, y) {
        InsideIsInBounds(t, x, y);
      }
    }
  }

  /**
   * The rasterising part of teapot_render: a fresh box, then every face in turn. Its framebuffer stores are
   * returned in order; they lie in the box, and each of its pixels is stored.
   */
  method Render(px: array2<Pixel>, faces: seq<Face>) returns (puts: seq<Put>)
    requires Box(px) && forall f | 0 <= f < |faces| :: NoOverflow(faces[f])
    modifies px
    ensures forall i, j | 0 <= i < 288 && 0 <= j < 288 :: px[i, j] == PixelAfter(faces, |faces|, j, i)
    ensures AllInBox(puts) && forall x, y | 0 <= x < 288 && 0 <= y < 288 :: Stored(puts, x, y)
  {
    puts := Clear(px);
    for f := 0 to |faces|
      invariant forall i, j | 0 <= i < 288 && 0 <= j < 288 :: px[i, j] == PixelAfter(faces, f, j, i)
      invariant AllInBox(puts) && forall x, y | 0 <= x < 288 && 0 <= y < 288 :: Stored(puts, x, y)
    {
      var more := RenderFace(px, faces[f], f);
      StoredMore(puts, more);
      puts := puts + more;
    }
  }

  /** The zero bytes of row y. */
  function BlackRow(y: nat): (puts: seq<Put>)
    requires y < 288
    ensures |puts| == 864 && AllInBox(puts)
  {
    seq(864, k requires 0 <= k < 864 => Put(k / 3, y, k % 3, 0))
  }

  lemma BlackRowStores(x: nat, y: nat)
    requires x < 288 && y < 288
    ensures Stored(BlackRow(y), x, y)
  {
    var row := BlackRow(y);
    assert row[3 * x] == Put(x, y, 0, 0) && row[3 * x + 1] == Put(x, y, 1, 0) && row[3 * x + 2] == Put(x, y, 2, 0);
  }

  /** Far depth everywhere, and a black box row by row. */
  method Clear(px: array2<Pixel>) returns (puts: seq<Put>)
    requires Box(px)
    modifies px
    ensures forall i, j | 0 <= i < 288 && 0 <= j < 288 :: px[i, j] == Pixel(0xFFFF, -1)
    ensures AllInBox(puts) && forall x, y | 0 <= x < 288 && 0 <= y < 288 :: Stored(puts, x, y)
  {
    forall i, j | 0 <= i < 288 && 0 <= j < 288 {
      px[i, j] := Pixel(0xFFFF, -1);
    }
    puts := [];
    for r := 0 to 288
      invariant AllInBox(puts) && forall x, y | 0 <= x < 288 && 0 <= y < r :: Stored(puts, x, y)
      invariant forall i, j | 0 <= i < 288 && 0 <= j < 288 :: px[i, j] == Pixel(0xFFFF, -1)
    {
      StoredMore(puts, BlackRow(r));
      forall x | 0 <= x < 288
        ensures Stored(BlackRow(r), x, r)
      {
        BlackRowStores(x, r);
      }
      puts := puts + BlackRow(r);
    }
  }

  /** One face: flip its winding, skip it if it is a sliver, paint it. */
  method RenderFace(px: array2<Pixel>, face: Face, f: int) returns (puts: seq<Put>)
    requires Box(px) && NoOverflow(face)
    modifies px
    ensures forall i, j | 0 <= i < 288 && 0 <= j < 288 :: px[i, j] == FaceAfter(face, f, j, i, old(px[i, j]))
    ensures AllInBox(puts) && forall i, j | 0 <= i < 288 && 0 <= j < 288 && px[i, j] != old(px[i, j]) :: Stored(puts, j, i)
  {
    puts := [];
    var t, area := face, Area(face);
    if area < 0 {
      t := Face(face.a, face.c, face.b);
      area := -area;
    }
    OrientedArea(face);
    OrientedFits(face);
    if area >= 4 {
      puts := FillFace(px, t, f);
    }
  }
}
