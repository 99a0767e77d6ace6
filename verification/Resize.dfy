/** Bilinear scaling and cropping of RGB images, over exact reals. */
module Resize {
  import opened Bytes

  // ----- one axis -----

  /** Two neighbouring source indices and the weight of the second. */
  datatype Sampling = Sampling(first: int, second: int, weight: real)

  /** Where output position `d` of `dst` samples a source of `src`. */
  function Axis(d: nat, src: nat, dst: nat): Sampling
    requires d < dst
  {
    var s := (d as real + 0.5) * (src as real / dst as real) - 0.5;
    var lower := Sampling(s.Floor, s.Floor + 1, s - s.Floor as real);
    var raised := if lower.first < 0 then lower.(first := 0, weight := 0.0) else lower;
    if raised.second >= src then raised.(second := src - 1, weight := 1.0) else raised
  }

  lemma ProductSign(a: real, b: real)
    ensures a > 0.0 && b > 0.0 ==> a * b > 0.0
    ensures a >= 0.0 && b >= 0.0 ==> a * b >= 0.0
  {
  }

  lemma Portion(before: real, whole: real, q: real)
    requires 0.0 < before < whole && 0.0 < q
    ensures 0.0 < before * q < whole * q
  {
    ProductSign(before, q);
    ProductSign(whole - before, q);
  }

  lemma Quotient(a: real, b: real)
    requires 0.0 < a && 0.0 < b
    ensures 0.0 < a / b && b * (a / b) == a
  {
  }

  lemma ScaleBounds(d: nat, src: nat, dst: nat)
    requires d < dst && src > 0
    ensures 0.0 < (d as real + 0.5) * (src as real / dst as real) < src as real
  {
    Quotient(src as real, dst as real);
    assert d as real + 1.0 <= dst as real;
    Portion(d as real + 0.5, dst as real, src as real / dst as real);
  }

  /** Both indices lie in the source, next to each other, and the weight is a fraction. */
  lemma AxisInBounds(d: nat, src: nat, dst: nat)
    requires d < dst && src > 0
    ensures var a := Axis(d, src, dst);
      0 <= a.first <= a.second < src && a.second <= a.first + 1 && 0.0 <= a.weight <= 1.0
  {
    ScaleBounds(d, src, dst);
  }

  /**
   * Where the middle of output position `d` lies between the middles of the source
   * positions, when both span the same length.
   */
  function Middle(d: nat, src: nat, dst: nat): real
    requires d < dst
  {
    ((2 * d + 1) * src - dst) as real / (2 * dst) as real
  }

  function Clamp(s: real, last: int): real {
    if s < 0.0 then 0.0 else if s > last as real then last as real else s
  }

  lemma MiddleIsScaled(d: nat, src: nat, dst: nat)
    requires d < dst && src > 0
    ensures (d as real + 0.5) * (src as real / dst as real) - 0.5 == Middle(d, src, dst)
  {
    var m, n := src as real, dst as real;
    var q := m / n;
    assert q * n == m;
    var s := (d as real + 0.5) * q - 0.5;
    assert s * (2.0 * n) == (2.0 * d as real + 1.0) * (q * n) - n;
    var top, bottom := ((2 * d + 1) * src - dst) as real, (2 * dst) as real;
    assert ((2 * d + 1) * src) as real == (2.0 * d as real + 1.0) * m;
    assert top == (2.0 * d as real + 1.0) * m - n && bottom == 2.0 * n;
    OneQuotient(s, bottom, top);
  }

  lemma OneQuotient(q: real, b: real, a: real)
    requires b > 0.0 && q * b == a
    ensures a / b == q
  {
  }

  /** The two source positions and the weight make up that place, cut off at the borders. */
  lemma AxisIsMiddle(d: nat, src: nat, dst: nat)
    requires d < dst && src > 0
    ensures var a := Axis(d, src, dst);
      a.first as real + a.weight * (a.second as real - a.first as real) == Clamp(Middle(d, src, dst), src - 1)
  {
    MiddleIsScaled(d, src, dst);
    ScaleBounds(d, src, dst);
    hide Middle;
    var a, s := Axis(d, src, dst), Middle(d, src, dst);
    if s.Floor < 0 {
      assert a.first == 0 && a.second - a.first == 0 && s < 0.0;
    } else if s.Floor + 1 >= src {
      assert a.second == src - 1 && a.weight == 1.0 && s >= (src - 1) as real;
    } else {
      assert a.second - a.first == 1 && s >= 0.0 && s < (src - 1) as real;
    }
  }

  /** At unchanged size a position samples itself. */
  lemma AxisIdentity(d: nat, n: nat)
    requires d < n
    ensures var a := Axis(d, n, n); a.first == d && (a.weight == 0.0 || (a.weight == 1.0 && a.second == d))
  {
    assert n as real / n as real == 1.0;
    assert (d as real + 0.5) * 1.0 - 0.5 == d as real;
  }

  // ----- one byte -----

  function Blend(p00: int, p10: int, p01: int, p11: int, u: real, v: real): real {
    p00 as real * ((1.0 - u) * (1.0 - v)) + p10 as real * (u * (1.0 - v))
    + p01 as real * ((1.0 - u) * v) + p11 as real * (u * v)
  }

  lemma MixIsBetween(a: real, b: real, t: real, lo: real, hi: real)
    requires lo <= a <= hi && lo <= b <= hi && 0.0 <= t <= 1.0
    ensures lo <= a * (1.0 - t) + b * t <= hi
  {
    ProductSign(a - lo, 1.0 - t);
    ProductSign(b - lo, t);
    ProductSign(hi - a, 1.0 - t);
    ProductSign(hi - b, t);
    assert (a - lo) * (1.0 - t) + (b - lo) * t == a * (1.0 - t) + b * t - lo;
    assert (hi - a) * (1.0 - t) + (hi - b) * t == hi - (a * (1.0 - t) + b * t);
  }

  lemma BlendIsMixed(p00: real, p10: real, p01: real, p11: real, u: real, v: real)
    ensures p00 * ((1.0 - u) * (1.0 - v)) + p10 * (u * (1.0 - v)) + p01 * ((1.0 - u) * v) + p11 * (u * v)
         == (p00 * (1.0 - u) + p10 * u) * (1.0 - v) + (p01 * (1.0 - u) + p11 * u) * v
  {
  }

  /** A blend lies between any bounds of its four bytes, and so does its rounding. */
  lemma BlendIsBetween(p00: int, p10: int, p01: int, p11: int, u: real, v: real, lo: int, hi: int)
    requires 0.0 <= u <= 1.0 && 0.0 <= v <= 1.0
    requires lo <= p00 <= hi && lo <= p10 <= hi && lo <= p01 <= hi && lo <= p11 <= hi
    ensures lo <= (Blend(p00, p10, p01, p11, u, v) + 0.5).Floor <= hi
  {
    var a, b, c, d := p00 as real, p10 as real, p01 as real, p11 as real;
    var l, h := lo as real, hi as real;
    BlendIsMixed(a, b, c, d, u, v);
    MixIsBetween(a, b, u, l, h);
    MixIsBetween(c, d, u, l, h);
    MixIsBetween(a * (1.0 - u) + b * u, c * (1.0 - u) + d * u, v, l, h);
  }

  /** A surface that is straight along both axes. */
  function Surface(a: real, b: real, g: real, e: real, x: real, y: real): real {
    a + b * x + g * y + e * (x * y)
  }

  lemma SurfaceAlongX(a: real, b: real, g: real, e: real, x0: real, x1: real, y: real, u: real)
    ensures Surface(a, b, g, e, x0, y) * (1.0 - u) + Surface(a, b, g, e, x1, y) * u
         == Surface(a, b, g, e, x0 + u * (x1 - x0), y)
  {
    var d := b + e * y;
    assert Surface(a, b, g, e, x0, y) == a + g * y + d * x0;
    assert Surface(a, b, g, e, x1, y) == a + g * y + d * x1;
    assert Surface(a, b, g, e, x0 + u * (x1 - x0), y) == a + g * y + d * (x0 + u * (x1 - x0));
    assert d * (x0 + u * (x1 - x0)) == d * x0 * (1.0 - u) + d * x1 * u;
  }

  lemma SurfaceAlongY(a: real, b: real, g: real, e: real, x: real, y0: real, y1: real, v: real)
    ensures Surface(a, b, g, e, x, y0) * (1.0 - v) + Surface(a, b, g, e, x, y1) * v
         == Surface(a, b, g, e, x, y0 + v * (y1 - y0))
  {
    var d := g + e * x;
    assert Surface(a, b, g, e, x, y0) == a + b * x + d * y0;
    assert Surface(a, b, g, e, x, y1) == a + b * x + d * y1;
    assert Surface(a, b, g, e, x, y0 + v * (y1 - y0)) == a + b * x + d * (y0 + v * (y1 - y0));
    assert d * (y0 + v * (y1 - y0)) == d * y0 * (1.0 - v) + d * y1 * v;
  }

  /** Blending the corners of such a surface gives its value in between. */
  lemma BlendOfSurface(
    p: seq<int>, a: real, b: real, g: real, e: real, x0: real, x1: real, y0: real, y1: real, u: real, v: real,
    x: real, y: real)
    requires |p| == 4 && x == x0 + u * (x1 - x0) && y == y0 + v * (y1 - y0)
    requires p[0] as real == Surface(a, b, g, e, x0, y0) && p[1] as real == Surface(a, b, g, e, x1, y0)
    requires p[2] as real == Surface(a, b, g, e, x0, y1) && p[3] as real == Surface(a, b, g, e, x1, y1)
    ensures Blend(p[0], p[1], p[2], p[3], u, v) == Surface(a, b, g, e, x, y)
  {
    hide Surface;
    BlendIsMixed(p[0] as real, p[1] as real, p[2] as real, p[3] as real, u, v);
    SurfaceAlongX(a, b, g, e, x0, x1, y0, u);
    SurfaceAlongX(a, b, g, e, x0, x1, y1, u);
    SurfaceAlongY(a, b, g, e, x, y0, y1, v);
  }

  // ----- images -----

  /** Where channel `c` of the pixel in row `y` and column `x` lies. */
  function Index(w: nat, y: nat, x: nat, c: nat): nat {
    y * w * 3 + x * 3 + c
  }

  lemma IndexInBounds(w: nat, h: nat, y: nat, x: nat, c: nat)
    requires y < h && x < w && c < 3
    ensures Index(w, y, x, c) < Volume(h, w)
    ensures y * w * 3 + w * 3 <= Volume(h, w)
  {
    assert y * w + w == (y + 1) * w;
    assert (y + 1) * w <= h * w;
  }

  /** Bytes in `n` rows of `w` pixels. */
  function Volume(n: nat, w: nat): nat {
    n * w * 3
  }

  predicate Image(img: Text, w: nat, h: nat) {
    |img| == Volume(h, w)
  }

  /** The four bytes that an output byte is blended from. */
  function Corners(img: Text, w: nat, h: nat, dw: nat, dh: nat, dy: nat, dx: nat, c: nat): (r: seq<Byte>)
    requires Image(img, w, h) && w > 0 && h > 0 && dy < dh && dx < dw && c < 3
    ensures |r| == 4
  {
    var ax, ay := Axis(dx, w, dw), Axis(dy, h, dh);
    AxisInBounds(dx, w, dw);
    AxisInBounds(dy, h, dh);
    IndexInBounds(w, h, ay.first, ax.first, c);
    IndexInBounds(w, h, ay.first, ax.second, c);
    IndexInBounds(w, h, ay.second, ax.first, c);
    IndexInBounds(w, h, ay.second, ax.second, c);
    [img[Index(w, ay.first, ax.first, c)], img[Index(w, ay.first, ax.second, c)],
     img[Index(w, ay.second, ax.first, c)], img[Index(w, ay.second, ax.second, c)]]
  }

  /** One byte of the output: row `dy`, column `dx`, channel `c`. */
  function Sample(img: Text, w: nat, h: nat, dw: nat, dh: nat, dy: nat, dx: nat, c: nat): (b: Byte)
    requires Image(img, w, h) && w > 0 && h > 0 && dy < dh && dx < dw && c < 3
  {
    AxisInBounds(dx, w, dw);
    AxisInBounds(dy, h, dh);
    var p, u, v := Corners(img, w, h, dw, dh, dy, dx, c), Axis(dx, w, dw).weight, Axis(dy, h, dh).weight;
    BlendIsBetween(p[0], p[1], p[2], p[3], u, v, 0, 255);
    (Blend(p[0], p[1], p[2], p[3], u, v) + 0.5).Floor
  }

  /** The first `n` pixels of an output row. */
  function Pixels(img: Text, w: nat, h: nat, dw: nat, dh: nat, dy: nat, n: nat): (r: Text)
    requires Image(img, w, h) && w > 0 && h > 0 && dy < dh && n <= dw
    ensures |r| == 3 * n
  {
    if n == 0 then []
    else
      Pixels(img, w, h, dw, dh, dy, n - 1)
      + [Sample(img, w, h, dw, dh, dy, n - 1, 0), Sample(img, w, h, dw, dh, dy, n - 1, 1),
         Sample(img, w, h, dw, dh, dy, n - 1, 2)]
  }

  /** The first `n` output rows. */
  function Rows(img: Text, w: nat, h: nat, dw: nat, dh: nat, n: nat): (r: Text)
    requires Image(img, w, h) && w > 0 && h > 0 && n <= dh
    ensures |r| == Volume(n, dw)
  {
    if n == 0 then []
    else
      assert n * dw == (n - 1) * dw + dw;
      Rows(img, w, h, dw, dh, n - 1) + Pixels(img, w, h, dw, dh, n - 1, dw)
  }

  /** The image scaled to `dw` by `dh` pixels. */
  function Scaled(img: Text, w: nat, h: nat, dw: nat, dh: nat): Text
    requires Image(img, w, h) && w > 0 && h > 0
  {
    Rows(img, w, h, dw, dh, dh)
  }

  lemma RowStart(dw: nat, dh: nat, dy: nat)
    requires dy < dh
    ensures Volume(dy, dw) + dw * 3 == Volume(dy + 1, dw) <= Volume(dh, dw)
  {
    assert (dy + 1) * dw == dy * dw + dw;
    assert (dy + 1) * dw <= dh * dw;
  }

  lemma NoRows(w: nat)
    ensures Volume(0, w) == 0
  {
  }

  method BilinearResize(src: array<Byte>, w: nat, h: nat, dst: array<Byte>, dw: nat, dh: nat)
    requires Image(src[..], w, h) && w > 0 && h > 0
    requires dst != src && Volume(dh, dw) <= dst.Length
    modifies dst
    ensures dst[..Volume(dh, dw)] == Scaled(src[..], w, h, dw, dh)
    ensures dst[Volume(dh, dw)..] == old(dst[Volume(dh, dw)..])
  {
    hide Pixels;
    hide Volume;
    NoRows(dw);
    ghost var img, total := src[..], Volume(dh, dw);
    for dy := 0 to dh
      invariant Volume(dy, dw) <= total
      invariant dst[..Volume(dy, dw)] == Rows(img, w, h, dw, dh, dy)
      invariant dst[total..] == old(dst[total..])
    {
      RowStart(dw, dh, dy);
      ghost var next, before := Volume(dy, dw) + dw * 3, dst[Volume(dy, dw) + dw * 3..];
      assert before[total - next..] == dst[total..];
      ResizeRow(src, w, h, dst, dw, dh, dy);
      assert before[total - next..] == dst[total..];
    }
  }

  /** One output row. */
  method ResizeRow(src: array<Byte>, w: nat, h: nat, dst: array<Byte>, dw: nat, dh: nat, dy: nat)
    requires Image(src[..], w, h) && w > 0 && h > 0 && dy < dh
    requires dst != src && Volume(dy, dw) + dw * 3 <= dst.Length
    modifies dst
    ensures dst[..Volume(dy, dw) + dw * 3] == old(dst[..Volume(dy, dw)]) + Pixels(src[..], w, h, dw, dh, dy, dw)
    ensures dst[Volume(dy, dw) + dw * 3..] == old(dst[Volume(dy, dw) + dw * 3..])
  {
    hide Sample;
    hide Volume;
    ghost var img := src[..];
    var start := Volume(dy, dw);
    for dx := 0 to dw
      invariant dst[..start + 3 * dx] == old(dst[..start]) + Pixels(img, w, h, dw, dh, dy, dx)
      invariant dst[start + dw * 3..] == old(dst[start + dw * 3..])
    {
      ghost var before := dst[..start + 3 * dx];
      ghost var after := dst[start + dw * 3..];
      var at := start + 3 * dx;
      dst[at] := SampleAt(src, w, h, dw, dh, dy, dx, 0);
      dst[at + 1] := SampleAt(src, w, h, dw, dh, dy, dx, 1);
      dst[at + 2] := SampleAt(src, w, h, dw, dh, dy, dx, 2);
      assert dst[..at + 3] == before + [Sample(img, w, h, dw, dh, dy, dx, 0), Sample(img, w, h, dw, dh, dy, dx, 1),
                                        Sample(img, w, h, dw, dh, dy, dx, 2)];
      assert dst[start + dw * 3..] == after;
    }
  }

  /** One output byte, read from the source buffer. */
  function SampleAt(src: array<Byte>, w: nat, h: nat, dw: nat, dh: nat, dy: nat, dx: nat, c: nat): (b: Byte)
    requires Image(src[..], w, h) && w > 0 && h > 0 && dy < dh && dx < dw && c < 3
    reads src
    ensures b == Sample(src[..], w, h, dw, dh, dy, dx, c)
  {
    var ax, ay := Axis(dx, w, dw), Axis(dy, h, dh);
    AxisInBounds(dx, w, dw);
    AxisInBounds(dy, h, dh);
    IndexInBounds(w, h, ay.first, ax.first, c);
    IndexInBounds(w, h, ay.first, ax.second, c);
    IndexInBounds(w, h, ay.second, ax.first, c);
    IndexInBounds(w, h, ay.second, ax.second, c);
    var p00, p10 := src[Index(w, ay.first, ax.first, c)], src[Index(w, ay.first, ax.second, c)];
    var p01, p11 := src[Index(w, ay.second, ax.first, c)], src[Index(w, ay.second, ax.second, c)];
    BlendIsBetween(p00, p10, p01, p11, ax.weight, ay.weight, 0, 255);
    (Blend(p00, p10, p01, p11, ax.weight, ay.weight) + 0.5).Floor
  }

  // ----- what scaling promises -----

  /** Every output byte lies between any bounds of the four it is blended from. */
  lemma SampleIsBetween(img: Text, w: nat, h: nat, dw: nat, dh: nat, dy: nat, dx: nat, c: nat, lo: int, hi: int)
    requires Image(img, w, h) && w > 0 && h > 0 && dy < dh && dx < dw && c < 3
    requires forall k :: 0 <= k < 4 ==> lo <= Corners(img, w, h, dw, dh, dy, dx, c)[k] <= hi
    ensures lo <= Sample(img, w, h, dw, dh, dy, dx, c) <= hi
  {
    AxisInBounds(dx, w, dw);
    AxisInBounds(dy, h, dh);
    var p := Corners(img, w, h, dw, dh, dy, dx, c);
    BlendIsBetween(p[0], p[1], p[2], p[3], Axis(dx, w, dw).weight, Axis(dy, h, dh).weight, lo, hi);
  }

  /** The pixels within one row and one column of a place lie on this surface. */
  ghost predicate LiesOn(
    img: Text, w: nat, h: nat, c: nat, x: real, y: real, a: real, b: real, g: real, e: real)
    requires Image(img, w, h) && c < 3
  {
    forall m: nat, n: nat {:trigger Index(w, n, m, c)} ::
      (m < w && n < h && x - 1.0 <= m as real <= x + 1.0 && y - 1.0 <= n as real <= y + 1.0) ==>
      Index(w, n, m, c) < |img| && img[Index(w, n, m, c)] as real == Surface(a, b, g, e, m as real, n as real)
  }

  lemma OnSurface(
    img: Text, w: nat, h: nat, c: nat, x: real, y: real, a: real, b: real, g: real, e: real, m: nat, n: nat)
    requires Image(img, w, h) && c < 3 && LiesOn(img, w, h, c, x, y, a, b, g, e) && m < w && n < h
    requires x - 1.0 <= m as real <= x + 1.0 && y - 1.0 <= n as real <= y + 1.0
    ensures Index(w, n, m, c) < |img|
    ensures img[Index(w, n, m, c)] as real == Surface(a, b, g, e, m as real, n as real)
  {
  }

  /**
   * What bilinear scaling is: every output byte is the value, rounded, at the middle of its
   * place in the source, cut off at the borders, of the surface through the pixels around it.
   */
  lemma SampleIsBilinear(
    img: Text, w: nat, h: nat, dw: nat, dh: nat, dy: nat, dx: nat, c: nat, a: real, b: real, g: real, e: real)
    requires Image(img, w, h) && w > 0 && h > 0 && dy < dh && dx < dw && c < 3
    requires LiesOn(img, w, h, c, Clamp(Middle(dx, w, dw), w - 1), Clamp(Middle(dy, h, dh), h - 1), a, b, g, e)
    ensures var x, y := Clamp(Middle(dx, w, dw), w - 1), Clamp(Middle(dy, h, dh), h - 1);
      Sample(img, w, h, dw, dh, dy, dx, c) == (Surface(a, b, g, e, x, y) + 0.5).Floor
  {
    hide Axis;
    hide Middle;
    hide Clamp;
    hide Surface;
    hide Blend;
    hide Index;
    hide LiesOn;
    hide Sample;
    var ax, ay := Axis(dx, w, dw), Axis(dy, h, dh);
    var x, y := Clamp(Middle(dx, w, dw), w - 1), Clamp(Middle(dy, h, dh), h - 1);
    AxisInBounds(dx, w, dw);
    AxisInBounds(dy, h, dh);
    AxisIsMiddle(dx, w, dw);
    AxisIsMiddle(dy, h, dh);
    Near(ax.first, ax.second, ax.weight, x);
    Near(ay.first, ay.second, ay.weight, y);
    CornersOnSurface(img, w, h, dw, dh, dy, dx, c, x, y, a, b, g, e);
    BlendOfSurface(Corners(img, w, h, dw, dh, dy, dx, c), a, b, g, e,
                   ax.first as real, ax.second as real, ay.first as real, ay.second as real,
                   ax.weight, ay.weight, x, y);
    SampleIsBlend(img, w, h, dw, dh, dy, dx, c);
  }

  lemma SampleIsBlend(img: Text, w: nat, h: nat, dw: nat, dh: nat, dy: nat, dx: nat, c: nat)
    requires Image(img, w, h) && w > 0 && h > 0 && dy < dh && dx < dw && c < 3
    ensures var p := Corners(img, w, h, dw, dh, dy, dx, c);
      Sample(img, w, h, dw, dh, dy, dx, c) ==
        (Blend(p[0], p[1], p[2], p[3], Axis(dx, w, dw).weight, Axis(dy, h, dh).weight) + 0.5).Floor
  {
    hide Axis;
    hide Blend;
    hide Corners;
  }

  lemma CornersOnSurface(
    img: Text, w: nat, h: nat, dw: nat, dh: nat, dy: nat, dx: nat, c: nat,
    x: real, y: real, a: real, b: real, g: real, e: real)
    requires Image(img, w, h) && w > 0 && h > 0 && dy < dh && dx < dw && c < 3
    requires LiesOn(img, w, h, c, x, y, a, b, g, e)
    requires var ax, ay := Axis(dx, w, dw), Axis(dy, h, dh);
      && x - 1.0 <= ax.first as real <= x + 1.0 && x - 1.0 <= ax.second as real <= x + 1.0
      && y - 1.0 <= ay.first as real <= y + 1.0 && y - 1.0 <= ay.second as real <= y + 1.0
    ensures var p, ax, ay := Corners(img, w, h, dw, dh, dy, dx, c), Axis(dx, w, dw), Axis(dy, h, dh);
      && p[0] as real == Surface(a, b, g, e, ax.first as real, ay.first as real)
      && p[1] as real == Surface(a, b, g, e, ax.second as real, ay.first as real)
      && p[2] as real == Surface(a, b, g, e, ax.first as real, ay.second as real)
      && p[3] as real == Surface(a, b, g, e, ax.second as real, ay.second as real)
  {
    hide Axis;
    hide Surface;
    hide Index;
    hide LiesOn;
    var ax, ay := Axis(dx, w, dw), Axis(dy, h, dh);
    AxisInBounds(dx, w, dw);
    AxisInBounds(dy, h, dh);
    OnSurface(img, w, h, c, x, y, a, b, g, e, ax.first, ay.first);
    OnSurface(img, w, h, c, x, y, a, b, g, e, ax.second, ay.first);
    OnSurface(img, w, h, c, x, y, a, b, g, e, ax.first, ay.second);
    OnSurface(img, w, h, c, x, y, a, b, g, e, ax.second, ay.second);
  }

  lemma Near(first: int, second: int, weight: real, s: real)
    requires first <= second <= first + 1 && 0.0 <= weight <= 1.0
    requires first as real + weight * (second as real - first as real) == s
    ensures s - 1.0 <= first as real <= s + 1.0 && s - 1.0 <= second as real <= s + 1.0
  {
    if second == first {
      assert weight * 0.0 == 0.0;
    } else {
      assert second as real == first as real + 1.0;
      assert s == first as real + weight;
    }
  }

  /** Two pixels of 0 and 100 scaled to four: the bytes are 0, 25, 75 and 100. */
  lemma FourFromTwo(img: Text, c: nat)
    requires img == [0, 0, 0, 100, 100, 100] && c < 3
    ensures Sample(img, 2, 1, 4, 1, 0, 0, c) == 0 && Sample(img, 2, 1, 4, 1, 0, 1, c) == 25
    ensures Sample(img, 2, 1, 4, 1, 0, 2, c) == 75 && Sample(img, 2, 1, 4, 1, 0, 3, c) == 100
  {
    hide Sample;
    RowOfTwo(img, c, 0);
    RowOfTwo(img, c, 1);
    RowOfTwo(img, c, 2);
    RowOfTwo(img, c, 3);
  }

  lemma RowOfTwo(img: Text, c: nat, d: nat)
    requires img == [0, 0, 0, 100, 100, 100] && c < 3 && d < 4
    ensures Sample(img, 2, 1, 4, 1, 0, d, c) == (100.0 * Clamp(Middle(d, 2, 4), 1) + 0.5).Floor
  {
    hide Sample;
    var x, y := Clamp(Middle(d, 2, 4), 1), Clamp(Middle(0, 1, 1), 0);
    assert LiesOn(img, 2, 1, c, x, y, 0.0, 100.0, 0.0, 0.0);
    SampleIsBilinear(img, 2, 1, 4, 1, 0, d, c, 0.0, 100.0, 0.0, 0.0);
  }

  /** At unchanged size every byte is the one at the same place. */
  lemma SampleIdentity(img: Text, w: nat, h: nat, dy: nat, dx: nat, c: nat)
    requires Image(img, w, h) && w > 0 && h > 0 && dy < h && dx < w && c < 3
    ensures Index(w, dy, dx, c) < |img| && Sample(img, w, h, w, h, dy, dx, c) == img[Index(w, dy, dx, c)]
  {
    var ax, ay := Axis(dx, w, w), Axis(dy, h, h);
    AxisInBounds(dx, w, w);
    AxisInBounds(dy, h, h);
    AxisIdentity(dx, w);
    AxisIdentity(dy, h);
    IndexInBounds(w, h, dy, dx, c);
    var p := Corners(img, w, h, w, h, dy, dx, c);
    BlendCorner(p[0], p[1], p[2], p[3], ax.weight, ay.weight);
  }

  /** A blend whose weights are zero or one is one of the bytes. */
  lemma BlendCorner(p00: int, p10: int, p01: int, p11: int, u: real, v: real)
    requires u == 0.0 || (u == 1.0 && p10 == p00 && p11 == p01)
    requires v == 0.0 || (v == 1.0 && p01 == p00 && p11 == p10)
    ensures (Blend(p00, p10, p01, p11, u, v) + 0.5).Floor == p00
  {
  }

  lemma {:induction false} PixelsIdentity(img: Text, w: nat, h: nat, dy: nat, n: nat)
    requires Image(img, w, h) && w > 0 && h > 0 && dy < h && n <= w
    ensures Volume(dy, w) + 3 * n <= |img|
    ensures Pixels(img, w, h, w, h, dy, n) == img[Volume(dy, w)..Volume(dy, w) + 3 * n]
  {
    hide Sample;
    RowStart(w, h, dy);
    if n > 0 {
      PixelsIdentity(img, w, h, dy, n - 1);
      SampleIdentity(img, w, h, dy, n - 1, 0);
      SampleIdentity(img, w, h, dy, n - 1, 1);
      SampleIdentity(img, w, h, dy, n - 1, 2);
    }
  }

  lemma {:induction false} RowsIdentity(img: Text, w: nat, h: nat, n: nat)
    requires Image(img, w, h) && w > 0 && h > 0 && n <= h
    ensures Volume(n, w) <= |img| && Rows(img, w, h, w, h, n) == img[..Volume(n, w)]
  {
    hide Pixels;
    if n > 0 {
      RowsIdentity(img, w, h, n - 1);
      PixelsIdentity(img, w, h, n - 1, w);
      RowStart(w, h, n - 1);
      assert img[..Volume(n, w)] == img[..Volume(n - 1, w)] + img[Volume(n - 1, w)..Volume(n, w)];
    }
  }

  /** Scaling to the same size changes nothing. */
  lemma ScaledIdentity(img: Text, w: nat, h: nat)
    requires Image(img, w, h) && w > 0 && h > 0
    ensures Scaled(img, w, h, w, h) == img
  {
    RowsIdentity(img, w, h, h);
  }

  // ----- cropping -----

  /** The part of an image of width `w` that starts at `x`, `y` and is `cw` wide, its first `n` rows. */
  function Cropped(img: Text, w: nat, h: nat, x: nat, y: nat, cw: nat, n: nat): (r: Text)
    requires Image(img, w, h) && x + cw <= w && y + n <= h
    ensures |r| == Volume(n, cw)
  {
    if n == 0 then []
    else
      assert n * cw == (n - 1) * cw + cw;
      CropRowInBounds(w, h, x, y + n - 1, cw);
      var at := (y + n - 1) * (w * 3) + x * 3;
      Cropped(img, w, h, x, y, cw, n - 1) + img[at..at + cw * 3]
  }

  lemma CropRowInBounds(w: nat, h: nat, x: nat, y: nat, cw: nat)
    requires x + cw <= w && y < h
    ensures y * (w * 3) + x * 3 + cw * 3 <= Volume(h, w)
  {
    assert (y + 1) * w == y * w + w;
    assert (y + 1) * w <= h * w;
    assert y * (w * 3) == y * w * 3;
  }

  datatype Region = Region(x1: int, y1: int, x2: int, y2: int)

  /** The region clipped to the image. */
  function Clipped(roi: Region, w: nat, h: nat): Region {
    Region(if roi.x1 < 0 then 0 else roi.x1, if roi.y1 < 0 then 0 else roi.y1,
           if roi.x2 > w then w else roi.x2, if roi.y2 > h then h else roi.y2)
  }

  predicate Empty(r: Region) {
    r.x2 - r.x1 <= 0 || r.y2 - r.y1 <= 0
  }

  predicate Inside(r: Region, x: int, y: int) {
    r.x1 <= x < r.x2 && r.y1 <= y < r.y2
  }

  /** Clipping keeps the pixels of the region that the image has. */
  lemma ClippedIsIntersection(roi: Region, w: nat, h: nat, x: int, y: int)
    ensures Inside(Clipped(roi, w, h), x, y) <==> Inside(roi, x, y) && 0 <= x < w && 0 <= y < h
  {
  }

  /** A region is empty when it has no pixel. */
  lemma EmptyHasNone(r: Region)
    ensures Empty(r) <==> !exists x, y :: Inside(r, x, y)
  {
    if !Empty(r) {
      assert Inside(r, r.x1, r.y1);
    }
  }

  /** A pixel of the part cut out is the one that far from the part's corner. */
  lemma {:induction false} CroppedPixel(
    img: Text, w: nat, h: nat, x: nat, y: nat, cw: nat, n: nat, row: nat, column: nat, c: nat)
    requires Image(img, w, h) && x + cw <= w && y + n <= h && row < n && column < cw && c < 3
    ensures Index(cw, row, column, c) < Volume(n, cw) && Index(w, y + row, x + column, c) < |img|
    ensures Cropped(img, w, h, x, y, cw, n)[Index(cw, row, column, c)] == img[Index(w, y + row, x + column, c)]
    decreases n
  {
    hide Index;
    hide Volume;
    IndexInBounds(cw, n, row, column, c);
    IndexInBounds(w, h, y + row, x + column, c);
    RowStart(cw, n, n - 1);
    CropRowInBounds(w, h, x, y + n - 1, cw);
    var before := Cropped(img, w, h, x, y, cw, n - 1);
    if row < n - 1 {
      IndexInBounds(cw, n - 1, row, column, c);
      CroppedPixel(img, w, h, x, y, cw, n - 1, row, column, c);
    } else {
      IndexInRow(cw, row, column, c);
      IndexInRow(w, y + row, x + column, c);
    }
  }

  lemma IndexInRow(w: nat, y: nat, x: nat, c: nat)
    ensures Index(w, y, x, c) == Volume(y, w) + x * 3 + c && Volume(y, w) == y * (w * 3)
  {
    assert y * (w * 3) == y * w * 3;
  }

  /** What cropping and scaling should give: cut the clipped region out, then scale it. */
  function CropScaled(img: Text, w: nat, h: nat, roi: Region, size: nat): Text
    requires Image(img, w, h) && !Empty(Clipped(roi, w, h))
  {
    var r := Clipped(roi, w, h);
    Scaled(Cropped(img, w, h, r.x1, r.y1, r.x2 - r.x1, r.y2 - r.y1), r.x2 - r.x1, r.y2 - r.y1, size, size)
  }

  /** Copies the rows of a region to the start of another buffer. */
  method CopyRows(src: array<Byte>, w: nat, h: nat, x: nat, y: nat, cw: nat, ch: nat, dst: array<Byte>)
    requires Image(src[..], w, h) && x + cw <= w && y + ch <= h
    requires dst != src && Volume(ch, cw) <= dst.Length
    modifies dst
    ensures dst[..Volume(ch, cw)] == Cropped(src[..], w, h, x, y, cw, ch)
    ensures dst[Volume(ch, cw)..] == old(dst[Volume(ch, cw)..])
  {
    hide Volume;
    NoRows(cw);
    ghost var img, total := src[..], Volume(ch, cw);
    for row := 0 to ch
      invariant Volume(row, cw) <= total
      invariant dst[..Volume(row, cw)] == Cropped(img, w, h, x, y, cw, row)
      invariant dst[total..] == old(dst[total..])
    {
      RowStart(cw, ch, row);
      CropRowInBounds(w, h, x, y + row, cw);
      CopyBytes(src, (y + row) * (w * 3) + x * 3, dst, Volume(row, cw), cw * 3, total);
    }
  }

  /** `memcpy` */
  method CopyBytes(src: array<Byte>, from: nat, dst: array<Byte>, to: nat, n: nat, ghost total: nat)
    requires from + n <= src.Length && to + n <= total <= dst.Length && src != dst
    modifies dst
    ensures dst[..to + n] == old(dst[..to]) + src[from..from + n]
    ensures dst[total..] == old(dst[total..])
  {
    forall i | 0 <= i < n {
      dst[to + i] := src[from + i];
    }
  }

  /**
   * Crops and scales to a square.  The copy taken when the region already has the
   * right size gives what scaling would have given.
   */
  method CropResize(rgb: array<Byte>, w: nat, h: nat, roi: Region, dst: array<Byte>, size: nat) returns (code: int)
    requires Image(rgb[..], w, h) && dst != rgb && Volume(size, size) <= dst.Length
    modifies dst
    ensures code == if Empty(Clipped(roi, w, h)) then -1 else 0
    ensures code == 0 ==> dst[..Volume(size, size)] == CropScaled(rgb[..], w, h, roi, size)
    ensures code == -1 ==> dst[..] == old(dst[..])
    ensures dst[Volume(size, size)..] == old(dst[Volume(size, size)..])
  {
    hide Scaled;
    hide Cropped;
    hide Volume;
    var r := Clipped(roi, w, h);
    var roiW, roiH := r.x2 - r.x1, r.y2 - r.y1;
    if roiW <= 0 || roiH <= 0 {
      return -1;
    }
    if roiW == size && roiH == size {
      CopyRows(rgb, w, h, r.x1, r.y1, size, size, dst);
      ScaledIdentity(Cropped(rgb[..], w, h, r.x1, r.y1, size, size), size, size);
      return 0;
    }
    var area := Volume(roiH, roiW);
    var buffer := new Byte[area];
    CopyRows(rgb, w, h, r.x1, r.y1, roiW, roiH, buffer);
    assert buffer[..] == buffer[..area];
    BilinearResize(buffer, roiW, roiH, dst, size, size);
    code := 0;
  }
}
