/** From the detector's outputs to face rectangles: decoding, filtering, greedy suppression. */
module Suppression {
  import opened Bytes

  /** Corners in pixels of the image, over exact reals. */
  datatype Box = Box(x1: real, y1: real, x2: real, y2: real, score: real)

  datatype Prior = Prior(cx: real, cy: real, w: real, h: real)

  /** What the network says about one anchor. */
  datatype Output = Output(score: real, dx: real, dy: real, dw: real, dh: real)

  datatype Rect = Rect(x: int, y: int, w: int, h: int)

  const CENTER_VARIANCE := 0.1
  const SIZE_VARIANCE := 0.2
  const CONF_THRESHOLD := 0.7
  const NMS_THRESHOLD := 0.3
  const TINY := 0.000001

  function Min(a: real, b: real): real {
    if a < b then a else b
  }

  function Max(a: real, b: real): real {
    if a > b then a else b
  }

  // ----- decoding -----

  function Corners(o: Output, p: Prior, width: nat, height: nat, exp: real -> real): Box {
    Framed(Centre(o.dx, p.w, p.cx), Centre(o.dy, p.h, p.cy), Side(o.dw, p.w, exp), Side(o.dh, p.h, exp),
           width, height, o.score)
  }

  function Centre(offset: real, prior: real, at: real): real {
    offset * CENTER_VARIANCE * prior + at
  }

  function Side(scale: real, prior: real, exp: real -> real): real {
    var clamped := Max(-5.0, Min(5.0, scale));
    exp(clamped * SIZE_VARIANCE) * prior
  }

  /** The box with this centre and size, as fractions of the image, cut off at its edges. */
  function Framed(cx: real, cy: real, w: real, h: real, width: nat, height: nat, score: real): Box {
    Box(Max(0.0, Pixels(cx - w * 0.5, width)), Max(0.0, Pixels(cy - h * 0.5, height)),
        Min(width as real, Pixels(cx + w * 0.5, width)), Min(height as real, Pixels(cy + h * 0.5, height)),
        score)
  }

  /** A fraction of the image in pixels. */
  function Pixels(part: real, size: nat): real {
    part * size as real
  }

  predicate Large(b: Box) {
    b.x2 - b.x1 > 10.0 && b.y2 - b.y1 > 10.0
  }

  /** The box of an anchor, if it is likely and large enough. */
  function Decode(o: Output, p: Prior, width: nat, height: nat, exp: real -> real): Option<Box> {
    if o.score < CONF_THRESHOLD then None
    else if Large(Corners(o, p, width, height, exp)) then Some(Corners(o, p, width, height, exp))
    else None
  }

  function Candidates(os: seq<Output>, ps: seq<Prior>, width: nat, height: nat, exp: real -> real): seq<Box>
    decreases os
  {
    if os == [] || ps == [] then []
    else
      (match Decode(os[0], ps[0], width, height, exp) case None => [] case Some(b) => [b])
      + Candidates(os[1..], ps[1..], width, height, exp)
  }

  /** What every candidate is: likely, large, and inside the image. */
  predicate Good(b: Box, width: nat, height: nat) {
    && b.score >= CONF_THRESHOLD && Large(b)
    && 0.0 <= b.x1 && 0.0 <= b.y1 && b.x2 <= width as real && b.y2 <= height as real
  }

  lemma DecodedIsGood(o: Output, p: Prior, width: nat, height: nat, exp: real -> real)
    ensures var r := Decode(o, p, width, height, exp); r.Some? ==> Good(r.value, width, height)
  {
    var b := Corners(o, p, width, height, exp);
    assert b.x1 >= 0.0 && b.y1 >= 0.0 && b.x2 <= width as real && b.y2 <= height as real && b.score == o.score;
    hide Corners;
  }

  lemma {:induction false} CandidatesAreGood(
    os: seq<Output>, ps: seq<Prior>, width: nat, height: nat, exp: real -> real)
    ensures forall b :: b in Candidates(os, ps, width, height, exp) ==> Good(b, width, height)
    decreases os
  {
    hide Decode;
    hide Good;
    if os != [] && ps != [] {
      CandidatesAreGood(os[1..], ps[1..], width, height, exp);
      DecodedIsGood(os[0], ps[0], width, height, exp);
    }
  }

  /** The output that codes a box with this centre and size relative to the prior. */
  predicate Codes(o: Output, p: Prior, cx: real, cy: real, w: real, h: real, exp: real -> real) {
    && p.w > 0.0 && p.h > 0.0
    && o.dx == (cx - p.cx) / (CENTER_VARIANCE * p.w) && o.dy == (cy - p.cy) / (CENTER_VARIANCE * p.h)
    && -5.0 <= o.dw <= 5.0 && exp(o.dw * SIZE_VARIANCE) == w / p.w
    && -5.0 <= o.dh <= 5.0 && exp(o.dh * SIZE_VARIANCE) == h / p.h
  }

  lemma CentreInverts(offset: real, prior: real, at: real, c: real)
    requires prior > 0.0 && offset == (c - at) / (CENTER_VARIANCE * prior)
    ensures Centre(offset, prior, at) == c
  {
    var unit := CENTER_VARIANCE * prior;
    assert offset * unit == c - at;
    assert offset * CENTER_VARIANCE * prior == offset * unit;
  }

  lemma SideInverts(scale: real, prior: real, s: real, exp: real -> real)
    requires prior > 0.0 && -5.0 <= scale <= 5.0 && exp(scale * SIZE_VARIANCE) == s / prior
    ensures Side(scale, prior, exp) == s
  {
    assert Max(-5.0, Min(5.0, scale)) == scale;
    assert s / prior * prior == s;
  }

  /** Decoding undoes coding: a box inside the image comes back corner by corner. */
  lemma DecodeInverts(
    o: Output, p: Prior, cx: real, cy: real, w: real, h: real, width: nat, height: nat, exp: real -> real)
    requires Codes(o, p, cx, cy, w, h, exp)
    requires 0.0 <= Pixels(cx - w * 0.5, width) && Pixels(cx + w * 0.5, width) <= width as real
    requires 0.0 <= Pixels(cy - h * 0.5, height) && Pixels(cy + h * 0.5, height) <= height as real
    ensures Corners(o, p, width, height, exp) ==
      Box(Pixels(cx - w * 0.5, width), Pixels(cy - h * 0.5, height),
          Pixels(cx + w * 0.5, width), Pixels(cy + h * 0.5, height), o.score)
  {
    CentreInverts(o.dx, p.w, p.cx, cx);
    CentreInverts(o.dy, p.h, p.cy, cy);
    SideInverts(o.dw, p.w, w, exp);
    SideInverts(o.dh, p.h, h, exp);
    hide Centre;
    hide Side;
    hide Pixels;
    Unclipped(Pixels(cx - w * 0.5, width), Pixels(cx + w * 0.5, width), width as real);
    Unclipped(Pixels(cy - h * 0.5, height), Pixels(cy + h * 0.5, height), height as real);
  }

  lemma Unclipped(low: real, high: real, limit: real)
    requires 0.0 <= low && high <= limit
    ensures Max(0.0, low) == low && Min(limit, high) == high
  {
  }

  predicate LargerOf(r: real, a: real, b: real) {
    r >= a && r >= b && (r == a || r == b)
  }

  predicate SmallerOf(r: real, a: real, b: real) {
    r <= a && r <= b && (r == a || r == b)
  }

  /** A scale, cut off at 5 either way. */
  function Limited(scale: real): real {
    if scale < -5.0 then -5.0 else if scale > 5.0 then 5.0 else scale
  }

  /**
   * What an output says: the centre is off the prior's by a tenth of the prior's side for
   * each unit, each side is the prior's times the exponential of a fifth of its scale, and
   * the box, in pixels, is cut off at the edges of the image.
   */
  lemma CornersExactly(o: Output, p: Prior, width: nat, height: nat, exp: real -> real)
    ensures var b := Corners(o, p, width, height, exp);
      var cx, cy := p.cx + o.dx * p.w / 10.0, p.cy + o.dy * p.h / 10.0;
      var w, h := exp(Limited(o.dw) / 5.0) * p.w, exp(Limited(o.dh) / 5.0) * p.h;
      && b.score == o.score
      && LargerOf(b.x1, 0.0, (cx - w / 2.0) * width as real)
      && SmallerOf(b.x2, width as real, (cx + w / 2.0) * width as real)
      && LargerOf(b.y1, 0.0, (cy - h / 2.0) * height as real)
      && SmallerOf(b.y2, height as real, (cy + h / 2.0) * height as real)
  {
    CentreIs(o.dx, p.w, p.cx);
    CentreIs(o.dy, p.h, p.cy);
    SideIs(o.dw, p.w, exp);
    SideIs(o.dh, p.h, exp);
    hide Centre;
    hide Side;
  }

  lemma CentreIs(offset: real, prior: real, at: real)
    ensures Centre(offset, prior, at) == at + offset * prior / 10.0
  {
    assert offset * CENTER_VARIANCE * prior == offset * prior / 10.0;
  }

  lemma SideIs(scale: real, prior: real, exp: real -> real)
    ensures Side(scale, prior, exp) == exp(Limited(scale) / 5.0) * prior
  {
    assert Limited(scale) * SIZE_VARIANCE == Limited(scale) / 5.0;
  }

  /** An anchor gives a candidate when its score is at least 0.7 and both sides are longer than 10 pixels. */
  lemma CandidateExactly(o: Output, p: Prior, width: nat, height: nat, exp: real -> real)
    ensures var b, r := Corners(o, p, width, height, exp), Decode(o, p, width, height, exp);
      && (r.Some? <==> 10.0 * o.score >= 7.0 && b.x2 > b.x1 + 10.0 && b.y2 > b.y1 + 10.0)
      && (r.Some? ==> r.value == b)
  {
    hide Corners;
  }

  method Collect(os: seq<Output>, ps: seq<Prior>, width: nat, height: nat, exp: real -> real)
    returns (candidates: seq<Box>)
    ensures candidates == Candidates(os, ps, width, height, exp)
  {
    hide Decode;
    hide Candidates;
    candidates := [];
    assert os[0..] == os && ps[0..] == ps;
    var i := 0;
    while i < |os| && i < |ps|
      invariant 0 <= i <= |os| && i <= |ps|
      invariant candidates + Candidates(os[i..], ps[i..], width, height, exp) == Candidates(os, ps, width, height, exp)
    {
      CandidatesStep(os, ps, i, width, height, exp);
      var box := Decode(os[i], ps[i], width, height, exp);
      if box.Some? {
        candidates := candidates + [box.value];
      }
      i := i + 1;
    }
    CandidatesEnd(os[i..], ps[i..], width, height, exp);
  }

  lemma CandidatesStep(os: seq<Output>, ps: seq<Prior>, i: nat, width: nat, height: nat, exp: real -> real)
    requires i < |os| && i < |ps|
    ensures Candidates(os[i..], ps[i..], width, height, exp) ==
      (match Decode(os[i], ps[i], width, height, exp) case None => [] case Some(b) => [b])
      + Candidates(os[i + 1..], ps[i + 1..], width, height, exp)
  {
    hide Decode;
    assert os[i..][1..] == os[i + 1..] && ps[i..][1..] == ps[i + 1..];
  }

  lemma CandidatesEnd(os: seq<Output>, ps: seq<Prior>, width: nat, height: nat, exp: real -> real)
    requires os == [] || ps == []
    ensures Candidates(os, ps, width, height, exp) == []
  {
  }

  // ----- overlap -----

  predicate Proper(b: Box) {
    b.x1 < b.x2 && b.y1 < b.y2
  }

  function Area(b: Box): real {
    (b.x2 - b.x1) * (b.y2 - b.y1)
  }

  function Shared(a: Box, b: Box): real {
    Common(a.x1, a.x2, b.x1, b.x2) * Common(a.y1, a.y2, b.y1, b.y2)
  }

  lemma ProductGrows(a: real, b: real, c: real, d: real)
    requires 0.0 <= a <= c && 0.0 <= b <= d
    ensures 0.0 <= a * b <= c * d
  {
    assert a * b <= c * b;
    assert c * b <= c * d;
  }

  /** The shared part of two intervals. */
  function Common(a1: real, a2: real, b1: real, b2: real): real {
    Max(0.0, Min(a2, b2) - Max(a1, b1))
  }

  lemma CommonIsInside(a1: real, a2: real, b1: real, b2: real)
    requires a1 < a2 && b1 < b2
    ensures 0.0 <= Common(a1, a2, b1, b2) <= a2 - a1 && Common(a1, a2, b1, b2) <= b2 - b1
    ensures Common(a1, a2, b1, b2) == Common(b1, b2, a1, a2)
    ensures Common(a1, a2, a1, a2) == a2 - a1
  {
  }

  lemma ProductPositive(a: real, b: real)
    requires 0.0 < a && 0.0 < b
    ensures 0.0 < a * b
  {
  }

  lemma SharedIsSymmetric(a: Box, b: Box)
    requires Proper(a) && Proper(b)
    ensures Shared(a, b) == Shared(b, a) && Shared(a, a) == Area(a)
  {
    hide Common;
    CommonIsInside(a.x1, a.x2, b.x1, b.x2);
    CommonIsInside(a.y1, a.y2, b.y1, b.y2);
  }

  /** The shared area is no larger than either. */
  lemma SharedIsInside(a: Box, b: Box)
    requires Proper(a) && Proper(b)
    ensures 0.0 <= Shared(a, b) <= Area(a) && Shared(a, b) <= Area(b)
    ensures 0.0 < Area(a) && 0.0 < Area(b)
  {
    hide Common;
    CommonIsInside(a.x1, a.x2, b.x1, b.x2);
    CommonIsInside(a.y1, a.y2, b.y1, b.y2);
    var w, h := Common(a.x1, a.x2, b.x1, b.x2), Common(a.y1, a.y2, b.y1, b.y2);
    assert Shared(a, b) == w * h;
    hide Shared;
    Grows(w, h, a);
    Grows(w, h, b);
  }

  lemma Grows(w: real, h: real, b: Box)
    requires Proper(b) && 0.0 <= w <= b.x2 - b.x1 && 0.0 <= h <= b.y2 - b.y1
    ensures 0.0 <= w * h <= Area(b) && 0.0 < Area(b)
  {
    ProductGrows(w, h, b.x2 - b.x1, b.y2 - b.y1);
    ProductPositive(b.x2 - b.x1, b.y2 - b.y1);
  }

  /** Intersection over union. */
  function Iou(a: Box, b: Box): real
    requires Proper(a) && Proper(b)
  {
    SharedIsInside(a, b);
    Shared(a, b) / (Area(a) + Area(b) - Shared(a, b) + TINY)
  }

  predicate Overlaps(a: Box, b: Box)
    requires Proper(a) && Proper(b)
  {
    Iou(a, b) > NMS_THRESHOLD
  }

  lemma IouBasics(a: Box, b: Box)
    requires Proper(a) && Proper(b)
    ensures 0.0 <= Iou(a, b) < 1.0 && Iou(a, b) == Iou(b, a)
    ensures Large(a) ==> Overlaps(a, a)
  {
    SharedIsInside(a, b);
    SharedIsInside(a, a);
    SharedIsSymmetric(a, b);
    var s, u := Shared(a, b), Area(a) + Area(b) - Shared(a, b) + TINY;
    Fraction(s, u);
    if Large(a) {
      ProductGrows(10.0, 10.0, a.x2 - a.x1, a.y2 - a.y1);
      Ratio(Area(a));
    }
  }

  predicate Between(lo: real, x: real, hi: real) {
    lo <= x <= hi
  }

  /** What two intervals share is an interval of that length, or no more than a point. */
  lemma CommonIsIntersection(a1: real, a2: real, b1: real, b2: real) returns (lo: real, hi: real)
    requires a1 < a2 && b1 < b2
    ensures forall x: real {:trigger Between(lo, x, hi)} ::
      Between(a1, x, a2) && Between(b1, x, b2) <==> Between(lo, x, hi)
    ensures Common(a1, a2, b1, b2) == if lo <= hi then hi - lo else 0.0
  {
    lo, hi := Max(a1, b1), Min(a2, b2);
  }

  /**
   * The overlap is the shared area over the area of both together, a millionth of a pixel
   * added to that; two boxes overlap when the first is more than three tenths of the second.
   */
  lemma IouExactly(a: Box, b: Box)
    requires Proper(a) && Proper(b)
    ensures var s := Common(a.x1, a.x2, b.x1, b.x2) * Common(a.y1, a.y2, b.y1, b.y2);
      var u := (a.x2 - a.x1) * (a.y2 - a.y1) + (b.x2 - b.x1) * (b.y2 - b.y1) - s + 0.000001;
      u > 0.0 && Iou(a, b) * u == s && (Overlaps(a, b) <==> 10.0 * s > 3.0 * u)
  {
    hide Common;
    SharedIsInside(a, b);
    RatioCompared(Shared(a, b), Area(a) + Area(b) - Shared(a, b) + TINY);
  }

  lemma RatioCompared(s: real, u: real)
    requires u > 0.0
    ensures s / u * u == s && (s / u > 0.3 <==> 10.0 * s > 3.0 * u)
  {
    Compared(s / u, u, 0.3);
  }

  lemma Compared(q: real, u: real, t: real)
    requires u > 0.0
    ensures q > t <==> q * u > t * u
  {
    if q > t {
      ProductPositive(q - t, u);
    } else {
      assert (t - q) * u >= 0.0;
    }
  }

  /** Squares of side 20: shifted by 10 they overlap, shifted by 11 they do not. */
  lemma SquaresOverlap(score: real)
    ensures Overlaps(Box(0.0, 0.0, 20.0, 20.0, score), Box(10.0, 0.0, 30.0, 20.0, score))
    ensures !Overlaps(Box(0.0, 0.0, 20.0, 20.0, score), Box(11.0, 0.0, 31.0, 20.0, score))
  {
    IouExactly(Box(0.0, 0.0, 20.0, 20.0, score), Box(10.0, 0.0, 30.0, 20.0, score));
    IouExactly(Box(0.0, 0.0, 20.0, 20.0, score), Box(11.0, 0.0, 31.0, 20.0, score));
    hide Iou;
  }

  lemma Fraction(s: real, u: real)
    requires 0.0 <= s < u
    ensures 0.0 <= s / u < 1.0
  {
  }

  lemma Ratio(r: real)
    requires r >= 100.0
    ensures r / (r + r - r + TINY) > NMS_THRESHOLD
  {
    var q := r / (r + TINY);
    assert q * (r + TINY) == r;
    assert q <= 0.3 ==> q * (r + TINY) <= 0.3 * (r + TINY);
  }

  predicate AllProper(cs: seq<Box>) {
    forall i :: 0 <= i < |cs| ==> Proper(cs[i])
  }

  // ----- greedy suppression -----

  /** A candidate is kept when it overlaps no earlier one that is kept. */
  predicate Keeps(cs: seq<Box>, j: nat)
    requires AllProper(cs) && j < |cs|
    decreases j
  {
    forall i :: 0 <= i < j && Keeps(cs, i) ==> !Overlaps(cs[i], cs[j])
  }

  /** The kept candidates among the first `n`, in order. */
  function Kept(cs: seq<Box>, n: nat): seq<Box>
    requires AllProper(cs) && n <= |cs|
  {
    if n == 0 then [] else Kept(cs, n - 1) + if Keeps(cs, n - 1) then [cs[n - 1]] else []
  }

  function RectOf(b: Box): Rect {
    Rect(b.x1.Floor, b.y1.Floor, (b.x2 - b.x1).Floor, (b.y2 - b.y1).Floor)
  }

  function Rects(bs: seq<Box>): seq<Rect> {
    seq(|bs|, i requires 0 <= i < |bs| => RectOf(bs[i]))
  }

  /** Some kept candidate before `i` overlaps candidate `j`. */
  predicate Covered(cs: seq<Box>, i: nat, j: nat)
    requires AllProper(cs) && i <= |cs| && j < |cs|
  {
    exists k :: 0 <= k < i && Keeps(cs, k) && Overlaps(cs[k], cs[j])
  }

  /** The marking loops. */
  method Suppress(cs: seq<Box>) returns (faces: seq<Rect>)
    requires AllProper(cs)
    ensures faces == Rects(Kept(cs, |cs|))
  {
    hide Iou;
    hide Keeps;
    var suppressed := new bool[|cs|](_ => false);
    faces := [];
    for i := 0 to |cs|
      invariant faces == Rects(Kept(cs, i))
      invariant forall j :: i <= j < |cs| ==> suppressed[j] == Covered(cs, i, j)
    {
      KeepsIsOpen(cs, i);
      if suppressed[i] {
        NotKept(cs, i);
        continue;
      }
      faces := faces + [RectOf(cs[i])];
      for j := i + 1 to |cs|
        invariant forall k :: i < k < j ==> suppressed[k] == Covered(cs, i + 1, k)
        invariant forall k :: j <= k < |cs| ==> suppressed[k] == Covered(cs, i, k)
      {
        OneMore(cs, i, j);
        if suppressed[j] {
          continue;
        }
        if Iou(cs[i], cs[j]) > NMS_THRESHOLD {
          suppressed[j] := true;
        }
      }
    }
  }

  lemma OneMore(cs: seq<Box>, i: nat, j: nat)
    requires AllProper(cs) && i < |cs| && j < |cs|
    ensures Covered(cs, i + 1, j) <==> Covered(cs, i, j) || (Keeps(cs, i) && Overlaps(cs[i], cs[j]))
  {
  }

  lemma NotKept(cs: seq<Box>, i: nat)
    requires AllProper(cs) && i < |cs| && !Keeps(cs, i)
    ensures Kept(cs, i + 1) == Kept(cs, i)
    ensures forall j :: 0 <= j < |cs| ==> Covered(cs, i + 1, j) == Covered(cs, i, j)
  {
    forall j | 0 <= j < |cs| ensures Covered(cs, i + 1, j) == Covered(cs, i, j) {
      OneMore(cs, i, j);
    }
  }

  // ----- what is kept -----

  lemma {:induction false} KeptMembers(cs: seq<Box>, n: nat)
    requires AllProper(cs) && n <= |cs|
    ensures forall b :: b in Kept(cs, n) <==> exists j :: 0 <= j < n && Keeps(cs, j) && cs[j] == b
  {
    if n > 0 {
      KeptMembers(cs, n - 1);
      forall b | b in Kept(cs, n)
        ensures exists j :: 0 <= j < n && Keeps(cs, j) && cs[j] == b
      {
        if b !in Kept(cs, n - 1) {
          assert Keeps(cs, n - 1) && cs[n - 1] == b;
        }
      }
    }
  }

  /** Kept boxes overlap pairwise by no more than the threshold. */
  lemma {:induction false} KeptAreApart(cs: seq<Box>, n: nat)
    requires AllProper(cs) && n <= |cs|
    ensures AllProper(Kept(cs, n))
    ensures forall a, b :: 0 <= a < b < |Kept(cs, n)| ==> Iou(Kept(cs, n)[a], Kept(cs, n)[b]) <= NMS_THRESHOLD
  {
    if n > 0 {
      KeptAreApart(cs, n - 1);
      KeptMembers(cs, n - 1);
      var before := Kept(cs, n - 1);
      if Keeps(cs, n - 1) {
        forall a | 0 <= a < |before| ensures Proper(before[a]) && !Overlaps(before[a], cs[n - 1]) {
          assert before[a] in before;
        }
      }
    }
  }

  predicate Sorted(cs: seq<Box>) {
    forall i, j :: 0 <= i < j < |cs| ==> cs[i].score >= cs[j].score
  }

  /** Every candidate that is dropped overlaps a kept one of no smaller score. */
  lemma DroppedAreCovered(cs: seq<Box>, j: nat)
    requires AllProper(cs) && Sorted(cs) && j < |cs| && !Keeps(cs, j)
    ensures exists b :: b in Kept(cs, |cs|) && Proper(b) && Overlaps(b, cs[j]) && b.score >= cs[j].score
  {
    var i :| 0 <= i < j && Keeps(cs, i) && Overlaps(cs[i], cs[j]);
    KeptMembers(cs, |cs|);
    assert cs[i] in Kept(cs, |cs|);
  }

  /** Suppression by repeatedly taking the first box and striking out what it overlaps. */
  function Greedy(cs: seq<Box>): seq<Box>
    requires AllProper(cs)
    decreases |cs|
  {
    if cs == [] then [] else [cs[0]] + Greedy(Apart(cs[0], cs[1..]))
  }

  /** The boxes that `a` does not overlap. */
  function Apart(a: Box, cs: seq<Box>): (r: seq<Box>)
    requires Proper(a) && AllProper(cs)
    ensures AllProper(r) && |r| <= |cs|
  {
    if cs == [] then []
    else (if Overlaps(a, cs[0]) then [] else [cs[0]]) + Apart(a, cs[1..])
  }

  /** The candidates from `j` on that nothing kept before `i` overlaps. */
  function Open(cs: seq<Box>, i: nat, j: nat): (r: seq<Box>)
    requires AllProper(cs) && i <= |cs| && j <= |cs|
    ensures AllProper(r)
    decreases |cs| - j
  {
    if j == |cs| then []
    else (if Covered(cs, i, j) then [] else [cs[j]]) + Open(cs, i, j + 1)
  }

  lemma {:induction false} OpenNarrows(cs: seq<Box>, i: nat, j: nat)
    requires AllProper(cs) && i < |cs| && j <= |cs|
    ensures Open(cs, i + 1, j) == if Keeps(cs, i) then Apart(cs[i], Open(cs, i, j)) else Open(cs, i, j)
    decreases |cs| - j
  {
    hide Overlaps;
    hide Keeps;
    if j < |cs| {
      OpenNarrows(cs, i, j + 1);
      OneMore(cs, i, j);
      var rest := Open(cs, i, j + 1);
      assert ([cs[j]] + rest)[1..] == rest;
      assert [] + rest == rest;
    }
  }

  lemma {:induction false} GreedyFrom(cs: seq<Box>, i: nat)
    requires AllProper(cs) && i <= |cs|
    ensures Kept(cs, i) + Greedy(Open(cs, i, i)) == Kept(cs, |cs|)
    decreases |cs| - i
  {
    hide Greedy;
    hide Open;
    hide Keeps;
    if i < |cs| {
      GreedyFrom(cs, i + 1);
      GreedyStep(cs, i);
    } else {
      NothingOpen(cs);
    }
  }

  lemma NothingOpen(cs: seq<Box>)
    requires AllProper(cs)
    ensures Greedy(Open(cs, |cs|, |cs|)) == []
  {
  }

  lemma GreedyStep(cs: seq<Box>, i: nat)
    requires AllProper(cs) && i < |cs|
    ensures Greedy(Open(cs, i, i)) == (if Keeps(cs, i) then [cs[i]] else []) + Greedy(Open(cs, i + 1, i + 1))
  {
    hide Overlaps;
    hide Covered;
    OpenNarrows(cs, i, i + 1);
    KeepsIsOpen(cs, i);
    hide Keeps;
    var rest := Open(cs, i, i + 1);
    assert Open(cs, i, i) == (if Covered(cs, i, i) then [] else [cs[i]]) + rest;
    hide Open;
    assert ([cs[i]] + rest)[1..] == rest;
    assert [] + rest == rest;
  }

  lemma KeepsIsOpen(cs: seq<Box>, i: nat)
    requires AllProper(cs) && i < |cs|
    ensures Keeps(cs, i) <==> !Covered(cs, i, i)
  {
  }

  lemma {:induction false} NothingCovered(cs: seq<Box>, j: nat)
    requires AllProper(cs) && j <= |cs|
    ensures Open(cs, 0, j) == cs[j..]
    decreases |cs| - j
  {
    if j < |cs| {
      NothingCovered(cs, j + 1);
    }
  }

  /** The marking loops compute the simple greedy recursion. */
  lemma GreedyIsKept(cs: seq<Box>)
    requires AllProper(cs)
    ensures Greedy(cs) == Kept(cs, |cs|)
  {
    NothingCovered(cs, 0);
    assert cs[0..] == cs;
    GreedyFrom(cs, 0);
    assert Kept(cs, 0) + Greedy(cs) == Greedy(cs);
  }

  // ----- the rectangles -----

  predicate InImage(r: Rect, width: nat, height: nat) {
    r.x >= 0 && r.y >= 0 && r.w >= 10 && r.h >= 10 && r.x + r.w <= width && r.y + r.h <= height
  }

  lemma TruncationStaysInside(a: real, b: real, limit: nat)
    requires 0.0 <= a && b - a > 10.0 && b <= limit as real
    ensures a.Floor >= 0 && (b - a).Floor >= 10 && a.Floor + (b - a).Floor <= limit
  {
    var n := a.Floor + (b - a).Floor;
    assert n as real == a.Floor as real + (b - a).Floor as real;
    assert n as real <= limit as real;
  }

  /** Position and size of a face are those of its box, cut off to whole pixels. */
  lemma RectExactly(b: Box)
    requires 0.0 <= b.x1 <= b.x2 && 0.0 <= b.y1 <= b.y2
    ensures var r := RectOf(b);
      && 0 <= r.x && r.x as real <= b.x1 < r.x as real + 1.0
      && 0 <= r.y && r.y as real <= b.y1 < r.y as real + 1.0
      && 0 <= r.w && r.w as real <= b.x2 - b.x1 < r.w as real + 1.0
      && 0 <= r.h && r.h as real <= b.y2 - b.y1 < r.h as real + 1.0
  {
  }

  lemma RectInImage(b: Box, width: nat, height: nat)
    requires Good(b, width, height)
    ensures InImage(RectOf(b), width, height)
  {
    TruncationStaysInside(b.x1, b.x2, width);
    TruncationStaysInside(b.y1, b.y2, height);
  }

  /** `cs` is an order that sorting the candidates by score may give. */
  ghost predicate SortedOrder(cs: seq<Box>, candidates: seq<Box>) {
    multiset(cs) == multiset(candidates) && Sorted(cs)
  }

  lemma OrderIsProper(cs: seq<Box>, candidates: seq<Box>, width: nat, height: nat)
    requires SortedOrder(cs, candidates) && forall b :: b in candidates ==> Good(b, width, height)
    ensures AllProper(cs) && forall j :: 0 <= j < |cs| ==> Good(cs[j], width, height)
  {
    forall j | 0 <= j < |cs| ensures Good(cs[j], width, height) {
      assert cs[j] in multiset(cs);
    }
  }

  /**
   * The whole of decoding, with the sorting routine as a parameter: whichever order it
   * picks among equal scores, the faces are those of the greedy recursion and lie inside
   * the image.
   */
  method DecodeOutputs(
    os: seq<Output>, ps: seq<Prior>, width: nat, height: nat, exp: real -> real, sort: seq<Box> -> seq<Box>)
    returns (faces: seq<Rect>)
    requires forall s :: SortedOrder(sort(s), s)
    ensures var cs := sort(Candidates(os, ps, width, height, exp)); AllProper(cs) && faces == Rects(Greedy(cs))
    ensures forall f :: f in faces ==> InImage(f, width, height)
  {
    var candidates := Collect(os, ps, width, height, exp);
    CandidatesAreGood(os, ps, width, height, exp);
    var cs := sort(candidates);
    OrderIsProper(cs, candidates, width, height);
    faces := Suppress(cs);
    GreedyIsKept(cs);
    FacesInImage(cs, width, height);
  }

  lemma FacesInImage(cs: seq<Box>, width: nat, height: nat)
    requires AllProper(cs) && forall j :: 0 <= j < |cs| ==> Good(cs[j], width, height)
    ensures forall f :: f in Rects(Kept(cs, |cs|)) ==> InImage(f, width, height)
  {
    var bs := Kept(cs, |cs|);
    KeptMembers(cs, |cs|);
    forall i | 0 <= i < |bs| ensures InImage(RectOf(bs[i]), width, height) {
      assert bs[i] in bs;
      RectInImage(bs[i], width, height);
    }
  }
}
