/** WindowInfo::constrain_resize (miral/window_info.cpp:239-352): the limits, the increments and the aspect ratios a
    resize has to respect. Sizes are C++ ints, aspect ratios unsigned, the error terms long; division truncates. */
module ConstrainResizing {
  import opened Geometry
  import opened Sequences
  import opened WindowStates

  const INT_MAX := 0x7fff_ffff
  const UINT_MAX := 0xffff_ffff
  const LONG_MAX := 0x7fff_ffff_ffff_ffff

  datatype AspectRatio = AspectRatio(width: int, height: int) {
    predicate Representable() { 0 <= width <= UINT_MAX && 0 <= height <= UINT_MAX }
  }

  datatype Limits = Limits(
    minWidth: int, minHeight: int, maxWidth: int, maxHeight: int,
    widthInc: int, heightInc: int, minAspect: AspectRatio, maxAspect: AspectRatio)

  /** What is assumed when nothing is asked for. */
  const ANY_ASPECT_MIN := AspectRatio(0, UINT_MAX)
  const ANY_ASPECT_MAX := AspectRatio(UINT_MAX, 0)

  function TruncDiv(a: int, b: int): int
    requires b != 0
  {
    if (a >= 0) == (b > 0) then Abs(a) / Abs(b) else -(Abs(a) / Abs(b))
  }

  function Abs(a: int): nat { if a < 0 then -a else a }

  // ----- one axis: the limits and the increment

  function Clamp(x: int, min: int, max: int): int {
    var up := if min > x then min else x;
    if max < up then max else up
  }

  function Rounded(x: int, min: int, inc: int): int
    requires inc != 0
  {
    var d := x - min;
    if d - inc * TruncDiv(d, inc) != 0 then min + inc * TruncDiv(TruncDiv(2 * d + inc, 2), inc) else x
  }

  function Axis(x: int, min: int, max: int, inc: int): int
    requires inc != 0
  {
    Rounded(Clamp(x, min, max), min, inc)
  }

  lemma {:induction false} MulLe(a: int, b: int, c: int)
    requires c >= 0
    ensures a <= b ==> a * c <= b * c && c * a <= c * b
  {
    if a <= b {
      assert (b - a) * c >= 0;
      assert (b - a) * c == b * c - a * c;
    }
  }

  /** From min on, rounding goes to the nearest whole number of increments, halves up. */
  lemma {:induction false} RoundedToNearest(x: int, min: int, inc: int)
    requires inc >= 1 && x >= min
    ensures var steps := (2 * (x - min) + inc) / 2 / inc;
            && Rounded(x, min, inc) == min + inc * steps && steps >= 0
            && -inc < 2 * (Rounded(x, min, inc) - x) <= inc
  {
    var d := x - min;
    assert (2 * d + inc) / 2 == d + inc / 2;
    var steps, rest := Divided(d + inc / 2, inc);
    var whole, part := Divided(d, inc);
    if part == 0 {
      SameQuotient(inc, whole, inc / 2, steps, rest);
    }
  }

  lemma {:induction false} Divided(a: int, b: int) returns (q: int, r: int)
    requires a >= 0 && b >= 1
    ensures q == a / b == TruncDiv(a, b) && q >= 0 && r == a % b && a == b * q + r && 0 <= r < b
  {
    q, r := a / b, a % b;
    assert a == b * q + r;
    MulLe(q, -1, b);
  }

  lemma {:induction false} SameQuotient(inc: int, a: int, r: int, b: int, s: int)
    requires inc >= 1 && 0 <= r < inc && 0 <= s < inc && inc * a + r == inc * b + s
    ensures a == b && r == s
  {
    assert inc * (a - b) == s - r;
    MulLe(1, a - b, inc);
    MulLe(a - b, -1, inc);
  }

  lemma {:induction false} ExactMultipleStays(min: int, inc: int, k: int)
    requires inc >= 1 && k >= 0
    ensures Rounded(min + inc * k, min, inc) == min + inc * k
  {
    assert inc * k >= 0;
    assert (inc * k) / inc == k by {
      SameQuotient(inc, k, 0, (inc * k) / inc, (inc * k) % inc);
    }
  }

  /** Nothing goes negative, even if the minimum is above the maximum. */
  lemma {:induction false} AxisNotNegative(x: int, min: int, max: int, inc: int)
    requires inc >= 1 && min >= 0 && max >= 0
    ensures Axis(x, min, max, inc) >= 0
  {
    var c := Clamp(x, min, max);
    if c >= min {
      RoundedToNearest(c, min, inc);
    } else {
      RoundedFromBelow(c, min, inc);
    }
  }

  /** Below the minimum rounding goes towards it. */
  lemma {:induction false} RoundedFromBelow(x: int, min: int, inc: int)
    requires inc >= 1 && x < min
    ensures Rounded(x, min, inc) >= x
  {
    var d := x - min;
    var half := TruncDiv(2 * d + inc, 2);
    assert half >= d;
    if half < 0 {
      TruncTowardsZero(half, inc);
    } else {
      var q, r := Divided(half, inc);
      NoError(inc, q);
    }
  }

  lemma {:induction false} TruncTowardsZero(a: int, b: int)
    requires a < 0 && b >= 1
    ensures b * TruncDiv(a, b) >= a
  {
    var q, r := Divided(-a, b);
    Negated(b, q);
    assert TruncDiv(a, b) == -q by {
      assert Abs(a) == -a && Abs(b) == b;
    }
  }

  lemma {:induction false} Negated(a: int, b: int)
    ensures a * -b == -(a * b)
  {
  }

  /** With the limits in order the axis is a whole number of increments above its minimum, at most half an increment
      from what the limits make of the request, and asking for it again gives it again. */
  lemma {:induction false} AxisFits(x: int, min: int, max: int, inc: int)
    requires inc >= 1 && min <= max
    ensures var r := Axis(x, min, max, inc);
            && r >= min && (exists k :: k >= 0 && r == min + inc * k)
            && -inc < 2 * (r - Clamp(x, min, max)) <= inc && 2 * (r - max) <= inc
            && Axis(r, min, max, inc) == r
  {
    var c := Clamp(x, min, max);
    var r := Axis(x, min, max, inc);
    RoundedToNearest(c, min, inc);
    var k := (2 * (c - min) + inc) / 2 / inc;
    assert inc * k >= 0;
    if r <= max {
      ExactMultipleStays(min, inc, k);
    } else {
      RoundedToNearest(max, min, inc);
      var j := (2 * (max - min) + inc) / 2 / inc;
      assert Clamp(r, min, max) == max;
      MultiplesApart(inc, j, k, max - min);
    }
  }

  /** If k increments lie above m by at most half of one, the increment nearest to m is the k-th. */
  lemma {:induction false} MultiplesApart(inc: int, j: int, k: int, m: int)
    requires inc >= 1 && m < inc * k && 2 * (inc * k - m) <= inc && -inc < 2 * (inc * j - m) <= inc
    ensures j == k
  {
    MulLe(j, k - 1, inc);
    MulLe(k + 1, j, inc);
    assert inc * (k - 1) == inc * k - inc && inc * (k + 1) == inc * k + inc;
  }

  /** The maximum is kept to when a whole number of increments fits between the limits. */
  lemma {:induction false} AxisWithinMaximum(x: int, min: int, max: int, inc: int, n: int)
    requires inc >= 1 && n >= 0 && max == min + inc * n
    ensures min <= max && Axis(x, min, max, inc) <= max
  {
    assert inc * n >= 0;
    AxisFits(x, min, max, inc);
    var r := Axis(x, min, max, inc);
    var k :| k >= 0 && r == min + inc * k;
    MulLe(n + 1, k, inc);
    MulLe(k, n, inc);
    assert inc * (n + 1) == inc * n + inc;
  }

  // ----- the aspect ratios

  function CeilDiv(e: int, b: int): int
    requires b != 0
  {
    TruncDiv(e + (b - 1), b)
  }

  function MinError(s: Size, ar: AspectRatio): int { s.height * ar.width - s.width * ar.height }

  function MaxError(s: Size, ar: AspectRatio): int { s.width * ar.height - s.height * ar.width }

  /** The divisions of a correction are defined. */
  predicate Correctable(error: int, ar: AspectRatio) {
    error > 0 ==> ar.width != 0 && ar.height != 0
  }

  function MinAspectStep(s: Size, ar: AspectRatio): Size
    requires Correctable(MinError(s, ar), ar)
  {
    var error := MinError(s, ar);
    if error <= 0 then s
    else if CeilDiv(error, ar.height) < CeilDiv(error, ar.width)
    then s.(width := s.width + CeilDiv(error, ar.height))
    else s.(height := s.height - CeilDiv(error, ar.width))
  }

  function MaxAspectStep(s: Size, ar: AspectRatio): Size
    requires Correctable(MaxError(s, ar), ar)
  {
    var error := MaxError(s, ar);
    if error <= 0 then s
    else if CeilDiv(error, ar.height) < CeilDiv(error, ar.width)
    then s.(width := s.width - CeilDiv(error, ar.height))
    else s.(height := s.height + CeilDiv(error, ar.width))
  }

  lemma {:induction false} CeilDivBounds(e: int, b: int)
    requires e > 0 && b > 0
    ensures var q := CeilDiv(e, b); q >= 1 && q * b >= e && (q - 1) * b < e
  {
    var q := (e + (b - 1)) / b;
    assert e + (b - 1) == b * q + (e + (b - 1)) % b;
    assert q * b == b * q && (q - 1) * b == b * q - b;
    MulLe(q, 0, b);
  }

  lemma {:induction false} Cancel(a: int, b: int, c: int)
    requires c > 0 && a * c < b * c
    ensures a < b
  {
    MulLe(b, a, c);
  }

  /** What a correction by d takes off the error. */
  lemma {:induction false} ErrorAfter(s: Size, ar: AspectRatio, d: int)
    ensures MinError(s.(width := s.width + d), ar) == MinError(s, ar) - d * ar.height
    ensures MinError(s.(height := s.height - d), ar) == MinError(s, ar) - d * ar.width
    ensures MaxError(s.(width := s.width - d), ar) == MaxError(s, ar) - d * ar.height
    ensures MaxError(s.(height := s.height + d), ar) == MaxError(s, ar) - d * ar.width
  {
    assert (s.width + d) * ar.height == s.width * ar.height + d * ar.height;
    assert (s.height - d) * ar.width == s.height * ar.width - d * ar.width;
    assert (s.width - d) * ar.height == s.width * ar.height - d * ar.height;
    assert (s.height + d) * ar.width == s.height * ar.width + d * ar.width;
  }

  lemma {:induction false} NoError(a: int, b: int)
    requires a >= 0 && b >= 0
    ensures a * b >= 0 && (b == 0 ==> a * b == 0)
  {
  }

  /** The corrected size is at least as wide for its height as the minimum aspect ratio asks, and not negative. */
  lemma {:induction false} MinAspectReached(s: Size, ar: AspectRatio)
    requires s.width >= 0 && s.height >= 0 && ar.width >= 0 && ar.height > 0
    ensures Correctable(MinError(s, ar), ar)
    ensures var r := MinAspectStep(s, ar);
            && MinError(r, ar) <= 0 && r.width >= 0 && r.height >= 0
            && r.width <= Max(s.width, s.height) && r.height <= s.height
            && 0 <= r.width - s.width <= s.height && 0 <= s.height - r.height <= s.height
  {
    var e := MinError(s, ar);
    NoError(s.width, ar.height);
    NoError(s.height, ar.width);
    if e > 0 {
      var wc, hc := CeilDiv(e, ar.height), CeilDiv(e, ar.width);
      CeilDivBounds(e, ar.height);
      CeilDivBounds(e, ar.width);
      Cancel(hc - 1, s.height, ar.width);
      if wc < hc {
        ErrorAfter(s, ar, wc);
        WidenedWithinHeight(s.width, s.height, wc, hc, ar, e);
      } else {
        ErrorAfter(s, ar, hc);
      }
    }
  }

  /** The smaller correction is in the larger term of the ratio. */
  lemma {:induction false} WidenedWithinHeight(w: int, h: int, wc: int, hc: int, ar: AspectRatio, e: int)
    requires w >= 0 && h >= 0 && ar.width > 0 && ar.height > 0 && e == h * ar.width - w * ar.height > 0
    requires (wc - 1) * ar.height < e <= wc * ar.height && (hc - 1) * ar.width < e && 1 <= wc < hc
    ensures w + wc <= h
  {
    MulLe(wc, hc - 1, ar.height);
    MulLe(ar.height, ar.width, hc - 1);
    assert ar.width < ar.height;
    assert (w + wc - 1) * ar.height == w * ar.height + (wc - 1) * ar.height;
    MulLe(ar.width, ar.height, h);
    Cancel(w + wc - 1, h, ar.height);
  }

  /** Likewise for the maximum; and what the correction spoils of the minimum is less than one pixel. */
  lemma {:induction false} MaxAspectReached(s: Size, ar: AspectRatio)
    requires s.width >= 0 && s.height >= 0 && ar.width > 0 && ar.height >= 0
    ensures Correctable(MaxError(s, ar), ar)
    ensures var r := MaxAspectStep(s, ar);
            && MaxError(r, ar) <= 0 && r.width >= 0 && r.height >= 0
            && 0 <= s.width - r.width <= s.width && 0 <= r.height - s.height <= s.width
            && (MaxError(s, ar) > 0 ==>
                  if r.height == s.height then MaxError(r.(width := r.width + 1), ar) > 0
                  else r.width == s.width && MaxError(r.(height := r.height - 1), ar) > 0)
  {
    var e := MaxError(s, ar);
    NoError(s.height, ar.width);
    NoError(s.width, ar.height);
    if e > 0 {
      var wc, hc := CeilDiv(e, ar.height), CeilDiv(e, ar.width);
      CeilDivBounds(e, ar.height);
      CeilDivBounds(e, ar.width);
      Cancel(wc - 1, s.width, ar.height);
      if wc < hc {
        ErrorAfter(s, ar, wc);
        ErrorAfter(s, ar, wc - 1);
      } else {
        ErrorAfter(s, ar, hc);
        ErrorAfter(s, ar, hc - 1);
      }
    }
  }

  lemma {:induction false} LeastIsUnique(a: int, c: int, e: int, b: int)
    requires b > 0 && (a - 1) * b < e <= a * b && (c - 1) * b < e <= c * b
    ensures a == c
  {
    Cancel(a - 1, c, b);
    Cancel(c - 1, a, b);
  }

  /** Below the minimum ratio, wc being the least number of pixels in width that would mend it and hc the least in
      height: the size is widened if that takes fewer, and is made less high otherwise. */
  lemma {:induction false} MinCorrection(s: Size, ar: AspectRatio, wc: int, hc: int)
    requires ar.width > 0 && ar.height > 0 && MinError(s, ar) > 0
    requires MinError(s.(width := s.width + wc), ar) <= 0 < MinError(s.(width := s.width + (wc - 1)), ar)
    requires MinError(s.(height := s.height - hc), ar) <= 0 < MinError(s.(height := s.height - (hc - 1)), ar)
    ensures MinAspectStep(s, ar) == if wc < hc then s.(width := s.width + wc) else s.(height := s.height - hc)
  {
    var e := MinError(s, ar);
    assert (wc - 1) * ar.height < e <= wc * ar.height && (hc - 1) * ar.width < e <= hc * ar.width by {
      ErrorAfter(s, ar, wc);
      ErrorAfter(s, ar, wc - 1);
      ErrorAfter(s, ar, hc);
      ErrorAfter(s, ar, hc - 1);
    }
    LeastCorrections(e, ar, wc, hc);
  }

  lemma {:induction false} LeastCorrections(e: int, ar: AspectRatio, wc: int, hc: int)
    requires ar.width > 0 && ar.height > 0 && e > 0
    requires (wc - 1) * ar.height < e <= wc * ar.height && (hc - 1) * ar.width < e <= hc * ar.width
    ensures CeilDiv(e, ar.height) == wc && CeilDiv(e, ar.width) == hc
  {
    CeilDivBounds(e, ar.height);
    CeilDivBounds(e, ar.width);
    LeastIsUnique(CeilDiv(e, ar.height), wc, e, ar.height);
    LeastIsUnique(CeilDiv(e, ar.width), hc, e, ar.width);
  }

  /** Beyond the maximum ratio it is made less wide if that takes fewer pixels, and higher otherwise. */
  lemma {:induction false} MaxCorrection(s: Size, ar: AspectRatio, wc: int, hc: int)
    requires ar.width > 0 && ar.height > 0 && MaxError(s, ar) > 0
    requires MaxError(s.(width := s.width - wc), ar) <= 0 < MaxError(s.(width := s.width - (wc - 1)), ar)
    requires MaxError(s.(height := s.height + hc), ar) <= 0 < MaxError(s.(height := s.height + (hc - 1)), ar)
    ensures MaxAspectStep(s, ar) == if wc < hc then s.(width := s.width - wc) else s.(height := s.height + hc)
  {
    var e := MaxError(s, ar);
    assert (wc - 1) * ar.height < e <= wc * ar.height && (hc - 1) * ar.width < e <= hc * ar.width by {
      ErrorAfter(s, ar, wc);
      ErrorAfter(s, ar, wc - 1);
      ErrorAfter(s, ar, hc);
      ErrorAfter(s, ar, hc - 1);
    }
    LeastCorrections(e, ar, wc, hc);
  }

  /** The minimum ratio is not above the maximum one. */
  predicate InOrder(min: AspectRatio, max: AspectRatio) {
    min.width * max.height <= max.width * min.height
  }

  /** Beyond the maximum ratio means beyond the minimum ratio. */
  lemma {:induction false} BeyondBoth(w: int, h: int, min: AspectRatio, max: AspectRatio)
    requires h >= 0 && min.height > 0 && min.width >= 0 && max.width > 0 && max.height > 0 && InOrder(min, max)
    requires w * max.height >= h * max.width
    ensures h * min.width <= w * min.height
  {
    if h * min.width > w * min.height {
      calc {
        (h * min.width) * max.height;
      >  { Scale(w * min.height, h * min.width, max.height); }
        (w * min.height) * max.height;
      == { Swap(w, min.height, max.height); }
        (w * max.height) * min.height;
      >= { ScaleUp(h * max.width, w * max.height, min.height); }
        (h * max.width) * min.height;
      == { Regroup(h, max.width, min.height); }
        h * (max.width * min.height);
      >= { ScaleUp(min.width * max.height, max.width * min.height, h); }
        h * (min.width * max.height);
      == { Regroup(h, min.width, max.height); }
        (h * min.width) * max.height;
      }
    }
  }

  lemma {:induction false} Scale(a: int, b: int, c: int)
    requires a < b && c > 0
    ensures a * c < b * c
  {
    MulLe(1, b - a, c);
    assert (b - a) * c == b * c - a * c;
  }

  lemma {:induction false} ScaleUp(a: int, b: int, c: int)
    requires a <= b && c >= 0
    ensures a * c <= b * c && c * a <= c * b
  {
    MulLe(a, b, c);
  }

  lemma {:induction false} Swap(a: int, b: int, c: int)
    ensures (a * b) * c == (a * c) * b
  {
  }

  lemma {:induction false} Regroup(a: int, b: int, c: int)
    ensures (a * b) * c == a * (b * c)
  {
  }

  function AspectSteps(s: Size, min: AspectRatio, max: AspectRatio): Size
    requires Correctable(MinError(s, min), min)
    requires Correctable(MaxError(MinAspectStep(s, min), max), max)
  {
    MaxAspectStep(MinAspectStep(s, min), max)
  }

  /** Both corrections together: the maximum always holds; the minimum holds if the second correction was not needed,
      and otherwise would with one more pixel of width or one less of height; nothing goes negative. */
  lemma {:induction false} AspectsReached(s: Size, min: AspectRatio, max: AspectRatio)
    requires s.width >= 0 && s.height >= 0
    requires min.width >= 0 && min.height > 0 && max.width > 0 && max.height >= 0 && InOrder(min, max)
    ensures Correctable(MinError(s, min), min) && Correctable(MaxError(MinAspectStep(s, min), max), max)
    ensures var middle := MinAspectStep(s, min); var r := AspectSteps(s, min, max);
            && MaxError(r, max) <= 0 && r.width >= 0 && r.height >= 0
            && (MaxError(middle, max) <= 0 ==> MinError(r, min) <= 0)
            && (MaxError(middle, max) > 0 ==>
                  MinError(r.(width := r.width + 1), min) <= 0 || MinError(r.(height := r.height - 1), min) <= 0)
  {
    MinAspectReached(s, min);
    var middle := MinAspectStep(s, min);
    MaxAspectReached(middle, max);
    var r := MaxAspectStep(middle, max);
    if MaxError(middle, max) > 0 {
      assert max.height == 0 ==> middle.width * max.height == 0;
      MulLe(0, middle.height, max.width);
      if r.height == middle.height {
        BeyondBoth(r.width + 1, r.height, min, max);
      } else {
        BeyondBoth(r.width, r.height - 1, min, max);
      }
    }
  }

  /** The products, their difference and the rounding sums fit a long, and the corrections fit an int. */
  lemma {:induction false} NoOverflow(s: Size, ar: AspectRatio)
    requires 0 <= s.width <= INT_MAX && 0 <= s.height <= INT_MAX && ar.Representable()
    ensures 0 <= s.height * ar.width <= LONG_MAX && 0 <= s.width * ar.height <= LONG_MAX
    ensures -LONG_MAX <= MinError(s, ar) <= LONG_MAX && -LONG_MAX <= MaxError(s, ar) <= LONG_MAX
    ensures MinError(s, ar) + UINT_MAX - 1 <= LONG_MAX && MaxError(s, ar) + UINT_MAX - 1 <= LONG_MAX
  {
    ProductBound(s.height, ar.width);
    ProductBound(s.width, ar.height);
  }

  lemma {:induction false} ProductBound(a: int, b: int)
    requires 0 <= a <= INT_MAX && 0 <= b <= UINT_MAX
    ensures 0 <= a * b <= INT_MAX * UINT_MAX
  {
    ScaleUp(a, INT_MAX, b);
    ScaleUp(b, UINT_MAX, INT_MAX);
  }

  lemma {:induction false} CorrectionsFit(s: Size, min: AspectRatio, max: AspectRatio)
    requires 0 <= s.width <= INT_MAX && 0 <= s.height <= INT_MAX
    requires min.width >= 0 && min.height > 0 && max.width > 0 && max.height >= 0
    ensures Correctable(MinError(s, min), min) && Correctable(MaxError(MinAspectStep(s, min), max), max)
    ensures var middle := MinAspectStep(s, min); var r := MaxAspectStep(middle, max);
            && 0 <= middle.width <= INT_MAX && 0 <= middle.height <= INT_MAX
            && 0 <= middle.width - s.width <= INT_MAX && 0 <= s.height - middle.height <= INT_MAX
            && 0 <= middle.width - r.width <= INT_MAX && 0 <= r.height - middle.height <= INT_MAX
  {
    MinAspectReached(s, min);
    MaxAspectReached(MinAspectStep(s, min), max);
  }

  /** It is the height that is corrected, and width * ar.height / ar.width, which it is corrected to, exceeds an int. */
  predicate HeightPassesInt(s: Size, ar: AspectRatio)
    requires Correctable(MaxError(s, ar), ar)
  {
    var error := MaxError(s, ar);
    error > 0 && CeilDiv(error, ar.height) >= CeilDiv(error, ar.width) && s.width * ar.height > INT_MAX * ar.width
  }

  lemma {:induction false} HeightOverflows(s: Size, ar: AspectRatio)
    requires 0 <= s.width <= INT_MAX && 0 <= s.height <= INT_MAX && ar.width > 0 && ar.height >= 0
    ensures Correctable(MaxError(s, ar), ar)
    ensures MaxAspectStep(s, ar).height > INT_MAX <==> HeightPassesInt(s, ar)
  {
    var e, r := MaxError(s, ar), MaxAspectStep(s, ar);
    MaxAspectReached(s, ar);
    if e > 0 && CeilDiv(e, ar.height) >= CeilDiv(e, ar.width) {
      MulLe(INT_MAX, r.height - 1, ar.width);
      MulLe(r.height, INT_MAX, ar.width);
    }
  }

  /** By how much it can be exceeded: a size and a ratio that an int and an unsigned hold. */
  lemma {:induction false} HeightOverflowsFar()
    ensures var s, max := Size(INT_MAX, INT_MAX), AspectRatio(100_000, 100_001);
            Correctable(MaxError(s, max), max) && MaxAspectStep(s, max).height == INT_MAX + 21_475
  {
  }

  /** Without aspect ratios asked for, the aspect steps do nothing. */
  lemma {:induction false} AnyAspect(s: Size)
    requires s.width >= 0 && s.height >= 0
    ensures Correctable(MinError(s, ANY_ASPECT_MIN), ANY_ASPECT_MIN) && MinAspectStep(s, ANY_ASPECT_MIN) == s
    ensures Correctable(MaxError(s, ANY_ASPECT_MAX), ANY_ASPECT_MAX) && MaxAspectStep(s, ANY_ASPECT_MAX) == s
  {
    assert s.height * 0 == 0 && s.width * 0 == 0;
    assert s.width * UINT_MAX >= 0 && s.height * UINT_MAX >= 0;
  }

  // ----- the whole

  function Clamped(l: Limits, s: Size): Size
    requires l.widthInc != 0 && l.heightInc != 0
  {
    Size(Axis(s.width, l.minWidth, l.maxWidth, l.widthInc), Axis(s.height, l.minHeight, l.maxHeight, l.heightInc))
  }

  /** No division by zero is met. */
  predicate Defined(l: Limits, s: Size) {
    && l.widthInc != 0 && l.heightInc != 0
    && Correctable(MinError(Clamped(l, s), l.minAspect), l.minAspect)
    && Correctable(MaxError(MinAspectStep(Clamped(l, s), l.minAspect), l.maxAspect), l.maxAspect)
  }

  /** A ratio never leads to a division by zero in the minimum step exactly if it asks for no width or has a height. */
  lemma {:induction false} MinDivides(ar: AspectRatio)
    requires ar.width >= 0 && ar.height >= 0
    ensures (forall s: Size :: s.width >= 0 && s.height >= 0 ==> Correctable(MinError(s, ar), ar)) <==>
            (ar.width == 0 || ar.height > 0)
  {
    forall s: Size | s.width >= 0 && s.height >= 0 && (ar.width == 0 || ar.height > 0)
      ensures Correctable(MinError(s, ar), ar)
    {
      NoError(s.width, ar.height);
      NoError(s.height, ar.width);
    }
    assert MinError(Size(0, 1), ar) == ar.width;
  }

  /** And in the maximum step exactly if it asks for no height or has a width. */
  lemma {:induction false} MaxDivides(ar: AspectRatio)
    requires ar.width >= 0 && ar.height >= 0
    ensures (forall s: Size :: s.width >= 0 && s.height >= 0 ==> Correctable(MaxError(s, ar), ar)) <==>
            (ar.height == 0 || ar.width > 0)
  {
    forall s: Size | s.width >= 0 && s.height >= 0 && (ar.height == 0 || ar.width > 0)
      ensures Correctable(MaxError(s, ar), ar)
    {
      NoError(s.height, ar.width);
      NoError(s.width, ar.height);
    }
    assert MaxError(Size(1, 0), ar) == ar.height;
  }

  /** Limits that are in order as far as dividing and not going negative are concerned. */
  predicate InOrderToDivide(l: Limits) {
    && l.widthInc >= 1 && l.heightInc >= 1
    && 0 <= l.minWidth && 0 <= l.minHeight && 0 <= l.maxWidth && 0 <= l.maxHeight
    && l.minAspect.width >= 0 && l.minAspect.height >= 0 && l.maxAspect.width >= 0 && l.maxAspect.height >= 0
    && (l.minAspect.width == 0 || l.minAspect.height > 0) && (l.maxAspect.height == 0 || l.maxAspect.width > 0)
  }

  lemma {:induction false} DefinedByLimits(l: Limits, s: Size)
    requires InOrderToDivide(l)
    ensures Defined(l, s) && Clamped(l, s).width >= 0 && Clamped(l, s).height >= 0
  {
    AxisNotNegative(s.width, l.minWidth, l.maxWidth, l.widthInc);
    AxisNotNegative(s.height, l.minHeight, l.maxHeight, l.heightInc);
    MinStepNotNegative(Clamped(l, s), l.minAspect);
    MaxDivides(l.maxAspect);
  }

  lemma {:induction false} MinStepNotNegative(s: Size, ar: AspectRatio)
    requires s.width >= 0 && s.height >= 0 && ar.width >= 0 && ar.height >= 0 && (ar.width == 0 || ar.height > 0)
    ensures Correctable(MinError(s, ar), ar)
    ensures MinAspectStep(s, ar).width >= 0 && MinAspectStep(s, ar).height >= 0
  {
    if ar.height > 0 {
      MinAspectReached(s, ar);
    } else {
      NoError(s.width, ar.height);
    }
  }

  function ConstrainedSize(l: Limits, s: Size): Size
    requires Defined(l, s)
  {
    AspectSteps(Clamped(l, s), l.minAspect, l.maxAspect)
  }

  /** Both aspect ratios of the constrained size, from limits in order. */
  lemma {:induction false} ConstrainedAspects(l: Limits, s: Size)
    requires InOrderToDivide(l) && l.minAspect.height > 0 && l.maxAspect.width > 0 && InOrder(l.minAspect, l.maxAspect)
    ensures Defined(l, s)
    ensures var middle := MinAspectStep(Clamped(l, s), l.minAspect); var r := ConstrainedSize(l, s);
            && MaxError(r, l.maxAspect) <= 0 && r.width >= 0 && r.height >= 0
            && (MaxError(middle, l.maxAspect) <= 0 ==> MinError(r, l.minAspect) <= 0)
            && (MaxError(middle, l.maxAspect) > 0 ==>
                  || MinError(r.(width := r.width + 1), l.minAspect) <= 0
                  || MinError(r.(height := r.height - 1), l.minAspect) <= 0)
  {
    DefinedByLimits(l, s);
    AspectsReached(Clamped(l, s), l.minAspect, l.maxAspect);
  }

  // ----- when the values fit the types

  lemma {:induction false} HalfAdded(inc: int, whole: int, rest: int, steps: int, left: int)
    requires inc >= 1 && 0 <= rest < inc && 0 <= left < inc
    requires inc * whole + rest + inc / 2 == inc * steps + left
    ensures steps == if 2 * rest >= inc then whole + 1 else whole
  {
    NextMultiple(inc, whole);
    if 2 * rest >= inc {
      SameQuotient(inc, whole + 1, rest + inc / 2 - inc, steps, left);
    } else {
      SameQuotient(inc, whole, rest + inc / 2, steps, left);
    }
  }

  /** Rounding goes down or up by what is left over, and up if that is half an increment or more. */
  lemma {:induction false} RoundedExactly(x: int, min: int, inc: int)
    requires inc >= 1 && x >= min
    ensures var rest := (x - min) % inc;
            Rounded(x, min, inc) == if 2 * rest >= inc then x - rest + inc else x - rest
  {
    var whole, rest := Divided(x - min, inc);
    assert (2 * (x - min) + inc) / 2 == x - min + inc / 2;
    var steps, left := Divided(x - min + inc / 2, inc);
    RoundedToNearest(x, min, inc);
    HalfAdded(inc, whole, rest, steps, left);
    NextMultiple(inc, whole);
  }

  lemma {:induction false} NextMultiple(a: int, b: int)
    ensures a * (b + 1) == a * b + a
  {
  }

  /** An axis exceeds an int exactly when what the limits make of the request is rounded up past it. */
  lemma {:induction false} AxisOverflows(x: int, min: int, max: int, inc: int)
    requires inc >= 1 && 0 <= min <= max <= INT_MAX
    ensures var c := Clamp(x, min, max); var rest := (c - min) % inc;
            Axis(x, min, max, inc) > INT_MAX <==> 2 * rest >= inc && c - rest > INT_MAX - inc
  {
    RoundedExactly(Clamp(x, min, max), min, inc);
  }

  predicate FitsInt(s: Size) { s.width <= INT_MAX && s.height <= INT_MAX }

  /** The sizes and corrections on the way to the constrained size fit ints, and so does its width. */
  lemma {:induction false} OnTheWayFits(l: Limits, s: Size)
    requires InOrderToDivide(l) && l.minAspect.height > 0 && l.maxAspect.width > 0 && FitsInt(Clamped(l, s))
    ensures Defined(l, s)
    ensures var c := Clamped(l, s); var middle := MinAspectStep(c, l.minAspect); var r := ConstrainedSize(l, s);
            && c.width >= 0 && c.height >= 0 && middle.width >= 0 && middle.height >= 0
            && FitsInt(middle) && r.width <= INT_MAX
            && 0 <= middle.width - c.width <= INT_MAX && 0 <= c.height - middle.height <= INT_MAX
            && 0 <= middle.width - r.width <= INT_MAX && 0 <= r.height - middle.height <= INT_MAX
  {
    DefinedByLimits(l, s);
    CorrectionsFit(Clamped(l, s), l.minAspect, l.maxAspect);
  }

  /** Whatever is asked for: if neither axis is rounded past an int, then nothing computed on the way exceeds its type,
      and the size that comes out fits ints exactly if the height is not corrected past one. */
  lemma {:induction false} ConstrainedFits(l: Limits, s: Size)
    requires InOrderToDivide(l) && l.minAspect.Representable() && l.maxAspect.Representable()
    requires l.minAspect.height > 0 && l.maxAspect.width > 0 && FitsInt(Clamped(l, s))
    ensures Defined(l, s)
    ensures var c := Clamped(l, s); var middle := MinAspectStep(c, l.minAspect); var r := ConstrainedSize(l, s);
            && FitsInt(middle) && r.width <= INT_MAX
            && 0 <= middle.width - c.width <= INT_MAX && 0 <= c.height - middle.height <= INT_MAX
            && 0 <= middle.width - r.width <= INT_MAX && 0 <= r.height - middle.height <= INT_MAX
            && -LONG_MAX <= MinError(c, l.minAspect) <= LONG_MAX - UINT_MAX + 1
            && -LONG_MAX <= MaxError(middle, l.maxAspect) <= LONG_MAX - UINT_MAX + 1
            && (FitsInt(r) <==> !HeightPassesInt(middle, l.maxAspect))
  {
    OnTheWayFits(l, s);
    var c := Clamped(l, s);
    var middle := MinAspectStep(c, l.minAspect);
    NoOverflow(c, l.minAspect);
    NoOverflow(middle, l.maxAspect);
    HeightOverflows(middle, l.maxAspect);
  }

  method ApplyLimits(l: Limits, size: Size) returns (newSize: Size)
    ensures newSize == Size(Clamp(size.width, l.minWidth, l.maxWidth), Clamp(size.height, l.minHeight, l.maxHeight))
  {
    newSize := size;
    if l.minWidth > newSize.width {
      newSize := newSize.(width := l.minWidth);
    }
    if l.minHeight > newSize.height {
      newSize := newSize.(height := l.minHeight);
    }
    if l.maxWidth < newSize.width {
      newSize := newSize.(width := l.maxWidth);
    }
    if l.maxHeight < newSize.height {
      newSize := newSize.(height := l.maxHeight);
    }
  }

  method ApplyIncrements(l: Limits, size: Size) returns (newSize: Size)
    requires l.widthInc != 0 && l.heightInc != 0
    ensures newSize == Size(Rounded(size.width, l.minWidth, l.widthInc), Rounded(size.height, l.minHeight, l.heightInc))
  {
    newSize := size;
    var width, inc := newSize.width - l.minWidth, l.widthInc;
    if width - inc * TruncDiv(width, inc) != 0 {
      newSize := newSize.(width := l.minWidth + inc * TruncDiv(TruncDiv(2 * width + inc, 2), inc));
    }
    var height := newSize.height - l.minHeight;
    inc := l.heightInc;
    if height - inc * TruncDiv(height, inc) != 0 {
      newSize := newSize.(height := l.minHeight + inc * TruncDiv(TruncDiv(2 * height + inc, 2), inc));
    }
  }

  method ApplyMinAspect(ar: AspectRatio, size: Size) returns (newSize: Size)
    requires Correctable(MinError(size, ar), ar)
    ensures newSize == MinAspectStep(size, ar)
  {
    newSize := size;
    var error := newSize.height * ar.width - newSize.width * ar.height;
    if error > 0 {
      var widthCorrection := CeilDiv(error, ar.height);
      var heightCorrection := CeilDiv(error, ar.width);
      if widthCorrection < heightCorrection {
        newSize := newSize.(width := newSize.width + widthCorrection);
      } else {
        newSize := newSize.(height := newSize.height - heightCorrection);
      }
    }
  }

  method ApplyMaxAspect(ar: AspectRatio, size: Size) returns (newSize: Size)
    requires Correctable(MaxError(size, ar), ar)
    ensures newSize == MaxAspectStep(size, ar)
  {
    newSize := size;
    var error := newSize.width * ar.height - newSize.height * ar.width;
    if error > 0 {
      var heightCorrection := CeilDiv(error, ar.width);
      var widthCorrection := CeilDiv(error, ar.height);
      if widthCorrection < heightCorrection {
        newSize := newSize.(width := newSize.width - widthCorrection);
      } else {
        newSize := newSize.(height := newSize.height + heightCorrection);
      }
    }
  }

  /** Where an edge requested at x ends up: a request that moves it has the change of size added. */
  function DraggedTo(x: int, present: int, change: int): int {
    if x != present then x + change else x
  }

  /** What a request for a rectangle becomes, if it comes to no division by zero. */
  function Constrained(l: Limits, state: WindowState, window: Rectangle, pos: Point, size: Size): Option<Rectangle> {
    if !Defined(l, size) then None
    else
      var granted := ConstrainedSize(l, size);
      var x := DraggedTo(pos.x, window.topLeft.x, granted.width - size.width);
      var y := DraggedTo(pos.y, window.topLeft.y, granted.height - size.height);
      match state
      case Restored => Some(Rectangle(Point(x, y), granted))
      case VertMaximized => Some(Rectangle(Point(x, window.topLeft.y), Size(granted.width, window.size.height)))
      case HorizMaximized => Some(Rectangle(Point(window.topLeft.x, y), Size(window.size.width, granted.height)))
      case _ => Some(window)
  }

  /** What the state does not leave to the window stays, and so does a near edge that is not dragged. One that is ends
      further on by as much as the size granted is larger than the one asked for. So the far edge of a restored window
      is where the request had it exactly if the size is granted: the change is added, not taken away. */
  method ConstrainResize(l: Limits, state: WindowState, window: Rectangle, requestedPos: Point, requestedSize: Size)
    returns (r: Option<Rectangle>)
    ensures r == Constrained(l, state, window, requestedPos, requestedSize)
    ensures r.Some? <==> Defined(l, requestedSize)
    ensures r.Some? && state.Restored? ==> r.value.size == ConstrainedSize(l, requestedSize)
    ensures r.Some? && state.VertMaximized? ==>
              && r.value.Top() == window.Top() && r.value.size.height == window.size.height
              && r.value.size.width == ConstrainedSize(l, requestedSize).width
    ensures r.Some? && state.HorizMaximized? ==>
              && r.value.Left() == window.Left() && r.value.size.width == window.size.width
              && r.value.size.height == ConstrainedSize(l, requestedSize).height
    ensures r.Some? && !state.Restored? && !state.VertMaximized? && !state.HorizMaximized? ==> r.value == window
    ensures r.Some? && (state.Restored? || state.VertMaximized?) ==>
              r.value.Left() == if requestedPos.x == window.Left() then window.Left()
                                else requestedPos.x + ConstrainedSize(l, requestedSize).width - requestedSize.width
    ensures r.Some? && (state.Restored? || state.HorizMaximized?) ==>
              r.value.Top() == if requestedPos.y == window.Top() then window.Top()
                               else requestedPos.y + ConstrainedSize(l, requestedSize).height - requestedSize.height
    ensures r.Some? && state.Restored? ==>
              && (requestedPos.x != window.Left() ==>
                    (r.value.Right() == requestedPos.x + requestedSize.width <==>
                     ConstrainedSize(l, requestedSize).width == requestedSize.width))
              && (requestedPos.y != window.Top() ==>
                    (r.value.Bottom() == requestedPos.y + requestedSize.height <==>
                     ConstrainedSize(l, requestedSize).height == requestedSize.height))
  {
    var leftResize, topResize := requestedPos.x != window.topLeft.x, requestedPos.y != window.topLeft.y;
    if l.widthInc == 0 || l.heightInc == 0 {
      return None;
    }
    var newPos, newSize := requestedPos, requestedSize;
    newSize := ApplyLimits(l, newSize);
    newSize := ApplyIncrements(l, newSize);
    if !Correctable(MinError(newSize, l.minAspect), l.minAspect) {
      return None;
    }
    newSize := ApplyMinAspect(l.minAspect, newSize);
    if !Correctable(MaxError(newSize, l.maxAspect), l.maxAspect) {
      return None;
    }
    newSize := ApplyMaxAspect(l.maxAspect, newSize);
    if leftResize {
      newPos := newPos.(x := newPos.x + (newSize.width - requestedSize.width));
    }
    if topResize {
      newPos := newPos.(y := newPos.y + (newSize.height - requestedSize.height));
    }
    match state {
      case Restored =>
      case VertMaximized =>
        newPos, newSize := newPos.(y := window.topLeft.y), newSize.(height := window.size.height);
      case HorizMaximized =>
        newPos, newSize := newPos.(x := window.topLeft.x), newSize.(width := window.size.width);
      case _ =>
        newPos, newSize := window.topLeft, window.size;
    }
    r := Some(Rectangle(newPos, newSize));
  }

  /** With limits in order and no aspect ratio asked for: whole increments on both axes, at least the minimum, at most
      half an increment from the request brought within the limits; and constraining the result changes nothing. */
  lemma {:induction false} IncrementsReached(l: Limits, s: Size)
    requires l.widthInc >= 1 && l.heightInc >= 1
    requires 0 <= l.minWidth <= l.maxWidth && 0 <= l.minHeight <= l.maxHeight
    requires l.minAspect == ANY_ASPECT_MIN && l.maxAspect == ANY_ASPECT_MAX
    ensures Defined(l, s) && Defined(l, ConstrainedSize(l, s))
    ensures var r := ConstrainedSize(l, s);
            && (exists j :: j >= 0 && r.width == l.minWidth + l.widthInc * j)
            && (exists k :: k >= 0 && r.height == l.minHeight + l.heightInc * k)
            && 2 * Abs(r.width - Clamp(s.width, l.minWidth, l.maxWidth)) <= l.widthInc
            && 2 * Abs(r.height - Clamp(s.height, l.minHeight, l.maxHeight)) <= l.heightInc
            && ConstrainedSize(l, r) == r
  {
    AxisFits(s.width, l.minWidth, l.maxWidth, l.widthInc);
    AxisFits(s.height, l.minHeight, l.maxHeight, l.heightInc);
    AnyAspect(Clamped(l, s));
  }

  // ----- when a size is granted

  /** The request is a whole number of increments above the minimum, and above the maximum by at most half of one. */
  predicate Grants(x: int, min: int, max: int, inc: int)
    requires inc >= 1
  {
    min <= x && (x - min) % inc == 0 && 2 * (x - max) <= inc
  }

  /** Only the next multiple after max can be above it by at most half an increment. */
  lemma {:induction false} NextAfter(x: int, max: int, inc: int)
    requires inc >= 1 && 0 <= max < x
    ensures x % inc == 0 && 2 * (x - max) <= inc <==> 2 * (max % inc) >= inc && x == max - max % inc + inc
  {
    var q, rest := Divided(max, inc);
    var q', rest' := Divided(x, inc);
    NextMultiple(inc, q);
    NextMultiple(inc, q + 1);
    MulLe(q', q, inc);
    MulLe(q + 2, q', inc);
    if x == max - rest + inc {
      SameQuotient(inc, q + 1, 0, q', rest');
    }
  }

  lemma {:induction false} RoundedInPlace(x: int, min: int, inc: int)
    requires inc >= 1 && x >= min
    ensures Rounded(x, min, inc) == x <==> (x - min) % inc == 0
  {
    hide Rounded;
    var whole, rest := Divided(x - min, inc);
    RoundedExactly(x, min, inc);
  }

  lemma {:induction false} RoundedAbove(x: int, max: int, min: int, inc: int)
    requires inc >= 1 && min <= max < x
    ensures Rounded(max, min, inc) == x <==> (x - min) % inc == 0 && 2 * (x - max) <= inc
  {
    hide Rounded;
    var whole, rest := Divided(max - min, inc);
    RoundedExactly(max, min, inc);
    NextAfter(x - min, max - min, inc);
  }

  /** An axis is granted as asked for exactly then. */
  lemma {:induction false} AxisGrants(x: int, min: int, max: int, inc: int)
    requires inc >= 1 && min <= max
    ensures Axis(x, min, max, inc) == x <==> Grants(x, min, max, inc)
  {
    hide Rounded;
    if x < min {
      RoundedToNearest(min, min, inc);
      ExactMultipleStays(min, inc, 0);
    } else if x <= max {
      RoundedInPlace(x, min, inc);
    } else {
      RoundedAbove(x, max, min, inc);
    }
  }

  /** With limits in order and no aspect ratio asked for, each axis of a size is granted exactly if its limits do. */
  lemma {:induction false} GrantedAsAsked(l: Limits, s: Size)
    requires l.widthInc >= 1 && l.heightInc >= 1
    requires 0 <= l.minWidth <= l.maxWidth && 0 <= l.minHeight <= l.maxHeight
    requires l.minAspect == ANY_ASPECT_MIN && l.maxAspect == ANY_ASPECT_MAX
    ensures Defined(l, s)
    ensures ConstrainedSize(l, s).width == s.width <==> Grants(s.width, l.minWidth, l.maxWidth, l.widthInc)
    ensures ConstrainedSize(l, s).height == s.height <==> Grants(s.height, l.minHeight, l.maxHeight, l.heightInc)
  {
    AxisGrants(s.width, l.minWidth, l.maxWidth, l.widthInc);
    AxisGrants(s.height, l.minHeight, l.maxHeight, l.heightInc);
    IncrementsReached(l, s);
    AnyAspect(Clamped(l, s));
  }

  /** So a dragged near edge of a restored window leaves the far edge where it was asked for exactly then. */
  lemma {:induction false} FarEdgeStays(l: Limits, window: Rectangle, pos: Point, size: Size)
    requires l.widthInc >= 1 && l.heightInc >= 1
    requires 0 <= l.minWidth <= l.maxWidth && 0 <= l.minHeight <= l.maxHeight
    requires l.minAspect == ANY_ASPECT_MIN && l.maxAspect == ANY_ASPECT_MAX
    ensures var r := Constrained(l, Restored, window, pos, size);
            && r.Some?
            && (pos.x != window.Left() ==>
                  (r.value.Right() == pos.x + size.width <==> Grants(size.width, l.minWidth, l.maxWidth, l.widthInc)))
            && (pos.y != window.Top() ==>
                  (r.value.Bottom() == pos.y + size.height <==>
                   Grants(size.height, l.minHeight, l.maxHeight, l.heightInc)))
  {
    GrantedAsAsked(l, size);
  }

  /** With aspect ratios a size is granted if its axes are and it has both, and only if it has the maximum one. */
  lemma {:induction false} GrantedWithAspects(l: Limits, s: Size)
    requires InOrderToDivide(l) && l.minWidth <= l.maxWidth && l.minHeight <= l.maxHeight
    requires l.minAspect.height > 0 && l.maxAspect.width > 0
    ensures Defined(l, s)
    ensures Grants(s.width, l.minWidth, l.maxWidth, l.widthInc) &&
            Grants(s.height, l.minHeight, l.maxHeight, l.heightInc) &&
            MinError(s, l.minAspect) <= 0 && MaxError(s, l.maxAspect) <= 0 ==>
              ConstrainedSize(l, s) == s
    ensures ConstrainedSize(l, s) == s ==> MaxError(s, l.maxAspect) <= 0
  {
    DefinedByLimits(l, s);
    AxisGrants(s.width, l.minWidth, l.maxWidth, l.widthInc);
    AxisGrants(s.height, l.minHeight, l.maxHeight, l.heightInc);
    MinStepNotNegative(Clamped(l, s), l.minAspect);
    MaxAspectReached(MinAspectStep(Clamped(l, s), l.minAspect), l.maxAspect);
  }

  /** A width that is rounded up and cut again by the ratio is granted although its axis does not grant it. */
  lemma {:induction false} GrantedAnyway()
    ensures var l := Limits(0, 0, 100, 100, 4, 1, ANY_ASPECT_MIN, AspectRatio(1, 2)); var s := Size(10, 20);
            && !Grants(s.width, l.minWidth, l.maxWidth, l.widthInc)
            && Defined(l, s) && ConstrainedSize(l, s) == s
  {
    RoundedExactly(10, 0, 4);
    RoundedExactly(20, 0, 1);
    assert CeilDiv(4, 2) == 2 && CeilDiv(4, 1) == 4;
  }
}
