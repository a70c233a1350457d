/**
 * The wing length and area bookkeeping of Main in Program.cs: each frame,
 * a loop walks the airfoil's points with a lastPoint cursor, adds every
 * panel's length to the top or the bottom total according to the sign of
 * the current point's unrotated y, and the areas are those lengths times
 * the wing width. Rotation (sin/cos) and Vector2.Distance (sqrt) are
 * parameters.
 */
module WingMetrics {
  import opened Wrappers
  import opened Geometry

  /** The values of Main the loop reads in one frame. */
  datatype Setting = Setting(origin: Vec, angleOfAttack: real, airfoilScale: real, wingWidth: real)

  datatype Metrics = Metrics(topLength: real, bottomLength: real, topArea: real, bottomArea: real, area: real)

  /** currentAirfoil[0] of an empty list throws before the loop. */
  datatype MetricsError = EmptyAirfoil

  /** The source tests `currentAirfoil[i].Y < 0` twice, joined by ||. */
  predicate IsOnBottom(p: Vec) {
    p.y < 0.0
  }

  /** The point the cursor holds at step i: point 0 at the first step,
      otherwise the point before i. */
  function LastIndex(i: nat): nat {
    if i == 0 then 0 else i - 1
  }

  /** The length added at step i: the distance between the rotated, scaled
      cursor point and the rotated, scaled point i. */
  function PanelLength(points: seq<Vec>, i: nat, s: Setting,
                       rotate: (Vec, Vec, real) -> Vec, distance: (Vec, Vec) -> real): real
    requires i < |points|
  {
    var last := rotate(points[LastIndex(i)], s.origin, s.angleOfAttack);
    var current := rotate(points[i], s.origin, s.angleOfAttack);
    distance(Scale(last, s.airfoilScale), Scale(current, s.airfoilScale))
  }

  /** The sum of the panel lengths of steps 0 .. n-1 whose point is not on the bottom. */
  function TopLength(points: seq<Vec>, n: nat, s: Setting,
                     rotate: (Vec, Vec, real) -> Vec, distance: (Vec, Vec) -> real): real
    requires n <= |points|
  {
    if n == 0 then 0.0
    else TopLength(points, n - 1, s, rotate, distance)
         + (if IsOnBottom(points[n - 1]) then 0.0 else PanelLength(points, n - 1, s, rotate, distance))
  }

  /** The sum of the panel lengths of steps 0 .. n-1 whose point is on the bottom. */
  function BottomLength(points: seq<Vec>, n: nat, s: Setting,
                        rotate: (Vec, Vec, real) -> Vec, distance: (Vec, Vec) -> real): real
    requires n <= |points|
  {
    if n == 0 then 0.0
    else BottomLength(points, n - 1, s, rotate, distance)
         + (if IsOnBottom(points[n - 1]) then PanelLength(points, n - 1, s, rotate, distance) else 0.0)
  }

  /** The sum of all panel lengths of steps 0 .. n-1. */
  function TotalLength(points: seq<Vec>, n: nat, s: Setting,
                       rotate: (Vec, Vec, real) -> Vec, distance: (Vec, Vec) -> real): real
    requires n <= |points|
  {
    if n == 0 then 0.0
    else TotalLength(points, n - 1, s, rotate, distance) + PanelLength(points, n - 1, s, rotate, distance)
  }

  /** The lengths and areas after the whole walk. */
  function MetricsOf(points: seq<Vec>, s: Setting,
                     rotate: (Vec, Vec, real) -> Vec, distance: (Vec, Vec) -> real): Metrics
  {
    var top := TopLength(points, |points|, s, rotate, distance);
    var bottom := BottomLength(points, |points|, s, rotate, distance);
    Metrics(top, bottom, top * s.wingWidth, bottom * s.wingWidth, top * s.wingWidth + bottom * s.wingWidth)
  }

  /** One frame's accumulation: lines 231-232, 269, 303-310, 355 and 358-360
      of Program.cs. */
  method AccumulateWingMetrics(currentAirfoil: seq<Vec>, s: Setting,
                               rotate: (Vec, Vec, real) -> Vec, distance: (Vec, Vec) -> real)
    returns (r: Result<Metrics, MetricsError>)
    ensures r.Failure? <==> |currentAirfoil| == 0
    ensures r.Success? ==> r.value == MetricsOf(currentAirfoil, s, rotate, distance)
  {
    var wingTopLength := 0.0;
    var wingBottomLength := 0.0;
    if |currentAirfoil| == 0 {
      return Failure(EmptyAirfoil);
    }
    var lastPoint := rotate(currentAirfoil[0], s.origin, s.angleOfAttack);
    for i := 0 to |currentAirfoil|
      invariant wingTopLength == TopLength(currentAirfoil, i, s, rotate, distance)
      invariant wingBottomLength == BottomLength(currentAirfoil, i, s, rotate, distance)
      invariant lastPoint == rotate(currentAirfoil[LastIndex(i)], s.origin, s.angleOfAttack)
    {
      var currentPoint := rotate(currentAirfoil[i], s.origin, s.angleOfAttack);
      var isOnBottom := currentAirfoil[i].y < 0.0 || currentAirfoil[i].y < 0.0;
      if isOnBottom {
        wingBottomLength := wingBottomLength
          + distance(Scale(lastPoint, s.airfoilScale), Scale(currentPoint, s.airfoilScale));
      } else {
        wingTopLength := wingTopLength
          + distance(Scale(lastPoint, s.airfoilScale), Scale(currentPoint, s.airfoilScale));
      }
      lastPoint := currentPoint;
    }
    var wingTopArea := wingTopLength * s.wingWidth;
    var wingBottomArea := wingBottomLength * s.wingWidth;
    var wingArea := wingTopArea + wingBottomArea;
    return Success(Metrics(wingTopLength, wingBottomLength, wingTopArea, wingBottomArea, wingArea));
  }

  /** Every panel goes to exactly one side: the top and bottom totals add up
      to the sum of all panel lengths. */
  lemma {:induction false} TopBottomPartition(points: seq<Vec>, n: nat, s: Setting,
                                              rotate: (Vec, Vec, real) -> Vec, distance: (Vec, Vec) -> real)
    requires n <= |points|
    ensures TopLength(points, n, s, rotate, distance) + BottomLength(points, n, s, rotate, distance)
         == TotalLength(points, n, s, rotate, distance)
  {
    if n > 0 {
      TopBottomPartition(points, n - 1, s, rotate, distance);
    }
  }

  /** Each step adds its panel to the bottom when its point is below the
      chord line and to the top otherwise, and leaves the other total alone. */
  lemma StepAddsToOneSide(points: seq<Vec>, i: nat, s: Setting,
                          rotate: (Vec, Vec, real) -> Vec, distance: (Vec, Vec) -> real)
    requires i < |points|
    ensures IsOnBottom(points[i]) ==>
      BottomLength(points, i + 1, s, rotate, distance)
        == BottomLength(points, i, s, rotate, distance) + PanelLength(points, i, s, rotate, distance) &&
      TopLength(points, i + 1, s, rotate, distance) == TopLength(points, i, s, rotate, distance)
    ensures !IsOnBottom(points[i]) ==>
      TopLength(points, i + 1, s, rotate, distance)
        == TopLength(points, i, s, rotate, distance) + PanelLength(points, i, s, rotate, distance) &&
      BottomLength(points, i + 1, s, rotate, distance) == BottomLength(points, i, s, rotate, distance)
  {
  }

  /** The first step measures the cursor's own point, so it adds nothing
      when the distance of a point to itself is zero. */
  lemma FirstPanelIsEmpty(points: seq<Vec>, s: Setting,
                          rotate: (Vec, Vec, real) -> Vec, distance: (Vec, Vec) -> real)
    requires |points| > 0
    requires forall p: Vec :: distance(p, p) == 0.0
    ensures PanelLength(points, 0, s, rotate, distance) == 0.0
    ensures TopLength(points, 1, s, rotate, distance) == 0.0
    ensures BottomLength(points, 1, s, rotate, distance) == 0.0
  {
  }

  /** The wing area is the total panel length times the wing width. */
  lemma AreaIsTotalTimesWidth(points: seq<Vec>, s: Setting,
                              rotate: (Vec, Vec, real) -> Vec, distance: (Vec, Vec) -> real)
    ensures MetricsOf(points, s, rotate, distance).area
         == TotalLength(points, |points|, s, rotate, distance) * s.wingWidth
  {
    TopBottomPartition(points, |points|, s, rotate, distance);
    var top := TopLength(points, |points|, s, rotate, distance);
    var bottom := BottomLength(points, |points|, s, rotate, distance);
    assert top * s.wingWidth + bottom * s.wingWidth == (top + bottom) * s.wingWidth;
  }

  /** An airfoil with no point below the chord line has an empty bottom:
      everything is top length. */
  lemma {:induction false} NothingBelow(points: seq<Vec>, n: nat, s: Setting,
                                        rotate: (Vec, Vec, real) -> Vec, distance: (Vec, Vec) -> real)
    requires n <= |points|
    requires forall k :: 0 <= k < n ==> points[k].y >= 0.0
    ensures BottomLength(points, n, s, rotate, distance) == 0.0
    ensures TopLength(points, n, s, rotate, distance) == TotalLength(points, n, s, rotate, distance)
  {
    if n > 0 {
      NothingBelow(points, n - 1, s, rotate, distance);
    }
  }

  /** With non-negative distances, neither total ever shrinks as the walk
      goes on. */
  lemma {:induction false} TotalsGrow(points: seq<Vec>, m: nat, n: nat, s: Setting,
                                      rotate: (Vec, Vec, real) -> Vec, distance: (Vec, Vec) -> real)
    requires m <= n <= |points|
    requires forall p: Vec, q: Vec :: distance(p, q) >= 0.0
    ensures TopLength(points, m, s, rotate, distance) <= TopLength(points, n, s, rotate, distance)
    ensures BottomLength(points, m, s, rotate, distance) <= BottomLength(points, n, s, rotate, distance)
    decreases n
  {
    if m < n {
      TotalsGrow(points, m, n - 1, s, rotate, distance);
      assert PanelLength(points, n - 1, s, rotate, distance) >= 0.0;
    }
  }
}
