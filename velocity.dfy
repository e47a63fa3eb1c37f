/**
 * The conversion of one frame's pixel displacement into a speed in km/h
 * (`calculate_velocity`). Floating point is modelled by exact reals, and the
 * square root `np.sqrt` is supplied by the caller as a function on the
 * integer squared distance.
 */
module Velocity {
  import opened Wrappers
  import opened Detection

  /** Kilometres represented by one pixel: `0.001 / 1000`. */
  const ScaleFactor: real := 0.001 / 1000.0

  /** The scale factor is 0.000001 km, one millimetre, per pixel. */
  lemma ScaleFactorValue()
    ensures ScaleFactor == 0.000001
    ensures 1000000.0 * ScaleFactor == 1.0
  {
  }

  /** Seconds in an hour, the factor from km/s to km/h. */
  const SecondsPerHour: real := 3600.0

  /** The squared Euclidean distance between two positions, exact in Python's unbounded integers. */
  function SquaredDistance(p: Position, q: Position): (n: int)
    ensures n >= 0
    ensures n == 0 <==> p == q
  {
    var dx := q.0 - p.0;
    var dy := q.1 - p.1;
    assert dx * dx >= 0 && dy * dy >= 0;
    assert dx != 0 ==> dx * dx > 0;
    assert dy != 0 ==> dy * dy > 0;
    dx * dx + dy * dy
  }

  /** `d` is the non-negative square root of `n`. */
  ghost predicate IsSqrt(d: real, n: int)
  {
    d >= 0.0 && d * d == n as real
  }

  /**
   * `calculate_velocity` with the fields it reads passed in: 0 unless both
   * positions are present, otherwise the pixel distance times the scale
   * factor, divided by the duration `1 / fps` of one frame, times 3600. The
   * frame rate is read, and divided by, only when both positions are present.
   */
  function CalculateVelocity(previous: Option<Position>, current: Option<Position>,
                             fps: real, sqrt: int -> real): (v: real)
    requires previous.Some? && current.Some? ==> fps != 0.0
    ensures previous.None? || current.None? ==> v == 0.0
    ensures previous.Some? && current.Some? ==>
      v == sqrt(SquaredDistance(previous.value, current.value)) * ScaleFactor * fps * SecondsPerHour
  {
    if previous.Some? && current.Some? then
      var pixelDistance := sqrt(SquaredDistance(previous.value, current.value));
      var timeSeconds := 1.0 / fps;
      var kmPerSecond := pixelDistance * ScaleFactor / timeSeconds;
      DivideByReciprocal(pixelDistance * ScaleFactor, fps);
      kmPerSecond * SecondsPerHour
    else
      0.0
  }

  /** Dividing by `1 / f` is multiplying by `f`. */
  lemma DivideByReciprocal(a: real, f: real)
    requires f != 0.0
    ensures a / (1.0 / f) == a * f
  {
    assert (1.0 / f) * f == 1.0;
    assert (a * f) * (1.0 / f) == a;
  }

  /** The only non-negative square root of 25 is 5. */
  lemma SqrtOfTwentyFive(d: real)
    requires IsSqrt(d, 25)
    ensures d == 5.0
  {
    assert (d - 5.0) * (d + 5.0) == d * d - 25.0;
    assert d + 5.0 > 0.0;
  }

  /**
   * With a true square root and a positive frame rate the speed is
   * non-negative, its square is the squared pixel distance times the squared
   * conversion factor, and it is zero exactly when the bird did not move.
   */
  lemma VelocityIsEuclidean(p: Position, q: Position, fps: real, sqrt: int -> real)
    requires fps > 0.0
    requires IsSqrt(sqrt(SquaredDistance(p, q)), SquaredDistance(p, q))
    ensures CalculateVelocity(Some(p), Some(q), fps, sqrt) >= 0.0
    ensures var v := CalculateVelocity(Some(p), Some(q), fps, sqrt);
            var c := ScaleFactor * fps * SecondsPerHour;
            v * v == SquaredDistance(p, q) as real * (c * c)
    ensures CalculateVelocity(Some(p), Some(q), fps, sqrt) == 0.0 <==> p == q
  {
    var d := sqrt(SquaredDistance(p, q));
    var c := ScaleFactor * fps * SecondsPerHour;
    var v := CalculateVelocity(Some(p), Some(q), fps, sqrt);
    assert c > 0.0;
    assert v == d * c;
    assert v * v == (d * d) * (c * c);
    assert v == 0.0 <==> d == 0.0;
    assert d == 0.0 <==> SquaredDistance(p, q) == 0;
  }

  /**
   * The 3-4-5 example: from (10, 10) to (13, 14) at 30 frames per second the
   * pixel distance is 5 and the speed is 5 * 0.000001 * 30 * 3600 = 0.54 km/h.
   */
  lemma ThreeFourFiveExample(sqrt: int -> real)
    requires IsSqrt(sqrt(25), 25)
    ensures SquaredDistance((10, 10), (13, 14)) == 25
    ensures CalculateVelocity(Some((10, 10)), Some((13, 14)), 30.0, sqrt) == 0.54
  {
    assert SquaredDistance((10, 10), (13, 14)) == 25;
    SqrtOfTwentyFive(sqrt(25));
  }
}
