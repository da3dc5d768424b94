/**
 * AxisFrictionCalculator: static friction computed separately along the x, y and
 * z axes. Each call samples the stylus point into a time window, fits a fuzzy
 * Bezier curve to the window, classifies each axis of the curve as MOVE, STAY or
 * UNKNOWN, and runs each axis's stick/slip state against a spring pulling the
 * stylus back to an anchor point.
 */
module AxisFriction {
  import opened Wrappers
  import opened Numerics
  import opened Geometry
  import opened FuzzyValues
  import opened Curves
  import opened FrictionRules

  /** The component of a vector along axis k (0: x, 1: y, 2: z). */
  function Component(v: Vector, k: nat): real
    requires k < 3
  {
    if k == 0 then v.x else if k == 1 then v.y else v.z
  }

  /** The coordinate of a point along axis k (0: x, 1: y, 2: z). */
  function Coordinate(p: Point, k: nat): real
    requires k < 3
  {
    if k == 0 then p.x else if k == 1 then p.y else p.z
  }

  /**
   * The anchor after an axis starts to stick: Point.createXYZ of the anchor with
   * coordinate k taken from the current point (time and fuzziness become 0).
   */
  function SnapAxis(anchor: Point, current: Point, k: nat): (a: Point)
    requires k < 3
    ensures Coordinate(a, k) == Coordinate(current, k)
    ensures forall j :: 0 <= j < 3 && j != k ==> Coordinate(a, j) == Coordinate(anchor, j)
    ensures a.time == 0.0 && a.fuzziness == 0.0
  {
    if k == 0 then CreateXYZ(current.x, anchor.y, anchor.z)
    else if k == 1 then CreateXYZ(anchor.x, current.y, anchor.z)
    else CreateXYZ(anchor.x, anchor.y, current.z)
  }

  function SnapIf(anchor: Point, current: Point, k: nat, engaged: bool): Point
    requires k < 3
  {
    if engaged then SnapAxis(anchor, current, k) else anchor
  }

  /** Once an axis is snapped, the spring has no component along it until the stylus moves. */
  lemma SnapZeroesSpring(anchor: Point, current: Point, k: nat, stiffness: real)
    requires k < 3
    ensures Component(Scale(CreateSE(current, SnapAxis(anchor, current, k)), stiffness), k) == 0.0
  {
  }

  /** The fuzzy values of the samples along axis k, with the samples' fuzziness. */
  function AxisValues(samples: seq<Point>, k: nat): (vs: seq<FuzzyValue>)
    requires k < 3
    ensures |vs| == |samples|
    ensures forall i :: 0 <= i < |vs| ==> vs[i] == Create(Coordinate(samples[i], k), samples[i].fuzziness)
  {
    seq(|samples|, i requires 0 <= i < |samples| => Create(Coordinate(samples[i], k), samples[i].fuzziness))
  }

  /** The loop of calculate that splits the curve samples into one fuzzy value per axis. */
  method SplitAxes(samples: seq<Point>) returns (x: seq<FuzzyValue>, y: seq<FuzzyValue>, z: seq<FuzzyValue>)
    ensures x == AxisValues(samples, 0) && y == AxisValues(samples, 1) && z == AxisValues(samples, 2)
  {
    x, y, z := [], [], [];
    var i := 0;
    while i < |samples|
      invariant 0 <= i <= |samples|
      invariant x == AxisValues(samples[..i], 0) && y == AxisValues(samples[..i], 1) && z == AxisValues(samples[..i], 2)
    {
      var p := samples[i];
      x := x + [FuzzyValues.Create(p.x, p.fuzziness)];
      y := y + [FuzzyValues.Create(p.y, p.fuzziness)];
      z := z + [FuzzyValues.Create(p.z, p.fuzziness)];
      i := i + 1;
    }
    assert samples[..|samples|] == samples;
  }

  /** Samples of non-negative fuzziness give fuzzy values of non-negative fuzziness. */
  lemma AxisValuesNonNegative(samples: seq<Point>, k: nat)
    requires k < 3 && forall i :: 0 <= i < |samples| ==> 0.0 <= samples[i].fuzziness
    ensures AllNonNegative(AxisValues(samples, k))
  {
  }

  class AxisFrictionCalculator {
    /** Sampling interval of the input points (s). */
    const inputInterval: real
    /** Time span of the points a curve is fitted to (s). */
    const curveTimeLength: real
    /** Spring constant (N per unit of distance). */
    const stiffness: real
    /** Maximum static friction force (N). */
    const maxFrictionForce: real
    /** Force necessity at which a sticking axis may slip. */
    const maxFrictionThreshold: real
    /** Necessity and possibility thresholds of the fragmentation. */
    const fragmentationThreshold: TruthValue
    /** Time step of the curve samples the fragmentation looks at (s). */
    const fragmentationTimeResolution: real
    const creator: CurveCreator
    const lib: CurveLibrary

    /** The curve fitted on the last call, if there were enough points. */
    var fbc: Option<BezierCurve>
    /** The sampled input points. */
    var points: seq<Point>
    /** Time of the last sampled point. */
    var preTime: real
    /** The point the spring pulls towards; none before the first call. */
    var anchor: Option<Point>
    /** Whether each axis sticks (x, y, z). */
    const flags: array<bool>
    /** The fragmentation state of each axis (x, y, z). */
    const labels: array<State>

    ghost predicate Valid()
      reads this, flags, labels
    {
      && flags.Length == 3 && labels.Length == 3
      && 0.0 < inputInterval && 0.0 < curveTimeLength
      && creator == CreatorFor(curveTimeLength)
      && NonNegativeSamples(lib)
      && Spaced(points, inputInterval, preTime)
    }

    /** The private constructor: no curve, no samples, no anchor, every axis slipping and UNKNOWN. */
    constructor (inputInterval: real, curveTimeLength: real, stiffness: real, maxFrictionForce: real,
                 maxFrictionThreshold: real, fragmentationThreshold: TruthValue,
                 fragmentationTimeResolution: real, creator: CurveCreator, lib: CurveLibrary)
      requires 0.0 < inputInterval && 0.0 < curveTimeLength && creator == CreatorFor(curveTimeLength)
      requires NonNegativeSamples(lib)
      ensures Valid()
      ensures this.inputInterval == inputInterval && this.curveTimeLength == curveTimeLength
      ensures this.stiffness == stiffness && this.maxFrictionForce == maxFrictionForce
      ensures this.maxFrictionThreshold == maxFrictionThreshold
      ensures this.fragmentationThreshold == fragmentationThreshold
      ensures this.fragmentationTimeResolution == fragmentationTimeResolution
      ensures this.creator == creator && this.lib == lib
      ensures fbc.None? && points == [] && preTime == 0.0 && anchor.None?
      ensures flags[..] == [false, false, false] && labels[..] == [UNKNOWN, UNKNOWN, UNKNOWN]
      ensures fresh(flags) && fresh(labels)
    {
      this.inputInterval := inputInterval;
      this.curveTimeLength := curveTimeLength;
      this.stiffness := stiffness;
      this.maxFrictionForce := maxFrictionForce;
      this.maxFrictionThreshold := maxFrictionThreshold;
      this.fragmentationThreshold := fragmentationThreshold;
      this.fragmentationTimeResolution := fragmentationTimeResolution;
      this.creator := creator;
      this.lib := lib;
      fbc := None;
      points := [];
      preTime := 0.0;
      anchor := None;
      flags := new bool[3] [false, false, false];
      labels := new State[3] [UNKNOWN, UNKNOWN, UNKNOWN];
    }

    /**
     * AxisFrictionCalculator.create(...): rejects a non-positive input interval or
     * curve time length and a missing creator; the creator given is then replaced by
     * a cubic one for the curve time length.
     */
    static method Create(inputInterval: real, curveTimeLength: real, stiffness: real, maxFrictionForce: real,
                         maxFrictionThreshold: real, fragmentationThreshold: TruthValue,
                         fragmentationTimeResolution: real, fbcCreator: Option<CurveCreator>, lib: CurveLibrary)
      returns (r: Result<AxisFrictionCalculator, ConfigError>)
      requires NonNegativeSamples(lib)
      ensures r.Failure? <==> CheckConfig(inputInterval, curveTimeLength, fbcCreator).Some?
      ensures r.Failure? ==> r.error == CheckConfig(inputInterval, curveTimeLength, fbcCreator).value
      ensures r.Success? ==> fresh(r.value) && r.value.Valid() && r.value.creator == CreatorFor(curveTimeLength)
      ensures r.Success? ==> r.value.inputInterval == inputInterval && r.value.curveTimeLength == curveTimeLength
    {
      var err := CheckConfig(inputInterval, curveTimeLength, fbcCreator);
      if err.Some? {
        return Failure(err.value);
      }
      var c := new AxisFrictionCalculator(inputInterval, curveTimeLength, stiffness, maxFrictionForce,
        maxFrictionThreshold, fragmentationThreshold, fragmentationTimeResolution,
        CreatorFor(curveTimeLength), lib);
      return Success(c);
    }

    /** AxisFrictionCalculator.create(): the defaults for the Geomagic device. */
    static method CreateDefault(lib: CurveLibrary) returns (c: AxisFrictionCalculator)
      requires NonNegativeSamples(lib)
      ensures fresh(c) && c.Valid()
      ensures c.inputInterval == 0.001 && c.curveTimeLength == 0.1 && c.stiffness == 0.5
      ensures c.maxFrictionForce == 0.5 && c.maxFrictionThreshold == 0.95
      ensures c.fragmentationThreshold == TruthValue(0.5, 0.5) && c.fragmentationTimeResolution == 0.025
    {
      c := new AxisFrictionCalculator(0.001, 0.1, 0.5, 0.5, 0.95, TruthValue(0.5, 0.5), 0.025, CreatorFor(0.1), lib);
    }

    function GetFbc(): Option<BezierCurve>
      reads this
    {
      fbc
    }

    function GetXFlag(): bool
      reads this, flags
      requires flags.Length == 3
    {
      flags[0]
    }

    function GetYFlag(): bool
      reads this, flags
      requires flags.Length == 3
    {
      flags[1]
    }

    function GetZFlag(): bool
      reads this, flags
      requires flags.Length == 3
    {
      flags[2]
    }

    /** The number of steps the fitted curve is sampled at. */
    function SampleNum(): nat
      requires 0.0 < curveTimeLength && 0.0 < fragmentationTimeResolution
    {
      SampleCount(curveTimeLength, fragmentationTimeResolution)
    }

    /** The point the forces act at: the end of the fitted curve, or the input itself without a curve. */
    function CurrentOf(curve: Option<BezierCurve>, p: Point): (current: Point)
      requires 0.0 < curveTimeLength && 0.0 < fragmentationTimeResolution
      ensures curve.None? ==> current == p
    {
      if curve.Some? then
        var samples := EvaluateAll(lib, curve.value, SampleNum());
        samples[|samples| - 1]
      else p
    }

    /** The state of axis k after fragmentation of the curve samples. */
    function AxisState(samples: seq<Point>, k: nat): State
      requires k < 3 && 0 < |samples| && forall i :: 0 <= i < |samples| ==> 0.0 <= samples[i].fuzziness
    {
      AxisValuesNonNegative(samples, k);
      FragmentationOf(AxisValues(samples, k))
    }

    /** The state fragmentation assigns to the values of one axis. */
    function FragmentationOf(values: seq<FuzzyValue>): State
      requires 0 < |values| && AllNonNegative(values)
    {
      var ts := Inclusions(values);
      Classify(fragmentationThreshold, MinNecessity(1.0, ts), MinPossibility(1.0, ts))
    }

    /** The spring force (anchor - current) * stiffness. */
    function Spring(current: Point, anchor0: Point): Vector
    {
      Scale(CreateSE(current, anchor0), stiffness)
    }

    /** No force necessity of the spring is 0 / 0 (the hazard the model excludes). */
    predicate SpringDefined(current: Point, anchor0: Point)
    {
      forall k :: 0 <= k < 3 ==>
        NecessityDefined(maxFrictionForce, Component(Spring(current, anchor0), k), current.fuzziness * stiffness)
    }

    /** The force necessity of the spring along axis k, with the current point's fuzziness scaled by the stiffness. */
    function AxisNecessity(vector: Vector, current: Point, k: nat): real
      requires k < 3 && NecessityDefined(maxFrictionForce, Component(vector, k), current.fuzziness * stiffness)
    {
      ForceNecessity(maxFrictionForce, Component(vector, k), current.fuzziness * stiffness)
    }

    /** The spring of the call with input p is defined. */
    predicate TickDefined(p: Point)
      reads this
      requires 0.0 < curveTimeLength && 0.0 < fragmentationTimeResolution
    {
      var buffer := SampleAndPrune(points, preTime, inputInterval, curveTimeLength, p).0;
      var current := CurrentOf(CreateFBC(creator, lib, buffer), p);
      SpringDefined(current, if anchor.Some? then anchor.value else current)
    }

    /**
     * fragmentation: the minimum necessity and possibility, from 1, with which the
     * last value is included in each earlier one, classified against the thresholds.
     */
    method Fragmentation(values: seq<FuzzyValue>) returns (s: State)
      requires 0 < |values| && AllNonNegative(values)
      ensures s == FragmentationOf(values)
    {
      var nec := 1.0;
      var pos := 1.0;
      var last := values[|values| - 1];
      ghost var ts := Inclusions(values);
      var i := 0;
      while i < |values| - 1
        invariant 0 <= i <= |values| - 1
        invariant nec == MinNecessity(1.0, ts[..i]) && pos == MinPossibility(1.0, ts[..i])
      {
        var t := IncludedIn(last, values[i]);
        assert ts[..i + 1][..i] == ts[..i];
        nec := Min(nec, t.necessity);
        pos := Min(pos, t.possibility);
        i := i + 1;
      }
      assert ts[..|values| - 1] == ts;
      if nec < fragmentationThreshold.necessity && pos < fragmentationThreshold.possibility {
        s := MOVE;
      } else if fragmentationThreshold.necessity < nec && fragmentationThreshold.possibility < pos {
        s := STAY;
      } else {
        s := UNKNOWN;
      }
    }

    /**
     * updateState(k, current, vector): the stick/slip step of axis k. The flag
     * follows NextFlag; a slipping axis that starts to stick snaps the anchor's
     * coordinate k to the current point; the result is the spring component
     * scaled by 1 - nec while the axis sticks, else 0. Other indices give 0.
     */
    method UpdateState(k: int, current: Point, vector: Vector) returns (r: real)
      requires Valid() && anchor.Some?
      requires 0 <= k < 3 ==> NecessityDefined(maxFrictionForce, Component(vector, k), current.fuzziness * stiffness)
      modifies this`anchor, flags
      ensures Valid() && anchor.Some?
      ensures !(0 <= k < 3) ==> r == 0.0 && anchor == old(anchor) && flags[..] == old(flags[..])
      ensures 0 <= k < 3 ==>
        var nec := AxisNecessity(vector, current, k);
        && flags[k] == NextFlag(old(flags[k]), labels[k], nec, maxFrictionThreshold)
        && r == StickForce(flags[k], Component(vector, k), nec)
        && anchor == Some(SnapIf(old(anchor).value, current, k, !old(flags[k]) && labels[k] == STAY))
        && forall j :: 0 <= j < 3 && j != k ==> flags[j] == old(flags[j])
    {
      if !(0 <= k < 3) {
        return 0.0;
      }
      var value := FuzzyValues.Create(Component(vector, k), current.fuzziness * stiffness);
      var nec := AxisNecessity(vector, current, k);
      ghost var sticks := NextFlag(flags[k], labels[k], nec, maxFrictionThreshold);
      r := value.vertex * (1.0 - nec);
      if flags[k] {
        if nec >= maxFrictionThreshold && labels[k] != STAY {
          flags[k] := false;
          r := 0.0;
        }
      } else {
        if labels[k] == STAY {
          flags[k] := true;
          anchor := Some(SnapAxis(anchor.value, current, k));
        } else {
          r := 0.0;
        }
      }
      assert flags[k] == sticks;
      assert r == StickForce(sticks, value.vertex, nec);
    }

    /** The first lines of calculate: sample the input if it is due and prune the buffer. */
    method SampleInput(p: Point)
      requires Valid()
      modifies this`points, this`preTime
      ensures Valid()
      ensures (points, preTime) == SampleAndPrune(old(points), old(preTime), inputInterval, curveTimeLength, p)
    {
      SampleAndPruneKeepsWindow(points, preTime, inputInterval, curveTimeLength, p);
      if p.time - preTime > inputInterval {
        points := points + [p];
        preTime := p.time;
      }
      points := Prune(points, p.time - curveTimeLength);
    }

    /**
     * The middle of calculate: fit a curve to the buffer; with a curve, re-classify
     * each axis and answer the curve's end as the current point, else answer p.
     */
    method Refit(p: Point) returns (current: Point)
      requires Valid() && 0.0 < fragmentationTimeResolution
      modifies this`fbc, labels
      ensures Valid()
      ensures fbc == CreateFBC(creator, lib, points) && current == CurrentOf(fbc, p)
      ensures fbc.None? ==> labels[..] == old(labels[..])
      ensures fbc.Some? ==>
        var samples := EvaluateAll(lib, fbc.value, SampleNum());
        forall k :: 0 <= k < 3 ==> labels[k] == AxisState(samples, k)
    {
      current := p;
      fbc := CreateFBC(creator, lib, points);
      if fbc.Some? {
        var samples := EvaluateAll(lib, fbc.value, SampleNum());
        EvaluateAllNonNegative(lib, fbc.value, SampleNum());
        Relabel(samples);
        current := samples[|samples| - 1];
      }
    }

    /** Re-classify each axis from the curve samples. */
    method Relabel(samples: seq<Point>)
      requires labels.Length == 3
      requires 0 < |samples| && forall i :: 0 <= i < |samples| ==> 0.0 <= samples[i].fuzziness
      modifies labels
      ensures forall k :: 0 <= k < 3 ==> labels[k] == AxisState(samples, k)
    {
      var x, y, z := SplitAxes(samples);
      AxisValuesNonNegative(samples, 0);
      AxisValuesNonNegative(samples, 1);
      AxisValuesNonNegative(samples, 2);
      var sx := Fragmentation(x);
      assert sx == AxisState(samples, 0);
      var sy := Fragmentation(y);
      assert sy == AxisState(samples, 1);
      var sz := Fragmentation(z);
      assert sz == AxisState(samples, 2);
      labels[0], labels[1], labels[2] := sx, sy, sz;
    }

    /**
     * The end of calculate: set the anchor on the first call, take the spring, and
     * run the stick/slip step of x, y and z in that order.
     */
    method Respond(current: Point) returns (force: Vector)
      requires Valid() && SpringDefined(current, if anchor.Some? then anchor.value else current)
      modifies this`anchor, flags
      ensures Valid()
      ensures
        var anchor0 := if old(anchor).Some? then old(anchor).value else current;
        var vector := Spring(current, anchor0);
        && (forall k :: 0 <= k < 3 ==>
              && flags[k] == NextFlag(old(flags[k]), labels[k], AxisNecessity(vector, current, k), maxFrictionThreshold)
              && Component(force, k) == StickForce(flags[k], Component(vector, k), AxisNecessity(vector, current, k)))
        && anchor == Some(
             SnapIf(SnapIf(SnapIf(anchor0, current, 0, !old(flags[0]) && labels[0] == STAY),
                           current, 1, !old(flags[1]) && labels[1] == STAY),
                    current, 2, !old(flags[2]) && labels[2] == STAY))
    {
      if anchor.None? {
        anchor := Some(current);
      }
      var vector := Scale(CreateSE(current, anchor.value), stiffness);
      assert vector == Spring(current, anchor.value);
      var fx := UpdateState(0, current, vector);
      var fy := UpdateState(1, current, vector);
      var fz := UpdateState(2, current, vector);
      force := Vector(fx, fy, fz);
    }

    /**
     * calculate(p): the force for stylus point p. The buffer is sampled and pruned,
     * a curve is fitted, and when there is one each axis is re-classified and the
     * current point becomes the curve's end. The anchor is set on the first call;
     * the spring vector (anchor - current) * stiffness is taken before any axis
     * snaps the anchor, and each axis then runs its stick/slip step in x, y, z order.
     */
    method Calculate(p: Point) returns (force: Vector)
      requires Valid() && 0.0 < fragmentationTimeResolution && TickDefined(p)
      modifies this, flags, labels
      ensures Valid()
      ensures (points, preTime) == SampleAndPrune(old(points), old(preTime), inputInterval, curveTimeLength, p)
      ensures fbc == CreateFBC(creator, lib, points)
      ensures fbc.None? ==> labels[..] == old(labels[..])
      ensures fbc.Some? ==>
        var samples := EvaluateAll(lib, fbc.value, SampleNum());
        forall k :: 0 <= k < 3 ==> labels[k] == AxisState(samples, k)
      ensures
        var current := CurrentOf(fbc, p);
        var anchor0 := if old(anchor).Some? then old(anchor).value else current;
        var vector := Spring(current, anchor0);
        && SpringDefined(current, anchor0)
        && (forall k :: 0 <= k < 3 ==>
              && flags[k] == NextFlag(old(flags[k]), labels[k], AxisNecessity(vector, current, k), maxFrictionThreshold)
              && Component(force, k) == StickForce(flags[k], Component(vector, k), AxisNecessity(vector, current, k)))
        && anchor == Some(
             SnapIf(SnapIf(SnapIf(anchor0, current, 0, !old(flags[0]) && labels[0] == STAY),
                           current, 1, !old(flags[1]) && labels[1] == STAY),
                    current, 2, !old(flags[2]) && labels[2] == STAY))
    {
      SampleInput(p);
      var current := Refit(p);
      force := Respond(current);
    }
  }
}
