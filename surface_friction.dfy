/**
 * SurfaceFrictionCalculator: static friction against registered surfaces. Each
 * call samples the stylus point into a time window, fits a fuzzy Bezier curve,
 * classifies each surface by the curve's fuzzy distances to it, and composes the
 * forces pulling the stylus onto every surface it sticks to.
 */
module SurfaceFriction {
  import opened Wrappers
  import opened Numerics
  import opened Geometry
  import opened FuzzyValues
  import opened Curves
  import opened FrictionRules
  import opened Surfaces

  predicate NoDuplicates(ss: seq<FrictionSurface>)
  {
    forall i, j :: 0 <= i < j < |ss| ==> ss[i] != ss[j]
  }

  /** ArrayList.remove(Object): the first occurrence removed, or the list unchanged. */
  function RemoveFirst(ss: seq<FrictionSurface>, s: FrictionSurface): (r: seq<FrictionSurface>)
    ensures s !in ss ==> r == ss
    ensures s in ss ==> |r| == |ss| - 1 && multiset(r) == multiset(ss) - multiset{s}
  {
    if |ss| == 0 then []
    else
      assert ss == [ss[0]] + ss[1..];
      if ss[0] == s then ss[1..]
      else [ss[0]] + RemoveFirst(ss[1..], s)
  }

  /** Without duplicates, removing a surface leaves exactly the others, in order. */
  lemma {:induction false} RemoveFirstNoDuplicates(ss: seq<FrictionSurface>, s: FrictionSurface)
    requires NoDuplicates(ss)
    ensures NoDuplicates(RemoveFirst(ss, s))
    ensures forall t :: t in RemoveFirst(ss, s) <==> t in ss && t != s
  {
    if |ss| > 0 {
      assert ss == [ss[0]] + ss[1..];
      assert ss[0] !in ss[1..] by {
        forall k | 0 <= k < |ss| - 1 ensures ss[1..][k] != ss[0] {
          assert ss[1..][k] == ss[k + 1];
        }
      }
      if ss[0] != s {
        RemoveFirstNoDuplicates(ss[1..], s);
        var r := RemoveFirst(ss[1..], s);
        assert RemoveFirst(ss, s) == [ss[0]] + r;
        forall i, j | 0 <= i < j < |r| + 1 ensures ([ss[0]] + r)[i] != ([ss[0]] + r)[j] {
          if i == 0 {
            assert ([ss[0]] + r)[j] == r[j - 1];
            assert r[j - 1] in r;
          }
        }
      }
    }
  }

  /** The fuzzy distances of the curve samples to surface s, with the samples' fuzziness. */
  function DistanceValues(samples: seq<Point>, s: FrictionSurface, sqrt: real -> real): (vs: seq<FuzzyValue>)
    ensures |vs| == |samples|
    ensures forall i :: 0 <= i < |vs| ==> vs[i] == Create(Distance(s, samples[i], sqrt), samples[i].fuzziness)
  {
    seq(|samples|, i requires 0 <= i < |samples| => Create(Distance(s, samples[i], sqrt), samples[i].fuzziness))
  }

  /** Samples of non-negative fuzziness give fuzzy distances of non-negative, finite fuzziness. */
  lemma DistanceValuesNonNegative(samples: seq<Point>, s: FrictionSurface, sqrt: real -> real)
    requires forall i :: 0 <= i < |samples| ==> 0.0 <= samples[i].fuzziness
    ensures AllNonNegative(DistanceValues(samples, s, sqrt))
    ensures forall i :: 0 <= i < |samples| ==> DistanceValues(samples, s, sqrt)[i].fuzziness == Finite(samples[i].fuzziness)
  {
  }

  /**
   * The start value of the surface fragmentation, max((f - v) / f, 0) for the last
   * fuzzy distance: the degree to which the last sample touches the surface.
   */
  function ContactStart(last: FuzzyValue): real
    requires last.fuzziness.Finite? && last.fuzziness.r != 0.0
  {
    Max((last.fuzziness.r - last.vertex) / last.fuzziness.r, 0.0)
  }

  /** For a non-negative distance, the start value is the membership grade of distance 0. */
  lemma ContactStartIsTouching(last: FuzzyValue)
    requires last.fuzziness.Finite? && 0.0 < last.fuzziness.r && 0.0 <= last.vertex
    ensures ContactStart(last) == Membership(last.vertex, last.fuzziness.r, 0.0)
  {
    var f, v := last.fuzziness.r, last.vertex;
    assert (f - v) / f == f / f - v / f;
    assert f / f == 1.0;
  }

  /** A negative (signed plane) distance gives a start value above 1: it is not capped. */
  lemma ContactStartNotCapped()
    ensures ContactStart(Create(-1.0, 1.0)) == 2.0
  {
  }

  /**
   * The state fragmentation gives a surface: the minima, from the start value, of the
   * inclusions of the last distance in the earlier ones; no comparisons at all when
   * the start value is 0 (the curve's end is off the surface).
   */
  function SurfaceState(threshold: TruthValue, values: seq<FuzzyValue>): State
    requires 0 < |values| && AllNonNegative(values)
    requires values[|values| - 1].fuzziness.Finite? && values[|values| - 1].fuzziness.r != 0.0
  {
    var start := ContactStart(values[|values| - 1]);
    var ts := if start != 0.0 then Inclusions(values) else [];
    Classify(threshold, MinNecessity(start, ts), MinPossibility(start, ts))
  }

  /** Off the surface (start value 0) the state is MOVE for positive thresholds, whatever came before. */
  lemma OffSurfaceMoves(threshold: TruthValue, values: seq<FuzzyValue>)
    requires 0 < |values| && AllNonNegative(values)
    requires values[|values| - 1].fuzziness.Finite? && values[|values| - 1].fuzziness.r != 0.0
    requires ContactStart(values[|values| - 1]) == 0.0
    requires 0.0 < threshold.necessity && 0.0 < threshold.possibility
    ensures SurfaceState(threshold, values) == MOVE
  {
  }

  /**
   * A surface is STAY exactly when the last sample touches it above both thresholds
   * and, if it touches at all, its inclusion in every earlier sample is above them too.
   */
  lemma SurfaceStayIff(threshold: TruthValue, values: seq<FuzzyValue>)
    requires 0 < |values| && AllNonNegative(values)
    requires values[|values| - 1].fuzziness.Finite? && values[|values| - 1].fuzziness.r != 0.0
    requires 0.0 <= threshold.necessity
    ensures var start := ContactStart(values[|values| - 1]);
      SurfaceState(threshold, values) == STAY
      <==> && threshold.necessity < start && threshold.possibility < start
           && forall i :: 0 <= i < |values| - 1 ==>
                threshold.necessity < IncludedIn(values[|values| - 1], values[i]).necessity
                && threshold.possibility < IncludedIn(values[|values| - 1], values[i]).possibility
  {
    var start := ContactStart(values[|values| - 1]);
    StayIffAllAbove(threshold, start, Inclusions(values));
  }

  /** The vector from the current point to its projection onto s. */
  function ToProjection(s: FrictionSurface, current: Point, sqrt: real -> real): Vector
  {
    CreateSE(current, Projection(s, current, sqrt))
  }

  /**
   * The pull of a surface has the length of the point's distance from it (for a
   * sphere, away from its centre).
   */
  lemma PullIsDistance(s: FrictionSurface, current: Point, sqrt: real -> real)
    requires ExactSqrt(sqrt) && ValidSurface(s)
    requires s.Sphere? ==> Norm2(CreateSE(s.base, current)) != 0.0
    ensures Length(ToProjection(s, current, sqrt), sqrt) == Abs(Distance(s, current, sqrt))
  {
    if s.Plane? {
      PlaneProjectionOnPlane(s, current, sqrt);
    } else {
      SphereDistanceIsGap(s, current, sqrt);
    }
  }

  /** Scaling a vector of length d by a non-negative k gives length k * d. */
  lemma ScaledLength(v: Vector, k: real, d: real, sqrt: real -> real)
    requires ExactSqrt(sqrt) && 0.0 <= k && Length(v, sqrt) == d
    ensures Length(Scale(v, k), sqrt) == k * d
  {
    LengthOfScale(v, k, sqrt);
  }

  /**
   * The forces composed by updateState over the surfaces ss (before the final scaling
   * by the stiffness): the pull towards each surface that sticks after the update,
   * scaled by 1 - nec.
   */
  function ComposedForce(ss: seq<FrictionSurface>, contribution: FrictionSurface -> Vector): Vector
  {
    if |ss| == 0 then ZeroVector else Add(ComposedForce(ss[..|ss| - 1], contribution), contribution(ss[|ss| - 1]))
  }

  /** Surfaces that contribute nothing add up to nothing. */
  lemma {:induction false} ComposedForceOfNothing(ss: seq<FrictionSurface>, contribution: FrictionSurface -> Vector)
    requires forall i :: 0 <= i < |ss| ==> contribution(ss[i]) == ZeroVector
    ensures ComposedForce(ss, contribution) == ZeroVector
  {
    if |ss| > 0 {
      ComposedForceOfNothing(ss[..|ss| - 1], contribution);
    }
  }

  /** The composed force does not depend on the order of the last two surfaces. */
  lemma ComposedForceSwapLast(ss: seq<FrictionSurface>, a: FrictionSurface, b: FrictionSurface, contribution: FrictionSurface -> Vector)
    ensures ComposedForce(ss + [a, b], contribution) == ComposedForce(ss + [b, a], contribution)
  {
    assert (ss + [a, b])[..|ss| + 1] == ss + [a];
    assert (ss + [b, a])[..|ss| + 1] == ss + [b];
    assert (ss + [a])[..|ss|] == ss;
    assert (ss + [b])[..|ss|] == ss;
  }

  class SurfaceFrictionCalculator {
    const inputInterval: real
    const curveTimeLength: real
    const stiffness: real
    const maxFrictionForce: real
    const maxFrictionThreshold: real
    const fragmentationThreshold: TruthValue
    const fragmentationTimeResolution: real
    const creator: CurveCreator
    const lib: CurveLibrary
    /** Math.sqrt */
    const sqrt: real -> real

    var fbc: Option<BezierCurve>
    var points: seq<Point>
    var preTime: real
    /** The registered surfaces, in registration order. */
    var surfaces: seq<FrictionSurface>
    /** Whether the stylus sticks to each surface. */
    var flags: map<FrictionSurface, bool>
    /** The fragmentation state of each surface. */
    var labels: map<FrictionSurface, State>

    /** The registry: no surface twice, and both maps keyed by exactly the registered surfaces. */
    ghost predicate Registry()
      reads this
    {
      && NoDuplicates(surfaces)
      && flags.Keys == (set s | s in surfaces) && labels.Keys == flags.Keys
      && forall s :: s in surfaces ==> ValidSurface(s)
    }

    ghost predicate Valid()
      reads this
    {
      && 0.0 < inputInterval && 0.0 < curveTimeLength
      && creator == CreatorFor(curveTimeLength)
      && NonNegativeSamples(lib)
      && Spaced(points, inputInterval, preTime)
      && Registry()
    }

    constructor (inputInterval: real, curveTimeLength: real, stiffness: real, maxFrictionForce: real,
                 maxFrictionThreshold: real, fragmentationThreshold: TruthValue,
                 fragmentationTimeResolution: real, creator: CurveCreator, lib: CurveLibrary, sqrt: real -> real)
      requires 0.0 < inputInterval && 0.0 < curveTimeLength && creator == CreatorFor(curveTimeLength)
      requires NonNegativeSamples(lib)
      ensures Valid()
      ensures this.inputInterval == inputInterval && this.curveTimeLength == curveTimeLength
      ensures this.stiffness == stiffness && this.maxFrictionForce == maxFrictionForce
      ensures this.maxFrictionThreshold == maxFrictionThreshold
      ensures this.fragmentationThreshold == fragmentationThreshold
      ensures this.fragmentationTimeResolution == fragmentationTimeResolution
      ensures this.creator == creator && this.lib == lib && this.sqrt == sqrt
      ensures fbc.None? && points == [] && preTime == 0.0
      ensures surfaces == [] && flags == map[] && labels == map[]
    {
      this.inputInterval := inputInterval;
      this.curveTimeLength := curveTimeLength;
      this.stiffness := stiffness;
      this.maxFrictionForce := maxFrictionForce;
      this.maxFrictionThreshold := maxFrictionThreshold;
      this.fragmentationThreshold := fragmentationThreshold;
      this.fragmentationTimeResolution := fragmentationTimeResolution;
      this.creator := creator;
      this.lib := lib;
      this.sqrt := sqrt;
      fbc := None;
      points := [];
      preTime := 0.0;
      surfaces := [];
      flags := map[];
      labels := map[];
    }

    /**
     * SurfaceFrictionCalculator.create(...): the same validation as the axis
     * calculator, and the creator given is likewise replaced.
     */
    static method Create(inputInterval: real, curveTimeLength: real, stiffness: real, maxFrictionForce: real,
                         maxFrictionThreshold: real, fragmentationThreshold: TruthValue,
                         fragmentationTimeResolution: real, fbcCreator: Option<CurveCreator>,
                         lib: CurveLibrary, sqrt: real -> real)
      returns (r: Result<SurfaceFrictionCalculator, ConfigError>)
      requires NonNegativeSamples(lib)
      ensures r.Failure? <==> CheckConfig(inputInterval, curveTimeLength, fbcCreator).Some?
      ensures r.Failure? ==> r.error == CheckConfig(inputInterval, curveTimeLength, fbcCreator).value
      ensures r.Success? ==> fresh(r.value) && r.value.Valid() && r.value.creator == CreatorFor(curveTimeLength)
      ensures r.Success? ==> r.value.surfaces == [] && r.value.flags == map[] && r.value.labels == map[]
    {
      var err := CheckConfig(inputInterval, curveTimeLength, fbcCreator);
      if err.Some? {
        return Failure(err.value);
      }
      var c := new SurfaceFrictionCalculator(inputInterval, curveTimeLength, stiffness, maxFrictionForce,
        maxFrictionThreshold, fragmentationThreshold, fragmentationTimeResolution,
        CreatorFor(curveTimeLength), lib, sqrt);
      return Success(c);
    }

    /** SurfaceFrictionCalculator.create(): the defaults (stiffness 350, maximum friction 1.5 N). */
    static method CreateDefault(lib: CurveLibrary, sqrt: real -> real) returns (c: SurfaceFrictionCalculator)
      requires NonNegativeSamples(lib)
      ensures fresh(c) && c.Valid()
      ensures c.inputInterval == 0.001 && c.curveTimeLength == 0.1 && c.stiffness == 350.0
      ensures c.maxFrictionForce == 1.5 && c.maxFrictionThreshold == 0.95
      ensures c.fragmentationThreshold == TruthValue(0.5, 0.5) && c.fragmentationTimeResolution == 0.025
    {
      c := new SurfaceFrictionCalculator(0.001, 0.1, 350.0, 1.5, 0.95, TruthValue(0.5, 0.5), 0.025, CreatorFor(0.1), lib, sqrt);
    }

    function GetFbc(): Option<BezierCurve>
      reads this
    {
      fbc
    }

    /** getSurfaces: a copy of the registered surfaces. */
    function GetSurfaces(): seq<FrictionSurface>
      reads this
    {
      surfaces
    }

    /** getFlags: the stick flag of each registered surface. */
    function GetFlags(): map<FrictionSurface, bool>
      reads this
    {
      flags
    }

    /** add: register a surface, slipping and UNKNOWN. */
    method Add(s: FrictionSurface)
      requires Valid() && s !in surfaces && ValidSurface(s)
      modifies this`surfaces, this`flags, this`labels
      ensures Valid()
      ensures surfaces == old(surfaces) + [s]
      ensures flags == old(flags)[s := false] && labels == old(labels)[s := UNKNOWN]
    {
      surfaces := surfaces + [s];
      flags := flags[s := false];
      labels := labels[s := UNKNOWN];
      assert (set t | t in surfaces) == (set t | t in old(surfaces)) + {s};
    }

    /** addAll: add each surface in argument order. */
    method AddAll(ss: seq<FrictionSurface>)
      requires Valid() && NoDuplicates(ss)
      requires forall i :: 0 <= i < |ss| ==> ss[i] !in surfaces && ValidSurface(ss[i])
      modifies this`surfaces, this`flags, this`labels
      ensures Valid()
      ensures surfaces == old(surfaces) + ss
      ensures forall t :: t in flags <==> t in old(flags) || t in ss
      ensures forall t :: t in flags ==> flags[t] == if t in ss then false else old(flags)[t]
      ensures forall t :: t in labels ==> labels[t] == if t in ss then UNKNOWN else old(labels)[t]
    {
      var i := 0;
      while i < |ss|
        invariant 0 <= i <= |ss|
        invariant Valid()
        invariant surfaces == old(surfaces) + ss[..i]
        invariant forall t :: t in flags <==> t in old(flags) || t in ss[..i]
        invariant forall t :: t in flags ==> flags[t] == if t in ss[..i] then false else old(flags)[t]
        invariant forall t :: t in labels ==> labels[t] == if t in ss[..i] then UNKNOWN else old(labels)[t]
      {
        assert ss[i] !in ss[..i];
        assert ss[..i + 1] == ss[..i] + [ss[i]];
        Add(ss[i]);
        i := i + 1;
      }
      assert ss[..|ss|] == ss;
    }

    /** remove: unregister a surface from the list and both maps (absent: no change). */
    method Remove(s: FrictionSurface)
      requires Valid()
      modifies this`surfaces, this`flags, this`labels
      ensures Valid()
      ensures surfaces == RemoveFirst(old(surfaces), s)
      ensures flags == old(flags) - {s} && labels == old(labels) - {s}
    {
      RemoveFirstNoDuplicates(surfaces, s);
      surfaces := RemoveFirst(surfaces, s);
      flags := flags - {s};
      labels := labels - {s};
    }

    /** removeAll: unregister every surface. */
    method RemoveAll()
      requires Valid()
      modifies this`surfaces, this`flags, this`labels
      ensures Valid()
      ensures surfaces == [] && flags == map[] && labels == map[]
    {
      surfaces := [];
      flags := map[];
      labels := map[];
    }

    function SampleNum(): nat
      requires 0.0 < curveTimeLength && 0.0 < fragmentationTimeResolution
    {
      SampleCount(curveTimeLength, fragmentationTimeResolution)
    }

    /** The point the forces act at: the end of the fitted curve, or the input itself without a curve. */
    function CurrentOf(curve: Option<BezierCurve>, p: Point): (current: Point)
      requires 0.0 < curveTimeLength && 0.0 < fragmentationTimeResolution
      ensures curve.None? ==> current == p
    {
      if curve.Some? then
        var samples := EvaluateAll(lib, curve.value, SampleNum());
        samples[|samples| - 1]
      else p
    }

    /** The force necessity of the pull towards s, with the current point's fuzziness, both scaled by the stiffness. */
    predicate PullDefined(s: FrictionSurface, current: Point)
    {
      NecessityDefined(maxFrictionForce, Length(ToProjection(s, current, sqrt), sqrt) * stiffness, current.fuzziness * stiffness)
    }

    function PullNecessity(s: FrictionSurface, current: Point): (nec: real)
      requires PullDefined(s, current)
      ensures 0.0 <= nec <= 1.0
    {
      ForceNecessity(maxFrictionForce, Length(ToProjection(s, current, sqrt), sqrt) * stiffness, current.fuzziness * stiffness)
    }

    /** What surface s adds to the composed force: its pull scaled by 1 - nec if it sticks after the update. */
    function Contribution(s: FrictionSurface, current: Point, flag: bool, state: State): Vector
      requires PullDefined(s, current)
    {
      var nec := PullNecessity(s, current);
      if NextFlag(flag, state, nec, maxFrictionThreshold) then Scale(ToProjection(s, current, sqrt), 1.0 - nec)
      else ZeroVector
    }

    /** No pull necessity of this call is 0 / 0, and fragmentation never divides by a zero fuzziness. */
    predicate TickDefined(p: Point)
      reads this
      requires 0.0 < curveTimeLength && 0.0 < fragmentationTimeResolution
    {
      var buffer := SampleAndPrune(points, preTime, inputInterval, curveTimeLength, p).0;
      var curve := CreateFBC(creator, lib, buffer);
      var current := CurrentOf(curve, p);
      && (curve.Some? && 0 < |surfaces| ==> current.fuzziness != 0.0)
      && forall s :: s in surfaces ==> PullDefined(s, current)
    }

    /**
     * fragmentation: from the start value, and only when it is not 0, the minimum
     * necessity and possibility of the inclusion of the last value in each earlier
     * one, classified against the thresholds.
     */
    method Fragmentation(values: seq<FuzzyValue>) returns (st: State)
      requires 0 < |values| && AllNonNegative(values)
      requires values[|values| - 1].fuzziness.Finite? && values[|values| - 1].fuzziness.r != 0.0
      ensures st == SurfaceState(fragmentationThreshold, values)
    {
      var last := values[|values| - 1];
      var nec := Max((last.fuzziness.r - last.vertex) / last.fuzziness.r, 0.0);
      var pos := nec;
      ghost var ts := Inclusions(values);
      if nec != 0.0 {
        var i := 0;
        while i < |values| - 1
          invariant 0 <= i <= |values| - 1
          invariant nec == MinNecessity(ContactStart(last), ts[..i]) && pos == MinPossibility(ContactStart(last), ts[..i])
        {
          var t := IncludedIn(last, values[i]);
          assert ts[..i + 1][..i] == ts[..i];
          nec := Min(nec, t.necessity);
          pos := Min(pos, t.possibility);
          i := i + 1;
        }
        assert ts[..|values| - 1] == ts;
      }
      if nec < fragmentationThreshold.necessity && pos < fragmentationThreshold.possibility {
        st := MOVE;
      } else if fragmentationThreshold.necessity < nec && fragmentationThreshold.possibility < pos {
        st := STAY;
      } else {
        st := UNKNOWN;
      }
    }

    /** The first lines of calculate: sample the input if it is due and prune the buffer. */
    method SampleInput(p: Point)
      requires Valid()
      modifies this`points, this`preTime
      ensures Valid()
      ensures (points, preTime) == SampleAndPrune(old(points), old(preTime), inputInterval, curveTimeLength, p)
    {
      SampleAndPruneKeepsWindow(points, preTime, inputInterval, curveTimeLength, p);
      if p.time - preTime > inputInterval {
        points := points + [p];
        preTime := p.time;
      }
      points := Prune(points, p.time - curveTimeLength);
    }

    /** The state fragmentation gives surface s from the curve samples. */
    function SurfaceLabel(samples: seq<Point>, s: FrictionSurface): State
      requires 0 < |samples| && forall i :: 0 <= i < |samples| ==> 0.0 <= samples[i].fuzziness
      requires samples[|samples| - 1].fuzziness != 0.0
    {
      DistanceValuesNonNegative(samples, s, sqrt);
      SurfaceState(fragmentationThreshold, DistanceValues(samples, s, sqrt))
    }

    /** Re-classify every registered surface from the curve samples. */
    method Relabel(samples: seq<Point>)
      requires forall s :: s in surfaces ==> s in labels
      requires 0 < |samples| && forall i :: 0 <= i < |samples| ==> 0.0 <= samples[i].fuzziness
      requires 0 < |surfaces| ==> samples[|samples| - 1].fuzziness != 0.0
      modifies this`labels
      ensures labels.Keys == old(labels.Keys)
      ensures forall s :: s in surfaces ==> labels[s] == SurfaceLabel(samples, s)
    {
      var relabelled := labels;
      var i := 0;
      while i < |surfaces|
        invariant 0 <= i <= |surfaces|
        invariant relabelled.Keys == labels.Keys
        invariant forall j :: 0 <= j < |surfaces| ==> surfaces[j] in relabelled
        invariant labels == old(labels)
        invariant forall j :: 0 <= j < i ==> relabelled[surfaces[j]] == SurfaceLabel(samples, surfaces[j])
      {
        var s := surfaces[i];
        DistanceValuesNonNegative(samples, s, sqrt);
        var st := Fragmentation(DistanceValues(samples, s, sqrt));
        relabelled := relabelled[s := st];
        i := i + 1;
      }
      labels := relabelled;
    }

    /**
     * The middle of calculate: fit a curve to the buffer; with a curve, answer its end
     * as the current point and re-classify every surface, else answer p.
     */
    method Refit(p: Point) returns (current: Point)
      requires Valid() && 0.0 < fragmentationTimeResolution
      requires var curve := CreateFBC(creator, lib, points);
        curve.Some? && 0 < |surfaces| ==> CurrentOf(curve, p).fuzziness != 0.0
      modifies this`fbc, this`labels
      ensures Valid()
      ensures fbc == CreateFBC(creator, lib, points) && current == CurrentOf(fbc, p)
      ensures fbc.None? ==> labels == old(labels)
      ensures labels.Keys == old(labels.Keys)
      ensures fbc.Some? ==> forall s :: s in surfaces ==> labels[s] == SurfaceLabel(EvaluateAll(lib, fbc.value, SampleNum()), s)
    {
      current := p;
      fbc := CreateFBC(creator, lib, points);
      if fbc.Some? {
        var samples := EvaluateAll(lib, fbc.value, SampleNum());
        EvaluateAllNonNegative(lib, fbc.value, SampleNum());
        current := samples[|samples| - 1];
        Relabel(samples);
      }
    }

    /**
     * A surface that sticks after the update pulls the stylus towards it with
     * (1 - nec) times its distance.
     */
    lemma ContributionLength(s: FrictionSurface, current: Point, flag: bool, state: State)
      requires ExactSqrt(sqrt) && ValidSurface(s) && PullDefined(s, current)
      requires s.Sphere? ==> Norm2(CreateSE(s.base, current)) != 0.0
      requires StepFlag(s, current, flag, state)
      ensures Length(Contribution(s, current, flag, state), sqrt) == (1.0 - PullNecessity(s, current)) * Abs(Distance(s, current, sqrt))
    {
      var v := ToProjection(s, current, sqrt);
      var k := 1.0 - PullNecessity(s, current);
      var d := Abs(Distance(s, current, sqrt));
      StickContribution(s, current, flag, state);
      assert Contribution(s, current, flag, state) == Scale(v, k);
      PullIsDistance(s, current, sqrt);
      ScaledLength(v, k, d, sqrt);
    }

    /** A surface that sticks contributes its pull scaled by 1 - nec; one that slips contributes nothing. */
    lemma StickContribution(s: FrictionSurface, current: Point, flag: bool, state: State)
      requires PullDefined(s, current)
      ensures StepFlag(s, current, flag, state) ==>
        Contribution(s, current, flag, state) == Scale(ToProjection(s, current, sqrt), 1.0 - PullNecessity(s, current))
      ensures !StepFlag(s, current, flag, state) ==> Contribution(s, current, flag, state) == ZeroVector
    {
    }

    /** The stick flag of surface s after the update, from its flag before. */
    function StepFlag(s: FrictionSurface, current: Point, flag: bool, state: State): bool
      requires PullDefined(s, current)
    {
      NextFlag(flag, state, PullNecessity(s, current), maxFrictionThreshold)
    }

    /** The contribution of each surface, given the flags and labels before the update. */
    function ContributionOf(current: Point, flags0: map<FrictionSurface, bool>, labels0: map<FrictionSurface, State>): FrictionSurface -> Vector
    {
      s => if s in flags0 && s in labels0 && PullDefined(s, current) then Contribution(s, current, flags0[s], labels0[s]) else ZeroVector
    }

    /** One pass of the loop of updateState: update the flag of surface and answer what it adds. */
    method Step(surface: FrictionSurface, current: Point) returns (added: Vector)
      requires surface in flags && surface in labels && PullDefined(surface, current)
      modifies this`flags
      ensures flags == old(flags)[surface := StepFlag(surface, current, old(flags)[surface], labels[surface])]
      ensures added == Contribution(surface, current, old(flags)[surface], labels[surface])
    {
      var v := CreateSE(current, Projection(surface, current, sqrt));
      var nec := PullNecessity(surface, current);
      var state := labels[surface];
      added := ZeroVector;
      if flags[surface] {
        if nec >= maxFrictionThreshold && state != STAY {
          flags := flags[surface := false];
          return;
        }
      } else {
        if state == STAY {
          flags := flags[surface := true];
        } else {
          return;
        }
      }
      added := Scale(v, 1.0 - nec);
    }

    /** The flags after stepping every surface of ss once, each from its flag in flags0. */
    ghost function Stepped(flags0: map<FrictionSurface, bool>, labels0: map<FrictionSurface, State>, ss: seq<FrictionSurface>, current: Point): map<FrictionSurface, bool>
      requires forall s :: s in ss ==> s in flags0 && s in labels0 && PullDefined(s, current)
    {
      if |ss| == 0 then flags0
      else
        var last := ss[|ss| - 1];
        Stepped(flags0, labels0, ss[..|ss| - 1], current)[last := StepFlag(last, current, flags0[last], labels0[last])]
    }

    /** Stepping distinct surfaces touches their flags only, each exactly once, and adds no key. */
    lemma {:induction false} SteppedFlags(flags0: map<FrictionSurface, bool>, labels0: map<FrictionSurface, State>, ss: seq<FrictionSurface>, current: Point)
      requires forall s :: s in ss ==> s in flags0 && s in labels0 && PullDefined(s, current)
      ensures Stepped(flags0, labels0, ss, current).Keys == flags0.Keys
      ensures forall s :: s in ss ==> Stepped(flags0, labels0, ss, current)[s] == StepFlag(s, current, flags0[s], labels0[s])
      ensures forall s :: s in flags0 && s !in ss ==> Stepped(flags0, labels0, ss, current)[s] == flags0[s]
    {
      if |ss| > 0 {
        var init, last := ss[..|ss| - 1], ss[|ss| - 1];
        assert forall s :: s in init ==> s in ss;
        SteppedFlags(flags0, labels0, init, current);
        var before := Stepped(flags0, labels0, init, current);
        assert Stepped(flags0, labels0, ss, current) == before[last := StepFlag(last, current, flags0[last], labels0[last])];
        assert forall s :: s in ss ==> s in init || s == last;
      }
    }

    /** The loop of updateState: step every surface in list order and compose what they add. */
    method StepAll(current: Point) returns (composed: Vector)
      requires NoDuplicates(surfaces)
      requires forall s :: s in surfaces ==> s in flags && s in labels && PullDefined(s, current)
      modifies this`flags
      ensures flags.Keys == old(flags.Keys)
      ensures forall s :: s in surfaces ==> flags[s] == StepFlag(s, current, old(flags)[s], labels[s])
      ensures composed == ComposedForce(surfaces, ContributionOf(current, old(flags), labels))
    {
      ghost var flags0 := flags;
      ghost var contribution := ContributionOf(current, flags, labels);
      composed := ZeroVector;
      var i := 0;
      while i < |surfaces|
        invariant 0 <= i <= |surfaces|
        invariant flags == Stepped(flags0, labels, surfaces[..i], current)
        invariant composed == ComposedForce(surfaces[..i], contribution)
      {
        var surface := surfaces[i];
        assert surfaces[..i + 1][..i] == surfaces[..i];
        assert surface !in surfaces[..i];
        SteppedFlags(flags0, labels, surfaces[..i], current);
        assert contribution(surface) == Contribution(surface, current, flags[surface], labels[surface]);
        var added := Step(surface, current);
        composed := Geometry.Add(composed, added);
        i := i + 1;
      }
      assert surfaces[..|surfaces|] == surfaces;
      SteppedFlags(flags0, labels, surfaces, current);
    }

    /**
     * updateState(current): run the stick/slip step of every surface in list order and
     * compose the contributions of those that stick afterwards, scaled by the stiffness.
     */
    method UpdateState(current: Point) returns (force: Vector)
      requires Valid() && forall s :: s in surfaces ==> PullDefined(s, current)
      modifies this`flags
      ensures Valid()
      ensures flags.Keys == old(flags.Keys)
      ensures forall s :: s in surfaces ==> flags[s] == StepFlag(s, current, old(flags)[s], labels[s])
      ensures force == Scale(ComposedForce(surfaces, ContributionOf(current, old(flags), labels)), stiffness)
    {
      var composed := StepAll(current);
      force := Scale(composed, stiffness);
    }

    /**
     * calculate(p): sample and prune, re-classify every surface from the fitted curve,
     * and answer the composed force at the end of the curve (or at p without a curve).
     */
    method Calculate(p: Point) returns (force: Vector)
      requires Valid() && 0.0 < fragmentationTimeResolution && TickDefined(p)
      modifies this`points, this`preTime, this`fbc, this`labels, this`flags
      ensures Valid()
      ensures (points, preTime) == SampleAndPrune(old(points), old(preTime), inputInterval, curveTimeLength, p)
      ensures fbc == CreateFBC(creator, lib, points)
      ensures surfaces == old(surfaces)
      ensures labels.Keys == old(labels.Keys) && flags.Keys == old(flags.Keys)
      ensures fbc.None? ==> labels == old(labels)
      ensures fbc.Some? ==> forall s :: s in surfaces ==> labels[s] == SurfaceLabel(EvaluateAll(lib, fbc.value, SampleNum()), s)
      ensures forall s :: s in surfaces ==> s in old(flags) && s in labels && PullDefined(s, CurrentOf(fbc, p))
      ensures forall s :: s in surfaces ==>
        flags[s] == StepFlag(s, CurrentOf(fbc, p), old(flags)[s], labels[s])
      ensures force == Scale(ComposedForce(surfaces, ContributionOf(CurrentOf(fbc, p), old(flags), labels)), stiffness)
    {
      SampleInput(p);
      var current := Refit(p);
      force := UpdateState(current);
    }
  }
}
