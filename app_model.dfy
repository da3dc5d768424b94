/**
 * AppModel: the state of the haptics client around a friction calculator. It
 * keeps the stylus position and trail, the archives of finished trails recorded
 * with and without force feedback, the last point of the fitted curve, the
 * friction flags shown to the user and the rotation of the view, and forwards
 * each stylus position to the calculator while force calculation is enabled.
 *
 * The force updaters are represented by the log of forces broadcast to them; the
 * view updaters, console output, file output and the random scene generators are
 * not part of this model.
 */
module ClientModel {
  import opened Wrappers
  import opened Numerics
  import opened Geometry
  import opened Curves
  import opened Surfaces
  import opened FrictionRules
  import opened AxisFriction
  import opened SurfaceFriction

  /** The force calculator the model drives: an axis or a surface friction calculator. */
  datatype Calculator =
    | AxisCalculator(axis: AxisFrictionCalculator)
    | SurfaceCalculator(surface: SurfaceFrictionCalculator)

  /** The error getSurfaceFlags raises when the calculator is not a surface calculator. */
  datatype AppError = ClassCast

  /** The rotation step and the rotation limit, in degrees. */
  const ANGLE_STEP: real := 5.0
  const ANGLE_LIMIT: real := 90.0

  /** The least time between two trail points, in seconds: about 30 points a second. */
  const TRAIL_GAP: real := 0.03

  /** up/left: one step back, but not below -ANGLE_LIMIT. */
  function StepBack(r: real): (r': real)
    ensures -ANGLE_LIMIT <= r' && r - ANGLE_STEP <= r'
    ensures r' <= Max(r, -ANGLE_LIMIT)
  {
    Max(r - ANGLE_STEP, -ANGLE_LIMIT)
  }

  /** down/right: one step forward, but not above ANGLE_LIMIT. */
  function StepForward(r: real): (r': real)
    ensures r' <= ANGLE_LIMIT && r' <= r + ANGLE_STEP
    ensures Min(r, ANGLE_LIMIT) <= r'
  {
    Min(r + ANGLE_STEP, ANGLE_LIMIT)
  }

  predicate InRange(r: real)
  {
    -ANGLE_LIMIT <= r <= ANGLE_LIMIT
  }

  /** A rotation within the limits stays within them under both steps. */
  lemma StepsKeepRange(r: real)
    requires InRange(r)
    ensures InRange(StepBack(r)) && InRange(StepForward(r))
  {
  }

  /** A step back then forward, or forward then back, returns to the start unless a limit was hit. */
  lemma StepsUndo(r: real)
    ensures -ANGLE_LIMIT + ANGLE_STEP <= r <= ANGLE_LIMIT ==> StepForward(StepBack(r)) == r
    ensures -ANGLE_LIMIT <= r <= ANGLE_LIMIT - ANGLE_STEP ==> StepBack(StepForward(r)) == r
    ensures r < -ANGLE_LIMIT + ANGLE_STEP ==> StepForward(StepBack(r)) == -ANGLE_LIMIT + ANGLE_STEP
  {
  }

  /** The trail after a stylus position p while button 1 is held: p is kept if the trail is empty or p is more than TRAIL_GAP later than its last point. */
  function Sampled(trail: seq<Point>, p: Point): (trail': seq<Point>)
    ensures trail' == trail || trail' == trail + [p]
    ensures trail' == trail + [p] <==> |trail| == 0 || trail[|trail| - 1].time + TRAIL_GAP < p.time
  {
    if |trail| == 0 || trail[|trail| - 1].time + TRAIL_GAP < p.time then trail + [p] else trail
  }

  /** Consecutive trail points are more than TRAIL_GAP apart in time. */
  predicate TrailSpaced(trail: seq<Point>)
  {
    forall i :: 0 <= i < |trail| - 1 ==> TrailApart(trail, i)
  }

  predicate TrailApart(trail: seq<Point>, i: int)
    requires 0 <= i < |trail| - 1
  {
    trail[i].time + TRAIL_GAP < trail[i + 1].time
  }

  /** Sampling keeps the trail spaced. */
  lemma SampledKeepsSpacing(trail: seq<Point>, p: Point)
    requires TrailSpaced(trail)
    ensures TrailSpaced(Sampled(trail, p))
  {
    var t := Sampled(trail, p);
    forall i | 0 <= i < |t| - 1
      ensures TrailApart(t, i)
    {
      if i < |trail| - 1 {
        assert TrailApart(trail, i);
      }
    }
  }

  /** The objects a calculator may change when it computes a force. */
  function CalculatorObjects(c: Calculator): set<object>
  {
    match c
    case AxisCalculator(a) => {a, a.flags, a.labels}
    case SurfaceCalculator(s) => {s}
  }

  /** A map that agrees with m0 except for the one key s, which maps to v, is m0[s := v]. */
  lemma OneKeyUpdated<V>(m0: map<FrictionSurface, V>, m: map<FrictionSurface, V>, s: FrictionSurface, v: V)
    requires forall t :: t in m <==> t in m0 || t == s
    requires forall t :: t in m ==> m[t] == if t == s then v else m0[t]
    ensures m == m0[s := v]
  {
  }

  /** The sphere the constructor registers with a surface calculator. */
  function InitialSphere(): (s: FrictionSurface)
    ensures ValidSurface(s)
  {
    CreateSphere(Some(CreateXYZ(0.05, 0.0, 0.1)), 0.05).value
  }

  /** The calculator is built and its sampling resolution is positive, so that it can compute forces. */
  ghost predicate Ready(c: Calculator)
    reads CalculatorObjects(c)
  {
    if c.AxisCalculator? then c.axis.Valid() && 0.0 < c.axis.fragmentationTimeResolution
    else c.surface.Valid() && 0.0 < c.surface.fragmentationTimeResolution
  }

  /** The force for stylus point p is defined for the calculator in its present state. */
  ghost predicate TickDefinedFor(c: Calculator, p: Point)
    reads CalculatorObjects(c)
    requires Ready(c)
  {
    if c.AxisCalculator? then c.axis.TickDefined(p) else c.surface.TickDefined(p)
  }

  /**
   * force is what the axis calculator a answered for p, given its anchor before the
   * call: per axis, the stick/slip output for the spring towards that anchor.
   */
  ghost predicate AxisResponse(a: AxisFrictionCalculator, p: Point, anchorBefore: Option<Point>, force: Vector)
    reads a, a.flags
  {
    && 0.0 < a.curveTimeLength && 0.0 < a.fragmentationTimeResolution && a.flags.Length == 3
    && var current := a.CurrentOf(a.fbc, p);
       var anchor0 := if anchorBefore.Some? then anchorBefore.value else current;
       var vector := a.Spring(current, anchor0);
       && a.SpringDefined(current, anchor0)
       && forall k :: 0 <= k < 3 ==>
            Component(force, k) == StickForce(a.flags[k], Component(vector, k), a.AxisNecessity(vector, current, k))
  }

  /**
   * force is what the surface calculator s answered for p, given its flags before
   * the call: the stiffness times the composed pull of the sticking surfaces.
   */
  ghost predicate SurfaceResponse(s: SurfaceFrictionCalculator, p: Point, flagsBefore: map<FrictionSurface, bool>, force: Vector)
    reads s
  {
    && 0.0 < s.curveTimeLength && 0.0 < s.fragmentationTimeResolution
    && force == Scale(ComposedForce(s.surfaces, s.ContributionOf(s.CurrentOf(s.fbc, p), flagsBefore, s.labels)), s.stiffness)
  }

  class AppModel {
    const calculator: Calculator
    /** BezierCurve.evaluateAtEnd, library code outside this model. */
    const evaluateAtEnd: BezierCurve -> Point
    var enableForceCalculation: bool
    var hapticsPosition: Point
    var hapticsForce: Vector
    /** The stick flags of the x, y and z axes, copied from an axis calculator. */
    const forceFlags: array<bool>
    var hapticsButton1Pressed: bool
    var hapticsButton2Pressed: bool
    /** The stylus trail while button 1 is held. */
    var hapticsPoints: seq<Point>
    var onForcePointsList: seq<seq<Point>>
    var offForcePointsList: seq<seq<Point>>
    var fbcLastPoint: Option<Point>
    /** The surfaces registered with a surface calculator; None for an axis calculator. */
    var surfaces: Option<seq<FrictionSurface>>
    var rx: real
    var ry: real
    var rz: real
    /** The forces broadcast to the force updaters, oldest first. */
    var forceRequests: seq<Vector>

    /** The calculator is ready to compute, the flags have three axes of their own and the trail is spaced. */
    ghost predicate Valid()
      reads this, forceFlags, CalculatorObjects(calculator)
    {
      && forceFlags.Length == 3
      && forceFlags !in CalculatorObjects(calculator)
      && TrailSpaced(hapticsPoints)
      && Ready(calculator)
    }

    /**
     * new AppModel(calculator): force calculation disabled, buttons up, no trail,
     * no archives, no rotation; a surface calculator gets the one sphere of the
     * scene registered.
     */
    constructor (calculator: Calculator, evaluateAtEnd: BezierCurve -> Point)
      requires Ready(calculator)
      requires calculator.SurfaceCalculator? ==> InitialSphere() !in calculator.surface.surfaces
      modifies if calculator.SurfaceCalculator? then {calculator.surface} else {}
      ensures Valid() && fresh(forceFlags)
      ensures this.calculator == calculator && this.evaluateAtEnd == evaluateAtEnd
      ensures !enableForceCalculation && !hapticsButton1Pressed && !hapticsButton2Pressed
      ensures forceFlags[..] == [false, false, false]
      ensures hapticsPoints == [] && onForcePointsList == [] && offForcePointsList == [] && fbcLastPoint == None
      ensures hapticsPosition == CreateXYZ(0.0, 0.0, 0.0) && hapticsForce == ZeroVector
      ensures rx == 0.0 && ry == 0.0 && rz == 0.0 && forceRequests == []
      ensures calculator.AxisCalculator? ==> surfaces == None
      ensures calculator.SurfaceCalculator? ==>
        && surfaces == Some([InitialSphere()])
        && calculator.surface.surfaces == old(calculator.surface.surfaces) + [InitialSphere()]
        && calculator.surface.flags == old(calculator.surface.flags)[InitialSphere() := false]
        && calculator.surface.labels == old(calculator.surface.labels)[InitialSphere() := UNKNOWN]
    {
      this.calculator := calculator;
      this.evaluateAtEnd := evaluateAtEnd;
      enableForceCalculation := false;
      hapticsPosition := CreateXYZ(0.0, 0.0, 0.0);
      hapticsForce := ZeroVector;
      forceFlags := new bool[3](_ => false);
      hapticsButton1Pressed := false;
      hapticsButton2Pressed := false;
      hapticsPoints := [];
      onForcePointsList := [];
      offForcePointsList := [];
      fbcLastPoint := None;
      rx, ry, rz := 0.0, 0.0, 0.0;
      forceRequests := [];
      surfaces := None;
      new;
      if calculator.SurfaceCalculator? {
        RegisterScene();
      }
    }

    /** The scene of the constructor: one sphere, registered with the surface calculator by addAll. */
    method RegisterScene()
      requires calculator.SurfaceCalculator? && calculator.surface.Valid()
      requires InitialSphere() !in calculator.surface.surfaces
      modifies this`surfaces, calculator.surface
      ensures calculator.surface.Valid()
      ensures surfaces == Some([InitialSphere()])
      ensures calculator.surface.surfaces == old(calculator.surface.surfaces) + [InitialSphere()]
      ensures calculator.surface.flags == old(calculator.surface.flags)[InitialSphere() := false]
      ensures calculator.surface.labels == old(calculator.surface.labels)[InitialSphere() := UNKNOWN]
    {
      var c := calculator.surface;
      var ss := [InitialSphere()];
      surfaces := Some(ss);
      c.AddAll(ss);
      assert forall t :: t in ss <==> t == InitialSphere();
      OneKeyUpdated(old(c.flags), c.flags, InitialSphere(), false);
      OneKeyUpdated(old(c.labels), c.labels, InitialSphere(), UNKNOWN);
    }

    /** getSurfaceFlags: null while force calculation is disabled, the surface calculator's flags otherwise. */
    function GetSurfaceFlags(): (r: Result<Option<map<FrictionSurface, bool>>, AppError>)
      reads this, CalculatorObjects(calculator)
      ensures r == Success(None) <==> !enableForceCalculation
      ensures r.Failure? <==> enableForceCalculation && calculator.AxisCalculator?
      ensures enableForceCalculation && calculator.SurfaceCalculator? ==> r == Success(Some(calculator.surface.GetFlags()))
    {
      if !enableForceCalculation then Success(None)
      else if calculator.AxisCalculator? then Failure(ClassCast)
      else Success(Some(calculator.surface.flags))
    }

    /**
     * setEnableForceCalculation: disabling clears the three flags and the last
     * curve point and archives the trail as recorded with force; enabling archives
     * it as recorded without force. The trail is emptied either way.
     */
    method SetEnableForceCalculation(enable: bool)
      requires Valid()
      modifies this`enableForceCalculation, this`hapticsPoints, this`onForcePointsList,
        this`offForcePointsList, this`fbcLastPoint, forceFlags
      ensures Valid()
      ensures enableForceCalculation == enable && hapticsPoints == []
      ensures !enable ==>
        && forceFlags[..] == [false, false, false] && fbcLastPoint == None
        && onForcePointsList == old(onForcePointsList) + [old(hapticsPoints)]
        && offForcePointsList == old(offForcePointsList)
      ensures enable ==>
        && unchanged(forceFlags) && fbcLastPoint == old(fbcLastPoint)
        && offForcePointsList == old(offForcePointsList) + [old(hapticsPoints)]
        && onForcePointsList == old(onForcePointsList)
    {
      enableForceCalculation := enable;
      if !enable {
        forceFlags[0], forceFlags[1], forceFlags[2] := false, false, false;
        onForcePointsList := onForcePointsList + [hapticsPoints];
        fbcLastPoint := None;
      } else {
        offForcePointsList := offForcePointsList + [hapticsPoints];
      }
      hapticsPoints := [];
    }

    /** calculator.calculate(p): the calculator's force for p, its state advanced by the call. */
    method Forward(p: Point) returns (force: Vector)
      requires Ready(calculator) && TickDefinedFor(calculator, p)
      modifies CalculatorObjects(calculator)
      ensures Ready(calculator)
      ensures calculator.AxisCalculator? ==> AxisResponse(calculator.axis, p, old(calculator.axis.anchor), force)
      ensures calculator.SurfaceCalculator? ==> SurfaceResponse(calculator.surface, p, old(calculator.surface.flags), force)
    {
      match calculator {
        case AxisCalculator(a) =>
          force := a.Calculate(p);
        case SurfaceCalculator(s) =>
          force := s.Calculate(p);
      }
    }

    /**
     * setHapticsPosition: the stylus is at (x, y, z) at the given time. With force
     * calculation enabled the calculator's force is broadcast; otherwise a zero
     * force is broadcast only if the last reported force was not zero. While
     * button 1 is held the point is sampled into the trail. With force calculation
     * enabled the axis flags are copied from an axis calculator, and the end of
     * the calculator's fitted curve, when it has one, becomes the last curve point.
     */
    method SetHapticsPosition(x: real, y: real, z: real, time: real)
      requires Valid()
      requires enableForceCalculation ==> TickDefinedFor(calculator, CreateXYZT(x, y, z, time))
      modifies this`hapticsPosition, this`hapticsPoints, this`fbcLastPoint, this`forceRequests,
        forceFlags, CalculatorObjects(calculator)
      ensures Valid()
      ensures hapticsPosition == CreateXYZT(x, y, z, time)
      ensures hapticsPoints == if hapticsButton1Pressed then Sampled(old(hapticsPoints), hapticsPosition) else old(hapticsPoints)
      ensures !enableForceCalculation ==>
        && forceRequests == old(forceRequests) + (if hapticsForce != ZeroVector then [ZeroVector] else [])
        && fbcLastPoint == old(fbcLastPoint) && unchanged(forceFlags)
        && unchanged(CalculatorObjects(calculator))
      ensures enableForceCalculation ==>
        && |forceRequests| == |old(forceRequests)| + 1
        && forceRequests[..|old(forceRequests)|] == old(forceRequests)
      ensures enableForceCalculation && calculator.AxisCalculator? ==>
        var a := calculator.axis;
        && AxisResponse(a, hapticsPosition, old(a.anchor), forceRequests[|forceRequests| - 1])
        && (forall k :: 0 <= k < 3 ==> forceFlags[k] == a.flags[k])
        && fbcLastPoint == (if a.fbc.Some? then Some(evaluateAtEnd(a.fbc.value)) else old(fbcLastPoint))
      ensures enableForceCalculation && calculator.SurfaceCalculator? ==>
        var s := calculator.surface;
        && SurfaceResponse(s, hapticsPosition, old(s.flags), forceRequests[|forceRequests| - 1])
        && unchanged(forceFlags)
        && fbcLastPoint == (if s.fbc.Some? then Some(evaluateAtEnd(s.fbc.value)) else old(fbcLastPoint))
    {
      var p := CreateXYZT(x, y, z, time);
      hapticsPosition := p;
      Broadcast(p);
      Record(p);
    }

    /**
     * The force step of setHapticsPosition: with force calculation enabled the
     * calculator's force for p is broadcast; otherwise a zero force, and only if
     * the last reported force was not zero.
     */
    method Broadcast(p: Point)
      requires Ready(calculator)
      requires enableForceCalculation ==> TickDefinedFor(calculator, p)
      modifies this`forceRequests, CalculatorObjects(calculator)
      ensures Ready(calculator)
      ensures !enableForceCalculation ==>
        && forceRequests == old(forceRequests) + (if hapticsForce != ZeroVector then [ZeroVector] else [])
        && unchanged(CalculatorObjects(calculator))
      ensures enableForceCalculation ==>
        && |forceRequests| == |old(forceRequests)| + 1
        && forceRequests[..|old(forceRequests)|] == old(forceRequests)
      ensures enableForceCalculation && calculator.AxisCalculator? ==>
        AxisResponse(calculator.axis, p, old(calculator.axis.anchor), forceRequests[|forceRequests| - 1])
      ensures enableForceCalculation && calculator.SurfaceCalculator? ==>
        SurfaceResponse(calculator.surface, p, old(calculator.surface.flags), forceRequests[|forceRequests| - 1])
    {
      if enableForceCalculation {
        var force := Forward(p);
        forceRequests := forceRequests + [force];
      } else if hapticsForce != ZeroVector {
        forceRequests := forceRequests + [ZeroVector];
      }
    }

    /**
     * The last steps of setHapticsPosition: while button 1 is held, p is sampled
     * into the trail; with force calculation enabled, the axis flags of an axis
     * calculator are copied and the end of the calculator's curve, when it has one,
     * becomes the last curve point.
     */
    method Record(p: Point)
      requires TrailSpaced(hapticsPoints) && forceFlags.Length == 3 && forceFlags !in CalculatorObjects(calculator)
      requires Ready(calculator)
      modifies this`hapticsPoints, this`fbcLastPoint, forceFlags
      ensures unchanged(CalculatorObjects(calculator))
      ensures Ready(calculator) && TrailSpaced(hapticsPoints)
      ensures hapticsPoints == if hapticsButton1Pressed then Sampled(old(hapticsPoints), p) else old(hapticsPoints)
      ensures !enableForceCalculation ==> fbcLastPoint == old(fbcLastPoint) && unchanged(forceFlags)
      ensures enableForceCalculation && calculator.AxisCalculator? ==>
        var a := calculator.axis;
        && (forall k :: 0 <= k < 3 ==> forceFlags[k] == a.flags[k])
        && fbcLastPoint == (if a.fbc.Some? then Some(evaluateAtEnd(a.fbc.value)) else old(fbcLastPoint))
      ensures enableForceCalculation && calculator.SurfaceCalculator? ==>
        var s := calculator.surface;
        && unchanged(forceFlags)
        && fbcLastPoint == (if s.fbc.Some? then Some(evaluateAtEnd(s.fbc.value)) else old(fbcLastPoint))
    {
      if hapticsButton1Pressed {
        SampledKeepsSpacing(hapticsPoints, p);
        hapticsPoints := Sampled(hapticsPoints, p);
      }
      if enableForceCalculation && calculator.AxisCalculator? {
        var a := calculator.axis;
        forceFlags[0] := a.GetXFlag();
        forceFlags[1] := a.GetYFlag();
        forceFlags[2] := a.GetZFlag();
        var fbc := a.GetFbc();
        if fbc.Some? {
          fbcLastPoint := Some(evaluateAtEnd(fbc.value));
        }
      }
      if enableForceCalculation && calculator.SurfaceCalculator? {
        var fbc := calculator.surface.GetFbc();
        if fbc.Some? {
          fbcLastPoint := Some(evaluateAtEnd(fbc.value));
        }
      }
    }

    /** setHapticsForce: the force the device last reported. */
    method SetHapticsForce(x: real, y: real, z: real)
      modifies this`hapticsForce
      ensures hapticsForce == Vector(x, y, z)
    {
      hapticsForce := Vector(x, y, z);
    }

    /**
     * setHapticsButton1Pressed: pressing starts a new trail; releasing archives a
     * copy of the trail, as recorded with force when force calculation is enabled
     * and without force otherwise.
     */
    method SetHapticsButton1Pressed(pressed: bool)
      requires Valid()
      modifies this`hapticsButton1Pressed, this`hapticsPoints, this`onForcePointsList, this`offForcePointsList
      ensures Valid()
      ensures hapticsButton1Pressed == pressed
      ensures pressed ==> hapticsPoints == [] && onForcePointsList == old(onForcePointsList) && offForcePointsList == old(offForcePointsList)
      ensures !pressed ==> hapticsPoints == old(hapticsPoints)
      ensures !pressed && enableForceCalculation ==>
        onForcePointsList == old(onForcePointsList) + [hapticsPoints] && offForcePointsList == old(offForcePointsList)
      ensures !pressed && !enableForceCalculation ==>
        offForcePointsList == old(offForcePointsList) + [hapticsPoints] && onForcePointsList == old(onForcePointsList)
    {
      hapticsButton1Pressed := pressed;
      if pressed {
        hapticsPoints := [];
      } else if enableForceCalculation {
        onForcePointsList := onForcePointsList + [hapticsPoints];
      } else {
        offForcePointsList := offForcePointsList + [hapticsPoints];
      }
    }

    /** clearPoints: the trail and both archives are emptied. */
    method ClearPoints()
      requires Valid()
      modifies this`hapticsPoints, this`onForcePointsList, this`offForcePointsList
      ensures Valid()
      ensures hapticsPoints == [] && onForcePointsList == [] && offForcePointsList == []
    {
      onForcePointsList := [];
      offForcePointsList := [];
      hapticsPoints := [];
    }

    /** up: rotate back about x, floored at -ANGLE_LIMIT. */
    method Up()
      modifies this`rx
      ensures rx == StepBack(old(rx))
    {
      rx := Max(rx - ANGLE_STEP, -ANGLE_LIMIT);
    }

    /** down: rotate forward about x, capped at ANGLE_LIMIT. */
    method Down()
      modifies this`rx
      ensures rx == StepForward(old(rx))
    {
      rx := Min(rx + ANGLE_STEP, ANGLE_LIMIT);
    }

    /** left: rotate back about y, floored at -ANGLE_LIMIT. */
    method Left()
      modifies this`ry
      ensures ry == StepBack(old(ry))
    {
      ry := Max(ry - ANGLE_STEP, -ANGLE_LIMIT);
    }

    /** right: rotate forward about y, capped at ANGLE_LIMIT. */
    method Right()
      modifies this`ry
      ensures ry == StepForward(old(ry))
    {
      ry := Min(ry + ANGLE_STEP, ANGLE_LIMIT);
    }

    /** setAngle: the three rotations as given, without clamping. */
    method SetAngle(rx: real, ry: real, rz: real)
      modifies this`rx, this`ry, this`rz
      ensures this.rx == rx && this.ry == ry && this.rz == rz
    {
      this.rx, this.ry, this.rz := rx, ry, rz;
    }
  }
}
