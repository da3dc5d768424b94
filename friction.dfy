/**
 * The rules the axis and the surface friction calculators share: their parameter
 * validation, the time-windowed sample buffer, the MOVE / STAY / UNKNOWN
 * classification of a fragment, the necessity that a fuzzy force exceeds the
 * maximum static friction, and the stick/slip transition.
 */
module FrictionRules {
  import opened Wrappers
  import opened Numerics
  import opened Geometry
  import opened FuzzyValues
  import opened Curves

  /** FuzzyFragmentation.State: whether the stylus is moving or staying. */
  datatype State = MOVE | STAY | UNKNOWN

  /** Why create(...) rejects its parameters. */
  datatype ConfigError = InvalidInputInterval | InvalidCurveTimeLength | NullCreator

  /**
   * The validation of both create(...) factories, in their order: the input interval,
   * then the curve time length must be positive, and a creator must be given.
   */
  function CheckConfig(inputInterval: real, curveTimeLength: real, creator: Option<CurveCreator>): (r: Option<ConfigError>)
    ensures r.None? <==> 0.0 < inputInterval && 0.0 < curveTimeLength && creator.Some?
    ensures inputInterval <= 0.0 ==> r == Some(InvalidInputInterval)
    ensures 0.0 < inputInterval && curveTimeLength <= 0.0 ==> r == Some(InvalidCurveTimeLength)
  {
    if inputInterval <= 0.0 then Some(InvalidInputInterval)
    else if curveTimeLength <= 0.0 then Some(InvalidCurveTimeLength)
    else if creator.None? then Some(NullCreator)
    else None
  }

  /*
   * The sample buffer.
   */

  /** Whether a new input is sampled: it is more than one input interval after the last sample. */
  predicate Samples(inputInterval: real, preTime: real, p: Point)
  {
    p.time - preTime > inputInterval
  }

  /** points.removeIf(q -> q.time < t): the points of time at least t, in order. */
  function Prune(points: seq<Point>, t: real): (r: seq<Point>)
    ensures |r| <= |points|
    ensures forall i :: 0 <= i < |r| ==> t <= r[i].time
  {
    if |points| == 0 then []
    else if points[0].time < t then Prune(points[1..], t)
    else [points[0]] + Prune(points[1..], t)
  }

  /** Pruning keeps exactly the points of time at least t. */
  lemma {:induction false} PruneMembers(points: seq<Point>, t: real)
    ensures forall q :: q in Prune(points, t) <==> q in points && t <= q.time
  {
    if |points| > 0 {
      PruneMembers(points[1..], t);
      assert points == [points[0]] + points[1..];
    }
  }

  /**
   * The shape of the buffer between calls: samples in time order, any two more than
   * one input interval apart, none later than the time of the last sample taken.
   */
  predicate Spaced(points: seq<Point>, inputInterval: real, preTime: real)
  {
    && (forall i, j :: 0 <= i < j < |points| ==> points[i].time + inputInterval < points[j].time)
    && (forall i :: 0 <= i < |points| ==> points[i].time <= preTime)
  }

  /** On a spaced buffer (positive interval) pruning drops a prefix. */
  lemma {:induction false} PruneSpacedIsSuffix(points: seq<Point>, inputInterval: real, preTime: real, t: real)
    requires 0.0 < inputInterval && Spaced(points, inputInterval, preTime)
    ensures exists k :: 0 <= k <= |points| && Prune(points, t) == points[k..]
    decreases |points|
  {
    if |points| == 0 {
      assert Prune(points, t) == points[0..];
    } else if points[0].time < t {
      PruneSpacedIsSuffix(points[1..], inputInterval, preTime, t);
      var k :| 0 <= k <= |points[1..]| && Prune(points[1..], t) == points[1..][k..];
      assert Prune(points, t) == points[k + 1..];
    } else {
      AllLaterKept(points, inputInterval, preTime, t);
      assert Prune(points, t) == points[0..];
    }
  }

  /** When the oldest sample is kept, every sample is. */
  lemma {:induction false} AllLaterKept(points: seq<Point>, inputInterval: real, preTime: real, t: real)
    requires 0.0 < inputInterval && Spaced(points, inputInterval, preTime)
    requires 0 < |points| && t <= points[0].time
    ensures Prune(points, t) == points
    decreases |points|
  {
    if 1 < |points| {
      assert points[0].time < points[1].time;
      AllLaterKept(points[1..], inputInterval, preTime, t);
      assert [points[0]] + points[1..] == points;
    }
  }

  /** A suffix of a spaced buffer is spaced. */
  lemma SuffixSpaced(sampled: seq<Point>, inputInterval: real, pre: real, k: nat)
    requires Spaced(sampled, inputInterval, pre) && k <= |sampled|
    ensures Spaced(sampled[k..], inputInterval, pre)
  {
    var r := sampled[k..];
    forall i, j | 0 <= i < j < |r| ensures r[i].time + inputInterval < r[j].time {
      assert r[i] == sampled[k + i] && r[j] == sampled[k + j];
    }
    forall i | 0 <= i < |r| ensures r[i].time <= pre {
      assert r[i] == sampled[k + i];
    }
  }

  /** Pruning a spaced buffer keeps it spaced, and keeps its newest entry when that is recent enough. */
  lemma PruneKeepsSpaced(sampled: seq<Point>, inputInterval: real, pre: real, t: real)
    requires 0.0 < inputInterval && Spaced(sampled, inputInterval, pre)
    ensures Spaced(Prune(sampled, t), inputInterval, pre)
    ensures 0 < |sampled| && sampled[|sampled| - 1].time >= t ==>
      0 < |Prune(sampled, t)| && Prune(sampled, t)[|Prune(sampled, t)| - 1] == sampled[|sampled| - 1]
  {
    PruneSpacedIsSuffix(sampled, inputInterval, pre, t);
    var k :| 0 <= k <= |sampled| && Prune(sampled, t) == sampled[k..];
    SuffixSpaced(sampled, inputInterval, pre, k);
    if 0 < |sampled| && sampled[|sampled| - 1].time >= t {
      PruneMembers(sampled, t);
      assert sampled[|sampled| - 1] in Prune(sampled, t);
    }
  }

  /**
   * One call's buffer update (the first lines of calculate): sample the input if it
   * is due, then drop what is older than the curve time length before it. The
   * result is the new buffer and the new time of the last sample.
   */
  function SampleAndPrune(points: seq<Point>, preTime: real, inputInterval: real, curveTimeLength: real, p: Point): (seq<Point>, real)
  {
    if Samples(inputInterval, preTime, p) then (Prune(points + [p], p.time - curveTimeLength), p.time)
    else (Prune(points, p.time - curveTimeLength), preTime)
  }

  /** Appending a due sample keeps the buffer spaced, with the sample's time as the new last time. */
  lemma AppendKeepsSpaced(points: seq<Point>, inputInterval: real, preTime: real, p: Point)
    requires 0.0 < inputInterval && Spaced(points, inputInterval, preTime) && Samples(inputInterval, preTime, p)
    ensures Spaced(points + [p], inputInterval, p.time)
  {
    var s := points + [p];
    forall i, j | 0 <= i < j < |s| ensures s[i].time + inputInterval < s[j].time {
      if j < |points| {
        assert s[i] == points[i] && s[j] == points[j];
      } else {
        assert s[i] == points[i] && s[j] == p;
      }
    }
    forall i | 0 <= i < |s| ensures s[i].time <= p.time {
      if i < |points| {
        assert s[i] == points[i];
      }
    }
  }

  /**
   * The buffer update keeps the buffer spaced, leaves only samples in the window
   * [p.time - curveTimeLength, last sample time], and a sampled input is the newest entry.
   */
  lemma SampleAndPruneKeepsWindow(points: seq<Point>, preTime: real, inputInterval: real, curveTimeLength: real, p: Point)
    requires 0.0 < inputInterval && 0.0 < curveTimeLength && Spaced(points, inputInterval, preTime)
    ensures Spaced(SampleAndPrune(points, preTime, inputInterval, curveTimeLength, p).0, inputInterval,
                   SampleAndPrune(points, preTime, inputInterval, curveTimeLength, p).1)
    ensures Samples(inputInterval, preTime, p) ==>
      var r := SampleAndPrune(points, preTime, inputInterval, curveTimeLength, p).0;
      0 < |r| && r[|r| - 1] == p
  {
    if Samples(inputInterval, preTime, p) {
      AppendKeepsSpaced(points, inputInterval, preTime, p);
      PruneKeepsSpaced(points + [p], inputInterval, p.time, p.time - curveTimeLength);
      assert SampleAndPrune(points, preTime, inputInterval, curveTimeLength, p)
          == (Prune(points + [p], p.time - curveTimeLength), p.time);
    } else {
      PruneKeepsSpaced(points, inputInterval, preTime, p.time - curveTimeLength);
      assert SampleAndPrune(points, preTime, inputInterval, curveTimeLength, p)
          == (Prune(points, p.time - curveTimeLength), preTime);
    }
  }

  /*
   * Fragmentation: the minimum of the necessities and possibilities with which the
   * last value is included in the earlier ones, then a three-way classification.
   */

  /**
   * The end of both fragmentation methods: MOVE when both minima are below their
   * thresholds, STAY when both are strictly above, UNKNOWN otherwise.
   */
  function Classify(threshold: TruthValue, nec: real, pos: real): (s: State)
    ensures s == MOVE <==> nec < threshold.necessity && pos < threshold.possibility
    ensures s == STAY <==> threshold.necessity < nec && threshold.possibility < pos
  {
    if nec < threshold.necessity && pos < threshold.possibility then MOVE
    else if threshold.necessity < nec && threshold.possibility < pos then STAY
    else UNKNOWN
  }

  /** Higher necessity and possibility never turn a STAY into something else, nor anything into a MOVE. */
  lemma ClassifyMonotone(threshold: TruthValue, nec: real, pos: real, nec2: real, pos2: real)
    requires nec <= nec2 && pos <= pos2
    ensures Classify(threshold, nec, pos) == STAY ==> Classify(threshold, nec2, pos2) == STAY
    ensures Classify(threshold, nec2, pos2) == MOVE ==> Classify(threshold, nec, pos) == MOVE
  {
  }

  /** Whether every value has a non-negative (finite) fuzziness. */
  predicate AllNonNegative(values: seq<FuzzyValue>)
  {
    forall i :: 0 <= i < |values| ==> NonNegative(values[i].fuzziness)
  }

  /** last.includedIn(values[i]) for the values before the last one. */
  function Inclusions(values: seq<FuzzyValue>): (ts: seq<TruthValue>)
    requires 0 < |values| && AllNonNegative(values)
    ensures |ts| == |values| - 1
    ensures forall i :: 0 <= i < |ts| ==> ts[i] == IncludedIn(values[|values| - 1], values[i])
  {
    var last := values[|values| - 1];
    seq(|values| - 1, i requires 0 <= i < |values| - 1 => IncludedIn(last, values[i]))
  }

  /** Math.min folded over the necessities of ts, starting from start. */
  function MinNecessity(start: real, ts: seq<TruthValue>): (m: real)
    ensures m <= start && forall i :: 0 <= i < |ts| ==> m <= ts[i].necessity
  {
    if |ts| == 0 then start else Min(MinNecessity(start, ts[..|ts| - 1]), ts[|ts| - 1].necessity)
  }

  /** Math.min folded over the possibilities of ts, starting from start. */
  function MinPossibility(start: real, ts: seq<TruthValue>): (m: real)
    ensures m <= start && forall i :: 0 <= i < |ts| ==> m <= ts[i].possibility
  {
    if |ts| == 0 then start else Min(MinPossibility(start, ts[..|ts| - 1]), ts[|ts| - 1].possibility)
  }

  /** The folded necessity is the start value or one of the necessities: it is their minimum. */
  lemma {:induction false} MinNecessityAttained(start: real, ts: seq<TruthValue>)
    ensures MinNecessity(start, ts) == start || exists i :: 0 <= i < |ts| && MinNecessity(start, ts) == ts[i].necessity
  {
    if |ts| > 0 {
      var init := ts[..|ts| - 1];
      MinNecessityAttained(start, init);
      if MinNecessity(start, ts) != ts[|ts| - 1].necessity && MinNecessity(start, ts) != start {
        var i :| 0 <= i < |init| && MinNecessity(start, init) == init[i].necessity;
        assert MinNecessity(start, ts) == ts[i].necessity;
      }
    }
  }

  /** The folded possibility is the start value or one of the possibilities: it is their minimum. */
  lemma {:induction false} MinPossibilityAttained(start: real, ts: seq<TruthValue>)
    ensures MinPossibility(start, ts) == start || exists i :: 0 <= i < |ts| && MinPossibility(start, ts) == ts[i].possibility
  {
    if |ts| > 0 {
      var init := ts[..|ts| - 1];
      MinPossibilityAttained(start, init);
      if MinPossibility(start, ts) != ts[|ts| - 1].possibility && MinPossibility(start, ts) != start {
        var i :| 0 <= i < |init| && MinPossibility(start, init) == init[i].possibility;
        assert MinPossibility(start, ts) == ts[i].possibility;
      }
    }
  }

  /** What a STAY means: the start value and every comparison are above both thresholds. */
  lemma StayIffAllAbove(threshold: TruthValue, start: real, ts: seq<TruthValue>)
    ensures Classify(threshold, MinNecessity(start, ts), MinPossibility(start, ts)) == STAY
      <==> && threshold.necessity < start && threshold.possibility < start
           && forall i :: 0 <= i < |ts| ==>
                threshold.necessity < ts[i].necessity && threshold.possibility < ts[i].possibility
  {
    MinNecessityAttained(start, ts);
    MinPossibilityAttained(start, ts);
  }

  /**
   * What a MOVE means: some comparison (or the start value) is below the necessity
   * threshold, and some is below the possibility threshold.
   */
  lemma MoveIffSomeBelow(threshold: TruthValue, start: real, ts: seq<TruthValue>)
    ensures Classify(threshold, MinNecessity(start, ts), MinPossibility(start, ts)) == MOVE
      <==> && (start < threshold.necessity || exists i :: 0 <= i < |ts| && ts[i].necessity < threshold.necessity)
           && (start < threshold.possibility || exists i :: 0 <= i < |ts| && ts[i].possibility < threshold.possibility)
  {
    MinNecessityAttained(start, ts);
    MinPossibilityAttained(start, ts);
  }

  /*
   * The force necessity.
   */

  /**
   * calcForceNecessity divides by the fuzziness of the force. A zero fuzziness gives
   * +/- infinity, which the clamps turn into 1 or 0; only 0 / 0 (NaN) is excluded.
   */
  predicate NecessityDefined(maxFrictionForce: real, vertex: real, fuzziness: real)
  {
    fuzziness != 0.0 || Abs(vertex) != maxFrictionForce
  }

  /**
   * calcForceNecessity: min(max((|vertex| - maxFrictionForce) / fuzziness, 0), 1),
   * with the division by zero carried out in extended reals.
   */
  function ForceNecessity(maxFrictionForce: real, vertex: real, fuzziness: real): (nec: real)
    requires NecessityDefined(maxFrictionForce, vertex, fuzziness)
    ensures 0.0 <= nec <= 1.0
    ensures fuzziness == 0.0 ==> (nec == 1.0 <==> Abs(vertex) > maxFrictionForce) && (nec == 0.0 <==> Abs(vertex) < maxFrictionForce)
  {
    var excess := Abs(vertex) - maxFrictionForce;
    if fuzziness == 0.0 then
      if excess > 0.0 then 1.0 else 0.0
    else
      Min(Max(excess / fuzziness, 0.0), 1.0)
  }

  /**
   * The possibility that a fuzzy magnitude with vertex a and fuzziness f does not
   * exceed m: the highest membership grade at or below m.
   */
  function PossibilityAtMost(a: real, f: real, m: real): (p: real)
    requires 0.0 < f
    ensures 0.0 <= p <= 1.0
  {
    if a <= m then 1.0 else Membership(a, f, m)
  }

  /** PossibilityAtMost is the supremum of the membership grades at or below m: a bound that is reached. */
  lemma PossibilityAtMostIsSupremum(a: real, f: real, m: real, x: real)
    requires 0.0 < f && x <= m
    ensures Membership(a, f, x) <= PossibilityAtMost(a, f, m)
    ensures Membership(a, f, Min(a, m)) == PossibilityAtMost(a, f, m)
  {
    if m < a {
      assert Abs(m - a) <= Abs(x - a);
      DivLeIff(Abs(m - a), f, Abs(x - a) / f);
      assert Abs(x - a) / f * f == Abs(x - a);
    }
  }

  /**
   * For a positive fuzziness the force necessity is the necessity that the fuzzy
   * force magnitude exceeds the maximum static friction: one minus the possibility
   * that it does not.
   */
  lemma ForceNecessityIsExceedance(maxFrictionForce: real, vertex: real, fuzziness: real)
    requires 0.0 < fuzziness
    ensures ForceNecessity(maxFrictionForce, vertex, fuzziness)
         == 1.0 - PossibilityAtMost(Abs(vertex), fuzziness, maxFrictionForce)
  {
    var a, f, m := Abs(vertex), fuzziness, maxFrictionForce;
    if m < a {
      assert Abs(m - a) == a - m;
      DivNonNegative(a - m, f);
      DivLeIff(a - m, f, 1.0);
    } else {
      DivLeIff(a - m, f, 0.0);
    }
  }

  /** A larger force is at least as necessarily above the maximum friction. */
  lemma ForceNecessityMonotone(maxFrictionForce: real, v1: real, v2: real, fuzziness: real)
    requires NecessityDefined(maxFrictionForce, v1, fuzziness) && NecessityDefined(maxFrictionForce, v2, fuzziness)
    requires 0.0 <= fuzziness && Abs(v1) <= Abs(v2)
    ensures ForceNecessity(maxFrictionForce, v1, fuzziness) <= ForceNecessity(maxFrictionForce, v2, fuzziness)
  {
    if 0.0 < fuzziness {
      var e1, e2 := Abs(v1) - maxFrictionForce, Abs(v2) - maxFrictionForce;
      DivLeIff(e1, fuzziness, e2 / fuzziness);
      assert e2 / fuzziness * fuzziness == e2;
    }
  }

  /*
   * Stick and slip.
   */

  /**
   * The flag after updateState: a sticking axis or surface is released when the force
   * necessity reaches the threshold and the fragment is not STAY; a slipping one
   * sticks when the fragment is STAY.
   */
  function NextFlag(flag: bool, state: State, nec: real, maxFrictionThreshold: real): (sticks: bool)
    ensures sticks <==> state == STAY || (flag && nec < maxFrictionThreshold)
  {
    if flag then !(nec >= maxFrictionThreshold && state != STAY) else state == STAY
  }

  /** The force an axis or surface passes on: vertex * (1 - nec) while it sticks after the update, else nothing. */
  function StickForce(sticks: bool, vertex: real, nec: real): (r: real)
    requires 0.0 <= nec <= 1.0
    ensures Abs(r) <= Abs(vertex)
    ensures r != 0.0 ==> sticks
    ensures 0.0 <= vertex ==> 0.0 <= r
    ensures vertex <= 0.0 ==> r <= 0.0
  {
    if sticks then
      assert Abs(vertex * (1.0 - nec)) == Abs(vertex) * (1.0 - nec);
      assert Abs(vertex) * (1.0 - nec) <= Abs(vertex) * 1.0;
      vertex * (1.0 - nec)
    else 0.0
  }
}
