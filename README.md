# Fuzzy friction and elliptical-arc segmentation: a Dafny model

This project models the numerical core of a haptics/VR research client and of
the `jftk` library it uses. It is written in Dafny and its properties are proved.

- **Fuzzy inclusion** (`FuzzyValues`): the necessity and possibility of one
  fuzzy number being included in another. This covers the degenerate cases of
  infinite fuzziness, two crisp values, and crisp values at different vertices.
  It is also shown to be the standard possibility/necessity of triangular
  fuzzy numbers.
- **Friction surfaces** (`Surfaces`): planes and spheres as one datatype, with
  validated constructors, signed distance, projection and normal.
- **Friction calculators** (`FrictionRules`, `AxisFriction`, `SurfaceFriction`).
  These are classes whose fields are updated on every stylus sample:
  - a time-windowed sample buffer that is appended to and pruned;
  - the MOVE / STAY / UNKNOWN fragmentation of the fitted curve;
  - the stick/slip state machine with its anchor;
  - the registry of surfaces with parallel flag and label maps;
  - the composed restoring force.
- **Elliptical-arc segmentation** (`Partitions`, `EllipticIdentification`,
  `Segmentation`, `NonPartition`):
  - the persistent list of split indices;
  - the memoizing identifier with its n-by-n table;
  - the greedy narrowing passes;
  - the bisection search;
  - the answer-table dynamic programme;
  - the fragmentation that uses it.
- **Recognizer grade logic** (`Recognition`, `OpenRecognition`,
  `PrimitiveRecognizer`):
  - the fuzzy `and`;
  - the grades of the open and the seven-class recognizer;
  - the ranking comparators and type selection;
  - the n/4 refinement of arcs;
  - the weight clamping and selection of the elliptic reference.
- **Client state** (`ClientModel`, `Menus`):
  - the application model: the stylus trail, archives, force requests and
    clamped rotation around a calculator;
  - the viewer's menu tree, with sibling links and selection navigation, kept
    as an arena of numbered entries.

Numbers are `real`. IEEE NaN and infinities appear only where the code branches on them:
- `Spread.Infinite` for infinite fuzziness;
- a `Double` datatype in the open recognizer;
- `Mu` for the negative infinity of the bisection objective.

Some library code sits outside these files and enters the model as function-valued parameters:
- `Math.sqrt`: lemmas that need it exact require `ExactSqrt`;
- the fuzzy Bezier curve fitter and curve sampling (`Curves.CurveLibrary`);
- `evaluateAtEnd`;
- the reference-curve possibilities and the sigmoid rules of the recognizers;
- the sub-curve identification behind `MemoizingEllipticIdentifier`.

`PrimitiveType.java` and `NQuartersType.java` are not part of this model. Their
declaration order decides ties in the rankings, and it is assumed to be
POINT, LINE, CIRCLE, CIRCULAR_ARC, ELLIPSE, ELLIPTIC_ARC, CLOSED_FREE_CURVE,
OPEN_FREE_CURVE and QUARTER, HALF, THREE_QUARTERS, GENERAL.

In the segmentation, the answer for index j holds 0 and the split indices
below j, but not j itself (`Segmentation.Shape`), and the best divided
parameters drop the 0.

## Model

| member | source | states |
|---|---|---|
| FuzzyValues.Create | projects/client/jftk/src/main/java/jp/sagalab/jftk/force/FuzzyValue.java:12-14 | the value has exactly the given vertex and the given finite fuzziness |
| FuzzyValues.Equals | projects/client/jftk/src/main/java/jp/sagalab/jftk/force/FuzzyValue.java:49-55 | two values are equal exactly when vertex and fuzziness both agree |
| FuzzyValues.IncludedIn | projects/client/jftk/src/main/java/jp/sagalab/jftk/force/FuzzyValue.java:16-30 | for non-negative fuzzinesses the answer is never NaN and satisfies 0 <= necessity <= possibility <= 1 |
| FuzzyValues.IncludedInInfinite | projects/client/jftk/src/main/java/jp/sagalab/jftk/force/FuzzyValue.java:19-20 | an infinite fuzziness on either side gives exactly (0, 1) |
| FuzzyValues.IncludedInCrisp | projects/client/jftk/src/main/java/jp/sagalab/jftk/force/FuzzyValue.java:22-27 | two crisp values give (0.5, 1) when their vertices coincide (the 0/0 case) and (0, 0) otherwise (both quotients are -infinity, clamped to 0) |
| FuzzyValues.IncludedInItself | projects/client/jftk/src/main/java/jp/sagalab/jftk/force/FuzzyValue.java:17-23 | a value with positive fuzziness is included in itself with (0.5, 1) |
| FuzzyValues.PossibilitySymmetric | projects/client/jftk/src/main/java/jp/sagalab/jftk/force/FuzzyValue.java:23 | the possibility does not depend on the order of the two values |
| FuzzyValues.NecessityNotSymmetric | projects/client/jftk/src/main/java/jp/sagalab/jftk/force/FuzzyValue.java:22 | the necessity does: a crisp 0 is surely in a fuzzy 0 (necessity 1), but not the other way round (necessity 0) |
| FuzzyValues.PossibilityBoundsIntersection | projects/client/jftk/src/main/java/jp/sagalab/jftk/force/FuzzyValue.java:23 | no point has a grade above the possibility in both triangular membership functions |
| FuzzyValues.PossibilityReachedAtMeet | projects/client/jftk/src/main/java/jp/sagalab/jftk/force/FuzzyValue.java:23 | at the point dividing the vertices in the ratio of the fuzzinesses both grades equal the possibility, so the possibility is the height of the intersection |
| FuzzyValues.NecessityBoundsImplication | projects/client/jftk/src/main/java/jp/sagalab/jftk/force/FuzzyValue.java:22 | at every point x, max(1 - mu_a(x), mu_other(x)) is at least the necessity |
| FuzzyValues.NecessityReachedWhenApart | projects/client/jftk/src/main/java/jp/sagalab/jftk/force/FuzzyValue.java:22 | when the other value does not reach the vertex, the bound is attained (necessity 0) |
| FuzzyValues.NecessityReachedWhenOverlapping | projects/client/jftk/src/main/java/jp/sagalab/jftk/force/FuzzyValue.java:22 | when it does, the bound is attained where both grades cross |
| FuzzyValues.NecessityReachedAtFarthest | projects/client/jftk/src/main/java/jp/sagalab/jftk/force/FuzzyValue.java:22 | the necessity is the infimum of max(1 - mu_a, mu_other), attained at the farthest point of a's support |
| Surfaces.CreatePlane | projects/client/jftk/src/main/java/jp/sagalab/jftk/force/surface/Plane.java:9-18 | a null base point is rejected; a plane that is built has the given base |
| Surfaces.CreatePlaneValid | projects/client/jftk/src/main/java/jp/sagalab/jftk/force/surface/Plane.java:9-18 | creation succeeds exactly when the base is present and the normal is non-zero, and then stores a valid plane |
| Surfaces.NonZeroNormalAccepted | projects/client/jftk/src/main/java/jp/sagalab/jftk/force/surface/Plane.java:13-17 | a non-zero normal is stored normalised: unit length, parallel to and in the direction of the given one |
| Surfaces.ZeroNormalRejected | projects/client/jftk/src/main/java/jp/sagalab/jftk/force/surface/Plane.java:13-16 | a zero normal is rejected with the zero-length error |
| Surfaces.CreatePlaneThrough | projects/client/jftk/src/main/java/jp/sagalab/jftk/force/surface/Plane.java:27-29 | the three-point plane has the first point as base |
| Surfaces.PlaneThroughContainsPoints | projects/client/jftk/src/main/java/jp/sagalab/jftk/force/surface/Plane.java:27-29 | the plane is built exactly when the three points are not collinear, and then contains all three |
| Surfaces.CreateSphere | projects/client/jftk/src/main/java/jp/sagalab/jftk/force/surface/Sphere.java:9-17 | succeeds exactly when the centre is present and the radius is not negative (0 allowed), keeping centre and radius unchanged |
| Surfaces.Distance | projects/client/jftk/src/main/java/jp/sagalab/jftk/force/surface/Sphere.java:41-44 | the distance to a sphere, abs(dist(p, centre) - r), is never negative |
| Surfaces.PlaneContainsBase | projects/client/jftk/src/main/java/jp/sagalab/jftk/force/surface/Plane.java:45-48 | the signed distance of the base point is 0 |
| Surfaces.PlaneNormalIsConstant | projects/client/jftk/src/main/java/jp/sagalab/jftk/force/surface/Plane.java:50-53 | the plane's normal is the stored one whatever the point |
| Surfaces.PlaneProjectionOnPlane | projects/client/jftk/src/main/java/jp/sagalab/jftk/force/surface/Plane.java:39-48 | the projection lies on the plane, keeps time and fuzziness, and is abs(distance) away from p |
| Surfaces.PlaneProjectionIdempotent | projects/client/jftk/src/main/java/jp/sagalab/jftk/force/surface/Plane.java:39-48 | projecting a projected point changes nothing |
| Surfaces.SphereNormalIsUnit | projects/client/jftk/src/main/java/jp/sagalab/jftk/force/surface/Sphere.java:46-49 | away from the centre the normal is a unit vector pointing from the centre towards p |
| Surfaces.SphereProjectionOnSphere | projects/client/jftk/src/main/java/jp/sagalab/jftk/force/surface/Sphere.java:35-44 | the projection lies at distance r from the centre, so its distance to the sphere is 0 |
| Surfaces.SphereDistanceIsGap | projects/client/jftk/src/main/java/jp/sagalab/jftk/force/surface/Sphere.java:35-44 | the distance to the sphere is the length of the move from p to its projection |
| FrictionRules.CheckConfig | projects/client/jftk/src/main/java/jp/sagalab/jftk/force/calculator/AxisFrictionCalculator.java:57-65 | creation is accepted exactly for a positive input interval, a positive curve time length and a given creator, and the first failing check names the error |
| FrictionRules.Prune | projects/client/jftk/src/main/java/jp/sagalab/jftk/force/calculator/AxisFrictionCalculator.java:114 | the kept points are a sub-list of the buffer, all of time at least the cut-off |
| FrictionRules.PruneMembers | projects/client/jftk/src/main/java/jp/sagalab/jftk/force/calculator/AxisFrictionCalculator.java:114 | a point is kept exactly when it was in the buffer and is not older than the cut-off |
| FrictionRules.PruneSpacedIsSuffix | projects/client/jftk/src/main/java/jp/sagalab/jftk/force/calculator/AxisFrictionCalculator.java:109-114 | on a buffer in time order, pruning drops a prefix |
| FrictionRules.AllLaterKept | projects/client/jftk/src/main/java/jp/sagalab/jftk/force/calculator/AxisFrictionCalculator.java:114 | when the oldest sample is recent enough nothing is dropped |
| FrictionRules.AppendKeepsSpaced | projects/client/jftk/src/main/java/jp/sagalab/jftk/force/calculator/AxisFrictionCalculator.java:109-112 | a sample is taken only more than one input interval after the last one, so the buffer stays in time order with the interval between samples |
| FrictionRules.PruneKeepsSpaced | projects/client/jftk/src/main/java/jp/sagalab/jftk/force/calculator/AxisFrictionCalculator.java:109-114 | pruning keeps the buffer in order and spaced, and keeps its newest entry when that is recent enough |
| FrictionRules.SampleAndPruneKeepsWindow | projects/client/jftk/src/main/java/jp/sagalab/jftk/force/calculator/AxisFrictionCalculator.java:108-114 | after every call the buffer is spaced, every point is within the curve time length of the input, and a sampled input is the newest entry |
| FrictionRules.Classify | projects/client/jftk/src/main/java/jp/sagalab/jftk/force/calculator/AxisFrictionCalculator.java:167-173 | MOVE exactly when both minima are below their thresholds, STAY exactly when both are strictly above, UNKNOWN otherwise |
| FrictionRules.ClassifyMonotone | projects/client/jftk/src/main/java/jp/sagalab/jftk/force/calculator/AxisFrictionCalculator.java:167-173 | raising the necessity and possibility never loses a STAY and never creates a MOVE |
| FrictionRules.Inclusions | projects/client/jftk/src/main/java/jp/sagalab/jftk/force/calculator/AxisFrictionCalculator.java:161-163 | one truth value per earlier sample: the inclusion of the last value in it |
| FrictionRules.MinNecessity | projects/client/jftk/src/main/java/jp/sagalab/jftk/force/calculator/AxisFrictionCalculator.java:159-166 | the fold from 1 is at most the start value and every necessity |
| FrictionRules.MinPossibility | projects/client/jftk/src/main/java/jp/sagalab/jftk/force/calculator/AxisFrictionCalculator.java:159-166 | the fold from 1 is at most the start value and every possibility |
| FrictionRules.MinNecessityAttained | projects/client/jftk/src/main/java/jp/sagalab/jftk/force/calculator/AxisFrictionCalculator.java:159-166 | the fold equals the start value or one of the necessities, so it is their minimum |
| FrictionRules.MinPossibilityAttained | projects/client/jftk/src/main/java/jp/sagalab/jftk/force/calculator/AxisFrictionCalculator.java:159-166 | the fold equals the start value or one of the possibilities, so it is their minimum |
| FrictionRules.StayIffAllAbove | projects/client/jftk/src/main/java/jp/sagalab/jftk/force/calculator/AxisFrictionCalculator.java:158-174 | fragmentation says STAY exactly when the start value and every comparison are strictly above both thresholds |
| FrictionRules.MoveIffSomeBelow | projects/client/jftk/src/main/java/jp/sagalab/jftk/force/calculator/AxisFrictionCalculator.java:158-174 | fragmentation says MOVE exactly when some comparison (or the start value) is below the necessity threshold and some is below the possibility threshold |
| FrictionRules.ForceNecessity | projects/client/jftk/src/main/java/jp/sagalab/jftk/force/calculator/AxisFrictionCalculator.java:224-226 | the clamped necessity lies in [0, 1]; for a zero fuzziness it is 1 above the maximum friction force and 0 below it |
| FrictionRules.ForceNecessityIsExceedance | projects/client/jftk/src/main/java/jp/sagalab/jftk/force/calculator/AxisFrictionCalculator.java:219-226 | for a positive fuzziness it is 1 minus the possibility that the fuzzy force magnitude stays at or below the maximum friction force |
| FrictionRules.ForceNecessityMonotone | projects/client/jftk/src/main/java/jp/sagalab/jftk/force/calculator/AxisFrictionCalculator.java:224-226 | a larger force magnitude never has a smaller necessity |
| FrictionRules.NextFlag | projects/client/jftk/src/main/java/jp/sagalab/jftk/force/calculator/AxisFrictionCalculator.java:197-215 | after the update an axis sticks exactly when its fragment is STAY, or it stuck before and the necessity stayed below the threshold |
| FrictionRules.StickForce | projects/client/jftk/src/main/java/jp/sagalab/jftk/force/calculator/AxisFrictionCalculator.java:194-216 | the passed-on force is never larger than the spring component, has its sign, and is non-zero only while sticking |
| AxisFriction.SnapAxis | projects/client/jftk/src/main/java/jp/sagalab/jftk/force/calculator/AxisFrictionCalculator.java:205-211 | the snapped anchor takes coordinate k from the current point and keeps the other two coordinates |
| AxisFriction.SnapZeroesSpring | projects/client/jftk/src/main/java/jp/sagalab/jftk/force/calculator/AxisFrictionCalculator.java:202-211 | after a snap the spring component of that axis, computed against the new anchor, is 0 |
| AxisFriction.AxisValues | projects/client/jftk/src/main/java/jp/sagalab/jftk/force/calculator/AxisFrictionCalculator.java:123-131 | one fuzzy value per curve sample: its coordinate k with the sample's fuzziness |
| AxisFriction.SplitAxes | projects/client/jftk/src/main/java/jp/sagalab/jftk/force/calculator/AxisFrictionCalculator.java:122-131 | the loop produces exactly the x, y and z fuzzy values of the samples |
| AxisFriction.AxisValuesNonNegative | projects/client/jftk/src/main/java/jp/sagalab/jftk/force/calculator/AxisFrictionCalculator.java:126-131 | samples of non-negative fuzziness give fuzzy values of non-negative fuzziness |
| AxisFriction.AxisFrictionCalculator.constructor | projects/client/jftk/src/main/java/jp/sagalab/jftk/force/calculator/AxisFrictionCalculator.java:228-259 | stores the parameters; the buffer is empty, no curve and no anchor, all flags false and all labels UNKNOWN |
| AxisFriction.AxisFrictionCalculator.Create | projects/client/jftk/src/main/java/jp/sagalab/jftk/force/calculator/AxisFrictionCalculator.java:47-72 | fails exactly when a check of the configuration fails, with that error; otherwise a fresh calculator whose creator is the one built for the curve time length, not the one passed in |
| AxisFriction.AxisFrictionCalculator.CreateDefault | projects/client/jftk/src/main/java/jp/sagalab/jftk/force/calculator/AxisFrictionCalculator.java:26-33 | the Geomagic defaults: 1 ms, 0.1 s, stiffness 0.5, maximum force 0.5, threshold 0.95, fragmentation threshold (0.5, 0.5), resolution 0.025 |
| AxisFriction.AxisFrictionCalculator.CurrentOf | projects/client/jftk/src/main/java/jp/sagalab/jftk/force/calculator/AxisFrictionCalculator.java:116-138 | without a curve the current point is the raw input |
| AxisFriction.AxisFrictionCalculator.Fragmentation | projects/client/jftk/src/main/java/jp/sagalab/jftk/force/calculator/AxisFrictionCalculator.java:158-174 | the loop's result is the classification of the minimum necessity and possibility, from 1, of the last value's inclusion in each earlier one |
| AxisFriction.AxisFrictionCalculator.UpdateState | projects/client/jftk/src/main/java/jp/sagalab/jftk/force/calculator/AxisFrictionCalculator.java:183-217 | for axis k the flag follows NextFlag, the result is StickForce, the anchor snaps on coordinate k only when a slipping axis with label STAY starts to stick, and the other flags are unchanged; any other index gives 0 and changes nothing |
| AxisFriction.AxisFrictionCalculator.SampleInput | projects/client/jftk/src/main/java/jp/sagalab/jftk/force/calculator/AxisFrictionCalculator.java:108-114 | the buffer and the last sample time become the result of the sample-and-prune step, and the buffer stays spaced |
| AxisFriction.AxisFrictionCalculator.Refit | projects/client/jftk/src/main/java/jp/sagalab/jftk/force/calculator/AxisFrictionCalculator.java:116-138 | the curve is the one fitted to the buffer; without a curve the labels are kept, with one every axis is re-classified from the curve samples and the current point is the last sample |
| AxisFriction.AxisFrictionCalculator.Relabel | projects/client/jftk/src/main/java/jp/sagalab/jftk/force/calculator/AxisFrictionCalculator.java:133-136 | each axis label becomes the fragmentation of that axis's values |
| AxisFriction.AxisFrictionCalculator.Respond | projects/client/jftk/src/main/java/jp/sagalab/jftk/force/calculator/AxisFrictionCalculator.java:140-150 | the anchor is set on the first call; the spring vector is taken before any snapping; each axis steps in x, y, z order, and the force is made of the three step results |
| AxisFriction.AxisFrictionCalculator.Calculate | projects/client/jftk/src/main/java/jp/sagalab/jftk/force/calculator/AxisFrictionCalculator.java:106-151 | the whole tick: buffer update, curve, labels, and the flags, force and anchor of the three stick/slip steps |
| SurfaceFriction.RemoveFirst | projects/client/jftk/src/main/java/jp/sagalab/jftk/force/calculator/SurfaceFrictionCalculator.java:122 | ArrayList.remove(Object): an absent surface leaves the list unchanged; a present one is removed once, one element shorter and otherwise the same multiset |
| SurfaceFriction.RemoveFirstNoDuplicates | projects/client/jftk/src/main/java/jp/sagalab/jftk/force/calculator/SurfaceFrictionCalculator.java:121-125 | on a list without duplicates the removal keeps it without duplicates and removes exactly that surface |
| SurfaceFriction.DistanceValues | projects/client/jftk/src/main/java/jp/sagalab/jftk/force/calculator/SurfaceFrictionCalculator.java:155-160 | one fuzzy value per curve sample: the distance to the surface with the sample's fuzziness |
| SurfaceFriction.DistanceValuesNonNegative | projects/client/jftk/src/main/java/jp/sagalab/jftk/force/calculator/SurfaceFrictionCalculator.java:155-160 | samples of non-negative fuzziness give fuzzy distances of the same, non-negative, finite fuzziness |
| SurfaceFriction.ContactStartIsTouching | projects/client/jftk/src/main/java/jp/sagalab/jftk/force/calculator/SurfaceFrictionCalculator.java:175 | for a non-negative distance the start value max((f - v) / f, 0) is the grade with which the last sample touches the surface (distance 0) |
| SurfaceFriction.ContactStartNotCapped | projects/client/jftk/src/main/java/jp/sagalab/jftk/force/calculator/SurfaceFrictionCalculator.java:175 | the start value is not capped at 1: a signed distance of -1 with fuzziness 1 gives 2 |
| SurfaceFriction.OffSurfaceMoves | projects/client/jftk/src/main/java/jp/sagalab/jftk/force/calculator/SurfaceFrictionCalculator.java:177-186 | a start value of 0 skips the comparisons, and the surface is then MOVE for positive thresholds |
| SurfaceFriction.SurfaceStayIff | projects/client/jftk/src/main/java/jp/sagalab/jftk/force/calculator/SurfaceFrictionCalculator.java:173-192 | a surface is STAY exactly when the start value is above both thresholds and the last distance is included in every earlier one above both thresholds |
| SurfaceFriction.PullIsDistance | projects/client/jftk/src/main/java/jp/sagalab/jftk/force/calculator/SurfaceFrictionCalculator.java:204 | the pull towards a valid surface (projection minus current) has the length of the distance to it |
| SurfaceFriction.ComposedForceOfNothing | projects/client/jftk/src/main/java/jp/sagalab/jftk/force/calculator/SurfaceFrictionCalculator.java:199-228 | surfaces that all contribute nothing compose to the zero vector |
| SurfaceFriction.ComposedForceSwapLast | projects/client/jftk/src/main/java/jp/sagalab/jftk/force/calculator/SurfaceFrictionCalculator.java:225 | the composed force does not depend on the order of the last two surfaces |
| SurfaceFriction.SurfaceFrictionCalculator.constructor | projects/client/jftk/src/main/java/jp/sagalab/jftk/force/calculator/SurfaceFrictionCalculator.java:239-271 | stores the parameters; empty buffer, no curve, no surfaces and empty flag and label maps |
| SurfaceFriction.SurfaceFrictionCalculator.Create | projects/client/jftk/src/main/java/jp/sagalab/jftk/force/calculator/SurfaceFrictionCalculator.java:46-71 | the same validation as the axis calculator, the creator replaced by the one built for the curve time length, and an empty registry |
| SurfaceFriction.SurfaceFrictionCalculator.CreateDefault | projects/client/jftk/src/main/java/jp/sagalab/jftk/force/calculator/SurfaceFrictionCalculator.java:25-33 | the defaults: 1 ms, 0.1 s, stiffness 350, maximum force 1.5, threshold 0.95, fragmentation threshold (0.5, 0.5), resolution 0.025 |
| SurfaceFriction.SurfaceFrictionCalculator.Add | projects/client/jftk/src/main/java/jp/sagalab/jftk/force/calculator/SurfaceFrictionCalculator.java:101-105 | appends the surface, with flag false and label UNKNOWN, and keeps the registry consistent |
| SurfaceFriction.SurfaceFrictionCalculator.AddAll | projects/client/jftk/src/main/java/jp/sagalab/jftk/force/calculator/SurfaceFrictionCalculator.java:111-115 | adds the surfaces in argument order: the list grows by them and exactly their flags become false and their labels UNKNOWN |
| SurfaceFriction.SurfaceFrictionCalculator.Remove | projects/client/jftk/src/main/java/jp/sagalab/jftk/force/calculator/SurfaceFrictionCalculator.java:121-125 | removes the first occurrence from the list and the key from both maps, keeping the map keys equal to the list contents |
| SurfaceFriction.SurfaceFrictionCalculator.RemoveAll | projects/client/jftk/src/main/java/jp/sagalab/jftk/force/calculator/SurfaceFrictionCalculator.java:130-134 | empties the list and both maps |
| SurfaceFriction.SurfaceFrictionCalculator.CurrentOf | projects/client/jftk/src/main/java/jp/sagalab/jftk/force/calculator/SurfaceFrictionCalculator.java:146-152 | without a curve the current point is the raw input |
| SurfaceFriction.SurfaceFrictionCalculator.PullNecessity | projects/client/jftk/src/main/java/jp/sagalab/jftk/force/calculator/SurfaceFrictionCalculator.java:204-206 | the force necessity of the pull towards a surface lies in [0, 1] |
| SurfaceFriction.SurfaceFrictionCalculator.Fragmentation | projects/client/jftk/src/main/java/jp/sagalab/jftk/force/calculator/SurfaceFrictionCalculator.java:173-192 | the loop's result is the surface state of the values: the start value of the last distance, then the minima over the earlier ones only when it is not 0 |
| SurfaceFriction.SurfaceFrictionCalculator.SampleInput | projects/client/jftk/src/main/java/jp/sagalab/jftk/force/calculator/SurfaceFrictionCalculator.java:138-144 | the buffer and the last sample time follow the same sample-and-prune rule as the axis calculator |
| SurfaceFriction.SurfaceFrictionCalculator.Relabel | projects/client/jftk/src/main/java/jp/sagalab/jftk/force/calculator/SurfaceFrictionCalculator.java:154-163 | the label of every registered surface becomes the fragmentation of its distances to the curve samples, and no key is added |
| SurfaceFriction.SurfaceFrictionCalculator.Refit | projects/client/jftk/src/main/java/jp/sagalab/jftk/force/calculator/SurfaceFrictionCalculator.java:146-164 | the curve is the one fitted to the buffer; without one the labels are kept, with one every surface is re-labelled and the current point is the curve's end |
| SurfaceFriction.SurfaceFrictionCalculator.ContributionLength | projects/client/jftk/src/main/java/jp/sagalab/jftk/force/calculator/SurfaceFrictionCalculator.java:204-225 | a surface that sticks after its step adds a force of length (1 - nec) times its distance |
| SurfaceFriction.SurfaceFrictionCalculator.StickContribution | projects/client/jftk/src/main/java/jp/sagalab/jftk/force/calculator/SurfaceFrictionCalculator.java:209-225 | a surface adds its pull scaled by 1 - nec when it sticks after the step and nothing when it releases or keeps slipping |
| SurfaceFriction.SurfaceFrictionCalculator.Step | projects/client/jftk/src/main/java/jp/sagalab/jftk/force/calculator/SurfaceFrictionCalculator.java:203-225 | one pass of the loop: the surface's flag becomes StepFlag, no other flag changes, and the added force is its contribution |
| SurfaceFriction.SurfaceFrictionCalculator.SteppedFlags | projects/client/jftk/src/main/java/jp/sagalab/jftk/force/calculator/SurfaceFrictionCalculator.java:202-226 | stepping distinct surfaces changes each of their flags once, from its value before the loop, and no other flag or key |
| SurfaceFriction.SurfaceFrictionCalculator.StepAll | projects/client/jftk/src/main/java/jp/sagalab/jftk/force/calculator/SurfaceFrictionCalculator.java:200-226 | every registered surface's flag is stepped from its value before the loop, and the sum is the composed force of the contributions in list order |
| SurfaceFriction.SurfaceFrictionCalculator.UpdateState | projects/client/jftk/src/main/java/jp/sagalab/jftk/force/calculator/SurfaceFrictionCalculator.java:199-228 | the flags as in StepAll, and the force is the composed force scaled by the stiffness |
| SurfaceFriction.SurfaceFrictionCalculator.Calculate | projects/client/jftk/src/main/java/jp/sagalab/jftk/force/calculator/SurfaceFrictionCalculator.java:136-166 | the whole tick: buffer update, curve, labels of every surface, the flags of the step and the composed force at the current point; the registry is unchanged |
| Partitions.EmptyParameters | projects/client/jftk/src/main/java/jp/sagalab/jftk/fragmentation/ellipticalarcs/PartitionParameters.java:17-19 | the empty list has size 0 and no indices |
| Partitions.Add | projects/client/jftk/src/main/java/jp/sagalab/jftk/fragmentation/ellipticalarcs/PartitionParameters.java:21-23 | a new cell has size one more than its predecessor and lists the predecessor's indices followed by the new one |
| Partitions.AddBuilt | projects/client/jftk/src/main/java/jp/sagalab/jftk/fragmentation/ellipticalarcs/PartitionParameters.java:45-49 | lists made by empty() and add keep each cell's size equal to its predecessor's plus one |
| Partitions.SizeIsLength | projects/client/jftk/src/main/java/jp/sagalab/jftk/fragmentation/ellipticalarcs/PartitionParameters.java:41-62 | for such lists the constant-time size equals the length of the index list |
| EllipticIdentification.AsElliptic | projects/client/jftk/src/main/java/jp/sagalab/jftk/fragmentation/ellipticalarcs/MemoizingEllipticIdentifier.java:40-47 | elliptic exactly when the type is neither free curve; the grade is 1 minus the larger of the closed free grade (0 when absent) and the open free grade |
| EllipticIdentification.IdentifyCurveIsThreshold | projects/client/jftk/src/main/java/jp/sagalab/jftk/fragmentation/ellipticalarcs/MemoizingEllipticIdentifier.java:40-47 | with the open recognizer a curve is elliptic exactly when its best reference possibility is at least 1/2, and its grade is that possibility capped at 1 |
| EllipticIdentification.MemoizingEllipticIdentifier.constructor | projects/client/jftk/src/main/java/jp/sagalab/jftk/fragmentation/ellipticalarcs/MemoizingEllipticIdentifier.java:33-38 | a table of size n by n, n the number of search parameters, with every entry empty |
| EllipticIdentification.MemoizingEllipticIdentifier.Identify | projects/client/jftk/src/main/java/jp/sagalab/jftk/fragmentation/ellipticalarcs/MemoizingEllipticIdentifier.java:49-52 | the answer is the identification of the sub-curve from ts[i] to ts[j]; it is cached in entry (i, j) and no other entry changes |
| EllipticIdentification.IdentifyTwice | projects/client/jftk/src/main/java/jp/sagalab/jftk/fragmentation/ellipticalarcs/MemoizingEllipticIdentifier.java:49-52 | the same pair asked twice, with any other pair asked in between, gives the same result |
| NonPartition.Round | projects/client/jftk/src/main/java/jp/sagalab/jftk/fragmentation/NonPartitionFragmentation.java:138 | Math.round gives the integer nearest x, halves rounding up: x lies in [r - 1/2, r + 1/2) |
| NonPartition.SearchCount | projects/client/jftk/src/main/java/jp/sagalab/jftk/fragmentation/NonPartitionFragmentation.java:138 | the number of search intervals is at least 1, and from 1.5 steps of 0.1 s up it is the range length over 0.1 s rounded to the nearest integer |
| NonPartition.GridPointIsStep | projects/client/jftk/src/main/java/jp/sagalab/jftk/fragmentation/NonPartitionFragmentation.java:143-147 | the interpolated point (1 - i/num) start + (i/num) end equals start plus i equal steps of (end - start)/num |
| NonPartition.GridEnds | projects/client/jftk/src/main/java/jp/sagalab/jftk/fragmentation/NonPartitionFragmentation.java:143-147 | the first grid point is the start of the range and the last is its end, exactly |
| NonPartition.GridMonotone | projects/client/jftk/src/main/java/jp/sagalab/jftk/fragmentation/NonPartitionFragmentation.java:143-147 | on a range with start <= end the grid points never decrease and stay inside the range |
| NonPartition.GridSequence | projects/client/jftk/src/main/java/jp/sagalab/jftk/fragmentation/NonPartitionFragmentation.java:136-150 | a full grid starts at start, ends at end, is evenly spaced, and is sorted within the range when start <= end |
| NonPartition.FillGrid | projects/client/jftk/src/main/java/jp/sagalab/jftk/fragmentation/NonPartitionFragmentation.java:139-147 | the filled array has num + 1 entries, entry k being grid point k |
| NonPartition.CalcSearchParameters | projects/client/jftk/src/main/java/jp/sagalab/jftk/fragmentation/NonPartitionFragmentation.java:136-150 | SearchCount + 1 evenly spaced parameters from the start of the curve's range to its end, sorted inside the range when start <= end |
| NonPartition.GetBestDividedParameters | projects/client/jftk/src/main/java/jp/sagalab/jftk/fragmentation/NonPartitionFragmentation.java:98-105 | the segmentation's result over the curve's sub-curves, with the same intervals and answer table: for a non-empty grid exactly BestDivided of the narrowed intervals (failures included), for two grid points no division when the sub-curve is elliptic and the null-answer failure otherwise; a success is the parameters at the split indices of the answer for the last index, without the leading 0 |
| NonPartition.SeparatorsSorted | projects/client/jftk/src/main/java/jp/sagalab/jftk/fragmentation/NonPartitionFragmentation.java:36-38 | the best parameters framed by the first and last search parameters form a sorted separator list |
| NonPartition.CoversChain | projects/client/jftk/src/main/java/jp/sagalab/jftk/fragmentation/NonPartitionFragmentation.java:39-42 | fragments spanning consecutive separators chain from the first separator to the last |
| NonPartition.FragmentsBetween | projects/client/jftk/src/main/java/jp/sagalab/jftk/fragmentation/NonPartitionFragmentation.java:36-42 | the loop over the separators builds exactly one fragment per consecutive pair, chaining from the start of the curve to its end and staying inside the range when start <= end |
| NonPartition.CreateFragment | projects/client/jftk/src/main/java/jp/sagalab/jftk/fragmentation/NonPartitionFragmentation.java:26-73 | the search parameters are SearchCount + 1 evenly spaced points over the range; it fails exactly when BestDivided of the narrowed intervals fails, with that error wrapped; on success the separators are the first search parameter, BestDivided's parameters and the last search parameter, fragment i spanning separators i to i + 1, so the fragments chain from start to end and are in range |
| NonPartition.Divide | projects/client/jftk/src/main/java/jp/sagalab/jftk/fragmentation/NonPartitionFragmentation.java:75-78 | division is unsupported and always fails with that error |
| NonPartition.CreateFragments | projects/client/jftk/src/main/java/jp/sagalab/jftk/fragmentation/NonPartitionFragmentation.java:115-126 | two fragments that chain from the start of the curve to its end and meet at the division parameter |
| Segmentation.LeftShapeAppend | projects/client/jftk/src/main/java/jp/sagalab/jftk/fragmentation/ellipticalarcs/EllipticalArcsSegmentation.java:108-115 | appending the cut i of an iteration, or n - 1 in the last one, keeps the cut list starting at 0, increasing and below n |
| Segmentation.LeftExtend | projects/client/jftk/src/main/java/jp/sagalab/jftk/fragmentation/ellipticalarcs/EllipticalArcsSegmentation.java:112 | an elliptic sub-curve from the last cut to i + 1 extends the current segment by one index without a cut |
| Segmentation.LeftCut | projects/client/jftk/src/main/java/jp/sagalab/jftk/fragmentation/ellipticalarcs/EllipticalArcsSegmentation.java:112-113 | a non-elliptic sub-curve from the last cut to i + 1 closes the segment at i, recording that the segment cannot reach i + 1 |
| Segmentation.LeftClose | projects/client/jftk/src/main/java/jp/sagalab/jftk/fragmentation/ellipticalarcs/EllipticalArcsSegmentation.java:109-110 | the last iteration closes the list with n - 1 |
| Segmentation.LeftDone | projects/client/jftk/src/main/java/jp/sagalab/jftk/fragmentation/ellipticalarcs/EllipticalArcsSegmentation.java:105-117 | after all n iterations the cuts have every property of the finished left-greedy list |
| Segmentation.LeftGreedyFromStart | projects/client/jftk/src/main/java/jp/sagalab/jftk/fragmentation/ellipticalarcs/EllipticalArcsSegmentation.java:105-117 | leftGreedyP(n): the cuts start at 0 and end at n - 1 (n >= 1), increase strictly after the first, every segment is elliptic from its start to every checked index up to its end, and every segment but the last fails one index further |
| Segmentation.RightExtend | projects/client/jftk/src/main/java/jp/sagalab/jftk/fragmentation/ellipticalarcs/EllipticalArcsSegmentation.java:152 | an elliptic sub-curve from i - 1 to the first cut extends the current segment downwards by one index |
| Segmentation.RightShift | projects/client/jftk/src/main/java/jp/sagalab/jftk/fragmentation/ellipticalarcs/EllipticalArcsSegmentation.java:153 | the segment facts of the list shift by one when a cut is put in front |
| Segmentation.RightCut | projects/client/jftk/src/main/java/jp/sagalab/jftk/fragmentation/ellipticalarcs/EllipticalArcsSegmentation.java:152-153 | a non-elliptic sub-curve from i - 1 to the first cut opens a segment at i, recording that it cannot reach i - 1 |
| Segmentation.RightClose | projects/client/jftk/src/main/java/jp/sagalab/jftk/fragmentation/ellipticalarcs/EllipticalArcsSegmentation.java:149-150 | the last iteration puts 0 in front |
| Segmentation.RightDone | projects/client/jftk/src/main/java/jp/sagalab/jftk/fragmentation/ellipticalarcs/EllipticalArcsSegmentation.java:145-157 | after the iteration for 0 the cuts have every property of the finished right-greedy list |
| Segmentation.RightGreedyFromEnd | projects/client/jftk/src/main/java/jp/sagalab/jftk/fragmentation/ellipticalarcs/EllipticalArcsSegmentation.java:145-157 | rightGreedyP(n): the cuts start at 0 (n >= 1) and end at n - 1, increase, every segment is elliptic to its end from every checked index, and every segment but the first fails from one index lower |
| Segmentation.RightFill | projects/client/jftk/src/main/java/jp/sagalab/jftk/fragmentation/ellipticalarcs/EllipticalArcsSegmentation.java:129-138 | filling slot ip with what the downward search below left cut ip found keeps every filled slot between its neighbouring left cuts and elliptic to the next right cut |
| Segmentation.RightFillFirst | projects/client/jftk/src/main/java/jp/sagalab/jftk/fragmentation/ellipticalarcs/EllipticalArcsSegmentation.java:140 | putting 0 in front completes the right cuts |
| Segmentation.RightGreedyFromLeft | projects/client/jftk/src/main/java/jp/sagalab/jftk/fragmentation/ellipticalarcs/EllipticalArcsSegmentation.java:125-143 | rightGreedyP(recognizer, ls): as many cuts as left cuts (two for a single one), from 0 to the last left cut, each right cut t with ls[t - 1] < rs[t] <= ls[t] + 1, the sub-curves from rs[t] .. ls[t] to the next right cut elliptic and the one from rs[t] - 1 not, unless the search ran out |
| Segmentation.LeftFind | projects/client/jftk/src/main/java/jp/sagalab/jftk/fragmentation/ellipticalarcs/EllipticalArcsSegmentation.java:169-178 | appending what the upward search above right cut ip found keeps every found cut between its neighbouring right cuts and elliptic from the previous left cut |
| Segmentation.LeftFindLast | projects/client/jftk/src/main/java/jp/sagalab/jftk/fragmentation/ellipticalarcs/EllipticalArcsSegmentation.java:180 | appending the last right cut completes the left cuts |
| Segmentation.LeftGreedyFromRight | projects/client/jftk/src/main/java/jp/sagalab/jftk/fragmentation/ellipticalarcs/EllipticalArcsSegmentation.java:165-182 | leftGreedyP(recognizer, rs): as many cuts as right cuts (two for a single one), from 0 to the last right cut, each left cut t with rs[t] - 1 <= ls[t] <= rs[t + 1] - 1, the sub-curves from the previous left cut to rs[t] .. ls[t] elliptic and the one to ls[t] + 1 not, unless the search ran out |
| Segmentation.Narrow | projects/client/jftk/src/main/java/jp/sagalab/jftk/fragmentation/ellipticalarcs/EllipticalArcsSegmentation.java:190-201 | zipWith: as many intervals as the shorter list, interval i being (rs[i], ls[i]) |
| Segmentation.NarrowBoth | projects/client/jftk/src/main/java/jp/sagalab/jftk/fragmentation/ellipticalarcs/EllipticalArcsSegmentation.java:209-220 | the intervals lie inside the indices, from (0, 0) to (n - 1, n - 1), at most one past empty, and are the zipped pairs of the left-first passes when they are strictly fewer and of the right-first passes otherwise, each pass having the properties of its greedy method |
| Segmentation.CeilHalf | projects/client/jftk/src/main/java/jp/sagalab/jftk/fragmentation/ellipticalarcs/EllipticalArcsSegmentation.java:89 | (int) Math.ceil(d / 2.0): the least h with d <= 2h |
| Segmentation.CalcMu | projects/client/jftk/src/main/java/jp/sagalab/jftk/fragmentation/ellipticalarcs/EllipticalArcsSegmentation.java:74-83 | 0 outside the interval; inside it a missing answer or index is an error, and otherwise the value is the smaller of the sub-curve grade and the answer grade when the sub-curve from k to j is elliptic, negative infinity when it is not |
| Segmentation.Step | projects/client/jftk/src/main/java/jp/sagalab/jftk/fragmentation/ellipticalarcs/EllipticalArcsSegmentation.java:89-101 | a round from a < b narrows the interval strictly without leaving it, and a non-elliptic probe k moves a to k + 1 |
| Segmentation.Search | projects/client/jftk/src/main/java/jp/sagalab/jftk/fragmentation/ellipticalarcs/EllipticalArcsSegmentation.java:85-102 | the corrected bisection: started inside the interval it returns an index in the interval or one past its end |
| Segmentation.PastEndReturnsNext | projects/client/jftk/src/main/java/jp/sagalab/jftk/fragmentation/ellipticalarcs/EllipticalArcsSegmentation.java:85-88 | once a has passed b by one or two, a return from the loop as written can only be b + 1 |
| Segmentation.SearchAgrees | projects/client/jftk/src/main/java/jp/sagalab/jftk/fragmentation/ellipticalarcs/EllipticalArcsSegmentation.java:72-103 | whenever the loop as written returns, the corrected search returns the same index |
| Segmentation.StuckAtThree | projects/client/jftk/src/main/java/jp/sagalab/jftk/fragmentation/ellipticalarcs/EllipticalArcsSegmentation.java:85-92 | from a = 3, b = 1 on the hanging input the loop as written is still running after any number of rounds |
| Segmentation.AsWrittenNeverReturns | projects/client/jftk/src/main/java/jp/sagalab/jftk/fragmentation/ellipticalarcs/EllipticalArcsSegmentation.java:85-92 | on the hanging input from (0, 1) the loop as written never returns, while the corrected search returns 2 |
| Segmentation.CalcMuj | projects/client/jftk/src/main/java/jp/sagalab/jftk/fragmentation/ellipticalarcs/EllipticalArcsSegmentation.java:74-83 | the method computing calcMuj through the memoizing identifier gives exactly CalcMu |
| Segmentation.BisectionRound | projects/client/jftk/src/main/java/jp/sagalab/jftk/fragmentation/ellipticalarcs/EllipticalArcsSegmentation.java:89-101 | one round through the memoizing identifier gives exactly Step |
| Segmentation.ArgMaxBisection | projects/client/jftk/src/main/java/jp/sagalab/jftk/fragmentation/ellipticalarcs/EllipticalArcsSegmentation.java:72-103 | argMaxBisection through the memoizing identifier gives exactly the corrected Search over the interval |
| Segmentation.ShapeExtend | projects/client/jftk/src/main/java/jp/sagalab/jftk/fragmentation/ellipticalarcs/EllipticalArcsSegmentation.java:61 | adding the split k to the splits of the answer for k gives valid splits for a later index |
| Segmentation.AppendAnswer | projects/client/jftk/src/main/java/jp/sagalab/jftk/fragmentation/ellipticalarcs/EllipticalArcsSegmentation.java:60-62 | appending the answer chained to k keeps the answer table: its grade is the smaller of k's grade and the sub-curve grade from k to j, its splits are k's followed by k |
| Segmentation.AppendNull | projects/client/jftk/src/main/java/jp/sagalab/jftk/fragmentation/ellipticalarcs/EllipticalArcsSegmentation.java:64-66 | appending null keeps the answer table |
| Segmentation.ChainTo | projects/client/jftk/src/main/java/jp/sagalab/jftk/fragmentation/ellipticalarcs/EllipticalArcsSegmentation.java:56-62 | a successful chaining step found k by the bisection over the previous interval, k lies in that interval and has an answer, and the new answer is the one chained to k |
| Segmentation.ChainIllegalState | projects/client/jftk/src/main/java/jp/sagalab/jftk/fragmentation/ellipticalarcs/EllipticalArcsSegmentation.java:56-58 | the step fails with IllegalState exactly when the bisection returns one past the end of the interval |
| Segmentation.Extend | projects/client/jftk/src/main/java/jp/sagalab/jftk/fragmentation/ellipticalarcs/EllipticalArcsSegmentation.java:50-67 | one iteration for index j: the narrowed index advances when the next interval starts at j, a missing next interval is the index error; the entry is an answer exactly when j is inside the current interval, and then it is the one ChainTo gives over the previous interval; otherwise null |
| Segmentation.ExtendKeepsTable | projects/client/jftk/src/main/java/jp/sagalab/jftk/fragmentation/ellipticalarcs/EllipticalArcsSegmentation.java:50-67 | a successful iteration keeps the answer table |
| Segmentation.ExtendIllegalState | projects/client/jftk/src/main/java/jp/sagalab/jftk/fragmentation/ellipticalarcs/EllipticalArcsSegmentation.java:55-58 | an iteration fails with IllegalState exactly when j lies in the current interval and the bisection over the previous one returns one past its end |
| Segmentation.BuildFrom | projects/client/jftk/src/main/java/jp/sagalab/jftk/fragmentation/ellipticalarcs/EllipticalArcsSegmentation.java:50-67 | the remaining iterations, on success, extend the table to one entry per search parameter and keep it an answer table |
| Segmentation.BuildFailsAtStep | projects/client/jftk/src/main/java/jp/sagalab/jftk/fragmentation/ellipticalarcs/EllipticalArcsSegmentation.java:50-67 | a failed build is the failure of one iteration from some intermediate answer table, with the same error |
| Segmentation.ChainAnswer | projects/client/jftk/src/main/java/jp/sagalab/jftk/fragmentation/ellipticalarcs/EllipticalArcsSegmentation.java:56-62 | the chaining step through the memoizing identifier gives exactly ChainTo |
| Segmentation.Iterate | projects/client/jftk/src/main/java/jp/sagalab/jftk/fragmentation/ellipticalarcs/EllipticalArcsSegmentation.java:51-66 | one iteration through the memoizing identifier gives exactly Extend |
| Segmentation.BuildAnswers | projects/client/jftk/src/main/java/jp/sagalab/jftk/fragmentation/ellipticalarcs/EllipticalArcsSegmentation.java:46-67 | the loop computes exactly Build: every failure of an iteration (IllegalState for k outside the previous interval, index errors, a null answer at k) is returned as it arises, and a finished table has one entry per search parameter, starts with grade 1 and no splits, and chains every answer to an earlier one |
| Segmentation.ParametersAfterFirst | projects/client/jftk/src/main/java/jp/sagalab/jftk/fragmentation/ellipticalarcs/EllipticalArcsSegmentation.java:69 | the loop collects exactly the parameters at the split indices, skipping the first |
| Segmentation.NarrowAndBuild | projects/client/jftk/src/main/java/jp/sagalab/jftk/fragmentation/ellipticalarcs/EllipticalArcsSegmentation.java:44-65 | narrows as NarrowBoth states and then computes exactly Build over those intervals; for one search parameter the table is the single answer (1, no splits), and a built table is an answer table |
| Segmentation.ReadBest | projects/client/jftk/src/main/java/jp/sagalab/jftk/fragmentation/ellipticalarcs/EllipticalArcsSegmentation.java:69 | fails with the null-answer error exactly when the answer for the last index is null; otherwise returns the parameters at its split indices after the first, which lie at strictly increasing interior indices |
| Segmentation.BestDivided | projects/client/jftk/src/main/java/jp/sagalab/jftk/fragmentation/ellipticalarcs/EllipticalArcsSegmentation.java:46-69 | fails exactly when the build fails or the answer for the last index is null, the latter with the null-answer error |
| Segmentation.ReadIsBestDivided | projects/client/jftk/src/main/java/jp/sagalab/jftk/fragmentation/ellipticalarcs/EllipticalArcsSegmentation.java:69 | reading off the last answer of a built table is exactly BestDivided |
| Segmentation.BestDividedReadsLast | projects/client/jftk/src/main/java/jp/sagalab/jftk/fragmentation/ellipticalarcs/EllipticalArcsSegmentation.java:69 | for a built table a null last answer is the null-answer failure, and a success is the parameters at the split indices of the last answer, at strictly increasing interior indices |
| Segmentation.TwoLeftCuts | projects/client/jftk/src/main/java/jp/sagalab/jftk/fragmentation/ellipticalarcs/EllipticalArcsSegmentation.java:105-117 | for two search parameters leftGreedyP gives [0, 1] when the sub-curve is elliptic and [0, 0, 1] otherwise |
| Segmentation.TwoRightCuts | projects/client/jftk/src/main/java/jp/sagalab/jftk/fragmentation/ellipticalarcs/EllipticalArcsSegmentation.java:145-157 | for two search parameters rightGreedyP gives [0, 1] when the sub-curve is elliptic and [0, 1, 1] otherwise |
| Segmentation.TwoIntervals | projects/client/jftk/src/main/java/jp/sagalab/jftk/fragmentation/ellipticalarcs/EllipticalArcsSegmentation.java:209-220 | for two search parameters the narrowed intervals are (0, 0), (1, 1) when the sub-curve is elliptic and (0, 0), (1, 0), (1, 1) otherwise |
| Segmentation.TwoElliptic | projects/client/jftk/src/main/java/jp/sagalab/jftk/fragmentation/ellipticalarcs/EllipticalArcsSegmentation.java:46-67 | over (0, 0), (1, 1) the table is the start answer and the answer split at 0 |
| Segmentation.TwoNotElliptic | projects/client/jftk/src/main/java/jp/sagalab/jftk/fragmentation/ellipticalarcs/EllipticalArcsSegmentation.java:46-67 | over (0, 0), (1, 0), (1, 1) the answer for index 1 is null |
| Segmentation.TwoParameters | projects/client/jftk/src/main/java/jp/sagalab/jftk/fragmentation/ellipticalarcs/EllipticalArcsSegmentation.java:40-70 | for two search parameters the result is no division when the sub-curve is elliptic and the null-answer failure otherwise |
| Segmentation.SearchBest | projects/client/jftk/src/main/java/jp/sagalab/jftk/fragmentation/ellipticalarcs/EllipticalArcsSegmentation.java:44-69 | narrowing, building and reading the last answer give exactly BestDivided, with the table Build gives and the one- and two-parameter cases |
| Segmentation.GetBestDividedParameters | projects/client/jftk/src/main/java/jp/sagalab/jftk/fragmentation/ellipticalarcs/EllipticalArcsSegmentation.java:40-70 | no parameters raises the index error; otherwise the result is exactly BestDivided over the narrowed intervals (failures included) and the table built is Build's; one parameter gives no division, two give no division when the sub-curve is elliptic and the null-answer failure otherwise; a success is the parameters at the split indices of the answer for the last index with the leading 0 dropped, none of them the first or last search parameter |
| OpenRecognition.DefaultRecognizer | projects/client/jftk/src/main/java/jp/sagalab/jftk/recognition/OpenRecognizer.java:34-41 | the default recognizer evaluates with 30 points and floors circular weights at -0.999, a weight strictly between -1 and 0 |
| OpenRecognition.OpenGrades | projects/client/jftk/src/main/java/jp/sagalab/jftk/recognition/OpenRecognizer.java:252-256 | grades for exactly the four open classes, the line graded by its possibility |
| OpenRecognition.OpenGradesInUnitInterval | projects/client/jftk/src/main/java/jp/sagalab/jftk/recognition/OpenRecognizer.java:252-256 | possibilities in [0, 1] give grades in [0, 1] |
| OpenRecognition.OpenGradesExclusive | projects/client/jftk/src/main/java/jp/sagalab/jftk/recognition/OpenRecognizer.java:252-256 | any two of the four classes have grades adding up to at most 1, so at most one class is graded above 1/2 |
| OpenRecognition.OpenType | projects/client/jftk/src/main/java/jp/sagalab/jftk/recognition/OpenRecognizer.java:258-261 | the reported class is one of the four open classes, has the highest grade, and among equal grades is the one declared first |
| OpenRecognition.Recognize | projects/client/jftk/src/main/java/jp/sagalab/jftk/recognition/OpenRecognizer.java:243-282 | the result carries the four grades, a class of highest grade that is declared first among equal grades, and the rough curve of that class: the linear reference for a line, the circular or elliptic reference (open, general n/4 class) for an arc, the input curve (open) otherwise |
| OpenRecognition.TieGoesToLine | projects/client/jftk/src/main/java/jp/sagalab/jftk/recognition/OpenRecognizer.java:258-261 | with pL = 0.5 and pC = 1 the line and the circular arc tie at 0.5 and the line is reported |
| OpenRecognition.RecognizeReferences | projects/client/jftk/src/main/java/jp/sagalab/jftk/recognition/OpenRecognizer.java:243-250 | recognize fails with a null pointer exactly when every candidate weight is NaN, and otherwise is Recognize with the possibility of the first candidate of highest possibility |
| OpenRecognition.CircularWeight | projects/client/jftk/src/main/java/jp/sagalab/jftk/recognition/OpenRecognizer.java:311-319 | the weight (L2 - H2) / (L2 + H2), with 0 for the NaN of 0 / 0, is never below the minimum weight |
| OpenRecognition.CircularWeightRange | projects/client/jftk/src/main/java/jp/sagalab/jftk/recognition/OpenRecognizer.java:311-319 | the circular weight lies between the minimum weight and 1, and is 1 when the height is zero |
| OpenRecognition.Quotient | projects/client/jftk/src/main/java/jp/sagalab/jftk/recognition/OpenRecognizer.java:227 | IEEE division: the real quotient for a non-zero divisor, NaN exactly for 0 / 0 |
| OpenRecognition.Clamp | projects/client/jftk/src/main/java/jp/sagalab/jftk/recognition/OpenRecognizer.java:229-231 | NaN stays NaN; every other weight ends in [-0.999, 0.999], a weight already there unchanged |
| OpenRecognition.MaxDouble | projects/client/jftk/src/main/java/jp/sagalab/jftk/recognition/OpenRecognizer.java:238 | Math.max: NaN if either argument is NaN, otherwise the larger number |
| OpenRecognition.CandidateWeight | projects/client/jftk/src/main/java/jp/sagalab/jftk/recognition/OpenRecognizer.java:220-231 | the candidate weight is a number or NaN, never an infinity |
| OpenRecognition.WeightAt | projects/client/jftk/src/main/java/jp/sagalab/jftk/recognition/OpenRecognizer.java:203-233 | the weight of a segment is NaN or a number in [-0.999, 0.999] |
| OpenRecognition.CalculateBestWeight | projects/client/jftk/src/main/java/jp/sagalab/jftk/recognition/OpenRecognizer.java:194-240 | three weights: those of the two middle segments and the larger of the two outer ones, each NaN or in [-0.999, 0.999] |
| OpenRecognition.BestWeightAbsent | projects/client/jftk/src/main/java/jp/sagalab/jftk/recognition/OpenRecognizer.java:325-344 | no weight is kept (the reference is null) exactly when every candidate weight is NaN |
| OpenRecognition.BestWeightIsFirstMaximum | projects/client/jftk/src/main/java/jp/sagalab/jftk/recognition/OpenRecognizer.java:328-342 | the kept weight is the first candidate whose model has the highest possibility among the non-NaN candidates |
| OpenRecognition.CreateEllipticReference | projects/client/jftk/src/main/java/jp/sagalab/jftk/recognition/OpenRecognizer.java:322-345 | the loop keeps exactly the weight of BestWeight |
| OpenRecognition.BisectingRatio | projects/client/jftk/src/main/java/jp/sagalab/jftk/recognition/OpenRecognizer.java:129-153 | no division for an empty parallelogram, otherwise two ratios that add up to 1 |
| OpenRecognition.BisectingRatioBalances | projects/client/jftk/src/main/java/jp/sagalab/jftk/recognition/OpenRecognizer.java:129-153 | the division point splits the area so that both sides are equal |
| PrimitiveRecognizer.Calculate7CurveGrade | projects/client/jftk/src/main/java/jp/sagalab/jftk/recognition/PrimitiveCurveRecognizer.java:203-230 | grades for exactly the seven classes other than POINT, the line graded by its possibility |
| PrimitiveRecognizer.NonLinearGradesBelowNotLine | projects/client/jftk/src/main/java/jp/sagalab/jftk/recognition/PrimitiveCurveRecognizer.java:209-227 | every class but the line is graded at most 1 - l |
| PrimitiveRecognizer.ClosedOpenPairs | projects/client/jftk/src/main/java/jp/sagalab/jftk/recognition/PrimitiveCurveRecognizer.java:212-227 | each closed class graded with 1 - cl equals its open counterpart graded with cl |
| PrimitiveRecognizer.SevenGradesInUnitInterval | projects/client/jftk/src/main/java/jp/sagalab/jftk/recognition/PrimitiveCurveRecognizer.java:203-230 | possibilities in [0, 1] give grades in [0, 1] |
| PrimitiveRecognizer.SelectedIsTop | projects/client/jftk/src/main/java/jp/sagalab/jftk/recognition/PrimitiveCurveRecognizer.java:67-78 | the selected class is one of the seven, never POINT, has the highest grade and ranks before every other class (higher grade, or equal grade and earlier declaration) |
| PrimitiveRecognizer.InitialResult | projects/client/jftk/src/main/java/jp/sagalab/jftk/recognition/PrimitiveCurveRecognizer.java:80-105 | the result of the switch has the selected class and the seven grades |
| PrimitiveRecognizer.CalculateSubcurveGrade | projects/client/jftk/src/main/java/jp/sagalab/jftk/recognition/PrimitiveCurveRecognizer.java:232-263 | grades for the four n/4 classes: quarter, half and three quarters by their rules on the possibilities |
| PrimitiveRecognizer.GeneralIsMinimum | projects/client/jftk/src/main/java/jp/sagalab/jftk/recognition/PrimitiveCurveRecognizer.java:257-260 | the GENERAL grade is the smallest of the three general rule outputs on the necessities |
| PrimitiveRecognizer.BestIsMaximal | projects/client/jftk/src/main/java/jp/sagalab/jftk/recognition/PrimitiveCurveRecognizer.java:164-165 | the first of the sorted n/4 classes has the highest grade |
| PrimitiveRecognizer.RecognizeNQuartersType | projects/client/jftk/src/main/java/jp/sagalab/jftk/recognition/PrimitiveCurveRecognizer.java:138-191 | no result (null) exactly for POINT; non-arcs come back unchanged; the class and the grades are always kept |
| PrimitiveRecognizer.ArcRefinement | projects/client/jftk/src/main/java/jp/sagalab/jftk/recognition/PrimitiveCurveRecognizer.java:163-187 | an arc keeps its result when GENERAL ranks first, and otherwise gets the reduction model of the winning n/4 class |
| PrimitiveRecognizer.RecognizeResult | projects/client/jftk/src/main/java/jp/sagalab/jftk/recognition/PrimitiveCurveRecognizer.java:49-108 | recognize always gives a result, of the selected class, never POINT, of highest grade, with the seven grades |
| Recognition.And2 | projects/client/jftk/src/main/java/jp/sagalab/jftk/recognition/PrimitiveCurveRecognizer.java:316-318 | the smaller of the two |
| Recognition.And3 | projects/client/jftk/src/main/java/jp/sagalab/jftk/recognition/PrimitiveCurveRecognizer.java:320-322 | the smallest of the three |
| Recognition.And4 | projects/client/jftk/src/main/java/jp/sagalab/jftk/recognition/PrimitiveCurveRecognizer.java:324-326 | the smallest of the four |
| Recognition.Compare | projects/client/jftk/src/main/java/jp/sagalab/jftk/recognition/PrimitiveCurveRecognizer.java:265-285 | negative exactly when the first class ranks before the second, zero exactly for equal grade and the same class |
| Recognition.CompareAntisymmetric | projects/client/jftk/src/main/java/jp/sagalab/jftk/recognition/PrimitiveCurveRecognizer.java:265-285 | a ranks before b exactly when b ranks after a |
| Recognition.PrecedesTransitive | projects/client/jftk/src/main/java/jp/sagalab/jftk/recognition/PrimitiveCurveRecognizer.java:265-285 | the ranking is transitive |
| Recognition.Top | projects/client/jftk/src/main/java/jp/sagalab/jftk/recognition/PrimitiveCurveRecognizer.java:282-284 | the first of the sorted list is a candidate and ranks before every other candidate |
| Recognition.TopIsMaximal | projects/client/jftk/src/main/java/jp/sagalab/jftk/recognition/PrimitiveCurveRecognizer.java:282-284 | the first of the sorted list has the highest grade |
| Recognition.Without | projects/client/jftk/src/main/java/jp/sagalab/jftk/recognition/PrimitiveCurveRecognizer.java:73-78 | the list without x: exactly the other members, shorter when x was in it |
| Menus.FirstSelected | projects/client/SimpleViewer/src/jp/ac/muroran_it/csse/simple_viewer/Menu.java:128-132 | the position of the first selected child, no earlier child selected, and none exactly when no child is selected |
| Menus.MenuTree.Create | projects/client/SimpleViewer/src/jp/ac/muroran_it/csse/simple_viewer/Menu.java:60-98 | the five menus, rootMenu with menu1 and menu2, menu2 with subMenu21 and subMenu22, linked as siblings in that order, only the root selected, the two sub-menus setting the teapot blue and red, and the root's selected menu is the root |
| Menus.MenuTree.CreateTopEntries | projects/client/SimpleViewer/src/jp/ac/muroran_it/csse/simple_viewer/Menu.java:61-64 | rootMenu (selected), menu1 and menu2, unlinked and without actions |
| Menus.MenuTree.CreateSubEntries | projects/client/SimpleViewer/src/jp/ac/muroran_it/csse/simple_viewer/Menu.java:65-90 | subMenu21 and subMenu22 appended unselected and unlinked, with the blue and red actions |
| Menus.MenuTree.LinkEntries | projects/client/SimpleViewer/src/jp/ac/muroran_it/csse/simple_viewer/Menu.java:92-95 | the four addMenu calls give the children lists, the parents and the two sibling links |
| Menus.MenuTree.NewMenu | projects/client/SimpleViewer/src/jp/ac/muroran_it/csse/simple_viewer/Menu.java:49-51 | a new unselected, unlinked menu without an action is appended with the given name |
| Menus.MenuTree.AddMenu | projects/client/SimpleViewer/src/jp/ac/muroran_it/csse/simple_viewer/Menu.java:105-118 | the child is appended to the parent's children and gets the parent as its parent; when the parent had children, the child and the former last child become each other's previous and next menu; nothing else changes |
| Menus.MenuTree.SelectedMenu | projects/client/SimpleViewer/src/jp/ac/muroran_it/csse/simple_viewer/Menu.java:126-134 | the deepest selected menu: m itself or a selected descendant, with no selected child, and reachable by navigation from a root |
| Menus.MenuTree.GetSelectedMenu | projects/client/SimpleViewer/src/jp/ac/muroran_it/csse/simple_viewer/Menu.java:126-134 | the loop returns exactly SelectedMenu |
| Menus.MenuTree.SiblingsOf | projects/client/SimpleViewer/src/jp/ac/muroran_it/csse/simple_viewer/Menu.java:105-118 | a child sits in its parent's children list, its next menu right after it and its previous menu right before it |
| Menus.MenuTree.LinkedHasParent | projects/client/SimpleViewer/src/jp/ac/muroran_it/csse/simple_viewer/Menu.java:112-116 | only a menu with a parent has sibling links |
| Menus.MenuTree.MoveKeepsOneSelected | projects/client/SimpleViewer/src/jp/ac/muroran_it/csse/simple_viewer/Menu.java:141-158 | moving the selection from one child to a sibling keeps at most one selected child per menu |
| Menus.MenuTree.SiblingLinksInverse | projects/client/SimpleViewer/src/jp/ac/muroran_it/csse/simple_viewer/Menu.java:113-116 | the next menu's previous menu is the menu itself, and the other way round |
| Menus.MenuTree.GoPreviousMenu | projects/client/SimpleViewer/src/jp/ac/muroran_it/csse/simple_viewer/Menu.java:141-146 | with a previous menu, the menu is deselected and the previous one selected; otherwise nothing changes; at most one selected child per menu is kept |
| Menus.MenuTree.GoNextMenu | projects/client/SimpleViewer/src/jp/ac/muroran_it/csse/simple_viewer/Menu.java:153-158 | with a next menu, the menu is deselected and the next one selected; otherwise nothing changes; at most one selected child per menu is kept |
| Menus.MenuTree.GoSubMenu | projects/client/SimpleViewer/src/jp/ac/muroran_it/csse/simple_viewer/Menu.java:164-168 | with children, the first child is selected and nothing else changes; otherwise nothing changes |
| Menus.MenuTree.GoSuperMenu | projects/client/SimpleViewer/src/jp/ac/muroran_it/csse/simple_viewer/Menu.java:174-178 | with a parent, the menu is deselected and nothing else changes; a root stays as it is |
| Menus.MenuTree.DoMenuAction | projects/client/SimpleViewer/src/jp/ac/muroran_it/csse/simple_viewer/Menu.java:209-213 | a menu with an action sets the teapot colour to its colour; one without leaves it unchanged |
| Menus.NextThenPrevious | projects/client/SimpleViewer/src/jp/ac/muroran_it/csse/simple_viewer/Menu.java:141-158 | going to the next menu and back restores the selection |
| Menus.SubThenSuper | projects/client/SimpleViewer/src/jp/ac/muroran_it/csse/simple_viewer/Menu.java:164-178 | going to the first child and back up restores the selection |
| ClientModel.StepBack | projects/client/HapticsClient/src/main/java/jp/sagalab/model/AppModel.java:242 | max(r - 5, -90): never below -90, at most one step down, never above r (or -90) |
| ClientModel.StepForward | projects/client/HapticsClient/src/main/java/jp/sagalab/model/AppModel.java:246 | min(r + 5, 90): never above 90, at most one step up, never below r (or 90) |
| ClientModel.StepsKeepRange | projects/client/HapticsClient/src/main/java/jp/sagalab/model/AppModel.java:241-255 | an angle in [-90, 90] stays in [-90, 90] under either step |
| ClientModel.StepsUndo | projects/client/HapticsClient/src/main/java/jp/sagalab/model/AppModel.java:241-255 | away from the limits a step back and a step forward undo each other; at the lower limit a step back then forward ends one step above -90 |
| ClientModel.Sampled | projects/client/HapticsClient/src/main/java/jp/sagalab/model/AppModel.java:185-194 | the point is appended exactly when the trail is empty or the last point is more than 0.03 s older; otherwise the trail is unchanged |
| ClientModel.SampledKeepsSpacing | projects/client/HapticsClient/src/main/java/jp/sagalab/model/AppModel.java:185-194 | sampling keeps consecutive trail points more than 0.03 s apart |
| ClientModel.InitialSphere | projects/client/HapticsClient/src/main/java/jp/sagalab/model/AppModel.java:39 | the initial sphere, centre (0.05, 0, 0.1) and radius 0.05, is a valid surface |
| ClientModel.AppModel.constructor | projects/client/HapticsClient/src/main/java/jp/sagalab/model/AppModel.java:34-57 | all flags false, buttons released, trails empty, no curve point, stylus at the origin with zero force and zero angles; with a surface calculator the scene is the initial sphere, registered in the calculator |
| ClientModel.AppModel.RegisterScene | projects/client/HapticsClient/src/main/java/jp/sagalab/model/AppModel.java:36-56 | the initial sphere (centre (0.05, 0, 0.1), radius 0.05) is the scene and is appended to the calculator's surfaces with flag false and label UNKNOWN |
| ClientModel.AppModel.GetSurfaceFlags | projects/client/HapticsClient/src/main/java/jp/sagalab/model/AppModel.java:148-154 | null when force calculation is off; a class-cast failure with an axis calculator; the surface calculator's flags otherwise |
| ClientModel.AppModel.SetEnableForceCalculation | projects/client/HapticsClient/src/main/java/jp/sagalab/model/AppModel.java:156-166 | disabling clears the axis flags and the curve point and archives the trail as recorded with force; enabling archives it as recorded without force; the trail is emptied either way |
| ClientModel.AppModel.Forward | projects/client/HapticsClient/src/main/java/jp/sagalab/model/AppModel.java:176 | the calculator's answer: per axis the stick/slip force towards the anchor for an axis calculator, the stiffness times the composed pull of the sticking surfaces for a surface calculator |
| ClientModel.AppModel.Broadcast | projects/client/HapticsClient/src/main/java/jp/sagalab/model/AppModel.java:175-183 | with force calculation on, exactly one request, the calculator's force; with it off, one zero-force request only if the last reported force was not zero |
| ClientModel.AppModel.Record | projects/client/HapticsClient/src/main/java/jp/sagalab/model/AppModel.java:185-211 | the trail is sampled while button 1 is held; with force calculation on, an axis calculator's flags are copied and the end of the calculator's fitted curve, when there is one, becomes the last curve point, leaving the calculator untouched |
| ClientModel.AppModel.SetHapticsPosition | projects/client/HapticsClient/src/main/java/jp/sagalab/model/AppModel.java:172-212 | the new stylus position, the force request of Broadcast and the trail, flags and curve point of Record, and nothing else |
| ClientModel.AppModel.SetHapticsForce | projects/client/HapticsClient/src/main/java/jp/sagalab/model/AppModel.java:214-216 | the reported force is (x, y, z) |
| ClientModel.AppModel.SetHapticsButton1Pressed | projects/client/HapticsClient/src/main/java/jp/sagalab/model/AppModel.java:218-229 | pressing empties the trail; releasing archives the trail as recorded with or without force, according to the force setting |
| ClientModel.AppModel.ClearPoints | projects/client/HapticsClient/src/main/java/jp/sagalab/model/AppModel.java:235-239 | both archives and the trail are empty |
| ClientModel.AppModel.Up | projects/client/HapticsClient/src/main/java/jp/sagalab/model/AppModel.java:241-243 | rx steps back |
| ClientModel.AppModel.Down | projects/client/HapticsClient/src/main/java/jp/sagalab/model/AppModel.java:245-247 | rx steps forward |
| ClientModel.AppModel.Left | projects/client/HapticsClient/src/main/java/jp/sagalab/model/AppModel.java:249-251 | ry steps back |
| ClientModel.AppModel.Right | projects/client/HapticsClient/src/main/java/jp/sagalab/model/AppModel.java:253-255 | ry steps forward |
| ClientModel.AppModel.SetAngle | projects/client/HapticsClient/src/main/java/jp/sagalab/model/AppModel.java:257-261 | the three angles are the ones given |
| Curves.CreatorFor | projects/client/jftk/src/main/java/jp/sagalab/jftk/force/calculator/AxisFrictionCalculator.java:70 | the creator made for a curve time length fits cubic curves over that time length |
| Curves.CreateFBC | projects/client/jftk/src/main/java/jp/sagalab/jftk/force/calculator/AxisFrictionCalculator.java:117 | no curve (null) while there are no more points than the degree; otherwise the library's fit of the points |
| Curves.EvaluateAll | projects/client/jftk/src/main/java/jp/sagalab/jftk/force/calculator/AxisFrictionCalculator.java:121 | num + 1 sample points, point i being the library's evaluation at step i of num |
| Curves.EvaluateAllNonNegative | projects/client/jftk/src/main/java/jp/sagalab/jftk/force/calculator/AxisFrictionCalculator.java:121 | with a library whose samples have non-negative fuzziness, every sample has non-negative fuzziness |
| Curves.SampleCount | projects/client/jftk/src/main/java/jp/sagalab/jftk/force/calculator/AxisFrictionCalculator.java:120 | (int) of the quotient: never above the largest int, and below it the quotient truncated |

## Left out

- Rendering, windowing, device transport, calibration, timers and event wiring are not part of this model, and neither are the trigonometric space-state classes. `SimpleVRSpaceState` is not part of this model either: a menu action is modelled by its effect, the teapot colour it sets.
- Console output (`System.out.println` in the calculators and the recognizer), `AppModel.savePoints` (file output), and `randomCircle`/`randomline` (`java.util.Random`).
- `Plane.transform` and `Sphere.transform`: `TransformMatrix` is not part of this model.
- Fuzzy Bezier curve fitting, NNLS and curve sampling: taken as a `CurveLibrary` parameter. The model assumes only what the calculators rely on: no curve for at most `degree` points, and `num + 1` samples.
- Recognizer reference-curve geometry: curve evaluation, `part`, plane intersection, inclusion of curves, and the sigmoid rules. The possibilities, truth values, rule outputs and candidate aid points are inputs.
- `getBisectingPoint`: only its last step, the ratio of the internal division, is modelled (`BisectingRatio`). The binary search for the straddling parallelogram and the area sums are left out, because they work on geometry that is an input here.
- Geometry.Normalize: `Vector.java` is not part of this model. `normalize` is taken to return the zero vector for the zero vector, which is the reading under which the zero-length test of `Plane.create` (`1 / normal.length()` infinite, Plane.java:13-14) can fire. The model therefore rejects a zero normal with `ZeroNormal` and gives the zero vector as `Sphere.normal` at the centre; if `normalize` divided by a zero length instead, Java would build a plane with NaN components and return a NaN normal at the centre, which the model does not capture. The model's test compares the squared length with 0, which agrees with the Java test for real numbers but not for IEEE subnormals.
- The calculators' division by zero fuzziness (`calcForceNecessity` when the fuzziness is 0 and the vertex equals the threshold; the surface fragmentation with a zero-fuzziness sample): excluded by preconditions. Every other infinite clamp is modelled.
- SurfaceFriction.SurfaceFrictionCalculator.Add: requires the surface not to be registered yet (and `AddAll` a duplicate-free list of new surfaces). Surfaces are values here, compared by their fields, while `Plane` and `Sphere` define no `equals` or `hashCode`, so the Java list and hash maps compare them by identity. The model therefore cannot register two distinct surfaces with the same base and normal or radius, which Java can; and it does not model adding the same object twice, which Java lists twice in `surfaces` but once in the maps, so that after `remove` the next update unboxes a null flag. `Remove` removes the first value-equal surface, which for a duplicate-free registry is the same surface Java's identity-based `remove` finds.
- `SurfaceFrictionCalculator.getFlags` returns the live map and `getSurfaces` returns a copy. The model returns values, so the aliasing of the live map is not modelled.
- Concurrency between the receive thread and the views: the model is sequential.
- `AppModel`'s view updaters and `requestPaint` are left out. Force updaters are a log of requests (`forceRequests`), and the stylus-force test `hapticsForce.length() != 0` is modelled as "the vector is not zero".
- `setHapticsButton2Pressed` and the plain getters of `AppModel` are left out; they only read or store one field.
- `Menu.isSelected`, `getSubMenus` and `getMenuName` are left out; they are read directly as fields of the arena.
- `Menus.MenuTree.AddMenu` requires the child to be an unattached entry numbered after its parent, which is how `create` uses it. The copy loop of the array becomes a sequence append.
- `LinkedList`/`ArrayList` results are sequences. `Range` and `IdentificationFragment` are pairs of parameters.
- AxisFriction.AxisFrictionCalculator.Calculate, SurfaceFriction.SurfaceFrictionCalculator.Calculate and Curves.SampleCount: require a positive fragmentation time resolution (as do the `Ready` state of `ClientModel.AppModel` and the calculators' `Refit`), which the Java `create` does not check. With a zero resolution `(int)(m_curveTimeLength / m_fragmentationTimeResolution)` (AxisFrictionCalculator.java:120) saturates at `Integer.MAX_VALUE`, and with a negative one it is negative; the model does not cover either.
- NonPartition.SearchCount: the `(int)` cast of a rounded length beyond the int range is not modelled.
- Segmentation.ArgMaxBisection: the bisection is modelled as it was evidently intended, and it always terminates (see Findings). The loop as written is modelled separately with a round bound, `SearchAsWritten`.
- Segmentation.NarrowBoth: pins the intervals through the properties each greedy pass is proved to have (`LeftGreedyCuts`, `RightFromLeft`, `RightGreedyCuts`, `LeftFromRight`); that these properties determine the cut lists uniquely is not proved.
- Optimality of the segmentation: it rests on an unimodality assumption about the objective, which the code does not establish. Only structural facts are proved.
- OpenRecognition.Recognize: takes the three possibilities as given. The null elliptic reference, when every candidate weight is NaN, is modelled by `RecognizeReferences`; `EllipticIdentification.IdentifyCurve` takes the possibilities as inputs too, so this failure does not reach it.
- SurfaceFriction.SurfaceFrictionCalculator.ContributionLength: states only the length of a sticking surface's force; the force itself and the zero force of a slipping surface are in `StickContribution`.
- PrimitiveRecognizer.ArcRefinement: states the refined curve; that the winning n/4 class has the highest grade is in `BestIsMaximal`.

## Findings

| source | as written | input that shows it | evidently intended | confidence | as-written member | corrected member |
|---|---|---|---|---|---|---|
| projects/client/jftk/src/main/java/jp/sagalab/jftk/fragmentation/ellipticalarcs/EllipticalArcsSegmentation.java:85-102 | `argMaxBisection` returns only when `a == b`. At `a = b - 1` the probe is `k = b`, and a non-elliptic probe sets `a = b + 1`. From `a = b + 1` or `a = b + 2` every round probes `k = b + 1`; when `identify(b + 1, j)` is also non-elliptic, `a` becomes `b + 2` again and the loop runs forever. (When that probe is elliptic the loop can still return `b + 1`, `PastEndReturnsNext`.) | interval [0, 1] for j = 2 over three parameters, nothing elliptic (`HangingSearch`): (0, 1) → (2, 1) → (3, 1) → (3, 1) …; the search is started directly, and no answer table and narrowing produced by `getBestDevidedParameters` is exhibited that reaches this state | stop once `a >= b` and return `a`; the caller's range check then rejects an out-of-range index with `IllegalStateException` | medium (not executed) | Segmentation.AsWrittenNeverReturns | Segmentation.SearchAgrees |
