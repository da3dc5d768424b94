/**
 * NonPartitionFragmentation: fuzzy fragmentation of a spline curve at the best
 * split parameters found by the elliptic-arc segmentation. The curve is searched
 * at equally spaced parameters, one every 0.1 s of its range; the split
 * parameters found among them, with the two ends of the range, separate the
 * identification fragments.
 *
 * A curve is represented by its parameter range and by the possibilities of its
 * sub-curves, which is all the segmentation reads of it; a fragment is
 * represented by the parameter range of the part of the curve it identifies.
 */
module NonPartition {
  import opened Wrappers
  import opened EllipticIdentification
  import opened Segmentation

  /** MOVE_PARAM: the time between two search parameters, in seconds. */
  const MOVE_PARAM: real := 0.1

  /** A fuzzy spline curve: its range and the possibilities of the sub-curve between two parameters. */
  datatype SplineCurve = SplineCurve(start: real, end: real, subcurve: (real, real) -> Possibilities)

  /** The identification fragment of the part of a curve between two parameters. */
  datatype Fragment = IdentificationFragment(start: real, end: real)

  /** The errors createFragment and divide can raise. */
  datatype FragmentationError = SearchFailed(cause: SegmentationError) | UnsupportedOperation

  /** Math.round: the integer nearest to x, halves rounded up. */
  function Round(x: real): (r: int)
    ensures r as real - 0.5 <= x < r as real + 0.5
  {
    (x + 0.5).Floor
  }

  /** The number of search intervals: the range length over MOVE_PARAM, rounded, and at least 1. */
  function SearchCount(length: real): (num: int)
    ensures num >= 1
    ensures num == 1 || (num as real - 0.5 <= length / MOVE_PARAM < num as real + 0.5)
    ensures length / MOVE_PARAM >= 1.5 ==> num as real - 0.5 <= length / MOVE_PARAM < num as real + 0.5
  {
    var rounded := Round(length / MOVE_PARAM);
    if rounded > 1 then rounded else 1
  }

  /** The search parameter i of num: the point dividing start .. end internally in the ratio i : num - i. */
  function GridPoint(start: real, end: real, num: int, i: int): real
    requires num >= 1
  {
    (1.0 - i as real / num as real) * start + (i as real / num as real) * end
  }

  /** The search parameters are start plus i equal steps of (end - start) / num. */
  lemma GridPointIsStep(start: real, end: real, num: int, i: int)
    requires num >= 1
    ensures GridPoint(start, end, num, i) == start + i as real * ((end - start) / num as real)
  {
    var t := i as real / num as real;
    assert GridPoint(start, end, num, i) == start + t * (end - start);
    assert t * (end - start) == i as real * ((end - start) / num as real);
  }

  /** The first search parameter is start and the last is end. */
  lemma GridEnds(start: real, end: real, num: int)
    requires num >= 1
    ensures GridPoint(start, end, num, 0) == start
    ensures GridPoint(start, end, num, num) == end
  {
    assert num as real / num as real == 1.0;
  }

  /** On a range with start <= end, later search parameters are not smaller, and all lie in the range. */
  lemma GridMonotone(start: real, end: real, num: int, i: int, j: int)
    requires num >= 1 && 0 <= i <= j <= num && start <= end
    ensures GridPoint(start, end, num, i) <= GridPoint(start, end, num, j)
    ensures start <= GridPoint(start, end, num, i) <= end
  {
    var step := (end - start) / num as real;
    assert step >= 0.0;
    GridPointIsStep(start, end, num, i);
    GridPointIsStep(start, end, num, j);
    GridPointIsStep(start, end, num, num);
    GridEnds(start, end, num);
    assert i as real * step <= j as real * step;
    assert i as real * step <= num as real * step;
  }

  /** A sequence of all num + 1 grid points has the properties calcSearchParameters promises. */
  lemma GridSequence(start: real, end: real, num: int, ps: seq<real>)
    requires num >= 1 && |ps| == num + 1
    requires forall k :: 0 <= k < |ps| ==> ps[k] == GridPoint(start, end, num, k)
    ensures ps[0] == start && ps[|ps| - 1] == end
    ensures forall i :: 0 <= i < |ps| ==> ps[i] == start + i as real * ((end - start) / (|ps| - 1) as real)
    ensures start <= end ==> forall i, j :: 0 <= i <= j < |ps| ==> start <= ps[i] <= ps[j] <= end
  {
    GridEnds(start, end, num);
    forall i | 0 <= i < |ps|
      ensures ps[i] == start + i as real * ((end - start) / num as real)
    {
      GridPointIsStep(start, end, num, i);
    }
    if start <= end {
      forall i, j | 0 <= i <= j < |ps|
        ensures start <= ps[i] <= ps[j] <= end
      {
        GridMonotone(start, end, num, i, j);
        GridMonotone(start, end, num, j, j);
      }
    }
  }

  /**
   * calcSearchParameters: num + 1 search parameters filled into an array, the
   * first the start of the range and the last its end, equally spaced, and
   * non-decreasing when the range is.
   */
  method CalcSearchParameters(curve: SplineCurve) returns (ps: seq<real>)
    ensures |ps| == SearchCount(curve.end - curve.start) + 1
    ensures ps[0] == curve.start && ps[|ps| - 1] == curve.end
    ensures forall i :: 0 <= i < |ps| ==> ps[i] == curve.start + i as real * ((curve.end - curve.start) / (|ps| - 1) as real)
    ensures curve.start <= curve.end ==> forall i, j :: 0 <= i <= j < |ps| ==> curve.start <= ps[i] <= ps[j] <= curve.end
  {
    var num := SearchCount(curve.end - curve.start);
    ps := FillGrid(curve.start, curve.end, num);
    GridSequence(curve.start, curve.end, num, ps);
  }

  /** The loop of calcSearchParameters: entry i of the array is the i-th of num steps from start to end. */
  method FillGrid(start: real, end: real, num: int) returns (ps: seq<real>)
    requires num >= 1
    ensures |ps| == num + 1
    ensures forall k :: 0 <= k < |ps| ==> ps[k] == GridPoint(start, end, num, k)
  {
    var divided := new real[num + 1];
    for i := 0 to divided.Length
      invariant forall k :: 0 <= k < i ==> divided[k] == GridPoint(start, end, num, k)
    {
      var t := i as real / num as real;
      divided[i] := (1.0 - t) * start + t * end;
    }
    ps := divided[..];
  }

  /**
   * getBestDevidedParameters: handed on unchanged to the elliptic-arc
   * segmentation, with the curve's sub-curves as what it identifies; the result
   * is the segmentation's, read off the same answer table.
   */
  method GetBestDividedParameters(curve: SplineCurve, searchParameters: seq<real>)
    returns (r: Result<seq<real>, SegmentationError>, ghost id: MemoizingEllipticIdentifier,
      ghost answers: seq<Option<Answer>>, ghost narrowed: seq<NarrowedInterval>)
    ensures id.ts == searchParameters && id.subcurve == curve.subcurve && id.Faithful()
    ensures |searchParameters| == 0 ==> r == Failure(IndexOutOfBounds)
    ensures 1 <= |searchParameters| ==> Intervals(narrowed, |searchParameters|) && NarrowedBy(id, |searchParameters|, narrowed)
    ensures 1 <= |searchParameters| ==> r == BestDivided(id, narrowed)
    ensures |searchParameters| == 1 ==> r == Success([])
    ensures |searchParameters| == 2 ==> r == if id.Elliptic(0, 1) then Success([]) else Failure(NullAnswer)
    ensures 1 <= |answers| ==> |answers| == |searchParameters| && AnswerTable(id, answers)
    ensures 1 <= |answers| ==> Build(id, narrowed) == Success(answers)
    ensures 1 <= |answers| && answers[|answers| - 1].None? ==> r == Failure(NullAnswer)
    ensures r.Success? ==>
      && 1 <= |answers| && answers[|answers| - 1].Some?
      && (forall i :: 0 <= i < |LastSplits(answers)| ==> 0 <= LastSplits(answers)[i] < |searchParameters|)
      && r.value == SplitParameters(searchParameters, LastSplits(answers))
    ensures r.Success? ==> exists ks :: (InteriorIndices(ks, |searchParameters|) && |ks| == |r.value|
      && forall i :: 0 <= i < |ks| ==> r.value[i] == searchParameters[ks[i]])
  {
    r, id, answers, narrowed := Segmentation.GetBestDividedParameters(searchParameters, curve.subcurve);
  }

  /** Consecutive fragments share their end points, the first starting at lo and the last ending at hi. */
  predicate Chain(fs: seq<Fragment>, lo: real, hi: real)
  {
    && |fs| >= 1 && fs[0].start == lo && fs[|fs| - 1].end == hi
    && forall i :: 0 <= i < |fs| - 1 ==> Joined(fs, i)
  }

  /** Fragment i ends where fragment i + 1 starts. */
  predicate Joined(fs: seq<Fragment>, i: int)
    requires 0 <= i < |fs| - 1
  {
    fs[i].end == fs[i + 1].start
  }

  /** Interior split parameters, taken at strictly increasing interior indices of a sorted sequence, keep it sorted with both ends added. */
  lemma SeparatorsSorted(ps: seq<real>, ks: seq<int>, best: seq<real>)
    requires |ps| >= 2 && forall i, j :: 0 <= i <= j < |ps| ==> ps[i] <= ps[j]
    requires InteriorIndices(ks, |ps|) && |ks| == |best|
    requires forall i :: 0 <= i < |ks| ==> best[i] == ps[ks[i]]
    ensures var seps := [ps[0]] + best + [ps[|ps| - 1]];
      && (forall i :: 0 <= i < |seps| - 1 ==> seps[i] <= seps[i + 1])
      && (forall i :: 0 <= i < |seps| ==> ps[0] <= seps[i] <= ps[|ps| - 1])
  {
    var seps := [ps[0]] + best + [ps[|ps| - 1]];
    var idx := [0] + ks + [|ps| - 1];
    assert |idx| == |seps|;
    forall i | 0 <= i < |seps|
      ensures 0 <= idx[i] < |ps| && seps[i] == ps[idx[i]]
    {
      if 0 < i < |seps| - 1 {
        assert idx[i] == ks[i - 1] && seps[i] == best[i - 1];
      }
    }
    forall i | 0 <= i < |seps| - 1
      ensures seps[i] <= seps[i + 1]
    {
      if 0 < i && i + 1 < |seps| - 1 {
        assert ks[i - 1] < ks[i];
      }
      assert idx[i] <= idx[i + 1];
    }
  }

  /** Fragment k covers separators k to k + 1. */
  predicate Covers(fs: seq<Fragment>, seps: seq<real>)
  {
    && |fs| == |seps| - 1
    && forall k {:trigger fs[k]} :: 0 <= k < |fs| ==> fs[k] == IdentificationFragment(seps[k], seps[k + 1])
  }

  /**
   * Fragments covering consecutive separators chain from the first separator to
   * the last, and when the separators are sorted within lo .. hi, so are the
   * fragments' ends.
   */
  lemma CoversChain(fs: seq<Fragment>, seps: seq<real>, lo: real, hi: real)
    requires |seps| >= 2 && Covers(fs, seps)
    ensures Chain(fs, seps[0], seps[|seps| - 1])
    ensures (forall i :: 0 <= i < |seps| - 1 ==> seps[i] <= seps[i + 1])
      && (forall i :: 0 <= i < |seps| ==> lo <= seps[i] <= hi)
      ==> forall i :: 0 <= i < |fs| ==> lo <= fs[i].start <= fs[i].end <= hi
  {
    assert fs[|fs| - 1] == IdentificationFragment(seps[|seps| - 2], seps[|seps| - 1]);
    forall i | 0 <= i < |fs| - 1
      ensures Joined(fs, i)
    {
      assert fs[i].end == seps[i + 1] == fs[i + 1].start;
    }
  }

  /**
   * createFragment: the best split parameters with the first and last search
   * parameters around them separate the fragments; fragment i covers separators
   * i to i + 1, so the fragments chain from the start of the curve to its end, and
   * on a range with start <= end none of them is reversed. Every exception of the
   * search becomes a failure of the fragmentation. The search parameters ps, the
   * narrowed intervals and the answer table of the search are returned alongside,
   * as ghosts.
   */
  method CreateFragment(curve: SplineCurve)
    returns (r: Result<seq<Fragment>, FragmentationError>, ghost ps: seq<real>,
      ghost id: MemoizingEllipticIdentifier, ghost answers: seq<Option<Answer>>, ghost narrowed: seq<NarrowedInterval>)
    ensures |ps| == SearchCount(curve.end - curve.start) + 1
    ensures forall i :: 0 <= i < |ps| ==> ps[i] == curve.start + i as real * ((curve.end - curve.start) / (|ps| - 1) as real)
    ensures id.ts == ps && id.subcurve == curve.subcurve && id.Faithful()
    ensures Intervals(narrowed, |ps|) && NarrowedBy(id, |ps|, narrowed)
    ensures r.Failure? <==> BestDivided(id, narrowed).Failure?
    ensures r.Failure? ==> r.error == SearchFailed(BestDivided(id, narrowed).error)
    ensures r.Success? ==> Covers(r.value, [ps[0]] + BestDivided(id, narrowed).value + [ps[|ps| - 1]])
    ensures 1 <= |answers| ==> |answers| == |ps| && AnswerTable(id, answers)
    ensures 1 <= |answers| && answers[|answers| - 1].None? ==> r == Failure(SearchFailed(NullAnswer))
    ensures r.Success? ==>
      && 1 <= |answers| && answers[|answers| - 1].Some?
      && (forall i :: 0 <= i < |LastSplits(answers)| ==> 0 <= LastSplits(answers)[i] < |ps|)
      && Covers(r.value, [ps[0]] + SplitParameters(ps, LastSplits(answers)) + [ps[|ps| - 1]])
    ensures r.Success? ==> Chain(r.value, curve.start, curve.end)
    ensures r.Success? && curve.start <= curve.end ==>
      forall i :: 0 <= i < |r.value| ==> curve.start <= r.value[i].start <= r.value[i].end <= curve.end
    ensures r.Failure? ==> r.error.SearchFailed?
  {
    var grid := CalcSearchParameters(curve);
    ps := grid;
    var best;
    best, id, answers, narrowed := GetBestDividedParameters(curve, grid);
    if best.Failure? {
      return Failure(SearchFailed(best.error)), ps, id, answers, narrowed;
    }
    var fs := FragmentsBetween(curve, grid, best.value);
    return Success(fs), ps, id, answers, narrowed;
  }

  /**
   * The loop of createFragment: one identification fragment between each pair of
   * consecutive separators, the first grid parameter, the chosen interior ones and
   * the last grid parameter.
   */
  method FragmentsBetween(curve: SplineCurve, grid: seq<real>, best: seq<real>) returns (fs: seq<Fragment>)
    requires |grid| >= 2 && grid[0] == curve.start && grid[|grid| - 1] == curve.end
    requires curve.start <= curve.end ==> forall i, j :: 0 <= i <= j < |grid| ==> grid[i] <= grid[j]
    requires exists ks :: (InteriorIndices(ks, |grid|) && |ks| == |best|
      && forall i :: 0 <= i < |ks| ==> best[i] == grid[ks[i]])
    ensures Covers(fs, [grid[0]] + best + [grid[|grid| - 1]])
    ensures Chain(fs, curve.start, curve.end)
    ensures curve.start <= curve.end ==>
      forall i :: 0 <= i < |fs| ==> curve.start <= fs[i].start <= fs[i].end <= curve.end
  {
    var seps := [grid[0]] + best + [grid[|grid| - 1]];
    var fragments := new Fragment[|seps| - 1];
    for i := 0 to fragments.Length
      invariant forall k :: 0 <= k < i ==> fragments[k] == IdentificationFragment(seps[k], seps[k + 1])
    {
      fragments[i] := IdentificationFragment(seps[i], seps[i + 1]);
    }
    fs := fragments[..];
    assert Covers(fs, seps);
    CoversChain(fs, seps, curve.start, curve.end);
    if curve.start <= curve.end {
      var ks :| InteriorIndices(ks, |grid|) && |ks| == |best|
        && forall i :: 0 <= i < |ks| ==> best[i] == grid[ks[i]];
      SeparatorsSorted(grid, ks, best);
    }
  }

  /** divide: not supported; it always raises UnsupportedOperationException. */
  function Divide(curve: SplineCurve): (r: Result<seq<SplineCurve>, FragmentationError>)
    ensures r.Failure? && r.error == UnsupportedOperation
  {
    Failure(UnsupportedOperation)
  }

  /**
   * createFragments: the two fragments either side of a division parameter, the
   * first from the start of the curve to it and the second from it to the end.
   */
  function CreateFragments(p: real, curve: SplineCurve): (fs: seq<Fragment>)
    ensures |fs| == 2 && Chain(fs, curve.start, curve.end)
    ensures fs[0].end == p
  {
    [IdentificationFragment(curve.start, p), IdentificationFragment(p, curve.end)]
  }
}
