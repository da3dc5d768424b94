/**
 * EllipticalArcsSegmentation: the search for the split parameters that divide a
 * fuzzy spline curve into elliptic arcs. A max-min dynamic programme over the
 * search parameters picks, for every end index j, a start index k from a narrowed
 * interval by bisection, and chains the best answer for k with the sub-curve from
 * k to j. The narrowed intervals come from greedy passes from the left and from
 * the right. Identification of a sub-curve goes through the memoising identifier.
 */
module Segmentation {
  import opened Wrappers
  import opened Numerics
  import opened Partitions
  import opened EllipticIdentification

  /** Answer: the elliptic-arc grade of a partial segmentation and its split indices. */
  datatype Answer = Answer(grade: real, params: PartitionParameters)

  /** NarrowedInterval: the indices from first to last where a split may lie. */
  datatype NarrowedInterval = NarrowedInterval(first: int, last: int)

  /** The exceptions the search can raise. */
  datatype SegmentationError = IndexOutOfBounds | NullAnswer | IllegalState

  // ---------------------------------------------------------------------------
  // Greedy passes and narrowing
  // ---------------------------------------------------------------------------

  /** Every sub-curve from s to an index in lo .. hi is elliptic. */
  predicate EllipticFrom(id: MemoizingEllipticIdentifier, s: int, lo: int, hi: int)
  {
    forall x :: lo <= x <= hi ==> 0 <= s < |id.ts| && 0 <= x < |id.ts| && id.Elliptic(s, x)
  }

  /** Every sub-curve from an index in lo .. hi to e is elliptic. */
  predicate EllipticTo(id: MemoizingEllipticIdentifier, lo: int, hi: int, e: int)
  {
    forall y :: lo <= y <= hi ==> 0 <= y < |id.ts| && 0 <= e < |id.ts| && id.Elliptic(y, e)
  }

  /** The sub-curve from s to x exists and is not elliptic. */
  predicate Cut(id: MemoizingEllipticIdentifier, s: int, x: int)
  {
    0 <= s < |id.ts| && 0 <= x < |id.ts| && !id.Elliptic(s, x)
  }

  /**
   * Where the checks of a segment of leftGreedyP(n) start: the first segment is
   * checked from index 1, every later one only from two past its start, because
   * the iteration that cuts at i tests nothing for the segment starting at i.
   */
  function LeftStart(ls: seq<int>, t: int): int
    requires 0 <= t < |ls|
  {
    if t == 0 then ls[t] + 1 else ls[t] + 2
  }

  /**
   * Where the checks of a segment of rightGreedyP(n) end: the last segment is
   * checked up to one before its end, every earlier one only up to two before.
   */
  function RightEnd(rs: seq<int>, t: int): int
    requires 0 <= t < |rs| - 1
  {
    if t + 1 == |rs| - 1 then rs[t + 1] - 1 else rs[t + 1] - 2
  }

  /** Segment t of leftGreedyP(n): the sub-curves from its start to every checked index up to its end are elliptic. */
  predicate LeftSegment(id: MemoizingEllipticIdentifier, ls: seq<int>, t: int)
    requires 0 <= t < |ls| - 1
  {
    EllipticFrom(id, ls[t], LeftStart(ls, t), ls[t + 1])
  }

  /** Segment t of leftGreedyP(n) was cut: the sub-curve from its start to one past its end is not elliptic. */
  predicate CutAfter(id: MemoizingEllipticIdentifier, ls: seq<int>, t: int)
    requires 0 <= t < |ls| - 1
  {
    Cut(id, ls[t], ls[t + 1] + 1)
  }

  /** Segment t of rightGreedyP(n): the sub-curves from every checked index to its end are elliptic. */
  predicate RightSegment(id: MemoizingEllipticIdentifier, rs: seq<int>, t: int)
    requires 0 <= t < |rs| - 1
  {
    EllipticTo(id, rs[t], RightEnd(rs, t), rs[t + 1])
  }

  /** Segment t of rightGreedyP(n) was cut: the sub-curve from one before its start to its end is not elliptic. */
  predicate CutBefore(id: MemoizingEllipticIdentifier, rs: seq<int>, t: int)
    requires 0 <= t < |rs| - 1
  {
    1 <= rs[t] && Cut(id, rs[t] - 1, rs[t + 1])
  }

  /**
   * Right cut t searched below left cut t: the sub-curves from every index from
   * rs[t] to ls[t] to the next right cut are elliptic, and unless the search ran
   * down to ls[t - 1] + 1, the one from rs[t] - 1 is not.
   */
  predicate RightBetween(id: MemoizingEllipticIdentifier, ls: seq<int>, rs: seq<int>, t: int)
    requires 1 <= t < |ls| && t + 1 < |rs|
  {
    && EllipticTo(id, rs[t], ls[t], rs[t + 1])
    && (ls[t - 1] + 1 < rs[t] ==> Cut(id, rs[t] - 1, rs[t + 1]))
  }

  /**
   * Left cut t searched above right cut t: the sub-curves from the previous left
   * cut to every index from rs[t] to ls[t] are elliptic, and unless the search
   * ran up to rs[t + 1] - 1, the one to ls[t] + 1 is not.
   */
  predicate LeftBetween(id: MemoizingEllipticIdentifier, rs: seq<int>, ls: seq<int>, t: int)
    requires 1 <= t < |ls| && t + 1 < |rs|
  {
    && EllipticFrom(id, ls[t - 1], rs[t], ls[t])
    && (ls[t] < rs[t + 1] - 1 ==> Cut(id, ls[t - 1], ls[t] + 1))
  }

  /** What leftGreedyP(n) has established before iteration i. */
  predicate LeftProgress(id: MemoizingEllipticIdentifier, n: int, ls: seq<int>, i: int)
  {
    && n <= |id.ts|
    && LeftShape(n, ls, i)
    && (forall t :: 0 <= t < |ls| - 1 && (i < n || t < |ls| - 2) ==> CutAfter(id, ls, t))
    && (forall t :: 0 <= t < |ls| - 1 ==> LeftSegment(id, ls, t))
    && (i < n ==> EllipticFrom(id, ls[|ls| - 1], LeftStart(ls, |ls| - 1), i))
  }

  /** The shape of the cuts of leftGreedyP(n) before iteration i. */
  predicate LeftShape(n: int, ls: seq<int>, i: int)
  {
    && 0 <= i <= n
    && |ls| >= 1 && ls[0] == 0
    && (forall t :: 0 <= t < |ls| ==> 0 <= ls[t] <= i && (n >= 1 ==> ls[t] < n))
    && (|ls| > 1 && i < n ==> ls[|ls| - 1] < i)
    && (i == n && n >= 1 ==> |ls| >= 2 && ls[|ls| - 1] == n - 1)
    && (forall t, u :: 0 <= t <= u < |ls| ==> ls[t] <= ls[u])
    && (forall t, u :: 1 <= t < u < |ls| ==> ls[t] < ls[u])
    && (forall t :: 1 <= t < |ls| && (i < n || t < |ls| - 1) ==> ls[t] < n - 1)
  }

  /** Appending i, or n - 1 in the last iteration, keeps the shape. */
  lemma LeftShapeAppend(n: int, ls: seq<int>, i: int, x: int)
    requires LeftShape(n, ls, i) && i < n
    requires (x == i && i < n - 1) || (x == n - 1 && i == n - 1)
    ensures LeftShape(n, ls + [x], i + 1)
  {
    var ls' := ls + [x];
    assert forall t :: 0 <= t < |ls| ==> ls'[t] == ls[t];
  }

  /** An elliptic sub-curve to i + 1 extends the open segment. */
  lemma LeftExtend(id: MemoizingEllipticIdentifier, n: int, ls: seq<int>, i: int)
    requires LeftProgress(id, n, ls, i) && i < n - 1
    requires id.Elliptic(ls[|ls| - 1], i + 1)
    ensures LeftProgress(id, n, ls, i + 1)
  {
  }

  /** A non-elliptic sub-curve to i + 1 closes the open segment at i. */
  lemma LeftCut(id: MemoizingEllipticIdentifier, n: int, ls: seq<int>, i: int)
    requires LeftProgress(id, n, ls, i) && i < n - 1
    requires !id.Elliptic(ls[|ls| - 1], i + 1)
    ensures LeftProgress(id, n, ls + [i], i + 1)
  {
    var ls' := ls + [i];
    LeftShapeAppend(n, ls, i, i);
    assert CutAfter(id, ls', |ls| - 1);
    forall t | 0 <= t < |ls| - 1
      ensures LeftSegment(id, ls', t) && CutAfter(id, ls', t)
    {
      assert ls'[t] == ls[t] && ls'[t + 1] == ls[t + 1];
      assert LeftSegment(id, ls, t) && CutAfter(id, ls, t);
    }
  }

  /** The last iteration closes the open segment at n - 1. */
  lemma LeftClose(id: MemoizingEllipticIdentifier, n: int, ls: seq<int>)
    requires LeftProgress(id, n, ls, n - 1)
    ensures LeftProgress(id, n, ls + [n - 1], n)
  {
    var ls' := ls + [n - 1];
    LeftShapeAppend(n, ls, n - 1, n - 1);
    forall t | 0 <= t < |ls| - 1
      ensures LeftSegment(id, ls', t) && CutAfter(id, ls', t)
    {
      assert LeftSegment(id, ls, t) && CutAfter(id, ls, t);
    }
  }

  /**
   * The cuts leftGreedyP(n) returns: from 0 to n - 1, increasing (strictly after
   * the first), every segment elliptic from its start to every checked index up
   * to its end, and every segment but the last cut where the next index fails.
   */
  predicate LeftGreedyCuts(id: MemoizingEllipticIdentifier, n: int, ls: seq<int>)
  {
    && |ls| >= 1 && ls[0] == 0
    && (n >= 1 ==> |ls| >= 2 && ls[|ls| - 1] == n - 1)
    && (forall t :: 0 <= t < |ls| ==> 0 <= ls[t] && (n >= 1 ==> ls[t] < n))
    && (forall t, u :: 0 <= t <= u < |ls| ==> ls[t] <= ls[u])
    && (forall t, u :: 1 <= t < u < |ls| ==> ls[t] < ls[u])
    && (forall t :: 1 <= t < |ls| - 1 ==> ls[t] < n - 1)
    && (forall t :: 0 <= t < |ls| - 2 ==> CutAfter(id, ls, t))
    && (forall t :: 0 <= t < |ls| - 1 ==> LeftSegment(id, ls, t))
  }

  /** After the last iteration, the cuts of leftGreedyP(n) have all their properties. */
  lemma LeftDone(id: MemoizingEllipticIdentifier, n: int, ls: seq<int>)
    requires LeftProgress(id, n, ls, n)
    ensures LeftGreedyCuts(id, n, ls)
  {
  }

  /**
   * leftGreedyP(n): from index 0, extend the current segment while the sub-curve
   * from its start to the next index is elliptic; cut before the first index where
   * it is not; always end at n - 1.
   */
  method LeftGreedyFromStart(id: MemoizingEllipticIdentifier, n: int) returns (ls: seq<int>)
    requires id.Valid() && 0 <= n <= |id.ts|
    modifies id.table
    ensures id.Valid()
    ensures LeftGreedyCuts(id, n, ls)
  {
    ls := [0];
    var i := 0;
    while i < n
      invariant id.Valid()
      invariant LeftProgress(id, n, ls, i)
    {
      if i == n - 1 {
        LeftClose(id, n, ls);
        ls := ls + [n - 1];
      } else {
        var r := id.Identify(ls[|ls| - 1], i + 1);
        if !r.isElliptic {
          LeftCut(id, n, ls, i);
          ls := ls + [i];
        } else {
          LeftExtend(id, n, ls, i);
        }
      }
      i := i + 1;
    }
    LeftDone(id, n, ls);
  }

  /** What rightGreedyP(n) has established before iteration i. */
  predicate RightProgress(id: MemoizingEllipticIdentifier, n: int, rs: seq<int>, i: int)
  {
    && -1 <= i <= n - 1 && n <= |id.ts|
    && |rs| >= 1 && rs[|rs| - 1] == n - 1
    && (forall t :: 0 <= t < |rs| ==> i <= rs[t] < n && (n >= 1 ==> 0 <= rs[t]))
    && (forall t :: 0 <= t < |rs| - 1 ==> i < rs[t])
    && (i == -1 && n >= 1 ==> |rs| >= 2 && rs[0] == 0)
    && (forall t, u :: 0 <= t <= u < |rs| ==> rs[t] <= rs[u])
    && (forall t, u :: 0 <= t < u < |rs| - 1 ==> rs[t] < rs[u])
    && (forall t :: 0 <= t < |rs| - 1 && (i >= 0 || t >= 1) ==> CutBefore(id, rs, t))
    && (forall t :: 0 <= t < |rs| - 1 ==> RightSegment(id, rs, t))
    && (i >= 0 ==> EllipticTo(id, i, if |rs| == 1 then rs[0] - 1 else rs[0] - 2, rs[0]))
  }

  /** Before the first iteration only the last index n - 1 is a cut. */
  lemma RightStart(id: MemoizingEllipticIdentifier, n: int)
    requires 0 <= n <= |id.ts|
    ensures RightProgress(id, n, [n - 1], n - 1)
  {
  }

  /** Iteration i >= 1 probes the sub-curve from i - 1 to the first cut, both indices in range. */
  lemma RightProbe(id: MemoizingEllipticIdentifier, n: int, rs: seq<int>, i: int)
    requires RightProgress(id, n, rs, i) && 1 <= i
    ensures 0 <= i - 1 < |id.ts| && 0 <= rs[0] < |id.ts|
  {
  }

  /** An elliptic sub-curve from i - 1 extends the open segment. */
  lemma RightExtend(id: MemoizingEllipticIdentifier, n: int, rs: seq<int>, i: int)
    requires RightProgress(id, n, rs, i) && i >= 1
    requires id.Elliptic(i - 1, rs[0])
    ensures RightProgress(id, n, rs, i - 1)
  {
  }

  /** Prepending i keeps every segment already closed. */
  lemma RightShift(id: MemoizingEllipticIdentifier, rs: seq<int>, i: int)
    requires |rs| >= 1
    requires forall t :: 0 <= t < |rs| - 1 ==> RightSegment(id, rs, t)
    requires forall t :: 1 <= t < |rs| - 1 ==> CutBefore(id, rs, t)
    ensures forall t :: 1 <= t < |[i] + rs| - 1 ==> RightSegment(id, [i] + rs, t)
    ensures forall t :: 2 <= t < |[i] + rs| - 1 ==> CutBefore(id, [i] + rs, t)
  {
    var rs' := [i] + rs;
    forall t | 1 <= t < |rs'| - 1
      ensures RightSegment(id, rs', t) && (t >= 2 ==> CutBefore(id, rs', t))
    {
      assert RightSegment(id, rs, t - 1);
      if t >= 2 {
        assert CutBefore(id, rs, t - 1);
      }
    }
  }

  /** A non-elliptic sub-curve from i - 1 closes the open segment at i. */
  lemma RightCut(id: MemoizingEllipticIdentifier, n: int, rs: seq<int>, i: int)
    requires RightProgress(id, n, rs, i) && i >= 1
    requires !id.Elliptic(i - 1, rs[0])
    ensures RightProgress(id, n, [i] + rs, i - 1)
  {
    var rs' := [i] + rs;
    RightShift(id, rs, i);
    assert RightSegment(id, rs', 0);
    assert CutBefore(id, rs', 0);
    if |rs| >= 2 {
      assert CutBefore(id, rs, 0);
      assert CutBefore(id, rs', 1);
    }
  }

  /** The last iteration closes the open segment at 0. */
  lemma RightClose(id: MemoizingEllipticIdentifier, n: int, rs: seq<int>)
    requires RightProgress(id, n, rs, 0)
    ensures RightProgress(id, n, [0] + rs, -1)
  {
    var rs' := [0] + rs;
    RightShift(id, rs, 0);
    assert RightSegment(id, rs', 0);
    if |rs| >= 2 {
      assert CutBefore(id, rs, 0);
      assert CutBefore(id, rs', 1);
    }
  }

  /**
   * The cuts rightGreedyP(n) returns: from 0 to n - 1, increasing (strictly
   * before the last), every segment elliptic from every checked index to its end,
   * and every segment but the first cut where the previous index fails.
   */
  predicate RightGreedyCuts(id: MemoizingEllipticIdentifier, n: int, rs: seq<int>)
  {
    && |rs| >= 1 && rs[|rs| - 1] == n - 1
    && (n >= 1 ==> |rs| >= 2 && rs[0] == 0)
    && (n >= 1 ==> forall t :: 0 <= t < |rs| ==> 0 <= rs[t] < n)
    && (forall t, u :: 0 <= t <= u < |rs| ==> rs[t] <= rs[u])
    && (forall t, u :: 0 <= t < u < |rs| - 1 ==> rs[t] < rs[u])
    && (forall t :: 1 <= t < |rs| - 1 ==> CutBefore(id, rs, t))
    && (forall t :: 0 <= t < |rs| - 1 ==> RightSegment(id, rs, t))
  }

  /** After the last iteration, the cuts of rightGreedyP(n) have all their properties. */
  lemma RightDone(id: MemoizingEllipticIdentifier, n: int, rs: seq<int>)
    requires RightProgress(id, n, rs, -1)
    ensures RightGreedyCuts(id, n, rs)
  {
  }

  /**
   * rightGreedyP(n): the mirror pass from index n - 1, extending the current
   * segment to the left while the sub-curve from the previous index to its end is
   * elliptic; always start at 0.
   */
  method RightGreedyFromEnd(id: MemoizingEllipticIdentifier, n: int) returns (rs: seq<int>)
    requires id.Valid() && 0 <= n <= |id.ts|
    modifies id.table
    ensures id.Valid()
    ensures RightGreedyCuts(id, n, rs)
  {
    rs := [n - 1];
    var i := n - 1;
    RightStart(id, n);
    while i >= 0
      invariant id.Valid()
      invariant RightProgress(id, n, rs, i)
      decreases i + 1
    {
      if i == 0 {
        RightClose(id, n, rs);
        rs := [0] + rs;
      } else {
        RightProbe(id, n, rs, i);
        var r := id.Identify(i - 1, rs[0]);
        if !r.isElliptic {
          RightCut(id, n, rs, i);
          rs := [i] + rs;
        } else {
          RightExtend(id, n, rs, i);
        }
      }
      i := i - 1;
    }
    RightDone(id, n, rs);
  }

  /** The left cuts rightGreedyP(recognizer, ls) accepts: in range, sorted, interior ones below n - 1. */
  predicate LeftCuts(id: MemoizingEllipticIdentifier, ls: seq<int>)
  {
    && |ls| >= 1
    && (forall t :: 0 <= t < |ls| ==> 0 <= ls[t] < |id.ts|)
    && (forall t, u :: 0 <= t <= u < |ls| ==> ls[t] <= ls[u])
    && (forall t :: 0 < t < |ls| - 1 ==> ls[t] + 1 < |id.ts|)
  }

  /** The slots above ip of rightGreedyP(recognizer, ls) are filled. */
  predicate RightFilled(id: MemoizingEllipticIdentifier, ls: seq<int>, rs: seq<int>, ip: int)
  {
    && 0 <= ip < |ls| - 1 && |rs| == |ls| && rs[|ls| - 1] == ls[|ls| - 1]
    && 0 <= rs[ip + 1] < |id.ts|
    && (forall t :: ip < t < |ls| - 1 ==> ls[t - 1] < rs[t] <= ls[t] + 1)
    && (forall t :: ip < t < |ls| - 1 ==> RightBetween(id, ls, rs, t))
  }

  /** Filling slot ip with what the downward search found. */
  lemma RightFill(id: MemoizingEllipticIdentifier, ls: seq<int>, rs: seq<int>, ip: int, ri: int)
    requires LeftCuts(id, ls) && RightFilled(id, ls, rs, ip) && ip > 0
    requires ls[ip - 1] < ri <= ls[ip] + 1
    requires EllipticTo(id, ri, ls[ip], rs[ip + 1])
    requires ls[ip - 1] + 1 < ri ==> Cut(id, ri - 1, rs[ip + 1])
    ensures RightFilled(id, ls, rs[ip := ri], ip - 1)
  {
    var rs' := rs[ip := ri];
    forall t | ip <= t < |ls| - 1
      ensures RightBetween(id, ls, rs', t)
    {
      if t > ip {
        assert RightBetween(id, ls, rs, t);
      }
    }
  }

  /** Slot 0 holds 0 at the end. */
  lemma RightFillFirst(id: MemoizingEllipticIdentifier, ls: seq<int>, rs: seq<int>)
    requires RightFilled(id, ls, rs, 0)
    ensures var rs' := rs[0 := 0];
      && (forall t :: 1 <= t < |ls| - 1 ==> ls[t - 1] < rs'[t] <= ls[t] + 1)
      && (forall t :: 1 <= t < |ls| - 1 ==> RightBetween(id, ls, rs', t))
  {
    var rs' := rs[0 := 0];
    forall t | 1 <= t < |ls| - 1
      ensures RightBetween(id, ls, rs', t)
    {
      assert RightBetween(id, ls, rs, t);
    }
  }

  /**
   * rightGreedyP(recognizer, ls): given the left-greedy cuts, each cut from the
   * right is searched between the two neighbouring left cuts, downwards from
   * ls[t], as the lowest start from which the sub-curve to the next right cut
   * stays elliptic. The list is built from the back; the model fills its slots
   * from the back.
   */
  method RightGreedyFromLeft(id: MemoizingEllipticIdentifier, ls: seq<int>) returns (rs: seq<int>)
    requires id.Valid() && LeftCuts(id, ls)
    modifies id.table
    ensures id.Valid()
    ensures |rs| == if |ls| == 1 then 2 else |ls|
    ensures rs[0] == 0 && rs[|rs| - 1] == ls[|ls| - 1]
    ensures forall t :: 1 <= t < |ls| - 1 ==> ls[t - 1] < rs[t] <= ls[t] + 1
    ensures forall t :: 1 <= t < |ls| - 1 ==> RightBetween(id, ls, rs, t)
  {
    var m := |ls| - 1;
    if m == 0 {
      return [0, ls[0]];
    }
    rs := seq(m + 1, _ => 0);
    rs := rs[m := ls[m]];
    var ip := m - 1;
    while ip > 0
      invariant id.Valid()
      invariant RightFilled(id, ls, rs, ip)
    {
      var rip1 := rs[ip + 1];
      var ri := ls[ip - 1] + 1;
      var r := ls[ip];
      while r > ls[ip - 1]
        invariant ls[ip - 1] <= r <= ls[ip]
        invariant id.Valid()
        invariant ri == ls[ip - 1] + 1
        invariant EllipticTo(id, r + 1, ls[ip], rip1)
      {
        var res := id.Identify(r, rip1);
        if !res.isElliptic {
          ri := r + 1;
          break;
        }
        r := r - 1;
      }
      RightFill(id, ls, rs, ip, ri);
      rs := rs[ip := ri];
      ip := ip - 1;
    }
    RightFillFirst(id, ls, rs);
    rs := rs[0 := 0];
  }

  /** The right cuts leftGreedyP(recognizer, rs) accepts: in range, sorted, interior ones positive. */
  predicate RightCuts(id: MemoizingEllipticIdentifier, rs: seq<int>)
  {
    && |rs| >= 1
    && (forall t :: 0 <= t < |rs| ==> 0 <= rs[t] < |id.ts|)
    && (forall t, u :: 0 <= t <= u < |rs| ==> rs[t] <= rs[u])
    && (forall t :: 0 < t < |rs| - 1 ==> 1 <= rs[t])
  }

  /** The left cuts below ip of leftGreedyP(recognizer, rs) are found. */
  predicate LeftFound(id: MemoizingEllipticIdentifier, rs: seq<int>, ls: seq<int>, ip: int)
  {
    && 1 <= ip < |rs| && |ls| == ip && ls[0] == 0
    && 0 <= ls[ip - 1] < |id.ts|
    && (forall t :: 1 <= t < ip ==> rs[t] - 1 <= ls[t] <= rs[t + 1] - 1)
    && (forall t :: 1 <= t < ip ==> LeftBetween(id, rs, ls, t))
  }

  /** Appending the cut the upward search found. */
  lemma LeftFind(id: MemoizingEllipticIdentifier, rs: seq<int>, ls: seq<int>, ip: int, li: int)
    requires LeftFound(id, rs, ls, ip) && ip < |rs| - 1
    requires 1 <= rs[ip] && rs[ip + 1] < |id.ts|
    requires rs[ip] - 1 <= li <= rs[ip + 1] - 1
    requires EllipticFrom(id, ls[ip - 1], rs[ip], li)
    requires li < rs[ip + 1] - 1 ==> Cut(id, ls[ip - 1], li + 1)
    ensures LeftFound(id, rs, ls + [li], ip + 1)
  {
    var ls' := ls + [li];
    forall t | 1 <= t <= ip
      ensures rs[t] - 1 <= ls'[t] <= rs[t + 1] - 1 && LeftBetween(id, rs, ls', t)
    {
      if t < ip {
        assert ls'[t - 1] == ls[t - 1] && ls'[t] == ls[t];
        assert LeftBetween(id, rs, ls, t);
      }
    }
  }

  /** Appending the last right cut at the end. */
  lemma LeftFindLast(id: MemoizingEllipticIdentifier, rs: seq<int>, ls: seq<int>)
    requires LeftFound(id, rs, ls, |rs| - 1)
    ensures var ls' := ls + [rs[|rs| - 1]];
      && (forall t :: 1 <= t < |rs| - 1 ==> rs[t] - 1 <= ls'[t] <= rs[t + 1] - 1)
      && (forall t :: 1 <= t < |rs| - 1 ==> LeftBetween(id, rs, ls', t))
  {
    var ls' := ls + [rs[|rs| - 1]];
    forall t | 1 <= t < |rs| - 1
      ensures LeftBetween(id, rs, ls', t)
    {
      assert LeftBetween(id, rs, ls, t);
    }
  }

  /**
   * leftGreedyP(recognizer, rs): the mirror of the previous pass; each left cut is
   * searched upwards from rs[t], as the last index before the sub-curve from the
   * previous left cut stops being elliptic.
   */
  method LeftGreedyFromRight(id: MemoizingEllipticIdentifier, rs: seq<int>) returns (ls: seq<int>)
    requires id.Valid() && RightCuts(id, rs)
    modifies id.table
    ensures id.Valid()
    ensures |ls| == if |rs| == 1 then 2 else |rs|
    ensures ls[0] == 0 && ls[|ls| - 1] == rs[|rs| - 1]
    ensures forall t :: 1 <= t < |rs| - 1 ==> rs[t] - 1 <= ls[t] <= rs[t + 1] - 1
    ensures forall t :: 1 <= t < |rs| - 1 ==> LeftBetween(id, rs, ls, t)
  {
    var m := |rs| - 1;
    if m == 0 {
      return [0, rs[0]];
    }
    ls := [0];
    assert 0 <= rs[0] < |id.ts|;
    var ip := 1;
    while ip < m
      invariant id.Valid()
      invariant LeftFound(id, rs, ls, ip)
    {
      var lim1 := ls[ip - 1];
      var li := rs[ip + 1] - 1;
      var l := rs[ip];
      while l < rs[ip + 1]
        invariant rs[ip] <= l <= rs[ip + 1]
        invariant id.Valid()
        invariant li == rs[ip + 1] - 1
        invariant EllipticFrom(id, lim1, rs[ip], l - 1)
      {
        var res := id.Identify(lim1, l);
        if !res.isElliptic {
          li := l - 1;
          break;
        }
        l := l + 1;
      }
      LeftFind(id, rs, ls, ip, li);
      ls := ls + [li];
      ip := ip + 1;
    }
    LeftFindLast(id, rs, ls);
    ls := ls + [rs[m]];
  }

  /** narrow(ls, rs): the pairs (first = rs[i], last = ls[i]), as far as the shorter list goes. */
  method Narrow(ls: seq<int>, rs: seq<int>) returns (ss: seq<NarrowedInterval>)
    ensures |ss| == if |ls| < |rs| then |ls| else |rs|
    ensures forall i :: 0 <= i < |ss| ==> ss[i] == NarrowedInterval(rs[i], ls[i])
  {
    ss := [];
    var i := 0;
    while i < |ls| && i < |rs|
      invariant 0 <= i <= |ls| && i <= |rs|
      invariant |ss| == i
      invariant forall k :: 0 <= k < i ==> ss[k] == NarrowedInterval(rs[k], ls[k])
    {
      ss := ss + [NarrowedInterval(rs[i], ls[i])];
      i := i + 1;
    }
  }

  /** The cuts rightGreedyP(recognizer, ls) returns for the left cuts ls. */
  predicate RightFromLeft(id: MemoizingEllipticIdentifier, ls: seq<int>, rs: seq<int>)
  {
    && |ls| >= 1
    && |rs| == (if |ls| == 1 then 2 else |ls|)
    && rs[0] == 0 && rs[|rs| - 1] == ls[|ls| - 1]
    && (forall t :: 1 <= t < |ls| - 1 ==> ls[t - 1] < rs[t] <= ls[t] + 1)
    && (forall t :: 1 <= t < |ls| - 1 ==> RightBetween(id, ls, rs, t))
  }

  /** The cuts leftGreedyP(recognizer, rs) returns for the right cuts rs. */
  predicate LeftFromRight(id: MemoizingEllipticIdentifier, rs: seq<int>, ls: seq<int>)
  {
    && |rs| >= 1
    && |ls| == (if |rs| == 1 then 2 else |rs|)
    && ls[0] == 0 && ls[|ls| - 1] == rs[|rs| - 1]
    && (forall t :: 1 <= t < |rs| - 1 ==> rs[t] - 1 <= ls[t] <= rs[t + 1] - 1)
    && (forall t :: 1 <= t < |rs| - 1 ==> LeftBetween(id, rs, ls, t))
  }

  /** The length of the shorter of the two lists. */
  function PairCount(ls: seq<int>, rs: seq<int>): int
  {
    if |ls| < |rs| then |ls| else |rs|
  }

  /** ss pairs rs[i] with ls[i], as far as the shorter list goes. */
  predicate Zipped(ss: seq<NarrowedInterval>, ls: seq<int>, rs: seq<int>)
  {
    && |ss| == PairCount(ls, rs)
    && forall i :: 0 <= i < |ss| ==> ss[i] == NarrowedInterval(rs[i], ls[i])
  }

  /**
   * ss are the intervals narrow(n) returns: the pairs of the left-first passes
   * (leftGreedyP(n), then rightGreedyP over its cuts) when they are strictly
   * fewer, otherwise those of the right-first passes.
   */
  ghost predicate NarrowedBy(id: MemoizingEllipticIdentifier, n: int, ss: seq<NarrowedInterval>)
  {
    exists ls, rs, ls', rs' ::
      && LeftGreedyCuts(id, n, ls) && RightFromLeft(id, ls, rs)
      && RightGreedyCuts(id, n, rs') && LeftFromRight(id, rs', ls')
      && (if PairCount(ls, rs) < PairCount(ls', rs') then Zipped(ss, ls, rs) else Zipped(ss, ls', rs'))
  }

  /** The witnesses of NarrowedBy. */
  lemma NarrowedByIntro(id: MemoizingEllipticIdentifier, n: int, ss: seq<NarrowedInterval>,
    ls: seq<int>, rs: seq<int>, ls': seq<int>, rs': seq<int>)
    requires LeftGreedyCuts(id, n, ls) && RightFromLeft(id, ls, rs)
    requires RightGreedyCuts(id, n, rs') && LeftFromRight(id, rs', ls')
    requires if PairCount(ls, rs) < PairCount(ls', rs') then Zipped(ss, ls, rs) else Zipped(ss, ls', rs')
    ensures NarrowedBy(id, n, ss)
  {
  }

  /**
   * Narrowed intervals for n indices: at least two, from (0, 0) to
   * (n - 1, n - 1), each within the indices and at most one past empty.
   */
  predicate Intervals(ss: seq<NarrowedInterval>, n: int)
  {
    && |ss| >= 2
    && ss[0] == NarrowedInterval(0, 0)
    && ss[|ss| - 1] == NarrowedInterval(n - 1, n - 1)
    && forall t :: 0 <= t < |ss| ==> 0 <= ss[t].first < n && 0 <= ss[t].last < n && ss[t].first <= ss[t].last + 1
  }

  /**
   * narrow(n): the intervals from the left-first passes if they are strictly
   * fewer, otherwise those from the right-first passes. Either way they run from
   * (0, 0) to (n - 1, n - 1) and are index ranges of at most one gap.
   */
  method NarrowBoth(id: MemoizingEllipticIdentifier, n: int) returns (ss: seq<NarrowedInterval>)
    requires id.Valid() && 1 <= n <= |id.ts|
    modifies id.table
    ensures id.Valid()
    ensures Intervals(ss, n)
    ensures NarrowedBy(id, n, ss)
  {
    var ls := LeftGreedyFromStart(id, n);
    var rs := RightGreedyFromLeft(id, ls);
    var leftFirst := Narrow(ls, rs);
    assert Intervals(leftFirst, n) by {
      forall t | 0 <= t < |leftFirst|
        ensures 0 <= leftFirst[t].first < n && 0 <= leftFirst[t].last < n && leftFirst[t].first <= leftFirst[t].last + 1
      {
        assert leftFirst[t] == NarrowedInterval(rs[t], ls[t]);
        if 0 < t < |ls| - 1 {
          assert ls[t - 1] < rs[t] <= ls[t] + 1;
          assert 0 <= ls[t - 1] && ls[t] < n - 1;
        }
      }
    }

    var rs' := RightGreedyFromEnd(id, n);
    assert forall t :: 0 < t < |rs'| - 1 ==> rs'[0] < rs'[t];
    var ls' := LeftGreedyFromRight(id, rs');
    var rightFirst := Narrow(ls', rs');
    assert Intervals(rightFirst, n) by {
      forall t | 0 <= t < |rightFirst|
        ensures 0 <= rightFirst[t].first < n && 0 <= rightFirst[t].last < n && rightFirst[t].first <= rightFirst[t].last + 1
      {
        assert rightFirst[t] == NarrowedInterval(rs'[t], ls'[t]);
        if 0 < t < |rs'| - 1 {
          assert rs'[t] - 1 <= ls'[t] <= rs'[t + 1] - 1;
          assert 1 <= rs'[t] && rs'[t + 1] < n;
        }
      }
    }

    ss := if |leftFirst| < |rightFirst| then leftFirst else rightFirst;
    assert RightFromLeft(id, ls, rs) && LeftFromRight(id, rs', ls');
    assert Zipped(leftFirst, ls, rs) && Zipped(rightFirst, ls', rs');
    NarrowedByIntro(id, n, ss, ls, rs, ls', rs');
  }

  // ---------------------------------------------------------------------------
  // Bisection
  // ---------------------------------------------------------------------------

  /** identify(i, j) as a function of the two indices. */
  type Oracle = (int, int) -> ResultAsElliptic

  /** What argMaxBisection searches over: the identifier, the answers so far, the interval and j. */
  datatype Bisection = Bisection(identify: Oracle, n: int, answers: seq<Option<Answer>>, plFirst: int, plLast: int, j: int)

  /** The identifier's results as an oracle (out-of-range pairs never reach it). */
  function OracleOf(id: MemoizingEllipticIdentifier): Oracle
  {
    (i: int, j: int) => if 0 <= i < |id.ts| && 0 <= j < |id.ts| then id.Expected(i, j) else ResultAsElliptic(false, 0.0)
  }

  /** The search of argMaxBisection(plFirst, plLast, j, answers, id). */
  function Context(id: MemoizingEllipticIdentifier, answers: seq<Option<Answer>>, plFirst: int, plLast: int, j: int): Bisection
  {
    Bisection(OracleOf(id), |id.ts|, answers, plFirst, plLast, j)
  }

  /** (int) Math.ceil(d / 2.0) */
  function CeilHalf(d: int): (h: int)
    ensures 2 * h - 1 <= d <= 2 * h
  {
    if d >= 0 then (d + 1) / 2 else -((-d) / 2)
  }

  /** Both indices of identify(k, j) lie in the table. */
  predicate InTable(c: Bisection, k: int)
  {
    0 <= k < c.n && 0 <= c.j < c.n
  }

  /** A value of the objective calcMuj: a grade or negative infinity. */
  datatype Mu = NegativeInfinity | MuValue(v: real)

  /** x < y on the objective's values. */
  predicate Below(x: Mu, y: Mu)
  {
    match (x, y)
    case (NegativeInfinity, MuValue(_)) => true
    case (MuValue(a), MuValue(b)) => a < b
    case _ => false
  }

  /**
   * calcMuj(k): 0 outside the interval; inside it, the answer for k must exist,
   * and the value is the smaller of the sub-curve's grade and the answer's grade
   * if the sub-curve from k to j is elliptic, negative infinity if it is not.
   */
  function CalcMu(c: Bisection, k: int): (r: Result<Mu, SegmentationError>)
    ensures k < c.plFirst || c.plLast < k ==> r == Success(MuValue(0.0))
    ensures r.Failure? <==> c.plFirst <= k <= c.plLast && !(0 <= k < |c.answers| && c.answers[k].Some? && InTable(c, k))
    ensures r.Failure? ==> r.error != IllegalState
    ensures r.Success? && c.plFirst <= k <= c.plLast ==>
      (c.identify(k, c.j).isElliptic ==> r.value == MuValue(Min(c.identify(k, c.j).grade, c.answers[k].value.grade)))
      && (!c.identify(k, c.j).isElliptic ==> r.value == NegativeInfinity)
  {
    if k < c.plFirst || c.plLast < k then Success(MuValue(0.0))
    else if !(0 <= k < |c.answers|) then Failure(IndexOutOfBounds)
    else if c.answers[k].None? then Failure(NullAnswer)
    else if !InTable(c, k) then Failure(IndexOutOfBounds)
    else
      var res := c.identify(k, c.j);
      if res.isElliptic then Success(MuValue(Min(res.grade, c.answers[k].value.grade)))
      else Success(NegativeInfinity)
  }

  /**
   * One round of the while loop of argMaxBisection from (a, b), a != b: probe the
   * index k just above the middle; a non-elliptic k or a rising objective moves a
   * past k, a non-rising objective moves b below k, and a peak ends the search at k.
   */
  function Step(c: Bisection, a: int, b: int): (r: Result<(int, int), SegmentationError>)
    ensures a < b && r.Success? ==> a <= r.value.0 && r.value.1 <= b && r.value.0 <= r.value.1 + 1 && r.value.1 - r.value.0 < b - a
    ensures var k := a + CeilHalf(b - a);
      InTable(c, k) && !c.identify(k, c.j).isElliptic ==> r == Success((k + 1, b))
    ensures r.Failure? ==> r.error != IllegalState
  {
    var k := a + CeilHalf(b - a);
    if !InTable(c, k) then Failure(IndexOutOfBounds)
    else if !c.identify(k, c.j).isElliptic then Success((k + 1, b))
    else
      var muK := CalcMu(c, k);
      if muK.Failure? then Failure(muK.error)
      else
        var muNext := CalcMu(c, k + 1);
        if muNext.Failure? then Failure(muNext.error)
        else if Below(muK.value, muNext.value) then Success((k + 1, b))
        else
          var muPrev := CalcMu(c, k - 1);
          if muPrev.Failure? then Failure(muPrev.error)
          else if !Below(muPrev.value, muK.value) then Success((a, k - 1))
          else Success((k, k))
  }

  /**
   * The bisection as intended: it stops as soon as a reaches b, and also when a
   * has passed b, returning a; it always terminates.
   */
  function Search(c: Bisection, a: int, b: int): (r: Result<int, SegmentationError>)
    ensures r.Success? && c.plFirst <= a && b <= c.plLast && a <= b + 1 ==> c.plFirst <= r.value <= c.plLast + 1
    ensures r.Failure? ==> r.error != IllegalState
    decreases if a < b then b - a else 0
  {
    if a >= b then Success(a)
    else
      var s := Step(c, a, b);
      if s.Failure? then Failure(s.error)
      else Search(c, s.value.0, s.value.1)
  }

  /** Where the bisection as written stands after some rounds. */
  datatype Outcome = Returned(k: int) | Thrown(error: SegmentationError) | Running

  /** argMaxBisection as written, for at most fuel rounds: it returns only when a == b. */
  function SearchAsWritten(c: Bisection, a: int, b: int, fuel: nat): Outcome
    decreases fuel
  {
    if a == b then Returned(a)
    else if fuel == 0 then Running
    else
      var s := Step(c, a, b);
      if s.Failure? then Thrown(s.error)
      else SearchAsWritten(c, s.value.0, s.value.1, fuel - 1)
  }

  /**
   * Once a is one or two past b, every round probes b + 1 and either stays in one
   * of these two states or ends at b + 1: the search as written returns nothing else.
   */
  lemma {:induction false} PastEndReturnsNext(c: Bisection, a: int, b: int, fuel: nat)
    requires a == b + 1 || a == b + 2
    ensures SearchAsWritten(c, a, b, fuel).Returned? ==> SearchAsWritten(c, a, b, fuel).k == b + 1
    decreases fuel
  {
    if fuel > 0 {
      assert a + CeilHalf(b - a) == b + 1;
      var s := Step(c, a, b);
      if s.Success? {
        var a', b' := s.value.0, s.value.1;
        if a' == b' {
          assert a' == b + 1;
        } else {
          assert b' == b && (a' == b + 1 || a' == b + 2);
          PastEndReturnsNext(c, a', b', fuel - 1);
        }
      }
    }
  }

  /** Whenever the search as written returns, the corrected search returns the same index. */
  lemma {:induction false} SearchAgrees(c: Bisection, a: int, b: int, fuel: nat)
    requires a <= b + 1
    ensures SearchAsWritten(c, a, b, fuel).Returned? ==> Search(c, a, b) == Success(SearchAsWritten(c, a, b, fuel).k)
    decreases fuel
  {
    if a == b + 1 {
      PastEndReturnsNext(c, a, b, fuel);
      assert Search(c, a, b) == Success(a);
    } else if a < b && fuel > 0 {
      var s := Step(c, a, b);
      if s.Success? {
        var a', b' := s.value.0, s.value.1;
        assert SearchAsWritten(c, a, b, fuel) == SearchAsWritten(c, a', b', fuel - 1);
        assert Search(c, a, b) == Search(c, a', b');
        SearchAgrees(c, a', b', fuel - 1);
      } else {
        assert SearchAsWritten(c, a, b, fuel) == Thrown(s.error);
      }
    } else if a < b {
      assert SearchAsWritten(c, a, b, fuel) == Running;
    } else {
      assert a == b && Search(c, a, b) == Success(a);
    }
  }

  /** An identifier that finds no sub-curve elliptic. */
  function NothingElliptic(): Oracle
  {
    (i: int, j: int) => ResultAsElliptic(false, 0.0)
  }

  /** Three search parameters, none elliptic, the interval [0, 1] and j = 2. */
  function HangingSearch(): Bisection
  {
    Bisection(NothingElliptic(), 3, [Some(Answer(1.0, Empty)), None], 0, 1, 2)
  }

  /** From a = 3, b = 1 every round probes k = 2, finds it non-elliptic and sets a = 3 again. */
  lemma {:induction false} StuckAtThree(fuel: nat)
    ensures SearchAsWritten(HangingSearch(), 3, 1, fuel) == Running
  {
    if fuel > 0 {
      assert Step(HangingSearch(), 3, 1) == Success((3, 1));
      StuckAtThree(fuel - 1);
    }
  }

  /**
   * argMaxBisection as written never returns on this input, however many rounds
   * it is given: from (0, 1) it probes 1, moves to (2, 1), probes 2 and moves to
   * (3, 1), where it stays. The corrected search returns 2, outside [0, 1].
   */
  lemma AsWrittenNeverReturns(fuel: nat)
    ensures SearchAsWritten(HangingSearch(), 0, 1, fuel) == Running
    ensures Search(HangingSearch(), 0, 1) == Success(2)
  {
    var c := HangingSearch();
    assert Step(c, 0, 1) == Success((2, 1));
    assert Step(c, 2, 1) == Success((3, 1));
    if fuel >= 2 {
      StuckAtThree(fuel - 2);
    }
  }

  /** calcMuj(k) with the identifier's table. */
  method CalcMuj(id: MemoizingEllipticIdentifier, answers: seq<Option<Answer>>, plFirst: int, plLast: int, j: int, k: int)
    returns (r: Result<Mu, SegmentationError>)
    requires id.Valid()
    modifies id.table
    ensures id.Valid()
    ensures r == CalcMu(Context(id, answers, plFirst, plLast, j), k)
  {
    if k < plFirst || plLast < k {
      return Success(MuValue(0.0));
    }
    if !(0 <= k < |answers|) {
      return Failure(IndexOutOfBounds);
    }
    if answers[k].None? {
      return Failure(NullAnswer);
    }
    if !(0 <= k < |id.ts| && 0 <= j < |id.ts|) {
      return Failure(IndexOutOfBounds);
    }
    var res := id.Identify(k, j);
    if res.isElliptic {
      r := Success(MuValue(Min(res.grade, answers[k].value.grade)));
    } else {
      r := Success(NegativeInfinity);
    }
  }

  /** One round of the loop of argMaxBisection with the identifier's table. */
  method BisectionRound(id: MemoizingEllipticIdentifier, answers: seq<Option<Answer>>, plFirst: int, plLast: int, j: int, a: int, b: int)
    returns (r: Result<(int, int), SegmentationError>)
    requires id.Valid()
    modifies id.table
    ensures id.Valid()
    ensures r == Step(Context(id, answers, plFirst, plLast, j), a, b)
  {
    var k := a + CeilHalf(b - a);
    if !(0 <= k < |id.ts| && 0 <= j < |id.ts|) {
      return Failure(IndexOutOfBounds);
    }
    var res := id.Identify(k, j);
    if !res.isElliptic {
      return Success((k + 1, b));
    }
    var muK := CalcMuj(id, answers, plFirst, plLast, j, k);
    if muK.Failure? {
      return Failure(muK.error);
    }
    var muNext := CalcMuj(id, answers, plFirst, plLast, j, k + 1);
    if muNext.Failure? {
      return Failure(muNext.error);
    }
    if Below(muK.value, muNext.value) {
      return Success((k + 1, b));
    }
    var muPrev := CalcMuj(id, answers, plFirst, plLast, j, k - 1);
    if muPrev.Failure? {
      return Failure(muPrev.error);
    }
    if !Below(muPrev.value, muK.value) {
      return Success((a, k - 1));
    }
    return Success((k, k));
  }

  /**
   * argMaxBisection(plFirst, plLast, j, answers, id), with the loop leaving as
   * soon as a is no longer below b.
   */
  method ArgMaxBisection(id: MemoizingEllipticIdentifier, plFirst: int, plLast: int, j: int, answers: seq<Option<Answer>>)
    returns (r: Result<int, SegmentationError>)
    requires id.Valid()
    modifies id.table
    ensures id.Valid()
    ensures r == Search(Context(id, answers, plFirst, plLast, j), plFirst, plLast)
  {
    ghost var c := Context(id, answers, plFirst, plLast, j);
    var a, b := plFirst, plLast;
    while a < b
      invariant id.Valid()
      invariant Search(c, a, b) == Search(c, plFirst, plLast)
      decreases b - a
    {
      var s := BisectionRound(id, answers, plFirst, plLast, j, a, b);
      if s.Failure? {
        return Failure(s.error);
      }
      a, b := s.value.0, s.value.1;
    }
    return Success(a);
  }

  // ---------------------------------------------------------------------------
  // The dynamic programme
  // ---------------------------------------------------------------------------

  /**
   * The split indices of the answer for index t: none for t = 0; otherwise they
   * start at 0, increase strictly and stay below t.
   */
  predicate Shape(l: seq<int>, t: int)
  {
    && (|l| == 0 <==> t == 0)
    && (|l| > 0 ==> l[0] == 0)
    && (forall i, i' :: 0 <= i < i' < |l| ==> l[i] < l[i'])
    && (forall i :: 0 <= i < |l| ==> 0 <= l[i] < t)
  }

  /** Appending a split k below t to the indices of the answer for k gives indices for t. */
  lemma ShapeExtend(l: seq<int>, k: int, t: int)
    requires Shape(l, k) && 0 <= k < t
    ensures Shape(l + [k], t)
  {
  }

  /**
   * The answer for t, if there is one, is chained to the answer for its last
   * split k: its grade is the smaller of k's grade and the grade of the sub-curve
   * from k to t, and its splits are k's followed by k.
   */
  predicate Chained(id: MemoizingEllipticIdentifier, answers: seq<Option<Answer>>, t: int)
    requires 0 <= t < |answers| <= |id.ts|
  {
    answers[t].Some? ==>
      var a := answers[t].value;
      && a.params.Cons?
      && var k := a.params.last;
      && 0 <= k < t
      && answers[k].Some?
      && a == Answer(Min(answers[k].value.grade, id.Expected(k, t).grade), Add(answers[k].value.params, k))
  }

  /** The answer for t, if there is one, has grade at most 1 and well-formed split indices. */
  predicate WellFormedAnswer(answers: seq<Option<Answer>>, t: int)
    requires 0 <= t < |answers|
  {
    answers[t].Some? ==>
      var a := answers[t].value;
      a.grade <= 1.0 && Built(a.params) && Shape(ParameterList(a.params), t)
  }

  /**
   * answerTable for 0 .. |answers| - 1: grade 1 and no splits for index 0, every
   * later answer chained to an earlier one, every answer well formed.
   */
  predicate AnswerTable(id: MemoizingEllipticIdentifier, answers: seq<Option<Answer>>)
  {
    && 1 <= |answers| <= |id.ts|
    && answers[0] == Some(Answer(1.0, Empty))
    && (forall t :: 1 <= t < |answers| ==> Chained(id, answers, t))
    && (forall t :: 0 <= t < |answers| ==> WellFormedAnswer(answers, t))
  }

  /** The answer for j = |answers| chained to the answer for k. */
  function NextAnswer(id: MemoizingEllipticIdentifier, answers: seq<Option<Answer>>, k: int): Answer
    requires 0 <= k < |answers| < |id.ts| && answers[k].Some?
  {
    var previous := answers[k].value;
    Answer(Min(previous.grade, id.Expected(k, |answers|).grade), Add(previous.params, k))
  }

  /** Appending the answer chained to k keeps the table. */
  lemma AppendAnswer(id: MemoizingEllipticIdentifier, answers: seq<Option<Answer>>, k: int)
    requires AnswerTable(id, answers) && |answers| < |id.ts|
    requires 0 <= k < |answers| && answers[k].Some?
    ensures AnswerTable(id, answers + [Some(NextAnswer(id, answers, k))])
  {
    var j := |answers|;
    var previous := answers[k].value;
    var answers' := answers + [Some(NextAnswer(id, answers, k))];
    assert WellFormedAnswer(answers, k);
    AddBuilt(previous.params, k);
    ShapeExtend(ParameterList(previous.params), k, j);
    assert Chained(id, answers', j);
    assert WellFormedAnswer(answers', j);
    forall t | 0 <= t < j
      ensures (t >= 1 ==> Chained(id, answers', t)) && WellFormedAnswer(answers', t)
    {
      assert answers'[t] == answers[t];
      assert WellFormedAnswer(answers, t);
      if t >= 1 && answers[t].Some? {
        assert Chained(id, answers, t);
        assert answers'[answers[t].value.params.last] == answers[answers[t].value.params.last];
      }
    }
  }

  /** Appending null keeps the table. */
  lemma AppendNull(id: MemoizingEllipticIdentifier, answers: seq<Option<Answer>>)
    requires AnswerTable(id, answers) && |answers| < |id.ts|
    ensures AnswerTable(id, answers + [None])
  {
    var answers' := answers + [None];
    forall t | 0 <= t < |answers|
      ensures (t >= 1 ==> Chained(id, answers', t)) && WellFormedAnswer(answers', t)
    {
      assert answers'[t] == answers[t];
      assert WellFormedAnswer(answers, t);
      if t >= 1 && answers[t].Some? {
        assert Chained(id, answers, t);
        assert answers'[answers[t].value.params.last] == answers[answers[t].value.params.last];
      }
    }
  }

  /**
   * The index into the narrowed intervals for j, after iteration j has moved it
   * on when the next interval starts at j.
   */
  function NextIndex(narrowed: seq<NarrowedInterval>, idx: int, j: int): int
    requires 0 <= idx && idx + 1 < |narrowed|
  {
    if narrowed[idx + 1].first == j then idx + 1 else idx
  }

  /**
   * The answer for j = |answers| chained through the interval before the current
   * one: the bisection over the interval must return, its index k must lie in the
   * interval, and the answer for k must exist.
   */
  function ChainTo(id: MemoizingEllipticIdentifier, answers: seq<Option<Answer>>, interval: NarrowedInterval)
    : (r: Result<Answer, SegmentationError>)
    requires AnswerTable(id, answers) && |answers| < |id.ts|
    ensures r.Success? ==>
      && r.value.params.Cons?
      && var k := r.value.params.last;
      && interval.first <= k <= interval.last && 0 <= k < |answers| && answers[k].Some?
      && Search(Context(id, answers, interval.first, interval.last, |answers|), interval.first, interval.last) == Success(k)
      && r.value == NextAnswer(id, answers, k)
  {
    var j := |answers|;
    var search := Search(Context(id, answers, interval.first, interval.last, j), interval.first, interval.last);
    if search.Failure? then Failure(search.error)
    else
      var k := search.value;
      if k < interval.first || interval.last < k then Failure(IllegalState)
      else if !(0 <= k < j) then Failure(IndexOutOfBounds)
      else if answers[k].None? then Failure(NullAnswer)
      else Success(NextAnswer(id, answers, k))
  }

  /**
   * The IllegalStateException of the chaining arises exactly when the bisection
   * returns the index one past the end of its interval: the only index outside
   * the interval it can return.
   */
  lemma ChainIllegalState(id: MemoizingEllipticIdentifier, answers: seq<Option<Answer>>, interval: NarrowedInterval)
    requires AnswerTable(id, answers) && |answers| < |id.ts| && interval.first <= interval.last + 1
    ensures ChainTo(id, answers, interval) == Failure(IllegalState) <==>
      Search(Context(id, answers, interval.first, interval.last, |answers|), interval.first, interval.last)
        == Success(interval.last + 1)
  {
    var c := Context(id, answers, interval.first, interval.last, |answers|);
    assert c.plFirst == interval.first && c.plLast == interval.last;
  }

  /**
   * Iteration j = |answers| of the loop of getBestDevidedParameters, from the
   * index idx into the narrowed intervals: the answer for j (null when j lies past
   * the current interval) and the new index, or the exception it throws. The
   * narrowed list must have a next interval, and j within the current one needs
   * the interval before it to chain through.
   */
  function Extend(id: MemoizingEllipticIdentifier, narrowed: seq<NarrowedInterval>, answers: seq<Option<Answer>>, idx: int)
    : (r: Result<(Option<Answer>, int), SegmentationError>)
    requires AnswerTable(id, answers) && |answers| < |id.ts| && 0 <= idx
    ensures idx + 1 >= |narrowed| ==> r == Failure(IndexOutOfBounds)
    ensures r.Success? ==> idx + 1 < |narrowed| && r.value.1 == NextIndex(narrowed, idx, |answers|)
    ensures r.Success? ==> (r.value.0.Some? <==> |answers| <= narrowed[r.value.1].last)
    ensures r.Success? && r.value.0.Some? ==> 1 <= r.value.1
    ensures r.Success? && r.value.0.Some? && 1 <= r.value.1 ==>
      ChainTo(id, answers, narrowed[r.value.1 - 1]) == Success(r.value.0.value)
  {
    var j := |answers|;
    if idx + 1 >= |narrowed| then Failure(IndexOutOfBounds)
    else
      var i := NextIndex(narrowed, idx, j);
      if j <= narrowed[i].last then
        if i == 0 then Failure(IndexOutOfBounds)
        else
          var chained := ChainTo(id, answers, narrowed[i - 1]);
          if chained.Failure? then Failure(chained.error)
          else Success((Some(chained.value), i))
      else Success((None, i))
  }

  /** An iteration that does not throw keeps the answer table. */
  lemma ExtendKeepsTable(id: MemoizingEllipticIdentifier, narrowed: seq<NarrowedInterval>, answers: seq<Option<Answer>>, idx: int)
    requires AnswerTable(id, answers) && |answers| < |id.ts| && 0 <= idx
    ensures var e := Extend(id, narrowed, answers, idx);
      e.Success? ==> AnswerTable(id, answers + [e.value.0])
  {
    var e := Extend(id, narrowed, answers, idx);
    if e.Success? {
      if e.value.0.Some? {
        var k := e.value.0.value.params.last;
        AppendAnswer(id, answers, k);
      } else {
        AppendNull(id, answers);
      }
    }
  }

  /**
   * The IllegalStateException of an iteration arises exactly when the bisection
   * over the interval before the current one returns the index one past its end.
   */
  lemma ExtendIllegalState(id: MemoizingEllipticIdentifier, narrowed: seq<NarrowedInterval>, answers: seq<Option<Answer>>, idx: int)
    requires AnswerTable(id, answers) && |answers| < |id.ts| && 0 <= idx
    requires forall t :: 0 <= t < |narrowed| ==> narrowed[t].first <= narrowed[t].last + 1
    ensures Extend(id, narrowed, answers, idx) == Failure(IllegalState) <==>
      && idx + 1 < |narrowed|
      && var i := NextIndex(narrowed, idx, |answers|);
      && 1 <= i && |answers| <= narrowed[i].last
      && var interval := narrowed[i - 1];
      && Search(Context(id, answers, interval.first, interval.last, |answers|), interval.first, interval.last)
        == Success(interval.last + 1)
  {
    if idx + 1 < |narrowed| {
      var i := NextIndex(narrowed, idx, |answers|);
      if 1 <= i && |answers| <= narrowed[i].last {
        ChainIllegalState(id, answers, narrowed[i - 1]);
      }
    }
  }

  /**
   * The loop of getBestDevidedParameters from j = |answers| on: the completed
   * table, or the exception of the first iteration that throws.
   */
  function BuildFrom(id: MemoizingEllipticIdentifier, narrowed: seq<NarrowedInterval>, answers: seq<Option<Answer>>, idx: int)
    : (r: Result<seq<Option<Answer>>, SegmentationError>)
    requires AnswerTable(id, answers) && 0 <= idx
    ensures r.Success? ==> |r.value| == |id.ts| && AnswerTable(id, r.value) && answers <= r.value
    decreases |id.ts| - |answers|
  {
    if |answers| == |id.ts| then Success(answers)
    else
      var e := Extend(id, narrowed, answers, idx);
      if e.Failure? then Failure(e.error)
      else
        ExtendKeepsTable(id, narrowed, answers, idx);
        BuildFrom(id, narrowed, answers + [e.value.0], e.value.1)
  }

  /** The answer table of getBestDevidedParameters over the narrowed intervals, starting from (1.0, empty) for index 0. */
  function Build(id: MemoizingEllipticIdentifier, narrowed: seq<NarrowedInterval>): Result<seq<Option<Answer>>, SegmentationError>
    requires 1 <= |id.ts|
  {
    BuildFrom(id, narrowed, [Some(Answer(1.0, Empty))], 0)
  }

  /**
   * A failure of the loop is the failure of one iteration: some table it has
   * built so far, extended by one iteration, throws that same exception.
   */
  lemma {:induction false} BuildFailsAtStep(id: MemoizingEllipticIdentifier, narrowed: seq<NarrowedInterval>, answers: seq<Option<Answer>>, idx: int)
    requires AnswerTable(id, answers) && 0 <= idx
    decreases |id.ts| - |answers|
    ensures BuildFrom(id, narrowed, answers, idx).Failure? ==>
      exists table, i :: && AnswerTable(id, table) && answers <= table && |table| < |id.ts| && 0 <= i
        && Extend(id, narrowed, table, i) == Failure(BuildFrom(id, narrowed, answers, idx).error)
  {
    if |answers| < |id.ts| {
      var e := Extend(id, narrowed, answers, idx);
      if e.Success? {
        ExtendKeepsTable(id, narrowed, answers, idx);
        var answers' := answers + [e.value.0];
        BuildFailsAtStep(id, narrowed, answers', e.value.1);
        if BuildFrom(id, narrowed, answers, idx).Failure? {
          var table, i :| && AnswerTable(id, table) && answers' <= table && |table| < |id.ts| && 0 <= i
            && Extend(id, narrowed, table, i) == Failure(BuildFrom(id, narrowed, answers', e.value.1).error);
          assert answers <= table;
        }
      }
    }
  }

  /**
   * The chaining step of the loop body: argMaxBisection over the interval, the
   * check that k lies in it, and the answer for j chained to the answer for k.
   */
  method ChainAnswer(id: MemoizingEllipticIdentifier, answers: seq<Option<Answer>>, interval: NarrowedInterval)
    returns (r: Result<Answer, SegmentationError>)
    requires id.Valid() && AnswerTable(id, answers) && |answers| < |id.ts|
    modifies id.table
    ensures id.Valid()
    ensures r == ChainTo(id, answers, interval)
  {
    var j := |answers|;
    var search := ArgMaxBisection(id, interval.first, interval.last, j, answers);
    if search.Failure? {
      return Failure(search.error);
    }
    var k := search.value;
    if k < interval.first || interval.last < k {
      return Failure(IllegalState);
    }
    if !(0 <= k < |answers|) {
      return Failure(IndexOutOfBounds);
    }
    if answers[k].None? {
      return Failure(NullAnswer);
    }
    var res := id.Identify(k, j);
    var previous := answers[k].value;
    var mu := Min(previous.grade, res.grade);
    var p := Add(previous.params, k);
    return Success(Answer(mu, p));
  }

  /**
   * The body of the loop of getBestDevidedParameters for j = |answers|: moves the
   * index into the narrowed intervals on, and adds the answer chained through the
   * interval before the current one when j is within the current interval, null
   * otherwise.
   */
  method Iterate(id: MemoizingEllipticIdentifier, narrowed: seq<NarrowedInterval>, answers: seq<Option<Answer>>, idx: int)
    returns (r: Result<(Option<Answer>, int), SegmentationError>)
    requires id.Valid() && AnswerTable(id, answers) && |answers| < |id.ts| && 0 <= idx
    modifies id.table
    ensures id.Valid()
    ensures r == Extend(id, narrowed, answers, idx)
  {
    var j := |answers|;
    if idx + 1 >= |narrowed| {
      return Failure(IndexOutOfBounds);
    }
    var i := idx;
    if narrowed[idx + 1].first == j {
      i := idx + 1;
    }
    if j <= narrowed[i].last {
      if i == 0 {
        return Failure(IndexOutOfBounds);
      }
      var chained := ChainAnswer(id, answers, narrowed[i - 1]);
      if chained.Failure? {
        return Failure(chained.error);
      }
      return Success((Some(chained.value), i));
    }
    return Success((None, i));
  }

  /**
   * The loop of getBestDevidedParameters over j = 1 .. n - 1: an answer for j
   * when j is within the current narrowed interval, null otherwise; the first
   * exception ends it.
   */
  method BuildAnswers(id: MemoizingEllipticIdentifier, narrowed: seq<NarrowedInterval>)
    returns (r: Result<seq<Option<Answer>>, SegmentationError>)
    requires id.Valid() && 1 <= |id.ts|
    modifies id.table
    ensures id.Valid()
    ensures r == Build(id, narrowed)
    ensures |id.ts| == 1 ==> r == Success([Some(Answer(1.0, Empty))])
    ensures r.Success? ==> |r.value| == |id.ts| && AnswerTable(id, r.value)
  {
    var n := |id.ts|;
    var answers := [Some(Answer(1.0, Empty))];
    var idx := 0;
    var j := 1;
    while j < n
      invariant 1 <= j <= n
      invariant id.Valid()
      invariant 0 <= idx
      invariant |answers| == j && AnswerTable(id, answers)
      invariant BuildFrom(id, narrowed, answers, idx) == Build(id, narrowed)
    {
      var step := Iterate(id, narrowed, answers, idx);
      if step.Failure? {
        return Failure(step.error);
      }
      ExtendKeepsTable(id, narrowed, answers, idx);
      answers, idx := answers + [step.value.0], step.value.1;
      j := j + 1;
    }
    return Success(answers);
  }

  /** The parameters at the indices l, the first index skipped. */
  function SplitParameters(ts: seq<real>, l: seq<int>): seq<real>
    requires forall i :: 0 <= i < |l| ==> 0 <= l[i] < |ts|
  {
    if |l| <= 1 then [] else seq(|l| - 1, q requires 0 <= q < |l| - 1 => ts[l[q + 1]])
  }

  /** The loop collecting the parameters at the given indices, the first index skipped. */
  method ParametersAfterFirst(searchParameters: seq<real>, l: seq<int>) returns (ps: seq<real>)
    requires forall i :: 0 <= i < |l| ==> 0 <= l[i] < |searchParameters|
    ensures ps == SplitParameters(searchParameters, l)
    ensures |ps| == if |l| == 0 then 0 else |l| - 1
    ensures forall q :: 0 <= q < |ps| ==> ps[q] == searchParameters[l[q + 1]]
  {
    ps := [];
    var i := 1;
    while i < |l|
      invariant 1 <= i <= |l| || (|l| == 0 && i == 1)
      invariant |ps| == i - 1
      invariant forall q :: 0 <= q < |ps| ==> ps[q] == searchParameters[l[q + 1]]
    {
      ps := ps + [searchParameters[l[i]]];
      i := i + 1;
    }
  }

  /** Strictly increasing indices strictly between 0 and n - 1. */
  predicate InteriorIndices(ks: seq<int>, n: int)
  {
    && (forall i :: 0 <= i < |ks| ==> 0 < ks[i] < n - 1)
    && (forall i, i' :: 0 <= i < i' < |ks| ==> ks[i] < ks[i'])
  }

  /** The split indices of the answer for the last index, which getBestDevidedParameters reads. */
  function LastSplits(answers: seq<Option<Answer>>): seq<int>
    requires 1 <= |answers| && answers[|answers| - 1].Some?
  {
    ParameterList(answers[|answers| - 1].value.params)
  }

  /**
   * The split indices of a well-formed answer for the last index are search
   * parameter indices, and the parameters after the first lie at strictly
   * increasing interior indices.
   */
  lemma LastSplitsInterior(ts: seq<real>, answers: seq<Option<Answer>>) returns (ks: seq<int>)
    requires 1 <= |answers| == |ts| && answers[|answers| - 1].Some? && WellFormedAnswer(answers, |answers| - 1)
    ensures forall i :: 0 <= i < |LastSplits(answers)| ==> 0 <= LastSplits(answers)[i] < |ts|
    ensures InteriorIndices(ks, |ts|) && |ks| == |SplitParameters(ts, LastSplits(answers))|
    ensures forall i :: 0 <= i < |ks| ==> SplitParameters(ts, LastSplits(answers))[i] == ts[ks[i]]
  {
    var l := LastSplits(answers);
    var n := |ts|;
    assert Shape(l, n - 1);
    ks := if |l| == 0 then [] else l[1..];
    if |l| > 0 {
      forall q | 0 <= q < |ks|
        ensures 0 < ks[q] < n - 1
      {
        assert ks[q] == l[q + 1] && l[0] < l[q + 1];
      }
    }
  }

  /** The narrowing followed by the answer table over it, for at least one search parameter. */
  method NarrowAndBuild(id: MemoizingEllipticIdentifier)
    returns (r: Result<seq<Option<Answer>>, SegmentationError>, ghost narrowed: seq<NarrowedInterval>)
    requires id.Valid() && 1 <= |id.ts|
    modifies id.table
    ensures Intervals(narrowed, |id.ts|) && NarrowedBy(id, |id.ts|, narrowed)
    ensures r == Build(id, narrowed)
    ensures |id.ts| == 1 ==> r == Success([Some(Answer(1.0, Empty))])
    ensures r.Success? ==> |r.value| == |id.ts| && AnswerTable(id, r.value)
  {
    var intervals := NarrowBoth(id, |id.ts|);
    narrowed := intervals;
    r := BuildAnswers(id, intervals);
  }

  /**
   * The last step of getBestDevidedParameters: the answer for the last index,
   * which must not be null, read off as the parameters at its split indices
   * without the leading 0.
   */
  method ReadBest(ts: seq<real>, answers: seq<Option<Answer>>) returns (r: Result<seq<real>, SegmentationError>)
    requires 1 <= |answers| == |ts| && WellFormedAnswer(answers, |answers| - 1)
    ensures answers[|answers| - 1].None? <==> r.Failure?
    ensures r.Failure? ==> r.error == NullAnswer
    ensures r.Success? ==>
      && answers[|answers| - 1].Some?
      && (forall i :: 0 <= i < |LastSplits(answers)| ==> 0 <= LastSplits(answers)[i] < |ts|)
      && r.value == SplitParameters(ts, LastSplits(answers))
    ensures r.Success? ==> exists ks :: (InteriorIndices(ks, |ts|) && |ks| == |r.value|
      && forall i :: 0 <= i < |ks| ==> r.value[i] == ts[ks[i]])
  {
    var n := |ts|;
    if answers[n - 1].None? {
      return Failure(NullAnswer);
    }
    ghost var ks := LastSplitsInterior(ts, answers);
    var ps := ParametersAfterFirst(ts, ParameterList(answers[n - 1].value.params));
    return Success(ps);
  }

  /**
   * getBestDevidedParameters once the narrowed intervals are known: the exception
   * of the loop, the NullPointerException of a null answer for the last index, or
   * the parameters at the split indices of that answer without the leading 0.
   */
  function BestDivided(id: MemoizingEllipticIdentifier, narrowed: seq<NarrowedInterval>): (r: Result<seq<real>, SegmentationError>)
    requires 1 <= |id.ts|
    ensures r.Failure? <==> Build(id, narrowed).Failure? || Build(id, narrowed).value[|id.ts| - 1].None?
    ensures r.Failure? && Build(id, narrowed).Success? ==> r.error == NullAnswer
  {
    var b := Build(id, narrowed);
    if b.Failure? then Failure(b.error)
    else if b.value[|b.value| - 1].None? then Failure(NullAnswer)
    else
      assert WellFormedAnswer(b.value, |b.value| - 1);
      Success(SplitParameters(id.ts, LastSplits(b.value)))
  }

  /** Strictly increasing integers from lo to hi grow by at least one per index. */
  lemma {:induction false} IncreasingSpread(xs: seq<int>, lo: int, hi: int, k: int)
    requires 0 <= lo <= k < hi <= |xs|
    requires forall t, u :: lo <= t < u < hi ==> xs[t] < xs[u]
    ensures xs[k] >= xs[lo] + (k - lo)
    decreases k - lo
  {
    if k > lo {
      IncreasingSpread(xs, lo, hi, k - 1);
    }
  }

  /** Reading the completed table as ReadBest does gives BestDivided. */
  lemma ReadIsBestDivided(id: MemoizingEllipticIdentifier, narrowed: seq<NarrowedInterval>, answers: seq<Option<Answer>>,
    r: Result<seq<real>, SegmentationError>)
    requires 1 <= |id.ts| && Build(id, narrowed) == Success(answers)
    requires answers[|answers| - 1].None? <==> r.Failure?
    requires r.Failure? ==> r.error == NullAnswer
    requires r.Success? ==>
      && answers[|answers| - 1].Some?
      && (forall i :: 0 <= i < |LastSplits(answers)| ==> 0 <= LastSplits(answers)[i] < |id.ts|)
      && r.value == SplitParameters(id.ts, LastSplits(answers))
    ensures r == BestDivided(id, narrowed)
  {
  }

  /** With two indices, leftGreedyP(2) adds a cut at 0 exactly when the sub-curve from 0 to 1 is not elliptic. */
  lemma TwoLeftCuts(id: MemoizingEllipticIdentifier, ls: seq<int>)
    requires |id.ts| == 2 && LeftGreedyCuts(id, 2, ls)
    ensures ls == if id.Elliptic(0, 1) then [0, 1] else [0, 0, 1]
  {
    IncreasingSpread(ls, 1, |ls|, |ls| - 1);
    if |ls| == 3 {
      assert CutAfter(id, ls, 0);
    } else {
      assert LeftSegment(id, ls, 0);
    }
  }

  /** With two indices, rightGreedyP(2) adds a cut at 1 exactly when the sub-curve from 0 to 1 is not elliptic. */
  lemma TwoRightCuts(id: MemoizingEllipticIdentifier, rs: seq<int>)
    requires |id.ts| == 2 && RightGreedyCuts(id, 2, rs)
    ensures rs == if id.Elliptic(0, 1) then [0, 1] else [0, 1, 1]
  {
    IncreasingSpread(rs, 0, |rs| - 1, |rs| - 2);
    if |rs| == 3 {
      assert CutBefore(id, rs, 1);
    } else {
      assert RightSegment(id, rs, 0);
    }
  }

  /**
   * With two search parameters, narrow(2) gives the intervals (0, 0) and (1, 1)
   * when the sub-curve between them is elliptic, and (0, 0), (1, 0), (1, 1)
   * when it is not.
   */
  lemma TwoIntervals(id: MemoizingEllipticIdentifier, narrowed: seq<NarrowedInterval>)
    requires |id.ts| == 2 && NarrowedBy(id, 2, narrowed)
    ensures narrowed == if id.Elliptic(0, 1) then [NarrowedInterval(0, 0), NarrowedInterval(1, 1)]
      else [NarrowedInterval(0, 0), NarrowedInterval(1, 0), NarrowedInterval(1, 1)]
  {
    var ls, rs, ls', rs' :|
      && LeftGreedyCuts(id, 2, ls) && RightFromLeft(id, ls, rs)
      && RightGreedyCuts(id, 2, rs') && LeftFromRight(id, rs', ls')
      && (if PairCount(ls, rs) < PairCount(ls', rs') then Zipped(narrowed, ls, rs) else Zipped(narrowed, ls', rs'));
    TwoLeftCuts(id, ls);
    TwoRightCuts(id, rs');
    TwoZipped(id, ls, rs, narrowed, rs', ls');
  }

  /** The pairs of the two passes for two indices, from their cut lists. */
  lemma TwoZipped(id: MemoizingEllipticIdentifier, ls: seq<int>, rs: seq<int>, narrowed: seq<NarrowedInterval>, rs': seq<int>, ls': seq<int>)
    requires |id.ts| == 2
    requires ls == if id.Elliptic(0, 1) then [0, 1] else [0, 0, 1]
    requires rs' == if id.Elliptic(0, 1) then [0, 1] else [0, 1, 1]
    requires RightFromLeft(id, ls, rs) && LeftFromRight(id, rs', ls')
    requires if PairCount(ls, rs) < PairCount(ls', rs') then Zipped(narrowed, ls, rs) else Zipped(narrowed, ls', rs')
    ensures narrowed == if id.Elliptic(0, 1) then [NarrowedInterval(0, 0), NarrowedInterval(1, 1)]
      else [NarrowedInterval(0, 0), NarrowedInterval(1, 0), NarrowedInterval(1, 1)]
  {
    if id.Elliptic(0, 1) {
      assert rs == [0, 1] && ls' == [0, 1];
    } else {
      assert ls == [0, 0, 1] && rs' == [0, 1, 1];
      assert ls[0] < rs[1] <= ls[1] + 1;
      assert rs'[1] - 1 <= ls'[1] <= rs'[2] - 1;
      assert rs == [0, 1, 1] && ls' == [0, 0, 1];
    }
  }

  /**
   * With two search parameters getBestDevidedParameters finds no split parameter
   * when the sub-curve between them is elliptic; when it is not, the answer for
   * index 1 is null and reading it throws.
   */
  lemma TwoParameters(id: MemoizingEllipticIdentifier, narrowed: seq<NarrowedInterval>)
    requires |id.ts| == 2 && NarrowedBy(id, 2, narrowed)
    ensures BestDivided(id, narrowed) == if id.Elliptic(0, 1) then Success([]) else Failure(NullAnswer)
  {
    TwoIntervals(id, narrowed);
    var init := [Some(Answer(1.0, Empty))];
    if id.Elliptic(0, 1) {
      var next := TwoElliptic(id, narrowed);
      assert ParameterList(next.params) == [0];
    } else {
      TwoNotElliptic(id, narrowed);
    }
  }

  /** The answer table for two indices and the intervals (0, 0), (1, 1): index 1 is chained to index 0. */
  lemma TwoElliptic(id: MemoizingEllipticIdentifier, narrowed: seq<NarrowedInterval>) returns (next: Answer)
    requires |id.ts| == 2 && narrowed == [NarrowedInterval(0, 0), NarrowedInterval(1, 1)]
    ensures next.params == Add(Empty, 0)
    ensures Build(id, narrowed) == Success([Some(Answer(1.0, Empty)), Some(next)])
  {
    var init := [Some(Answer(1.0, Empty))];
    assert Search(Context(id, init, 0, 0, 1), 0, 0) == Success(0);
    next := NextAnswer(id, init, 0);
    assert Extend(id, narrowed, init, 0) == Success((Some(next), 1));
    assert BuildFrom(id, narrowed, init + [Some(next)], 1) == Success(init + [Some(next)]);
    assert BuildFrom(id, narrowed, init, 0) == BuildFrom(id, narrowed, init + [Some(next)], 1);
    assert init + [Some(next)] == [Some(Answer(1.0, Empty)), Some(next)];
  }

  /** The answer table for two indices and the intervals (0, 0), (1, 0), (1, 1): index 1 is null. */
  lemma TwoNotElliptic(id: MemoizingEllipticIdentifier, narrowed: seq<NarrowedInterval>)
    requires |id.ts| == 2 && narrowed == [NarrowedInterval(0, 0), NarrowedInterval(1, 0), NarrowedInterval(1, 1)]
    ensures Build(id, narrowed) == Success([Some(Answer(1.0, Empty)), None])
  {
    var init := [Some(Answer(1.0, Empty))];
    assert Extend(id, narrowed, init, 0) == Success((None, 1));
    assert BuildFrom(id, narrowed, init + [None], 1) == Success(init + [None]);
    assert BuildFrom(id, narrowed, init, 0) == BuildFrom(id, narrowed, init + [None], 1);
    assert init + [None] == [Some(Answer(1.0, Empty)), None];
  }

  /**
   * getBestDevidedParameters for at least one search parameter, over the
   * identifier id: the narrowing, the answer table and the last answer read off.
   */
  method SearchBest(id: MemoizingEllipticIdentifier)
    returns (r: Result<seq<real>, SegmentationError>, ghost answers: seq<Option<Answer>>, ghost narrowed: seq<NarrowedInterval>)
    requires id.Valid() && 1 <= |id.ts|
    modifies id.table
    ensures Intervals(narrowed, |id.ts|) && NarrowedBy(id, |id.ts|, narrowed)
    ensures r == BestDivided(id, narrowed)
    ensures |id.ts| == 1 ==> r == Success([])
    ensures |id.ts| == 2 ==> r == if id.Elliptic(0, 1) then Success([]) else Failure(NullAnswer)
    ensures Build(id, narrowed).Success? ==> answers == Build(id, narrowed).value
    ensures Build(id, narrowed).Failure? ==> answers == []
  {
    var n := |id.ts|;
    answers := [];
    var built;
    built, narrowed := NarrowAndBuild(id);
    if n == 2 {
      TwoParameters(id, narrowed);
    }
    if built.Failure? {
      return Failure(built.error), answers, narrowed;
    }
    answers := built.value;
    r := ReadBest(id.ts, built.value);
    ReadIsBestDivided(id, narrowed, built.value, r);
    assert n == 1 ==> LastSplits(built.value) == [];
  }

  /**
   * What BestDivided reads off a completed table: a null answer for the last
   * index is a failure, and a success holds the parameters at the split indices
   * of that answer after the first, at strictly increasing interior indices.
   */
  lemma BestDividedReadsLast(id: MemoizingEllipticIdentifier, narrowed: seq<NarrowedInterval>, answers: seq<Option<Answer>>)
    requires 1 <= |id.ts| && Build(id, narrowed) == Success(answers)
    ensures |answers| == |id.ts| && AnswerTable(id, answers)
    ensures answers[|answers| - 1].None? ==> BestDivided(id, narrowed) == Failure(NullAnswer)
    ensures var r := BestDivided(id, narrowed);
      r.Success? ==>
        && answers[|answers| - 1].Some?
        && (forall i :: 0 <= i < |LastSplits(answers)| ==> 0 <= LastSplits(answers)[i] < |id.ts|)
        && r.value == SplitParameters(id.ts, LastSplits(answers))
        && exists ks :: (InteriorIndices(ks, |id.ts|) && |ks| == |r.value|
          && forall i :: 0 <= i < |ks| ==> r.value[i] == id.ts[ks[i]])
  {
    if answers[|answers| - 1].Some? {
      var ks := LastSplitsInterior(id.ts, answers);
    }
  }

  /**
   * getBestDevidedParameters over the identifier id for the search parameters,
   * with the narrowed intervals and the answer table it builds: the result is
   * BestDivided of the intervals, so a success holds the parameters at the split
   * indices of the answer for the last index, the leading 0 dropped, none of them
   * the first or the last search parameter; a null answer for the last index is a
   * failure, and so is every exception of the loop.
   */
  method GetBestDividedParameters(searchParameters: seq<real>, subcurve: (real, real) -> Possibilities)
    returns (r: Result<seq<real>, SegmentationError>, ghost id: MemoizingEllipticIdentifier,
      ghost answers: seq<Option<Answer>>, ghost narrowed: seq<NarrowedInterval>)
    ensures id.ts == searchParameters && id.subcurve == subcurve && id.Faithful()
    ensures |searchParameters| == 0 ==> r == Failure(IndexOutOfBounds)
    ensures 1 <= |searchParameters| ==> Intervals(narrowed, |searchParameters|) && NarrowedBy(id, |searchParameters|, narrowed)
    ensures 1 <= |searchParameters| ==> r == BestDivided(id, narrowed)
    ensures |searchParameters| == 1 ==> r == Success([])
    ensures |searchParameters| == 2 ==> r == if id.Elliptic(0, 1) then Success([]) else Failure(NullAnswer)
    ensures 1 <= |answers| ==> |answers| == |searchParameters| && AnswerTable(id, answers)
    ensures 1 <= |answers| ==> Build(id, narrowed) == Success(answers)
    ensures 1 <= |answers| && answers[|answers| - 1].None? ==> r == Failure(NullAnswer)
    ensures r.Success? ==>
      && 1 <= |answers| && answers[|answers| - 1].Some?
      && (forall i :: 0 <= i < |LastSplits(answers)| ==> 0 <= LastSplits(answers)[i] < |searchParameters|)
      && r.value == SplitParameters(searchParameters, LastSplits(answers))
    ensures r.Success? ==> exists ks :: (InteriorIndices(ks, |searchParameters|) && |ks| == |r.value|
      && forall i :: 0 <= i < |ks| ==> r.value[i] == searchParameters[ks[i]])
  {
    var n := |searchParameters|;
    var memo := new MemoizingEllipticIdentifier(searchParameters, subcurve);
    id, answers, narrowed := memo, [], [];
    if n == 0 {
      // The narrowing calls no identification for n = 0; answerTable.get(-1) then throws.
      return Failure(IndexOutOfBounds), id, answers, narrowed;
    }
    r, answers, narrowed := SearchBest(memo);
    if 1 <= |answers| {
      BestDividedReadsLast(memo, narrowed, answers);
    }
  }
}
