/** One clip pass against a pair of parallel bounds [lo, hi] on one axis, as
    the routine runs it twice: once on x (bounds clipLeft, clipRight) and once
    on y (bounds clipTop, clipBottom). The pass walks the directed edges of
    the closed polygon starting at vertex 0 and then going backwards through
    the indices n-1, ..., 1, and emits zero, one or two vertices per edge. */
module AxisClip {
  import opened Geometry

  predicate InSlab(v: Vertex, axis: Axis, lo: int, hi: int)
  {
    lo <= Along(v, axis) <= hi
  }

  /** Both endpoints of the edge lie strictly on the same outer side of the slab. */
  predicate EdgeOutside(p: Vertex, q: Vertex, axis: Axis, lo: int, hi: int)
  {
    (Along(p, axis) < lo && Along(q, axis) < lo) || (Along(p, axis) > hi && Along(q, axis) > hi)
  }

  /** The bound a coordinate outside the slab is clamped to. */
  function BoundFor(c: int, lo: int, hi: int): int
  {
    if c < lo then lo else hi
  }

  /** What the pass emits for the directed edge p -> q: the clip of the
      segment between their coordinates. */
  function ClipEdge(p: Vertex, q: Vertex, axis: Axis, lo: Int16, hi: Int16): (r: seq<Vertex>)
    requires lo <= hi
    ensures |r| <= 2
  {
    ClipSegment(Along(p, axis), Across(p, axis), Along(q, axis), Across(q, axis), axis, lo, hi)
  }

  /** What the pass emits for the edge from (c1, o1) to (c2, o2), c being the
      coordinate on the clipped axis and o the other one. A descending edge
      (c1 > c2) tests hi first, an ascending one lo first; the edge is
      quick-rejected when it lies wholly outside the slab; otherwise the start
      point is emitted, clamped onto the near bound by interpolation if it
      lies outside, and, if the end point lies outside, one more vertex is
      emitted on the far bound, interpolated from the end point towards the
      (possibly clamped) start point. Every call of Interpolate here meets its
      precondition, so no divisor is ever zero. */
  function ClipSegment(c1: Int16, o1: Int16, c2: Int16, o2: Int16, axis: Axis, lo: Int16, hi: Int16): (r: seq<Vertex>)
    requires lo <= hi
    ensures |r| <= 2
  {
    if c1 > c2 then
      if c1 < lo || c2 > hi then []
      else
        var start := if c1 > hi then OnAxis(axis, hi, Interpolate(o1, o2, c1, c2, hi)) else OnAxis(axis, c1, o1);
        [start] +
        if c2 < lo then [OnAxis(axis, lo, Interpolate(o2, Across(start, axis), c2, Along(start, axis), lo))]
        else []
    else
      if c2 < lo || c1 > hi then []
      else
        var start := if c1 < lo then OnAxis(axis, lo, Interpolate(o1, o2, c1, c2, lo)) else OnAxis(axis, c1, o1);
        [start] +
        if c2 > hi then [OnAxis(axis, hi, Interpolate(o2, Across(start, axis), c2, Along(start, axis), hi))]
        else []
  }

  /** ClipEdge described without reference to the edge's direction: nothing
      is emitted exactly when the edge lies outside the slab; every emitted
      vertex lies in the slab, and its other coordinate between the
      endpoints'; the start point is passed through unchanged when it lies in
      the slab and is otherwise placed exactly on the bound on its side; a
      second vertex appears exactly when the end point lies outside, and it
      sits exactly on the bound on the end point's side. */
  lemma ClipEdgeShape(p: Vertex, q: Vertex, axis: Axis, lo: Int16, hi: Int16)
    requires lo <= hi
    ensures var r := ClipEdge(p, q, axis, lo, hi);
      && (r == [] <==> EdgeOutside(p, q, axis, lo, hi))
      && (forall v | v in r :: InSlab(v, axis, lo, hi))
      && (forall v | v in r :: Between(Across(v, axis), Across(p, axis), Across(q, axis)))
      && (r != [] && InSlab(p, axis, lo, hi) ==> r[0] == p)
      && (r != [] && !InSlab(p, axis, lo, hi) ==> Along(r[0], axis) == BoundFor(Along(p, axis), lo, hi))
      && (|r| == 2 <==> r != [] && !InSlab(q, axis, lo, hi))
      && (|r| == 2 ==> Along(r[1], axis) == BoundFor(Along(q, axis), lo, hi))
  {
  }

  /** The k-th vertex of the walk: vertex 0 first, then n-1, n-2, ..., 1, and
      vertex 0 again at k == n, which closes the polygon. Edge k of the pass
      runs from Walk(s, k) to Walk(s, k + 1). */
  function Walk(s: seq<Vertex>, k: nat): Vertex
    requires 0 < |s| && k <= |s|
  {
    s[if k == 0 then 0 else |s| - k]
  }

  /** The walk's vertices in the order the pass visits them. */
  function WalkOrder(s: seq<Vertex>): seq<Vertex>
    requires 0 < |s|
  {
    seq(|s|, k requires 0 <= k < |s| => Walk(s, k))
  }

  /** The vertices the pass has emitted after its first k edges. Each edge
      adds at most two, so the output stays within twice the edge count. */
  function PassPrefix(s: seq<Vertex>, k: nat, axis: Axis, lo: Int16, hi: Int16): (r: seq<Vertex>)
    requires 0 < |s| && k <= |s| && lo <= hi
    ensures |r| <= 2 * k
  {
    if k == 0 then []
    else PassPrefix(s, k - 1, axis, lo, hi) + ClipEdge(Walk(s, k - 1), Walk(s, k), axis, lo, hi)
  }

  /** The whole pass: one edge per vertex. */
  function ClipPass(s: seq<Vertex>, axis: Axis, lo: Int16, hi: Int16): seq<Vertex>
    requires 0 < |s| && lo <= hi
  {
    PassPrefix(s, |s|, axis, lo, hi)
  }

  /** Every vertex the pass emits lies within [lo, hi] on the clipped axis. */
  lemma {:induction false} PassInSlab(s: seq<Vertex>, k: nat, axis: Axis, lo: Int16, hi: Int16)
    requires 0 < |s| && k <= |s| && lo <= hi
    ensures forall v | v in PassPrefix(s, k, axis, lo, hi) :: InSlab(v, axis, lo, hi)
  {
    if k > 0 {
      PassInSlab(s, k - 1, axis, lo, hi);
      var e := ClipEdge(Walk(s, k - 1), Walk(s, k), axis, lo, hi);
      ClipEdgeShape(Walk(s, k - 1), Walk(s, k), axis, lo, hi);
      assert PassPrefix(s, k, axis, lo, hi) == PassPrefix(s, k - 1, axis, lo, hi) + e;
    }
  }

  /** The pass never leaves the range [a, b] of the other coordinate that the
      input already spans: every interpolated coordinate lies between the two
      endpoints it was computed from. */
  lemma {:induction false} PassAcrossBounded(s: seq<Vertex>, k: nat, axis: Axis, lo: Int16, hi: Int16, a: int, b: int)
    requires 0 < |s| && k <= |s| && lo <= hi
    requires forall v | v in s :: a <= Across(v, axis) <= b
    ensures forall v | v in PassPrefix(s, k, axis, lo, hi) :: a <= Across(v, axis) <= b
  {
    if k > 0 {
      PassAcrossBounded(s, k - 1, axis, lo, hi, a, b);
      var p, q := Walk(s, k - 1), Walk(s, k);
      assert p in s && q in s;
      var e := ClipEdge(p, q, axis, lo, hi);
      ClipEdgeShape(p, q, axis, lo, hi);
      assert PassPrefix(s, k, axis, lo, hi) == PassPrefix(s, k - 1, axis, lo, hi) + e;
    }
  }

  /** Edge j of the walk lies outside the slab. */
  predicate EdgeRejected(s: seq<Vertex>, j: nat, axis: Axis, lo: Int16, hi: Int16)
    requires j < |s|
  {
    EdgeOutside(Walk(s, j), Walk(s, j + 1), axis, lo, hi)
  }

  /** Each of the first k edges of the walk lies outside the slab. */
  predicate AllEdgesOutside(s: seq<Vertex>, k: nat, axis: Axis, lo: Int16, hi: Int16)
    requires 0 < |s| && k <= |s|
  {
    k == 0 || (AllEdgesOutside(s, k - 1, axis, lo, hi) && EdgeRejected(s, k - 1, axis, lo, hi))
  }

  /** A prefix of the pass is empty exactly when every edge in it was rejected. */
  lemma {:induction false} EmptyPrefixRejectsAll(s: seq<Vertex>, k: nat, axis: Axis, lo: Int16, hi: Int16)
    requires 0 < |s| && k <= |s| && lo <= hi
    ensures PassPrefix(s, k, axis, lo, hi) == [] <==> AllEdgesOutside(s, k, axis, lo, hi)
  {
    if k > 0 {
      EmptyPrefixRejectsAll(s, k - 1, axis, lo, hi);
      ClipEdgeEmptyIff(Walk(s, k - 1), Walk(s, k), axis, lo, hi);
      PassPrefixStep(s, k - 1, axis, lo, hi);
    }
  }

  /** An edge yields no vertex exactly when both ends lie beyond the same bound. */
  lemma ClipEdgeEmptyIff(p: Vertex, q: Vertex, axis: Axis, lo: Int16, hi: Int16)
    requires lo <= hi
    ensures ClipEdge(p, q, axis, lo, hi) == [] <==> EdgeOutside(p, q, axis, lo, hi)
  {
  }

  /** When the first k edges are rejected, vertex k of the walk lies on the
      same side as vertex 0. */
  lemma {:induction false} RejectedWalkSameSide(s: seq<Vertex>, k: nat, axis: Axis, lo: Int16, hi: Int16)
    requires 0 < |s| && k <= |s| && lo <= hi
    requires AllEdgesOutside(s, k, axis, lo, hi)
    ensures Along(Walk(s, k), axis) < lo <==> Along(s[0], axis) < lo
    ensures Along(Walk(s, k), axis) > hi <==> Along(s[0], axis) > hi
  {
    if k > 0 {
      RejectedWalkSameSide(s, k - 1, axis, lo, hi);
    }
  }

  /** Rejecting the first m edges rejects the first k, for k <= m. */
  lemma {:induction false} AllEdgesOutsidePrefix(s: seq<Vertex>, k: nat, m: nat, axis: Axis, lo: Int16, hi: Int16)
    requires 0 < |s| && k <= m <= |s|
    requires AllEdgesOutside(s, m, axis, lo, hi)
    ensures AllEdgesOutside(s, k, axis, lo, hi)
  {
    if k < m {
      AllEdgesOutsidePrefix(s, k, m - 1, axis, lo, hi);
    }
  }

  /** With every vertex on one side, every edge is rejected. */
  lemma {:induction false} OneSideRejectsAll(s: seq<Vertex>, k: nat, axis: Axis, lo: Int16, hi: Int16)
    requires 0 < |s| && k <= |s|
    requires (forall v | v in s :: Along(v, axis) < lo) || (forall v | v in s :: Along(v, axis) > hi)
    ensures AllEdgesOutside(s, k, axis, lo, hi)
  {
    if k > 0 {
      OneSideRejectsAll(s, k - 1, axis, lo, hi);
      assert Walk(s, k - 1) in s && Walk(s, k) in s;
    }
  }

  /** Every edge of the walk lies outside exactly when all vertices lie
      below lo or all lie above hi. */
  lemma AllEdgesOutsideIff(s: seq<Vertex>, axis: Axis, lo: Int16, hi: Int16)
    requires 0 < |s| && lo <= hi
    ensures AllEdgesOutside(s, |s|, axis, lo, hi) <==>
            (forall v | v in s :: Along(v, axis) < lo) || (forall v | v in s :: Along(v, axis) > hi)
  {
    var n := |s|;
    if AllEdgesOutside(s, n, axis, lo, hi) {
      forall v | v in s
        ensures Along(v, axis) < lo <==> Along(s[0], axis) < lo
        ensures Along(v, axis) > hi <==> Along(s[0], axis) > hi
      {
        var i :| 0 <= i < n && s[i] == v;
        var k := if i == 0 then 0 else n - i;
        assert Walk(s, k) == v;
        AllEdgesOutsidePrefix(s, k, n, axis, lo, hi);
        RejectedWalkSameSide(s, k, axis, lo, hi);
      }
      AllEdgesOutsidePrefix(s, 1, n, axis, lo, hi);
      assert EdgeRejected(s, 0, axis, lo, hi);
    } else if (forall v | v in s :: Along(v, axis) < lo) || (forall v | v in s :: Along(v, axis) > hi) {
      OneSideRejectsAll(s, n, axis, lo, hi);
    }
  }

  /** The quick reject, for a whole pass: it emits nothing exactly when every
      input vertex lies below lo or every input vertex lies above hi. */
  lemma PassEmptyIff(s: seq<Vertex>, axis: Axis, lo: Int16, hi: Int16)
    requires 0 < |s| && lo <= hi
    ensures ClipPass(s, axis, lo, hi) == [] <==>
            (forall v | v in s :: Along(v, axis) < lo) || (forall v | v in s :: Along(v, axis) > hi)
  {
    EmptyPrefixRejectsAll(s, |s|, axis, lo, hi);
    AllEdgesOutsideIff(s, axis, lo, hi);
  }

  /** The walk has n steps and visits every one of the n vertices. */
  lemma WalkOrderElements(s: seq<Vertex>)
    requires 0 < |s|
    ensures |WalkOrder(s)| == |s|
    ensures forall v | v in WalkOrder(s) :: v in s
    ensures forall v | v in s :: v in WalkOrder(s)
  {
    var w := WalkOrder(s);
    forall v | v in s
      ensures v in w
    {
      var i :| 0 <= i < |s| && s[i] == v;
      assert w[if i == 0 then 0 else |s| - i] == v;
    }
  }

  /** Walking the walk order again restores the original order: vertex 0
      stays first, and the reversal of indices 1..n-1 undoes itself. */
  lemma WalkOrderInvolutive(s: seq<Vertex>)
    requires 0 < |s|
    ensures WalkOrder(WalkOrder(s)) == s
  {
    var w := WalkOrder(s);
    assert |w| == |s|;
    forall k | 0 <= k < |s|
      ensures WalkOrder(w)[k] == s[k]
    {
      if k > 0 {
        assert WalkOrder(w)[k] == w[|s| - k] == Walk(s, |s| - k);
      }
    }
  }

  /** A prefix of a pass over a polygon lying wholly in the slab emits each
      walked vertex once, unchanged. */
  lemma {:induction false} PassPrefixInside(s: seq<Vertex>, k: nat, axis: Axis, lo: Int16, hi: Int16)
    requires 0 < |s| && k <= |s| && lo <= hi
    requires forall v | v in s :: InSlab(v, axis, lo, hi)
    ensures PassPrefix(s, k, axis, lo, hi) == WalkOrder(s)[..k]
  {
    if k > 0 {
      PassPrefixInside(s, k - 1, axis, lo, hi);
      var p, q := Walk(s, k - 1), Walk(s, k);
      assert p in s && q in s;
      var w := WalkOrder(s);
      assert w[..k] == w[..k - 1] + [p];
      ClipEdgeShape(p, q, axis, lo, hi);
      assert ClipEdge(p, q, axis, lo, hi) == [p];
    }
  }

  /** Identity on contained input: a polygon inside the slab comes out as its
      own walk order, with the same vertex count. */
  lemma PassIdentity(s: seq<Vertex>, axis: Axis, lo: Int16, hi: Int16)
    requires 0 < |s| && lo <= hi
    requires forall v | v in s :: InSlab(v, axis, lo, hi)
    ensures ClipPass(s, axis, lo, hi) == WalkOrder(s)
  {
    PassPrefixInside(s, |s|, axis, lo, hi);
  }

  /** Crossing-point symmetry: for an edge with one endpoint p outside the
      slab and the other, q, inside it, walking p -> q emits only the crossing
      vertex and walking q -> p emits q and then the very same crossing
      vertex, because both interpolate from p with the same expression. */
  lemma CrossingSymmetric(p: Vertex, q: Vertex, axis: Axis, lo: Int16, hi: Int16)
    requires lo <= hi
    requires !InSlab(p, axis, lo, hi) && InSlab(q, axis, lo, hi)
    ensures |ClipEdge(p, q, axis, lo, hi)| == 1 && |ClipEdge(q, p, axis, lo, hi)| == 2
    ensures ClipEdge(q, p, axis, lo, hi)[0] == q
    ensures ClipEdge(p, q, axis, lo, hi)[0] == ClipEdge(q, p, axis, lo, hi)[1]
  {
  }

  /** The body of the pass's loop for one edge (c1, o1) -> (c2, o2), given
      by its coordinates along and across the clipped axis: it stores what
      ClipSegment emits at dst[pIndex], dst[pIndex + 1] and returns the
      advanced counter. A rejected edge stores nothing (the C routine jumps to
      the next edge). */
  method StoreEdge(dst: array<Vertex>, pIndex: Int16, c1: Int16, o1: Int16, c2: Int16, o2: Int16,
                   axis: Axis, lo: Int16, hi: Int16)
    returns (next: Int16)
    requires lo <= hi
    requires pIndex + 2 <= dst.Length && pIndex + 2 <= INT16_MAX && 0 <= pIndex
    modifies dst
    ensures pIndex <= next <= pIndex + 2
    ensures dst[pIndex..next] == ClipSegment(c1, o1, c2, o2, axis, lo, hi)
    ensures forall j | 0 <= j < dst.Length && !(pIndex <= j < next) :: dst[j] == old(dst[j])
  {
    next := pIndex;
    var rx1, ry1 := c1, o1;
    if rx1 > c2 {
      if rx1 < lo || c2 > hi {
        return;
      }
      if rx1 > hi {
        ry1 := Interpolate(ry1, o2, rx1, c2, hi);
        rx1 := hi;
      }
      dst[next] := OnAxis(axis, rx1, ry1);
      next := next + 1;
      if c2 < lo {
        dst[next] := OnAxis(axis, lo, Interpolate(o2, ry1, c2, rx1, lo));
        next := next + 1;
      }
    } else {
      if c2 < lo || rx1 > hi {
        return;
      }
      if rx1 < lo {
        ry1 := Interpolate(ry1, o2, rx1, c2, lo);
        rx1 := lo;
      }
      dst[next] := OnAxis(axis, rx1, ry1);
      next := next + 1;
      if c2 > hi {
        dst[next] := OnAxis(axis, hi, Interpolate(o2, ry1, c2, rx1, hi));
        next := next + 1;
      }
    }
  }

  /** Storing the next edge's vertices right after the emitted prefix
      extends the prefix by those vertices. */
  lemma Extend<T>(before: seq<T>, after: seq<T>, done: seq<T>, e: seq<T>, i: nat, j: nat)
    requires i <= j <= |after| == |before|
    requires before[..i] == done
    requires after[i..j] == e
    requires forall m | 0 <= m < i :: after[m] == before[m]
    ensures after[..j] == done + e
  {
    forall m | 0 <= m < j
      ensures after[..j][m] == (done + e)[m]
    {
      if m >= i {
        assert after[m] == after[i..j][m - i];
      }
    }
  }

  /** A buffer agrees with initial from index i on exactly when its suffix does. */
  lemma SuffixAgrees<T>(a: seq<T>, initial: seq<T>, i: nat)
    requires i <= |a| == |initial|
    requires forall m | i <= m < |a| :: a[m] == initial[m]
    ensures a == a[..i] + initial[i..]
  {
    assert a[i..] == initial[i..];
  }

  /** One more edge of the pass. */
  lemma PassPrefixStep(s: seq<Vertex>, k: nat, axis: Axis, lo: Int16, hi: Int16)
    requires 0 < |s| && k < |s| && lo <= hi
    ensures PassPrefix(s, k + 1, axis, lo, hi) == PassPrefix(s, k, axis, lo, hi) + ClipEdge(Walk(s, k), Walk(s, k + 1), axis, lo, hi)
  {
  }

  /** The pass as the routine runs it over a caller-owned array: vertex 0 is
      read first, a counter runs down from n, and each edge's vertices are
      stored at dst[pIndex] with pIndex counting up. The store happens in
      place in dst; nothing beyond the emitted vertices is touched. */
  method ClipAxis(src: array<Vertex>, n: Int16, axis: Axis, lo: Int16, hi: Int16, dst: array<Vertex>)
    returns (count: Int16)
    requires 1 <= n <= src.Length
    requires 2 * n <= dst.Length && 2 * n <= INT16_MAX
    requires lo <= hi
    requires src != dst
    modifies dst
    ensures count == |ClipPass(src[..n], axis, lo, hi)|
    ensures dst[..] == ClipPass(src[..n], axis, lo, hi) + old(dst[..])[count..]
  {
    ghost var s := src[..n];
    ghost var initial := dst[..];
    ghost var emitted: seq<Vertex> := [];
    ghost var done: nat := 0;
    var pIndex: Int16 := 0;
    var c1, o1 := Along(src[0], axis), Across(src[0], axis);
    var remaining: Int16 := n;
    while remaining > 0
      invariant 0 <= remaining <= n && done == n - remaining
      invariant c1 == Along(Walk(s, done), axis) && o1 == Across(Walk(s, done), axis)
      invariant 0 <= pIndex <= 2 * done
      invariant emitted == PassPrefix(s, done, axis, lo, hi)
      invariant dst[..pIndex] == emitted
      invariant forall m | pIndex <= m < dst.Length :: dst[m] == initial[m]
    {
      remaining := remaining - 1;
      var c2, o2 := Along(src[remaining], axis), Across(src[remaining], axis);
      assert src[remaining] == Walk(s, done + 1);
      ghost var before := dst[..];
      ghost var e := ClipSegment(c1, o1, c2, o2, axis, lo, hi);
      var next := StoreEdge(dst, pIndex, c1, o1, c2, o2, axis, lo, hi);
      Extend(before, dst[..], emitted, e, pIndex, next);
      PassPrefixStep(s, done, axis, lo, hi);
      emitted, done := emitted + e, done + 1;
      pIndex := next;
      // The end point becomes the next edge's start point, unclipped.
      c1, o1 := c2, o2;
    }
    count := pIndex;
    SuffixAgrees(dst[..], initial, count);
  }
}
