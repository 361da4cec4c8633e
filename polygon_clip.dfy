/** The whole routine: an x pass into the clip buffer, the early exit when
    fewer than three vertices survive it, and a y pass into the output. */
module PolygonClip {
  import opened Geometry
  import opened AxisClip

  /** What the routine produces. Either the x pass left fewer than three
      vertices and the routine returned their count without running the y
      pass, or both passes ran and the output polygon is the y pass's result. */
  datatype ClipResult = EarlyExit(firstPass: seq<Vertex>) | Clipped(polygon: seq<Vertex>)
  {
    /** The routine's return value. */
    function Count(): nat
    {
      match this
      case EarlyExit(firstPass) => |firstPass|
      case Clipped(polygon) => |polygon|
    }

    /** A count below three means the polygon is not visible. */
    predicate Visible()
    {
      Count() >= 3
    }
  }

  /** The x pass: vertex 0 first, then n-1 down to 1, clipped to [clipLeft, clipRight]. */
  function FirstPass(s: seq<Vertex>, rect: ClipRect): seq<Vertex>
    requires 0 < |s| && WellFormed(rect)
  {
    ClipPass(s, X, rect.clipLeft, rect.clipRight)
  }

  /** The routine on values: the x pass, then, unless it left fewer than
      three vertices, the y pass over its output, clipped to
      [clipTop, clipBottom]. */
  function TwoAxisClip(s: seq<Vertex>, rect: ClipRect): ClipResult
    requires 0 < |s| && WellFormed(rect)
  {
    var first := FirstPass(s, rect);
    if |first| < 3 then EarlyExit(first)
    else Clipped(ClipPass(first, Y, rect.clipTop, rect.clipBottom))
  }

  /** The routine over the caller's arrays. The x pass writes clipBuffer, the
      y pass writes clippedPolygon; on the early exit clippedPolygon is not
      touched. The output array must hold twice the x pass's count, which is
      what the y pass can emit; the counters need 4 * nVertices to fit in an
      int16. */
  method TwoAxisPolygonClip(sourcePolygon: array<Vertex>, nVertices: Int16, clipRectangle: ClipRect,
                            clipBuffer: array<Vertex>, clippedPolygon: array<Vertex>)
    returns (count: Int16)
    requires 1 <= nVertices <= sourcePolygon.Length && 4 * nVertices <= INT16_MAX
    requires WellFormed(clipRectangle)
    requires 2 * nVertices <= clipBuffer.Length
    requires 2 * |FirstPass(sourcePolygon[..nVertices], clipRectangle)| <= clippedPolygon.Length
    requires sourcePolygon != clipBuffer && sourcePolygon != clippedPolygon && clipBuffer != clippedPolygon
    modifies clipBuffer, clippedPolygon
    ensures count == TwoAxisClip(sourcePolygon[..nVertices], clipRectangle).Count()
    ensures var first := FirstPass(sourcePolygon[..nVertices], clipRectangle);
      clipBuffer[..] == first + old(clipBuffer[..])[|first|..]
    ensures match TwoAxisClip(sourcePolygon[..nVertices], clipRectangle)
      case EarlyExit(_) => clippedPolygon[..] == old(clippedPolygon[..])
      case Clipped(polygon) => clippedPolygon[..] == polygon + old(clippedPolygon[..])[count..]
  {
    var first := ClipAxis(sourcePolygon, nVertices, X, clipRectangle.clipLeft, clipRectangle.clipRight, clipBuffer);
    if first < 3 {
      return first;
    }
    assert clipBuffer[..first] == FirstPass(sourcePolygon[..nVertices], clipRectangle);
    count := ClipAxis(clipBuffer, first, Y, clipRectangle.clipTop, clipRectangle.clipBottom, clippedPolygon);
  }

  /** Rectangle containment: the x pass keeps every vertex within
      [clipLeft, clipRight], and every vertex of the output polygon lies in
      the rectangle. */
  lemma ClipInsideRect(s: seq<Vertex>, rect: ClipRect)
    requires 0 < |s| && WellFormed(rect)
    ensures forall v | v in FirstPass(s, rect) :: rect.clipLeft <= v.x <= rect.clipRight
    ensures TwoAxisClip(s, rect).Clipped? ==> forall v | v in TwoAxisClip(s, rect).polygon :: InRect(v, rect)
  {
    var first := FirstPass(s, rect);
    PassInSlab(s, |s|, X, rect.clipLeft, rect.clipRight);
    if |first| >= 3 {
      PassInSlab(first, |first|, Y, rect.clipTop, rect.clipBottom);
      PassAcrossBounded(first, |first|, Y, rect.clipTop, rect.clipBottom, rect.clipLeft, rect.clipRight);
    }
  }

  /** Count bound: the x pass emits at most 2n vertices and the y pass at
      most twice the x pass's count, so the result never exceeds 4n. */
  lemma ClipCountBound(s: seq<Vertex>, rect: ClipRect)
    requires 0 < |s| && WellFormed(rect)
    ensures |FirstPass(s, rect)| <= 2 * |s|
    ensures TwoAxisClip(s, rect).Clipped? ==> |TwoAxisClip(s, rect).polygon| <= 2 * |FirstPass(s, rect)|
    ensures TwoAxisClip(s, rect).Count() <= 4 * |s|
  {
  }

  /** Identity on contained polygons: each pass walks 0, n-1, ..., 1 and
      emits every vertex unchanged, so the two reversals cancel and the
      output is the source polygon itself. */
  lemma ClipIdentity(s: seq<Vertex>, rect: ClipRect)
    requires 0 < |s| && WellFormed(rect)
    requires forall v | v in s :: InRect(v, rect)
    ensures TwoAxisClip(s, rect).Count() == |s|
    ensures |s| >= 3 ==> TwoAxisClip(s, rect) == Clipped(s)
    ensures |s| < 3 ==> TwoAxisClip(s, rect) == EarlyExit(WalkOrder(s))
  {
    PassIdentity(s, X, rect.clipLeft, rect.clipRight);
    WalkOrderElements(s);
    var first := WalkOrder(s);
    if |s| >= 3 {
      PassIdentity(first, Y, rect.clipTop, rect.clipBottom);
      WalkOrderInvolutive(s);
    }
  }

  /** The x quick reject: the x pass emits nothing, and the routine returns
      0 without running the y pass, exactly when every vertex lies left of
      clipLeft or every vertex lies right of clipRight. */
  lemma ClipRejectX(s: seq<Vertex>, rect: ClipRect)
    requires 0 < |s| && WellFormed(rect)
    ensures TwoAxisClip(s, rect) == EarlyExit([]) <==>
            (forall v | v in s :: v.x < rect.clipLeft) || (forall v | v in s :: v.x > rect.clipRight)
  {
    PassEmptyIff(s, X, rect.clipLeft, rect.clipRight);
  }

  /** The y quick reject: when every vertex lies above clipTop or every
      vertex lies below clipBottom, the polygon is not visible; if the y pass
      runs at all, it emits nothing. */
  lemma ClipRejectY(s: seq<Vertex>, rect: ClipRect)
    requires 0 < |s| && WellFormed(rect)
    requires (forall v | v in s :: v.y < rect.clipTop) || (forall v | v in s :: v.y > rect.clipBottom)
    ensures !TwoAxisClip(s, rect).Visible()
    ensures TwoAxisClip(s, rect).Clipped? ==> TwoAxisClip(s, rect).polygon == []
  {
    var first := FirstPass(s, rect);
    if |first| >= 3 {
      if forall v | v in s :: v.y < rect.clipTop {
        PassAcrossBounded(s, |s|, X, rect.clipLeft, rect.clipRight, INT16_MIN, rect.clipTop - 1);
      } else {
        PassAcrossBounded(s, |s|, X, rect.clipLeft, rect.clipRight, rect.clipBottom + 1, INT16_MAX);
      }
      PassEmptyIff(first, Y, rect.clipTop, rect.clipBottom);
    }
  }

  /** The x pass of the unit-square case: the edge along x == 0 is rejected,
      and the edges from (0,10) and to (0,0) are clamped to x == 5. */
  lemma SquareFirstPass()
    ensures FirstPass([Vertex(0, 0), Vertex(10, 0), Vertex(10, 10), Vertex(0, 10)], ClipRect(5, 15, -5, 5))
            == [Vertex(5, 10), Vertex(10, 10), Vertex(10, 0), Vertex(5, 0)]
  {
    var s := [Vertex(0, 0), Vertex(10, 0), Vertex(10, 10), Vertex(0, 10)];
    assert PassPrefix(s, 1, X, 5, 15) == [];
    assert PassPrefix(s, 2, X, 5, 15) == [Vertex(5, 10)];
    assert PassPrefix(s, 3, X, 5, 15) == [Vertex(5, 10), Vertex(10, 10)];
  }

  /** The unit-square case: the square (0,0), (10,0), (10,10), (0,10) clipped
      to x in [5, 15], y in [-5, 5] is the square (5,5), (5,0), (10,0),
      (10,5), listed from the vertex the second pass reaches first. */
  lemma SquareExample()
    ensures TwoAxisClip([Vertex(0, 0), Vertex(10, 0), Vertex(10, 10), Vertex(0, 10)], ClipRect(5, 15, -5, 5))
            == Clipped([Vertex(5, 5), Vertex(5, 0), Vertex(10, 0), Vertex(10, 5)])
  {
    SquareFirstPass();
    var f := [Vertex(5, 10), Vertex(10, 10), Vertex(10, 0), Vertex(5, 0)];
    assert PassPrefix(f, 1, Y, -5, 5) == [Vertex(5, 5)];
    assert PassPrefix(f, 2, Y, -5, 5) == [Vertex(5, 5), Vertex(5, 0)];
    assert PassPrefix(f, 3, Y, -5, 5) == [Vertex(5, 5), Vertex(5, 0), Vertex(10, 0), Vertex(10, 5)];
  }

  /** A vertex on the boundary can be emitted twice: the triangle (0,0),
      (10,0), (5,10) clipped at clipLeft == 5 gives (5,10) once as the
      clamped end of the edge from (0,0) and again as the unclipped start
      of the next edge. */
  lemma DuplicateVertexExample()
    ensures FirstPass([Vertex(0, 0), Vertex(10, 0), Vertex(5, 10)], ClipRect(5, 100, -100, 100))
            == [Vertex(5, 10), Vertex(5, 10), Vertex(10, 0), Vertex(5, 0)]
  {
    var s := [Vertex(0, 0), Vertex(10, 0), Vertex(5, 10)];
    assert PassPrefix(s, 1, X, 5, 100) == [Vertex(5, 10)];
    assert PassPrefix(s, 2, X, 5, 100) == [Vertex(5, 10), Vertex(5, 10)];
    assert PassPrefix(s, 3, X, 5, 100) == [Vertex(5, 10), Vertex(5, 10), Vertex(10, 0), Vertex(5, 0)];
  }

  /** The x pass of the seven-vertex triangle below. */
  lemma SevenVertexFirstPass()
    ensures FirstPass([Vertex(5, 13), Vertex(13, 5), Vertex(-38, -30)], ClipRect(0, 10, 0, 10))
            == [Vertex(5, 13), Vertex(0, 8), Vertex(0, -4), Vertex(10, 3), Vertex(10, 8)]
  {
    var s := [Vertex(5, 13), Vertex(13, 5), Vertex(-38, -30)];
    assert PassPrefix(s, 1, X, 0, 10) == [Vertex(5, 13), Vertex(0, 8)];
    assert PassPrefix(s, 2, X, 0, 10) == [Vertex(5, 13), Vertex(0, 8), Vertex(0, -4), Vertex(10, 3)];
  }

  /** A triangle whose output needs seven vertices, one more than the
      2 * nVertices the routine's documentation asks of the output buffer. */
  lemma SevenVertexTriangle()
    ensures var r := TwoAxisClip([Vertex(5, 13), Vertex(13, 5), Vertex(-38, -30)], ClipRect(0, 10, 0, 10));
      r.Count() == 7 && r.Count() > 2 * 3
  {
    SevenVertexFirstPass();
    var f := [Vertex(5, 13), Vertex(0, 8), Vertex(0, -4), Vertex(10, 3), Vertex(10, 8)];
    assert PassPrefix(f, 1, Y, 0, 10) == [Vertex(8, 10)];
    assert PassPrefix(f, 2, Y, 0, 10) == [Vertex(8, 10), Vertex(10, 8)];
    assert PassPrefix(f, 3, Y, 0, 10) == [Vertex(8, 10), Vertex(10, 8), Vertex(10, 3), Vertex(5, 0)];
    assert PassPrefix(f, 4, Y, 0, 10) == [Vertex(8, 10), Vertex(10, 8), Vertex(10, 3), Vertex(5, 0), Vertex(0, 0)];
  }
}
