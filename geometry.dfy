/** Integer geometry shared by both clip passes: 16-bit coordinates, vertices,
    the clip rectangle, C's truncating division and the interpolation that
    places a vertex on a clip bound. */
module Geometry {

  const INT16_MIN: int := -32768
  const INT16_MAX: int := 32767

  const INT32_MIN: int := -0x8000_0000
  const INT32_MAX: int := 0x7fff_ffff

  datatype Option<T> = None | Some(value: T)

  /** The range of C's int16_t, in which every stored coordinate and counter lives. */
  type Int16 = x: int | -32768 <= x <= 32767

  /** A polygon vertex. Two vertices with equal coordinates are the same vertex. */
  datatype Vertex = Vertex(x: Int16, y: Int16)

  /** The clipping rectangle. The x-pass clips to [clipLeft, clipRight], the
      y-pass to [clipTop, clipBottom]: clipTop is the low bound. */
  datatype ClipRect = ClipRect(clipLeft: Int16, clipRight: Int16, clipTop: Int16, clipBottom: Int16)

  /** The caller's obligation on the rectangle: both bound pairs are ordered. */
  predicate WellFormed(r: ClipRect)
  {
    r.clipLeft <= r.clipRight && r.clipTop <= r.clipBottom
  }

  predicate InRect(v: Vertex, r: ClipRect)
  {
    r.clipLeft <= v.x <= r.clipRight && r.clipTop <= v.y <= r.clipBottom
  }

  /** The axis a pass clips against. */
  datatype Axis = X | Y

  /** The coordinate on the clipped axis. */
  function Along(v: Vertex, axis: Axis): Int16
  {
    match axis
    case X => v.x
    case Y => v.y
  }

  /** The coordinate on the other axis, the one a pass interpolates. */
  function Across(v: Vertex, axis: Axis): Int16
  {
    match axis
    case X => v.y
    case Y => v.x
  }

  /** The vertex with the given coordinate on the clipped axis and on the other one. */
  function OnAxis(axis: Axis, along: Int16, across: Int16): (v: Vertex)
    ensures Along(v, axis) == along && Across(v, axis) == across
  {
    match axis
    case X => Vertex(along, across)
    case Y => Vertex(across, along)
  }

  /** v lies on the closed segment of integers between a and b, in either order. */
  predicate Between(v: int, a: int, b: int)
  {
    (a <= v <= b) || (b <= v <= a)
  }

  function Abs(a: int): nat
  {
    if a < 0 then -a else a
  }

  /** C's integer division: the quotient is truncated toward zero. Dafny's own
      `/` is Euclidean and differs from it for negative operands. */
  function TDiv(a: int, b: int): int
    requires b != 0
  {
    if (a < 0) == (b < 0) then Abs(a) / Abs(b) else -(Abs(a) / Abs(b))
  }

  /** TDiv obeys C's division law: the remainder a - b * q is smaller than the
      divisor in magnitude and is zero or has the sign of the dividend, and the
      quotient never overshoots |a| / |b|. */
  lemma TDivLaw(a: int, b: int)
    requires b != 0
    ensures Abs(a - b * TDiv(a, b)) < Abs(b)
    ensures a - b * TDiv(a, b) == 0 || (a - b * TDiv(a, b) < 0 <==> a < 0)
    ensures Abs(TDiv(a, b)) * Abs(b) <= Abs(a)
  {
    var k := Abs(a) / Abs(b);
    var r := Abs(a) % Abs(b);
    DivMod(Abs(a), Abs(b));
    TruncationLaw(a, b, TDiv(a, b), k, r);
  }

  lemma DivMod(x: nat, y: nat)
    requires y > 0
    ensures x == y * (x / y) + x % y && 0 <= x % y < y && x / y >= 0
  {
  }

  /** The sign bookkeeping of TDivLaw, kept apart from `/` and `%`. */
  lemma TruncationLaw(a: int, b: int, q: int, k: int, r: int)
    requires b != 0 && k >= 0 && 0 <= r < Abs(b)
    requires Abs(a) == Abs(b) * k + r
    requires q == if (a < 0) == (b < 0) then k else -k
    ensures Abs(a - b * q) < Abs(b)
    ensures a - b * q == 0 || (a - b * q < 0 <==> a < 0)
    ensures Abs(q) * Abs(b) <= Abs(a)
  {
    if b < 0 {
      assert b * q == -(Abs(b) * q);
    } else {
      assert b * q == Abs(b) * q;
    }
    if q < 0 {
      assert Abs(b) * q == -(Abs(b) * k);
    }
    assert Abs(q) * Abs(b) == Abs(b) * k;
  }

  /** Multiplication by a natural number is monotone. */
  lemma {:induction false} MulMonotone(a: nat, b: int, c: int)
    requires b <= c
    ensures a * b <= a * c
  {
    if a > 0 {
      MulMonotone(a - 1, b, c);
      assert a * b == (a - 1) * b + b;
      assert a * c == (a - 1) * c + c;
    }
  }

  /** With 0 <= t <= w, scaling m by t / w, rounded down, stays within [0, m];
      with t == w it gives back m exactly. */
  lemma ScaleDownBound(m: nat, t: nat, w: nat)
    requires 0 < w && t <= w
    ensures 0 <= (m * t) / w <= m
    ensures t == w ==> (m * t) / w == m
  {
    var p := m * t;
    var q := p / w;
    assert p == w * q + p % w;
    MulMonotone(m, t, w);
    assert w * q <= w * m;
    if q > m {
      MulMonotone(w, m + 1, q);
      assert false;
    }
    if t == w {
      if q < m {
        MulMonotone(w, q + 1, m);
        assert false;
      }
    }
  }

  /** Abs distributes over a product. */
  lemma AbsMul(a: int, b: int)
    ensures Abs(a * b) == Abs(a) * Abs(b)
    ensures (a * b < 0) <==> (a != 0 && b != 0 && ((a < 0) != (b < 0)))
  {
    if a < 0 && b < 0 {
      assert a * b == (-a) * (-b);
    } else if a < 0 {
      assert a * b == -((-a) * b);
      if b > 0 {
        assert (-a) * b > 0;
      }
    } else if b < 0 {
      assert a * b == -(a * (-b));
      if a > 0 {
        assert a * (-b) > 0;
      }
    } else {
      assert a * b >= 0;
    }
  }

  /** The crossing point the clipper computes: starting from the endpoint
      (c1, o1) it moves across by (o2 - o1) * (bound - c1), divided with
      truncation by (c2 - c1). The divisor is nonzero and, because bound lies
      between c1 and c2, the result lies between o1 and o2 (so it fits back in
      an int16); at either endpoint it is that endpoint's coordinate. */
  function Interpolate(o1: int, o2: int, c1: int, c2: int, bound: int): (r: int)
    requires c1 != c2
    requires Between(bound, c1, c2)
    ensures Between(r, o1, o2)
    ensures bound == c1 ==> r == o1
    ensures bound == c2 ==> r == o2
  {
    var d, t, w := o2 - o1, bound - c1, c2 - c1;
    var q := TDiv(d * t, w);
    assert Between(q, 0, d) && (t == w ==> q == d) by {
      var k := (Abs(d) * Abs(t)) / Abs(w);
      ScaleDownBound(Abs(d), Abs(t), Abs(w));
      AbsMul(d, t);
      assert q == if d >= 0 then k else -k;
    }
    o1 + q
  }

  /** Coordinates in the lower half of the int16 range, whose differences
      stay within 32767 in magnitude. */
  predicate HalfRange(v: int)
  {
    -16384 <= v <= 16383
  }

  /** The interpolation as the C expression evaluates it where int is 32 bits
      wide: the int16 operands are promoted to int and the product
      (o2 - o1) * (bound - c1) is formed in int before the division. A product
      outside int's range is undefined behaviour, returned here as None. When
      the coordinates and the bound lie in the half range, no product can
      overflow and C computes exactly the value Interpolate gives. */
  function CInterpolate(o1: Int16, o2: Int16, c1: Int16, c2: Int16, bound: Int16): (r: Option<int>)
    requires c1 != c2
    requires Between(bound, c1, c2)
    ensures HalfRange(o1) && HalfRange(o2) && HalfRange(c1) && HalfRange(bound) ==>
            r == Some(Interpolate(o1, o2, c1, c2, bound))
  {
    var d, t := o2 - o1, bound - c1;
    var product := d * t;
    assert HalfRange(o1) && HalfRange(o2) && HalfRange(c1) && HalfRange(bound) ==>
           INT32_MIN <= product <= INT32_MAX by {
      if HalfRange(o1) && HalfRange(o2) && HalfRange(c1) && HalfRange(bound) {
        AbsMul(d, t);
        MulMonotone(Abs(d), Abs(t), 32767);
        MulMonotone(32767, Abs(d), 32767);
      }
    }
    if product < INT32_MIN || INT32_MAX < product then None
    else Some(o1 + TDiv(product, c2 - c1))
  }

  /** The product overflows int for coordinates well inside the int16 range:
      clamping the edge from (30000, -30000) to (-30000, 30000) at x == -20000
      forms 60000 * -50000, below INT32_MIN, although the exact crossing
      y == 20000 fits in an int16. */
  lemma InterpolateOverflowExample()
    ensures CInterpolate(-30000, 30000, 30000, -30000, -20000) == None
    ensures Interpolate(-30000, 30000, 30000, -30000, -20000) == 20000
  {
    assert (30000 - -30000) * (-20000 - 30000) == -3000000000;
    assert TDiv(-3000000000, -60000) == 50000;
  }
}
