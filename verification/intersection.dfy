/** An exact segment intersection over the reals, one concrete choice for
    the intersection primitive the search is written against. Parallel and
    degenerate segments have no crossing point. */
module ExactIntersection {
  import opened Wrappers
  import opened Geometry

  /** `n / d` lies in [0, 1], decided without dividing. */
  predicate UnitRatio(n: real, d: real)
    requires d != 0.0
  {
    if d > 0.0 then 0.0 <= n <= d else d <= n <= 0.0
  }

  /** The crossing point of `s1` and `s2`, found from the two segment
      parameters, or `None` when the segments are parallel or the lines
      cross outside either segment. */
  function Intersect(s1: Segment, s2: Segment): (r: Option<Point>)
    ensures r.Some? ==> Cross(Sub(s1.b, s1.a), Sub(s2.b, s2.a)) != 0.0
  {
    var d := Cross(Sub(s1.b, s1.a), Sub(s2.b, s2.a));
    if d == 0.0 then None
    else
      var w := Sub(s2.a, s1.a);
      var tn := Cross(w, Sub(s2.b, s2.a));
      var un := Cross(w, Sub(s1.b, s1.a));
      if UnitRatio(tn, d) && UnitRatio(un, d) then Some(Lerp(s1, tn / d)) else None
  }

  /** The division-free test agrees with the quotient. */
  lemma UnitRatioQuotient(n: real, d: real)
    requires d != 0.0
    ensures UnitRatio(n, d) <==> 0.0 <= n / d <= 1.0
  {
    var q := n / d;
    assert q * d == n;
    if d > 0.0 {
      if 0.0 <= q {
        assert 0.0 <= q * d;
      }
      if q <= 1.0 {
        assert q * d <= d;
      }
      if 0.0 <= n {
        assert 0.0 <= q;
      }
      if n <= d {
        assert q <= 1.0;
      }
    } else {
      if 0.0 <= q {
        assert q * d <= 0.0;
      }
      if q <= 1.0 {
        assert d <= q * d;
      }
      if n <= 0.0 {
        assert 0.0 <= q;
      }
      if d <= n {
        assert q <= 1.0;
      }
    }
  }

  /** Solving the two-line system: with `d` the cross product of the
      directions `r` and `s`, the parameters `t` and `u` with `t * d` and
      `u * d` equal to the cross products of `w` give the same point on
      both lines. */
  lemma LineParameters(w: Point, r: Point, s: Point, d: real, t: real, u: real)
    requires d == Cross(r, s) && d != 0.0
    requires t * d == Cross(w, s) && u * d == Cross(w, r)
    ensures Scale(t, r) == Add(w, Scale(u, s))
  {
    assert (t * r.x - u * s.x) * d == w.x * d by {
      assert (t * r.x) * d == Cross(w, s) * r.x;
      assert (u * s.x) * d == Cross(w, r) * s.x;
    }
    assert (t * r.y - u * s.y) * d == w.y * d by {
      assert (t * r.y) * d == Cross(w, s) * r.y;
      assert (u * s.y) * d == Cross(w, r) * s.y;
    }
    CancelFactor(t * r.x - u * s.x, w.x, d);
    CancelFactor(t * r.y - u * s.y, w.y, d);
  }

  /** A non-zero factor cancels. */
  lemma CancelFactor(a: real, b: real, d: real)
    requires d != 0.0 && a * d == b * d
    ensures a == b
  {
    assert (a - b) * d == 0.0;
  }

  /** Whatever the exact intersection reports lies on both segments. */
  lemma IntersectSound(s1: Segment, s2: Segment)
    ensures SoundOn(Intersect, s1, s2)
  {
    if Intersect(s1, s2).Some? {
      var r := Sub(s1.b, s1.a);
      var s := Sub(s2.b, s2.a);
      var d := Cross(r, s);
      var w := Sub(s2.a, s1.a);
      var t := Cross(w, s) / d;
      var u := Cross(w, r) / d;
      UnitRatioQuotient(Cross(w, s), d);
      UnitRatioQuotient(Cross(w, r), d);
      var p := Intersect(s1, s2).value;
      assert p == Lerp(s1, t);
      LineParameters(w, r, s, d, t, u);
      assert p == Lerp(s2, u);
    }
  }

  /** A single point is never crossed: the degenerate first edge of a
      closed locus contributes nothing. */
  lemma DegenerateMissed(s1: Segment, p: Point)
    ensures Intersect(s1, Segment(p, p)) == None
  {
    assert Sub(p, p) == Point(0.0, 0.0);
  }

  /** A search ray that is a single point crosses nothing. */
  lemma DegenerateRayMisses(p: Point, s2: Segment)
    ensures Intersect(Segment(p, p), s2) == None
  {
    assert Sub(p, p) == Point(0.0, 0.0);
  }
}
