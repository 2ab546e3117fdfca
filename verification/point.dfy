/** A point of the collinear-points program: its natural order and the case
    split of its slope to another point. */
module Points {
  import opened JavaInt

  datatype Point = Point(x: int32, y: int32)

  /** `compareTo`: by y-coordinate, ties broken by x-coordinate; -1, 0 or 1. */
  function CompareTo(p: Point, q: Point): (r: int)
    ensures r == -1 <==> p.y < q.y || (p.y == q.y && p.x < q.x)
    ensures r == 0 <==> p == q
    ensures r == 1 <==> q.y < p.y || (q.y == p.y && q.x < p.x)
  {
    if p.y < q.y || (p.y == q.y && p.x < q.x) then -1
    else if p.y == q.y && p.x == q.x then 0
    else 1
  }

  /** The strict "less than" the comparison defines. */
  predicate Less(p: Point, q: Point)
  {
    CompareTo(p, q) < 0
  }

  /** Lexicographic order on integer sequences: a proper prefix, or smaller
      at the first difference. */
  predicate LexLess(a: seq<int>, b: seq<int>)
    decreases |a|
  {
    if |b| == 0 then false
    else if |a| == 0 then true
    else a[0] < b[0] || (a[0] == b[0] && LexLess(a[1..], b[1..]))
  }

  /** The sort key: y first, then x. */
  function Key(p: Point): seq<int>
  {
    [p.y, p.x]
  }

  /** The comparison is the lexicographic order on (y, x), and answers 0
      exactly for equal keys. */
  lemma CompareToIsLexicographic(p: Point, q: Point)
    ensures CompareTo(p, q) < 0 <==> LexLess(Key(p), Key(q))
    ensures CompareTo(p, q) > 0 <==> LexLess(Key(q), Key(p))
    ensures CompareTo(p, q) == 0 <==> Key(p) == Key(q)
  {
    assert Key(p)[1..] == [p.x] && Key(q)[1..] == [q.x];
    assert [p.x][1..] == [] && [q.x][1..] == [];
    assert !LexLess([], []);
    assert LexLess([p.x], [q.x]) <==> p.x < q.x;
    assert LexLess([q.x], [p.x]) <==> q.x < p.x;
    assert LexLess(Key(p), Key(q)) <==> p.y < q.y || (p.y == q.y && p.x < q.x);
    assert LexLess(Key(q), Key(p)) <==> q.y < p.y || (q.y == p.y && q.x < p.x);
  }

  /** The comparison is antisymmetric: exchanging the points flips the sign. */
  lemma CompareToAntisymmetric(p: Point, q: Point)
    ensures CompareTo(p, q) == -CompareTo(q, p)
  {
  }

  /** `Less` is a strict total order, so the comparison is a valid sort
      order: irreflexive, transitive, and any two distinct points are
      ordered one way or the other. */
  lemma LessIsStrictTotalOrder(p: Point, q: Point, r: Point)
    ensures !Less(p, p)
    ensures Less(p, q) && Less(q, r) ==> Less(p, r)
    ensures p != q ==> Less(p, q) || Less(q, p)
    ensures !(Less(p, q) && Less(q, p))
  {
  }

  // ---------------------------------------------------------------------
  // The slope case split

  /** Which branch of `slopeTo` fires. `Quotient` carries the numerator and
      denominator of the double division, each an `int` subtraction (so
      32-bit wrap-around applies); the floating-point quotient itself is not
      modelled. */
  datatype Slope = NegativeInfinity | PositiveZero | PositiveInfinity | Quotient(rise: int32, run: int32)

  /** `slopeTo(that)`: negative infinity for the same point, +0.0 for a
      horizontal segment, positive infinity for a vertical one, else the
      quotient of the differences. */
  function SlopeTo(p: Point, q: Point): (s: Slope)
    ensures s.NegativeInfinity? <==> p == q
    ensures s.PositiveZero? <==> p.y == q.y && p.x != q.x
    ensures s.PositiveInfinity? <==> p.x == q.x && p.y != q.y
    ensures s.Quotient? <==> p.x != q.x && p.y != q.y
    ensures s.Quotient? ==> s.rise != 0 && s.run != 0
    ensures s.Quotient? && MinInt <= q.y - p.y <= MaxInt ==> s.rise == q.y - p.y
    ensures s.Quotient? && MinInt <= q.x - p.x <= MaxInt ==> s.run == q.x - p.x
  {
    if p.y == q.y then
      if p.x == q.x then NegativeInfinity else PositiveZero
    else if p.x == q.x then PositiveInfinity
    else
      WrapNonZero(q.y - p.y);
      WrapNonZero(q.x - p.x);
      Quotient(Wrap(q.y - p.y), Wrap(q.x - p.x))
  }

  /** A non-zero difference of two ints stays non-zero after wrap-around. */
  lemma WrapNonZero(d: int)
    requires d != 0 && -0x1_0000_0000 < d < 0x1_0000_0000
    ensures Wrap(d) != 0
  {
  }

  /** The slope from q to p falls in the same case as from p to q and, when
      neither difference overflows, is the same quotient. The slope to a
      point is negative infinity exactly when the comparison says equal. */
  lemma SlopeSymmetric(p: Point, q: Point)
    ensures SlopeTo(p, q).NegativeInfinity? <==> CompareTo(p, q) == 0
    ensures SlopeTo(p, q).PositiveZero? <==> SlopeTo(q, p).PositiveZero?
    ensures SlopeTo(p, q).PositiveInfinity? <==> SlopeTo(q, p).PositiveInfinity?
    ensures SlopeTo(p, q).Quotient? <==> SlopeTo(q, p).Quotient?
    ensures var s, t := SlopeTo(p, q), SlopeTo(q, p);
            s.Quotient? && MinInt <= q.y - p.y <= MaxInt && MinInt <= q.x - p.x <= MaxInt &&
            MinInt <= p.y - q.y <= MaxInt && MinInt <= p.x - q.x <= MaxInt ==>
              s.rise * t.run == t.rise * s.run
  {
    var s, t := SlopeTo(p, q), SlopeTo(q, p);
    if s.Quotient? && MinInt <= q.y - p.y <= MaxInt && MinInt <= q.x - p.x <= MaxInt &&
       MinInt <= p.y - q.y <= MaxInt && MinInt <= p.x - q.x <= MaxInt {
      assert t.rise == -s.rise && t.run == -s.run;
    }
  }
}
