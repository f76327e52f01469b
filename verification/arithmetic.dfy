/** Products and quotients, one fact at a time: the solver is not left to find these in the middle of a proof. */
module Arithmetic {

  // ---------- Real numbers

  lemma NotNegative(a: real, b: real)
    requires a >= 0.0 && b >= 0.0
    ensures a * b >= 0.0
  {
  }

  lemma Positive(a: real, b: real)
    requires a > 0.0 && b > 0.0
    ensures a * b > 0.0
  {
  }

  lemma Commute(a: real, b: real)
    ensures a * b == b * a
  {
  }

  lemma Reassociate(k: real, x: real, a: real)
    ensures k * (x * a) == x * (k * a)
  {
  }

  lemma Distributes(k: real, a: real, b: real)
    ensures k * (a + b) == k * a + k * b
  {
  }

  lemma SameTimes(x: real, c: real, e: real)
    requires c == e
    ensures x * c == x * e
  {
  }

  lemma Opposite(a: real, b: real, c: real)
    requires c == -b
    ensures a * c == -(a * b)
  {
  }

  lemma DividedBack(p: real, w: real)
    requires w > 0.0
    ensures p / w * w == p
  {
  }

  lemma Grows(a: real, b: real, c: real)
    requires a <= b && c >= 0.0
    ensures a * c <= b * c
  {
    var d := b - a;
    NotNegative(c, d);
    Distributes(c, a, d);
    Commute(c, a);
    Commute(c, b);
    SameTimes(c, a + d, b);
  }

  lemma GrowsStrictly(a: real, b: real, c: real)
    requires a < b && c > 0.0
    ensures a * c < b * c
  {
    var d := b - a;
    Positive(c, d);
    Distributes(c, a, d);
    Commute(c, a);
    Commute(c, b);
    SameTimes(c, a + d, b);
  }

  lemma ProperFraction(p: real, w: real)
    requires 0.0 < p < w
    ensures 0.0 < p / w < 1.0
  {
    var r := p / w;
    DividedBack(p, w);
    if r <= 0.0 {
      Grows(r, 0.0, w);
    }
    if r >= 1.0 {
      Grows(1.0, r, w);
    }
  }

  lemma QuotientGrows(p: real, q: real, w: real)
    requires p <= q && w > 0.0
    ensures p / w <= q / w
  {
    var a, b := p / w, q / w;
    DividedBack(p, w);
    DividedBack(q, w);
    if b < a {
      GrowsStrictly(b, a, w);
    }
  }

  /** Scaling by k tells two numbers apart unless k is 0. */
  lemma ScaledApart(x: real, y: real, k: real)
    ensures x * k != y * k <==> k != 0.0 && x != y
    decreases if k < 0.0 then 1 else 0
  {
    if k > 0.0 {
      if x < y {
        GrowsStrictly(x, y, k);
      } else if y < x {
        GrowsStrictly(y, x, k);
      }
    } else if k < 0.0 {
      var j := -k;
      Opposite(x, k, j);
      Opposite(y, k, j);
      ScaledApart(x, y, j);
    }
  }

  /** A part of a gap lies within it. */
  lemma PartOf(gap: real, ratio: real)
    requires 0.0 <= ratio <= 1.0
    ensures gap >= 0.0 ==> 0.0 <= ratio * gap <= gap
    ensures gap <= 0.0 ==> gap <= ratio * gap <= 0.0
  {
    if gap >= 0.0 {
      NotNegative(ratio, gap);
      Grows(ratio, 1.0, gap);
    } else {
      var back := -gap;
      Opposite(ratio, gap, back);
      NotNegative(ratio, back);
      Grows(ratio, 1.0, back);
    }
  }

  /** The point so far on the way from p to q. */
  function PartWay(p: real, q: real, ratio: real): real {
    p + ratio * (q - p)
  }

  lemma PartWayGap(p: real, q: real, ratio: real, gap: real)
    requires gap == q - p
    ensures PartWay(p, q, ratio) == p + ratio * gap
  {
    SameTimes(ratio, gap, q - p);
  }

  lemma PartWayBack(p: real, q: real, ratio: real)
    ensures PartWay(-p, -q, ratio) == -PartWay(p, q, ratio)
  {
    hide PartWay;
    var gap, back := q - p, p - q;
    PartWayGap(p, q, ratio, gap);
    PartWayGap(-p, -q, ratio, back);
    Opposite(ratio, gap, back);
  }

  /** A part of the way along a straight line: where u is that part of the way w from a to b. */
  lemma PartWayStraight(c: real, e: real, a: real, b: real, p: real, q: real, ratio: real, u: real)
    requires p == c * a + e && q == c * b + e && ratio * (b - a) == u - a
    ensures PartWay(p, q, ratio) == c * u + e
  {
    hide PartWay;
    var w, v := b - a, u - a;
    SameTimes(ratio, w, b - a);
    Distributes(c, a, w);
    SameTimes(c, a + w, b);
    Distributes(c, a, v);
    SameTimes(c, a + v, u);
    PartWayGap(p, q, ratio, c * w);
    Reassociate(ratio, c, w);
    SameTimes(c, ratio * w, v);
  }

  /** u is that part of the way from a to b. */
  ghost predicate IsPart(ratio: real, a: int, b: int, u: int) {
    ratio * (b as real - a as real) == u as real - a as real
  }

  /** r has gone that part of the way from p to q which u has of the way from a to b. */
  ghost predicate InProportion(p: real, q: real, r: real, a: int, b: int, u: int) {
    (r - p) * (b as real - a as real) == (q - p) * (u as real - a as real)
  }

  lemma PartUnique(x: real, y: real, a: int, b: int, u: int)
    requires a < b && IsPart(x, a, b, u) && IsPart(y, a, b, u)
    ensures x == y
  {
    var w := b as real - a as real;
    if x < y {
      GrowsStrictly(x, y, w);
    } else if y < x {
      GrowsStrictly(y, x, w);
    }
  }

  lemma PartWayProportion(p: real, q: real, ratio: real, a: int, b: int, u: int)
    requires IsPart(ratio, a, b, u)
    ensures InProportion(p, q, PartWay(p, q, ratio), a, b, u)
  {
    hide PartWay;
    var gap, w, v := q - p, b as real - a as real, u as real - a as real;
    PartWayGap(p, q, ratio, gap);
    var step := ratio * gap;
    Commute(step, w);
    Reassociate(w, ratio, gap);
    Commute(w, gap);
    Reassociate(ratio, gap, w);
    SameTimes(gap, ratio * w, v);
    SameTimes(w, PartWay(p, q, ratio) - p, step);
    Commute(w, PartWay(p, q, ratio) - p);
  }

  lemma PartWayInside(p: real, q: real, ratio: real)
    requires 0.0 <= ratio <= 1.0
    ensures var r := PartWay(p, q, ratio); p <= r <= q || q <= r <= p
  {
    hide PartWay;
    var gap := q - p;
    PartWayGap(p, q, ratio, gap);
    PartOf(gap, ratio);
  }

  lemma PartWayGrows(p: real, q: real, a: real, b: real)
    requires p <= q && a <= b
    ensures PartWay(p, q, a) <= PartWay(p, q, b)
  {
    hide PartWay;
    var gap := q - p;
    PartWayGap(p, q, a, gap);
    PartWayGap(p, q, b, gap);
    Grows(a, b, gap);
  }

  /** One affine map after another: (x * a + b) * k + o, with the factors gathered in c and d. */
  lemma AffineTwice(x: real, a: real, b: real, k: real, o: real, c: real, d: real)
    requires c == k * a && d == k * b + o
    ensures (x * a + b) * k + o == x * c + d
  {
    var y := x * a;
    Commute(y + b, k);
    Distributes(k, y, b);
    Reassociate(k, x, a);
    SameTimes(x, c, k * a);
  }

  lemma Regroup(k: real, a: real, b: real, c: real)
    requires c == k * a
    ensures c * b == k * (a * b)
  {
    Reassociate(b, k, a);
    Commute(c, b);
    Commute(a, b);
    SameTimes(b, c, k * a);
    SameTimes(k, a * b, b * a);
  }

  // ---------- Whole numbers

  lemma OnceMore(n: int, k: int)
    ensures n * k == (n - 1) * k + k
  {
  }

  lemma TimesGrows(a: int, b: int, k: int)
    requires a <= b && k >= 0
    ensures a * k <= b * k
  {
    var d := b - a;
    assert d * k >= 0;
    TimesDistributes(a, d, k);
    assert a + d == b;
  }

  lemma TimesDistributes(a: int, b: int, k: int)
    ensures (a + b) * k == a * k + b * k
  {
  }

  lemma Split(n: int, k: int)
    requires k > 0
    ensures n == k * (n / k) + n % k && 0 <= n % k < k
  {
  }

  lemma DivideTwice(n: nat)
    ensures n / 256 / 256 == n / 65536 && n / 65536 / 256 == n / 16777216
  {
  }

  lemma DivideBound(n: int, length: int, period: int)
    requires period > 0 && length >= 0 && n * period <= length
    ensures n <= length / period
  {
    var q := length / period;
    assert length == q * period + length % period;
    OnceMore(q + 1, period);
    if q + 1 <= n {
      TimesGrows(q + 1, n, period);
    }
  }
}
