/** Sample-rate conversion arithmetic (resampler.h and the factor_b / factor_a
    expressions of audio.c). */
module Resampling {
  import opened Rescale

  /** struct gcd: a rate ratio a : b reduced by its greatest common divisor. */
  datatype Ratio = Ratio(gcd: nat, a: nat, b: nat) {
    /** A position in source samples as a position in output samples. */
    function Out(p: int): int
      requires a > 0
    {
      p * b / a
    }

    /** A position in output samples as a position in source samples. */
    function In(r: int): int
      requires b > 0
    {
      r * a / b
    }
  }

  ghost predicate Divides(d: nat, n: nat) {
    d > 0 && exists q: nat :: d * q == n
  }

  ghost predicate CommonDivisor(d: nat, x: nat, y: nat) {
    Divides(d, x) && Divides(d, y)
  }

  /** What gcd leaves: no divisor in common but 1. */
  ghost predicate Coprime(x: nat, y: nat) {
    forall d: nat :: CommonDivisor(d, x, y) ==> d == 1
  }

  lemma DividesCombine(d: nat, x: nat, y: nat, q: nat, z: nat)
    requires Divides(d, x) && Divides(d, y) && z == x + q * y
    ensures Divides(d, z)
  {
    var m: nat, n: nat :| d * m == x && d * n == y;
    assert d * (m + q * n) == d * m + q * (d * n);
    assert q * n >= 0;
  }

  lemma DividesRemainder(d: nat, x: nat, y: nat, q: nat, z: nat)
    requires Divides(d, x) && Divides(d, y) && x == z + q * y
    ensures Divides(d, z)
  {
    var m: nat, n: nat :| d * m == x && d * n == y;
    assert d * (m - q * n) == d * m - q * (d * n);
    if m - q * n < 0 { Scale(m - q * n, -1, d); }
    assert d * (m - q * n) == z;
  }

  /** One turn of the loop keeps the set of common divisors. */
  lemma EuclidStep(d: nat, x: nat, y: nat)
    requires y > 0
    ensures CommonDivisor(d, x, y) <==> CommonDivisor(d, y, x % y)
  {
    if CommonDivisor(d, x, y) { DividesRemainder(d, x, y, x / y, x % y); }
    if CommonDivisor(d, y, x % y) { DividesCombine(d, x % y, y, x / y, x); }
  }

  /** resampler.h gcd: the greatest common divisor and both quotients. */
  method Gcd(a: nat, b: nat) returns (g: Ratio)
    requires a > 0 && b > 0
    ensures g.gcd > 0 && g.a > 0 && g.b > 0
    ensures g.gcd * g.a == a && g.gcd * g.b == b
    ensures forall d: nat :: CommonDivisor(d, a, b) <==> Divides(d, g.gcd)
    ensures Coprime(g.a, g.b)
  {
    var x, y := a, b;
    while y != 0
      invariant x > 0
      invariant forall d: nat :: CommonDivisor(d, a, b) <==> CommonDivisor(d, x, y)
      decreases y
    {
      forall d: nat ensures CommonDivisor(d, x, y) <==> CommonDivisor(d, y, x % y) {
        EuclidStep(d, x, y);
      }
      x, y := y, x % y;
    }
    forall d: nat ensures CommonDivisor(d, x, 0) <==> Divides(d, x) {
      if d > 0 { assert d * 0 == 0; }
    }
    assert x * 1 == x;
    assert CommonDivisor(x, a, b);
    ExactQuotient(x, a);
    ExactQuotient(x, b);
    g := Ratio(x, a / x, b / x);
    forall d: nat | CommonDivisor(d, g.a, g.b) ensures d == 1 { NoMoreInCommon(g, d, a, b); }
  }

  lemma NoMoreInCommon(g: Ratio, d: nat, a: nat, b: nat)
    requires g.gcd > 0 && g.gcd * g.a == a && g.gcd * g.b == b
    requires forall e: nat :: CommonDivisor(e, a, b) <==> Divides(e, g.gcd)
    requires CommonDivisor(d, g.a, g.b)
    ensures d == 1
  {
    DividesScaled(d, g.a, g.gcd);
    DividesScaled(d, g.b, g.gcd);
    assert CommonDivisor(g.gcd * d, a, b);
    var q: nat :| (g.gcd * d) * q == g.gcd;
    if d > 1 && q > 0 {
      Scale(1, q, g.gcd * d);
      Scale(2, d, g.gcd);
    }
  }

  lemma DividesScaled(d: nat, n: nat, factor: nat)
    requires Divides(d, n) && factor > 0
    ensures Divides(factor * d, factor * n)
  {
    var q: nat :| d * q == n;
    assert (factor * d) * q == factor * n;
    Scale(1, d, factor);
  }

  lemma ExactQuotient(d: nat, n: nat)
    requires n > 0 && Divides(d, n)
    ensures d * (n / d) == n && n / d > 0
  {
    var q: nat :| d * q == n;
    Floor(n, d, q);
    assert d * 0 == 0;
  }

  // ------------------------------------------------ floored positions

  /** Quotient y of x by a, without division. */
  lemma Floor(x: int, a: int, y: int)
    requires a > 0
    ensures y == x / a <==> y * a <= x < y * a + a
  {
    var q := x / a;
    assert q * a <= x < q * a + a;
    if y * a <= x < y * a + a {
      if y > q { Apart(y, q, a); }
      if q > y { Apart(q, y, a); }
    }
  }

  lemma OutMonotone(g: Ratio, p: int, q: int)
    requires g.a > 0 && p <= q
    ensures g.Out(p) <= g.Out(q)
  {
    Scale(p, q, g.b);
    Floor(p * g.b, g.a, g.Out(p));
    Floor(q * g.b, g.a, g.Out(q));
    if g.Out(p) > g.Out(q) { Apart(g.Out(p), g.Out(q), g.a); }
  }

  lemma OutNatural(g: Ratio, p: nat)
    requires g.a > 0
    ensures g.Out(p) >= 0
  {
    Product(p, g.b);
    Floor(p * g.b, g.a, g.Out(p));
  }

  /** n source samples that last at least one output sample yield one. */
  lemma OutAdvances(g: Ratio, p: int, n: int)
    requires g.a > 0 && n * g.b >= g.a
    ensures g.Out(p) + 1 <= g.Out(p + n)
  {
    Floor(p * g.b, g.a, g.Out(p));
    Floor((p + n) * g.b, g.a, g.Out(p + n));
    assert (p + n) * g.b == p * g.b + n * g.b;
    if g.Out(p + n) < g.Out(p) + 1 { Scale(g.Out(p + n), g.Out(p), g.a); }
  }

  /** Output position r against the output positions of the source interval
      [p, q) that its own source position falls into: inside, or exactly the
      first sample after it. */
  lemma OutBracket(g: Ratio, r: int, p: int, q: int)
    requires g.a > 0 && g.b > 0 && p <= g.In(r) < q
    ensures g.Out(p) <= r <= g.Out(q)
  {
    Floor(r * g.a, g.b, g.In(r));
    Floor(p * g.b, g.a, g.Out(p));
    Floor(q * g.b, g.a, g.Out(q));
    Scale(p, g.In(r), g.b);
    Scale(g.In(r) + 1, q, g.b);
    if g.Out(p) > r { Apart(g.Out(p), r, g.a); }
    if r > g.Out(q) { Apart(r, g.Out(q), g.a); }
  }

  lemma OutReached(g: Ratio, r: int, p: int)
    requires g.a > 0 && g.b > 0 && p <= g.In(r)
    ensures g.Out(p) <= r
  {
    OutBracket(g, r, p, g.In(r) + 1);
  }

  // ------------------------------------------------ within reach after a seek

  /** If the source position that r is sought at lies before q, n samples from q
      on that fall short of an output sample by at most one b-th of it still
      reach beyond r. */
  lemma OutPassed(g: Ratio, r: int, q: int, n: nat)
    requires g.a > 0 && g.b > 0 && g.In(r) < q && n * g.b + 1 >= g.a
    ensures r < g.Out(q + n)
  {
    Floor(r * g.a, g.b, g.In(r));
    Scale(g.In(r) + 1, q, g.b);
    Floor((q + n) * g.b, g.a, g.Out(q + n));
    assert (q + n) * g.b == q * g.b + n * g.b;
    if g.Out(q + n) <= r { Scale(g.Out(q + n), r, g.a); }
  }

  /** Output position r is sought in the frame [p, p + n), but is neither in the
      frame's output interval nor in the one predicted for the next frame: the
      loop of stream_read can only seek again. */
  ghost predicate OutOfReach(g: Ratio, p: int, n: nat, r: int)
    requires g.a > 0 && g.b > 0
  {
    && p <= g.In(r) < p + n
    && !(g.Out(p) <= r < g.Out(p + n))
    && !(g.Out(p + n) <= r < g.Out(p + n * 2))
  }

  /** At a reduced ratio no position is out of reach after its seek exactly when
      frames fall short of an output sample by at most one b-th of it. */
  lemma ReachIff(g: Ratio, n: nat)
    requires g.a > 0 && g.b > 0 && n > 0 && Coprime(g.a, g.b)
    ensures n * g.b + 1 >= g.a <==> forall p: nat, r: nat :: !OutOfReach(g, p, n, r)
  {
    if n * g.b + 1 >= g.a {
      forall p: nat, r: nat ensures !OutOfReach(g, p, n, r) {
        if p <= g.In(r) < p + n {
          OutBracket(g, r, p, p + n);
          OutPassed(g, r, p + n, n);
        }
      }
    } else {
      var p, r := StuckAt(g, n);
    }
  }

  /** A frame that ends one b-th of an output sample past a whole one. */
  lemma StuckAt(g: Ratio, n: nat) returns (p: nat, r: nat)
    requires g.a > 0 && g.b > 0 && n > 0 && Coprime(g.a, g.b) && n * g.b + 1 < g.a
    ensures OutOfReach(g, p, n, r)
  {
    var q;
    q, r := OnePast(g.a, g.b, n);
    p := q - n;
    Floor(q * g.b, g.a, r);
    assert (q + n) * g.b == q * g.b + n * g.b;
    Floor((q + n) * g.b, g.a, r);
    assert (q - 1) * g.b == q * g.b - g.b;
    Floor(r * g.a, g.b, q - 1);
  }

  /** A position from n on whose product with b leaves remainder 1. */
  lemma OnePast(a: nat, b: nat, n: nat) returns (q: nat, r: nat)
    requires a > 1 && b > 0 && Coprime(a, b)
    ensures q >= n && q * b == r * a + 1
  {
    var u, v := Bezout(a, b);
    var t: nat := n + (if u < 0 then -u else u) + (if v < 0 then -v else v);
    Scale(1, a, t);
    Scale(1, b, t);
    Raise(a, b, u, v, t);
    q, r := v + t * a, t * b - u;
  }

  lemma Raise(a: nat, b: nat, u: int, v: int, t: nat)
    requires u * a + v * b == 1
    ensures (v + t * a) * b == (t * b - u) * a + 1
  {
    assert (v + t * a) * b == v * b + t * a * b;
    assert (t * b - u) * a == t * b * a - u * a;
  }

  /** Coprime numbers combine to 1. */
  lemma {:induction false} Bezout(x: nat, y: nat) returns (u: int, v: int)
    requires (x > 0 || y > 0) && Coprime(x, y)
    ensures u * x + v * y == 1
    decreases y
  {
    if y == 0 {
      assert x * 1 == x && x * 0 == 0;
      assert CommonDivisor(x, x, 0);
      u, v := 1, 0;
    } else {
      forall d: nat | CommonDivisor(d, y, x % y) ensures d == 1 { EuclidStep(d, x, y); }
      u, v := Bezout(y, x % y);
      assert x == (x / y) * y + x % y;
      assert v * x == v * ((x / y) * y) + v * (x % y);
      assert (u - v * (x / y)) * y == u * y - v * ((x / y) * y);
      u, v := v, u - v * (x / y);
    }
  }

  // ------------------------------------------------ labels that are continued

  /** Frames of n samples from p on. A buffer that held frame j is filled with
      frame k + 1 under the label that continues j. The label is wrong, and r, a
      position of frame k + 1, falls into the buffer all the same. */
  ghost predicate Mislabels(g: Ratio, n: nat, p: nat, j: nat, k: nat, r: int)
    requires g.a > 0
  {
    var first, end, at := g.Out(p + (k + 1) * n), g.Out(p + (k + 2) * n), g.Out(p + (j + 1) * n);
    first <= r < end && at != first && at <= r < at + (end - first)
  }

  /** Any handle may share a decoder of frames of n samples exactly when a frame
      is a whole number of output samples, or less than one. */
  lemma LabelIff(g: Ratio, n: nat)
    requires g.a > 0
    ensures n * g.b % g.a == 0 || n * g.b < g.a
            <==> forall p: nat, j: nat, k: nat, r: nat :: !Mislabels(g, n, p, j, k, r)
  {
    if n * g.b % g.a == 0 || n * g.b < g.a {
      forall p: nat, j: nat, k: nat, r: nat ensures !Mislabels(g, n, p, j, k, r) { LabelHarmless(g, n, p, j, k, r); }
    } else {
      var p, f := UnevenCounts(g, n);
      assert Mislabels(g, n, p, 0, 1, g.Out(p + 2 * n));
    }
  }

  lemma LabelHarmless(g: Ratio, n: nat, p: nat, j: nat, k: nat, r: nat)
    requires g.a > 0 && (n * g.b % g.a == 0 || n * g.b < g.a)
    ensures !Mislabels(g, n, p, j, k, r)
  {
    var f := CountBound(g, n);
    assert p + (k + 2) * n == p + (k + 1) * n + n;
    OutAtMost(g, p + (k + 1) * n, n, n, f);
    if j < k {
      Scale(j + 1, k, n);
      assert p + (k + 1) * n == p + k * n + n;
      LabelBehind(g, p + (j + 1) * n, p + k * n, n, f);
    } else if j > k {
      Scale(k + 2, j + 1, n);
      OutMonotone(g, p + (k + 2) * n, p + (j + 1) * n);
    }
  }

  /** The most output samples a frame of n samples can have. */
  lemma CountBound(g: Ratio, n: nat) returns (f: nat)
    requires g.a > 0 && (n * g.b % g.a == 0 || n * g.b < g.a)
    ensures n * g.b == f * g.a || (n * g.b < g.a && f == 1)
  {
    f := if n * g.b % g.a == 0 then n * g.b / g.a else 1;
  }

  /** A label from before the frame of n samples at q is the one after it, or
      that many output samples behind. */
  lemma LabelBehind(g: Ratio, at: int, q: int, n: nat, f: nat)
    requires g.a > 0 && at <= q && (n * g.b == f * g.a || (n * g.b < g.a && f == 1))
    ensures g.Out(at) == g.Out(q + n) || g.Out(at) + f <= g.Out(q + n)
  {
    OutMonotone(g, at, q);
    OutMonotone(g, at, q + n);
    if n * g.b == f * g.a { OutWhole(g, q, n, f); }
  }

  /** n samples that are f whole output samples are f of them wherever they
      start. */
  lemma OutWhole(g: Ratio, p: int, n: nat, f: int)
    requires g.a > 0 && n * g.b == f * g.a
    ensures g.Out(p + n) == g.Out(p) + f
  {
    var y := g.Out(p);
    Floor(p * g.b, g.a, y);
    assert (p + n) * g.b == p * g.b + n * g.b;
    assert (y + f) * g.a == y * g.a + f * g.a;
    Floor((p + n) * g.b, g.a, y + f);
  }

  /** n samples that are less than one output sample are at most one of them. */
  lemma OutSmall(g: Ratio, p: int, n: nat)
    requires g.a > 0 && n * g.b < g.a
    ensures g.Out(p + n) <= g.Out(p) + 1
  {
    Floor(p * g.b, g.a, g.Out(p));
    Floor((p + n) * g.b, g.a, g.Out(p + n));
    assert (p + n) * g.b == p * g.b + n * g.b;
    Distribute(-1, g.Out(p), g.a);
    if g.Out(p + n) > g.Out(p) + 1 { Apart(g.Out(p + n), g.Out(p) + 1, g.a); }
  }

  /** n samples are at most one output sample more than they fill. */
  lemma OutMost(g: Ratio, p: int, n: nat)
    requires g.a > 0
    ensures g.Out(p + n) <= g.Out(p) + n * g.b / g.a + 1
  {
    var y, f := g.Out(p), n * g.b / g.a;
    Floor(p * g.b, g.a, y);
    Floor(n * g.b, g.a, f);
    Floor((p + n) * g.b, g.a, g.Out(p + n));
    assert (p + n) * g.b == p * g.b + n * g.b;
    assert (y + f + 2) * g.a == y * g.a + f * g.a + 2 * g.a;
    if g.Out(p + n) > y + f + 1 { Scale(y + f + 2, g.Out(p + n), g.a); }
  }

  /** Fewer samples are no more output samples. */
  lemma OutAtMost(g: Ratio, p: int, m: nat, n: nat, f: nat)
    requires g.a > 0 && m <= n && (n * g.b == f * g.a || (n * g.b < g.a && f == 1))
    ensures g.Out(p + m) <= g.Out(p) + f
  {
    OutMonotone(g, p + m, p + n);
    if n * g.b == f * g.a { OutWhole(g, p, n, f); } else { OutSmall(g, p, n); }
  }

  /** Otherwise some frame has one output sample more than the one before. */
  lemma UnevenCounts(g: Ratio, n: nat) returns (p: nat, f: nat)
    requires g.a > 0 && n * g.b % g.a != 0 && n * g.b >= g.a
    ensures f > 0 && g.Out(p + 2 * n) == g.Out(p + n) + f && g.Out(p + 3 * n) == g.Out(p + 2 * n) + f + 1
  {
    f := n * g.b / g.a;
    var s := n * g.b % g.a;
    var m := TurnsOver(g.a, s);
    Product(n, g.a + m - 3);
    p := (g.a + m - 3) * n;
    var q := n * g.b + (m - 2) * f;
    assert p + n == (g.a + m - 2) * n;
    Decompose(g, n, m - 2, f, s, q, p + n);
    Product(m - 2, s);
    Counted(g, p + n, n, q, f, (m - 2) * s, s);
    assert p + n + n == p + 2 * n && p + n + n + n == p + 3 * n;
  }

  lemma Counted(g: Ratio, e: nat, n: nat, q: nat, f: nat, t: nat, s: nat)
    requires g.a > 0 && t + s < g.a <= t + s + s && s < g.a
    requires e * g.b == q * g.a + t && (e + n) * g.b == (q + f) * g.a + t + s
    requires (e + n + n) * g.b == (q + f + f) * g.a + t + s + s
    ensures g.Out(e + n) == g.Out(e) + f && g.Out(e + n + n) == g.Out(e + n) + f + 1
  {
    Floor(e * g.b, g.a, q);
    Floor((e + n) * g.b, g.a, q + f);
    assert (q + f + f + 1) * g.a == (q + f + f) * g.a + g.a;
    Floor((e + n + n) * g.b, g.a, q + f + f + 1);
  }

  /** How many steps of s it takes to get past a, counted from 0. */
  lemma TurnsOver(a: nat, s: nat) returns (m: nat)
    requires 0 < s < a
    ensures m >= 2 && (m - 2) * s + s < a <= (m - 2) * s + s + s
  {
    m := (a - 1) / s + 1;
    Floor(a - 1, s, 0);
    Floor(a - 1, s, m - 1);
    assert (m - 2) * s + s == (m - 1) * s;
  }

  lemma Decompose(g: Ratio, n: nat, i: nat, f: nat, s: nat, q: nat, e: nat)
    requires n * g.b == f * g.a + s && q == n * g.b + i * f && e == (g.a + i) * n
    ensures e * g.b == q * g.a + i * s
    ensures (e + n) * g.b == (q + f) * g.a + i * s + s
    ensures (e + n + n) * g.b == (q + f + f) * g.a + i * s + s + s
  {
    calc {
      e * g.b;
      (g.a + i) * (n * g.b);
      g.a * (n * g.b) + i * (f * g.a + s);
      g.a * (n * g.b) + i * f * g.a + i * s;
      q * g.a + i * s;
    }
    assert (e + n) * g.b == e * g.b + n * g.b && (e + n + n) * g.b == e * g.b + n * g.b + n * g.b;
    assert (q + f) * g.a == q * g.a + f * g.a && (q + f + f) * g.a == q * g.a + f * g.a + f * g.a;
  }
}
