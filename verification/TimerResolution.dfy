/**
 `pcm_timer.c`: the length of a period in nanoseconds, 10^9 · period_size / rate, computed in
 unsigned longs. A greatest common divisor keeps the factors small; halving keeps the product in the word.
 */
module TimerResolution {
  import opened Numbers

  const NANOSECONDS: nat := 1_000_000_000

  // ---------------------------------------------------------------- greatest common divisor

  ghost predicate Divides(d: nat, n: nat) {
    d > 0 && n % d == 0
  }

  ghost predicate IsGcd(g: nat, a: nat, b: nat) {
    Divides(g, a) && Divides(g, b) && forall d: nat :: Divides(d, a) && Divides(d, b) ==> d <= g
  }

  lemma DividesMultiple(d: nat, n: nat, k: nat)
    requires d > 0 && n == k * d
    ensures Divides(d, n)
  {
    EuclidUnique(n, d, k, 0);
  }

  /** Common divisors survive a step of the algorithm, in both directions. */
  lemma SameDivisors(d: nat, a: nat, b: nat)
    requires b > 0
    ensures Divides(d, a) && Divides(d, b) <==> Divides(d, b) && Divides(d, a % b)
  {
    if d > 0 {
      Euclid(a, b);
      Euclid(a, d);
      Euclid(b, d);
      Euclid(a % b, d);
      var q, x, y, z := a / b, a / d, b / d, (a % b) / d;
      if Divides(d, b) {
        assert q * b == (q * y) * d;
        if Divides(d, a) {
          assert a % b == (x - q * y) * d;
          Scale(-1, x - q * y, d);
          DividesMultiple(d, a % b, x - q * y);
        }
        if Divides(d, a % b) {
          assert a == (q * y + z) * d;
          Scale(-1, q * y + z, d);
          DividesMultiple(d, a, q * y + z);
        }
      }
    }
  }

  /** `gcd`: Euclid's algorithm, larger argument first. */
  method Gcd(a0: nat, b0: nat) returns (g: nat)
    requires a0 > 0 && b0 > 0
    ensures IsGcd(g, a0, b0) && g > 0
  {
    var a, b := a0, b0;
    if a < b {
      a, b := b, a;
    }
    var r := a % b;
    while r != 0
      invariant a > 0 && b > 0 && r == a % b
      invariant forall d: nat :: Divides(d, a) && Divides(d, b) <==> Divides(d, a0) && Divides(d, b0)
      decreases b
    {
      forall d: nat ensures Divides(d, a) && Divides(d, b) <==> Divides(d, b) && Divides(d, r) {
        SameDivisors(d, a, b);
      }
      Euclid(a, b);
      a := b;
      b := r;
      r := a % b;
    }
    assert Divides(b, a) && Divides(b, b);
    forall d: nat | Divides(d, a0) && Divides(d, b0) ensures d <= b {
      assert Divides(d, a) && Divides(d, b);
      Euclid(b, d);
      Scale(0, b / d, d);
      Scale(1, b / d, d);
    }
    return b;
  }

  /** Nothing but 1 divides both. */
  ghost predicate Coprime(a: nat, b: nat) {
    forall d: nat :: Divides(d, a) && Divides(d, b) ==> d == 1
  }

  /** Divided by their greatest common divisor, two numbers have no other in common. */
  lemma LowestTerms(g: nat, a: nat, b: nat)
    requires g > 0 && IsGcd(g, a, b)
    ensures Coprime(a / g, b / g)
  {
    forall d: nat | Divides(d, a / g) && Divides(d, b / g) ensures d == 1 {
      CommonMultiple(d, g, a);
      CommonMultiple(d, g, b);
      if d > 1 { Scale(1, d, g); }
    }
  }

  lemma CommonMultiple(d: nat, g: nat, n: nat)
    requires g > 0 && Divides(g, n) && Divides(d, n / g)
    ensures d * g > 0 && Divides(d * g, n)
  {
    Euclid(n, g);
    Euclid(n / g, d);
    var k := n / g / d;
    Scale(0, d, g);
    assert n == (k * d) * g == k * (d * g);
    DividesMultiple(d * g, n, k);
  }

  lemma CoprimeToDivisor(a: nat, b: nat, c: nat, k: nat)
    requires Coprime(a, b) && b == c * k
    ensures Coprime(a, c)
  {
    forall d: nat | Divides(d, a) && Divides(d, c) ensures d == 1 {
      Euclid(c, d);
      assert b == (c / d * k) * d;
      DividesMultiple(d, b, c / d * k);
    }
  }

  // ---------------------------------------------------------------- the overflow test

  /** The test `(a * b) / b != a` on words of size `m`: true exactly when the product does not fit. */
  lemma OverflowTestIsExact(a: nat, b: nat, m: nat)
    requires 0 < b < m && a < m
    ensures ((a * b) % m) / b != a <==> a * b >= m
  {
    var p := a * b;
    Euclid(p, m);
    Euclid(p % m, b);
    if p < m {
      EuclidUnique(p, m, 0, p);
      EuclidUnique(p, b, a, 0);
    } else {
      Scale(a, (p % m) / b, b);
    }
  }

  // ---------------------------------------------------------------- the computation

  /** The reduced problem: m · f / r with the same value as 10^9 · period / rate. */
  ghost predicate SameRatio(m: nat, f: nat, r: nat, period: nat, rate: nat) {
    m * f * rate == NANOSECONDS * period * r
  }

  lemma CancelFirst(l: nat, m: nat, r: nat, period: nat, rate: nat)
    requires l > 0 && m * l == NANOSECONDS && r * l == rate
    ensures SameRatio(m, period, r, period, rate)
  {
    assert m * period * (r * l) == (m * l) * period * r;
  }

  lemma CancelSecond(l: nat, m: nat, f: nat, r: nat, f': nat, r': nat, period: nat, rate: nat)
    requires l > 0 && SameRatio(m, f, r, period, rate) && f == f' * l && r == r' * l
    ensures SameRatio(m, f', r', period, rate)
  {
    assert (m * f' * rate) * l == m * (f' * l) * rate;
    assert (NANOSECONDS * period * r') * l == NANOSECONDS * period * (r' * l);
    Scale(m * f' * rate, NANOSECONDS * period * r', l);
  }

  lemma DividedByGcd(g: nat, n: nat)
    requires n > 0 && Divides(g, n)
    ensures 0 < n / g <= n && n == (n / g) * g
  {
    Euclid(n, g);
    QuotientSmaller(n, g);
  }

  lemma QuotientSmaller(n: nat, g: nat)
    requires g > 0
    ensures 0 <= n / g <= n
  {
    Euclid(n, g);
    if n / g > 0 { Scale(0, g - 1, n / g); }
  }

  /** What the final value says about the true one, t = m·f/r, when the multiplier was cut to h = ⌊m/p⌋. */
  lemma HalvedBounds(m: nat, p: nat, h: nat, f: nat, r: nat, res: nat)
    requires p > 0 && f > 0 && r > 0 && h * p <= m < (h + 1) * p && res == (h * f / r) * p
    ensures res * r <= m * f < res * r + p * (r + f)
  {
    var q := h * f / r;
    Euclid(h * f, r);
    assert q * r <= h * f < q * r + r;
    Scale(q * r, h * f, p);
    Scale(h * f, q * r + r, p);
    assert res * r == (q * r) * p;
    Scale(h * p, m, f);
    Scale(m, (h + 1) * p, f);
    assert (h * f) * p == (h * p) * f;
    assert ((h + 1) * p) * f == (h * f) * p + p * f;
    assert (q * r + r) * p == (q * r) * p + p * r;
  }

  lemma HalfOf(m: nat, p: nat, h: nat)
    requires p > 0 && h * p <= m < (h + 1) * p
    ensures (h / 2) * (2 * p) <= m < (h / 2 + 1) * (2 * p)
  {
    var g := h / 2;
    assert g * (2 * p) == (2 * g) * p && (g + 1) * (2 * p) == (2 * g + 2) * p;
    if 2 * g < h { Scale(2 * g, h, p); }
    if h + 1 < 2 * g + 2 { Scale(h + 1, 2 * g + 2, p); }
  }

  /** Two fractions of the same value have the same integer part. */
  lemma SameFloor(n: nat, r: nat, n': nat, r': nat)
    requires r > 0 && r' > 0 && n * r' == n' * r
    ensures n / r == n' / r'
  {
    QuotientMonotone(n, r, n', r');
    QuotientMonotone(n', r', n, r);
  }

  /** `NoRate` and `NoPeriod` are the two bug checks, after which the stored resolution is left alone. */
  datatype Resolution = NoRate | NoPeriod | Value(ns: nat)

  /** The numbers behind a result: `half` is `mult` after the halvings, `post` two to their number. */
  datatype Reduction = Reduction(mult: nat, half: nat, post: nat, fsize: nat, rate: nat)

  /** A reduction of 10^9 · period / rate0 whose product fits the word, halved no more than needed. */
  ghost predicate Reduces(red: Reduction, period: nat, rate0: nat, word: nat) {
    && 0 < red.rate <= rate0 && 0 < red.fsize <= period && red.post > 0
    && SameRatio(red.mult, red.fsize, red.rate, period, rate0)
    && Coprime(red.mult, red.rate) && Coprime(red.fsize, red.rate)
    && red.half * red.post <= red.mult < (red.half + 1) * red.post
    && red.half * red.fsize < word
    && (red.post == 1 || Overfull(red, word))
  }

  /** One halving less would not have fitted. */
  ghost predicate Overfull(red: Reduction, word: nat) {
    exists h: nat :: h / 2 == red.half && h * red.fsize >= word
  }

  /** Without halving the result is the exact integer part of the true value. */
  lemma ExactWithoutHalving(red: Reduction, period: nat, rate0: nat, word: nat)
    requires word > 0 && rate0 > 0 && Reduces(red, period, rate0, word) && red.post == 1
    ensures ((red.half * red.fsize / red.rate) * red.post) % word == NANOSECONDS * period / rate0
  {
    assert red.half == red.mult;
    SameFloor(red.half * red.fsize, red.rate, NANOSECONDS * period, rate0);
    QuotientSmaller(red.half * red.fsize, red.rate);
    EuclidUnique(red.half * red.fsize / red.rate, word, 0, red.half * red.fsize / red.rate);
  }

  /** With halving it never exceeds the true value, and is low by less than post · (1 + fsize/rate). */
  lemma BoundedWithHalving(red: Reduction, period: nat, rate0: nat, word: nat, ns: nat)
    requires rate0 > 0 && Reduces(red, period, rate0, word) && ns == (red.half * red.fsize / red.rate) * red.post
    ensures ns * rate0 <= NANOSECONDS * period
    ensures (NANOSECONDS * period - ns * rate0) * red.rate < red.post * (red.rate + red.fsize) * rate0
  {
    var n := NANOSECONDS * period;
    var slack := red.post * (red.rate + red.fsize);
    HalvedBounds(red.mult, red.post, red.half, red.fsize, red.rate, ns);
    Rescale(ns, red.rate, red.mult * red.fsize, slack, rate0, n);
  }

  lemma Rescale(ns: nat, r: nat, mf: nat, slack: nat, rate0: nat, n: nat)
    requires r > 0 && rate0 > 0 && ns * r <= mf < ns * r + slack && mf * rate0 == n * r
    ensures ns * rate0 <= n && (n - ns * rate0) * r < slack * rate0
  {
    Scale(mf, ns * r, rate0);
    Scale(mf, ns * r + slack, rate0);
    assert (ns * r) * rate0 == (ns * rate0) * r;
    Scale(n, ns * rate0, r);
    assert (n - ns * rate0) * r == n * r - (ns * rate0) * r;
    assert (ns * r + slack) * rate0 == (ns * r) * rate0 + slack * rate0;
  }

  /** The two divisions by greatest common divisors. */
  method Reduce(rate0: nat, period: nat) returns (mult: nat, fsize: nat, rate: nat)
    requires rate0 > 0 && period > 0
    ensures 0 < mult <= NANOSECONDS && 0 < rate <= rate0 && 0 < fsize <= period
    ensures SameRatio(mult, fsize, rate, period, rate0)
    ensures Coprime(mult, rate) && Coprime(fsize, rate)
  {
    mult, rate := NANOSECONDS, rate0;
    var l := Gcd(mult, rate);
    LowestTerms(l, mult, rate);
    DividedByGcd(l, NANOSECONDS);
    DividedByGcd(l, rate0);
    mult := mult / l;
    rate := rate / l;
    CancelFirst(l, mult, rate, period, rate0);
    ghost var r1 := rate;
    fsize := period;
    l := Gcd(rate, fsize);
    LowestTerms(l, rate, fsize);
    DividedByGcd(l, rate);
    DividedByGcd(l, fsize);
    rate := rate / l;
    fsize := fsize / l;
    CancelSecond(l, mult, period, r1, fsize, rate, period, rate0);
    CoprimeToDivisor(mult, r1, rate, l);
  }

  /** `snd_pcm_timer_resolution_change`, with unsigned longs of `word` values (2^32 or 2^64). */
  method ResolutionChange(rate0: nat, period: nat, word: nat) returns (res: Resolution, ghost red: Reduction)
    requires NANOSECONDS < word && rate0 < word && period < word
    ensures res == NoRate <==> rate0 == 0
    ensures res == NoPeriod <==> rate0 > 0 && period == 0
    ensures res.Value? ==> Reduces(red, period, rate0, word)
    ensures res.Value? ==> res.ns == ((red.half * red.fsize / red.rate) * red.post) % word
    ensures res.Value? && red.post == 1 ==> res.ns == NANOSECONDS * period / rate0
  {
    red := Reduction(0, 0, 0, 0, 0);
    if rate0 == 0 {
      return NoRate, red;
    }
    if period == 0 {
      return NoPeriod, red;
    }
    var mult, fsize, rate := Reduce(rate0, period);
    var post := 1;
    red := Reduction(mult, mult, 1, fsize, rate);
    OverflowTestIsExact(mult, fsize, word);
    while ((mult * fsize) % word) / fsize != mult
      invariant 0 <= mult < word && mult == red.half && post == red.post > 0
      invariant red.fsize == fsize && red.rate == rate && SameRatio(red.mult, fsize, rate, period, rate0)
      invariant Coprime(red.mult, rate) && Coprime(fsize, rate)
      invariant red.half * red.post <= red.mult < (red.half + 1) * red.post
      invariant red.post == 1 || Overfull(red, word)
      invariant ((mult * fsize) % word) / fsize != mult <==> mult * fsize >= word
      decreases mult
    {
      HalfOf(red.mult, post, mult);
      ghost var h := mult;
      mult := mult / 2;
      post := post * 2;
      red := red.(half := mult, post := post);
      assert h / 2 == red.half && h * red.fsize >= word;
      OverflowTestIsExact(mult, fsize, word);
    }
    res := Value(((mult * fsize / rate) * post) % word);
    if red.post == 1 {
      ExactWithoutHalving(red, period, rate0, word);
    }
  }
}
