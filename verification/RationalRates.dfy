/**
 `snd_interval_ratnum`: narrowing a rate interval to what a clock divider can produce. Every rate of at
 least 1 that some divider setting achieves inside the interval survives; slower ones do under an exact condition.
 */
module RationalRates {
  import opened Words
  import opened Numbers
  import opened Intervals
  import opened IntervalArithmetic

  /** A clock and its divider range: rates num/den for den = denMin, denMin + denStep, ... up to denMax. */
  datatype Ratnum = Ratnum(num: Uint, denMin: Uint, denMax: Uint, denStep: Uint)

  predicate Usable(r: Ratnum) {
    r.num > 0 && 0 < r.denMin <= r.denMax && r.denStep > 0
  }

  predicate Divider(r: Ratnum, den: int) {
    r.denMin <= den <= r.denMax && r.denStep > 0 && (den - r.denMin) % r.denStep == 0
  }

  // ---------------------------------------------------------------- the candidate of one clock

  predicate LowFits(r: Ratnum, q: Uint) {
    DivDown(r.num, q) >= r.denMin
  }

  /** The divider the code picks for the slowest rate of at least `q`. */
  function LowDen(r: Ratnum, q: Uint): (den: Uint)
    requires Usable(r) && q > 0 && LowFits(r, q)
    ensures den > 0
  {
    var d := DivDown(r.num, q);
    if d > r.denMax then r.denMax
    else RoundsDown(r, d); d - (d - r.denMin) % r.denStep
  }

  predicate HighFits(r: Ratnum, q: Uint) {
    DivUp(r.num, q) <= r.denMax
  }

  /** The divider the code picks for the fastest rate of at most `q`, before any wrap of the addition. */
  function HighDen(r: Ratnum, q: Uint): (den: nat)
    requires Usable(r) && q > 0 && HighFits(r, q)
    ensures den > 0
  {
    var d := DivUp(r.num, q);
    if d < r.denMin then r.denMin
    else
      var m := (d - r.denMin) % r.denStep;
      if m != 0 then d + (r.denStep - m) else d
  }

  lemma RoundsDown(r: Ratnum, d: int)
    requires Usable(r) && d >= r.denMin
    ensures r.denMin <= d - (d - r.denMin) % r.denStep <= d
  {
    Euclid(d - r.denMin, r.denStep);
  }

  /** Every divider setting giving at least `q` is at most the one picked. */
  lemma LowDenIsLargest(r: Ratnum, q: Uint, den: int)
    requires Usable(r) && q > 0 && Divider(r, den) && q * den <= r.num
    ensures LowFits(r, q) && den <= LowDen(r, q)
  {
    var d := r.num / q;
    Euclid(r.num, q);
    Scale(d + 1, den, q);
    assert den <= d;
    if d <= r.denMax {
      LastMultiple(den - r.denMin, d - r.denMin, r.denStep);
    }
  }

  /** Every divider setting giving at most `q` is at least the one picked. */
  lemma HighDenIsSmallest(r: Ratnum, q: Uint, den: int)
    requires Usable(r) && q > 0 && Divider(r, den) && r.num <= q * den
    ensures HighFits(r, q) && HighDen(r, q) <= den
  {
    var d := DivUp(r.num, q);
    Euclid(r.num, q);
    Scale(den, r.num / q, q);
    assert d <= den;
    if d >= r.denMin {
      NextMultiple(den - r.denMin, d - r.denMin, r.denStep);
    }
  }

  /** What is picked is a divider the clock has, or its largest number, which may be off its step. */
  lemma LowDenIsReal(r: Ratnum, q: Uint)
    requires Usable(r) && q > 0 && LowFits(r, q)
    ensures r.denMin <= LowDen(r, q) <= r.denMax
    ensures Divider(r, LowDen(r, q)) <==> r.num / q <= r.denMax || Divider(r, r.denMax)
    ensures !Divider(r, LowDen(r, q)) ==> LowDen(r, q) == r.denMax
  {
    var d := DivDown(r.num, q);
    RoundsDown(r, d);
    if d <= r.denMax {
      OnStep(r, d);
    }
  }

  lemma OnStep(r: Ratnum, d: int)
    requires Usable(r) && d >= r.denMin
    ensures (d - (d - r.denMin) % r.denStep - r.denMin) % r.denStep == 0
  {
    var n := d - r.denMin;
    Euclid(n, r.denStep);
    EuclidUnique(n - n % r.denStep, r.denStep, n / r.denStep, 0);
  }

  /** What is picked is on the step; it is a divider the clock has unless rounding up has left the range, which happens
      exactly if none of the clock's dividers brings it down to `q`. */
  lemma HighDenIsReal(r: Ratnum, q: Uint)
    requires Usable(r) && q > 0 && HighFits(r, q)
    ensures HighDen(r, q) >= r.denMin && (HighDen(r, q) - r.denMin) % r.denStep == 0
    ensures Divider(r, HighDen(r, q)) <==> HighDen(r, q) <= r.denMax
    ensures HighDen(r, q) <= r.denMax <==> r.num <= q * LargestDivider(r)
  {
    HighDenOnStep(r, q);
    HighDenReachesIff(r, q);
  }

  lemma HighDenReachesIff(r: Ratnum, q: Uint)
    requires Usable(r) && q > 0 && HighFits(r, q)
    ensures HighDen(r, q) <= r.denMax <==> r.num <= q * LargestDivider(r)
  {
    LargestDividerIsOne(r);
    if r.num <= q * LargestDivider(r) {
      HighDenIsSmallest(r, q, LargestDivider(r));
    } else {
      HighDenOnStep(r, q);
      HighDenBound(r, q);
      BeyondLargest(r, HighDen(r, q), q);
    }
  }

  lemma BeyondLargest(r: Ratnum, den: int, q: int)
    requires Usable(r) && den >= r.denMin && (den - r.denMin) % r.denStep == 0
    requires q > 0 && q * den >= r.num > q * LargestDivider(r)
    ensures den > r.denMax
  {
    LargestDividerIsOne(r);
    if den <= r.denMax {
      assert Divider(r, den);
      Scale(LargestDivider(r), den, q);
    }
  }

  lemma HighDenOnStep(r: Ratnum, q: Uint)
    requires Usable(r) && q > 0 && HighFits(r, q)
    ensures HighDen(r, q) >= r.denMin && (HighDen(r, q) - r.denMin) % r.denStep == 0
  {
    var d := DivUp(r.num, q);
    if d < r.denMin {
      EuclidUnique(0, r.denStep, 0, 0);
    } else {
      StepUp(d - r.denMin, r.denStep);
    }
  }

  /** The next multiple of `s`. */
  lemma StepUp(n: nat, s: nat)
    requires s > 0
    ensures n % s != 0 ==> n % s < s && (n + (s - n % s)) % s == 0
  {
    Euclid(n, s);
    if n % s != 0 {
      assert (n / s + 1) * s == n / s * s + s;
      EuclidUnique(n + (s - n % s), s, n / s + 1, 0);
    }
  }

  /** Rounding up does leave the range: a clock of 100 with dividers 1 and 3 is asked for at most 25, and 5 is picked. */
  lemma HighDenOvershoots()
    ensures exists r, q :: Usable(r) && q > 0 && HighFits(r, q) && HighDen(r, q) > r.denMax
  {
    var r := Ratnum(100, 1, 4, 2);
    assert Usable(r) && HighFits(r, 25) && HighDen(r, 25) == 5;
  }

  /** The largest divider setting of a clock. */
  function LargestDivider(r: Ratnum): int
    requires Usable(r)
  {
    r.denMax - (r.denMax - r.denMin) % r.denStep
  }

  lemma LargestDividerIsOne(r: Ratnum)
    requires Usable(r)
    ensures Divider(r, LargestDivider(r)) && LargestDivider(r) > 0
    ensures forall den :: Divider(r, den) ==> den <= LargestDivider(r)
  {
    var d := r.denMax - r.denMin;
    Euclid(d, r.denStep);
    EuclidUnique(d - d % r.denStep, r.denStep, d / r.denStep, 0);
    RoundsDown(r, r.denMax);
    forall den | Divider(r, den) ensures den <= LargestDivider(r) {
      LastMultiple(den - r.denMin, d, r.denStep);
    }
  }

  /** A multiple of `s` not above `d` is not above d rounded down. */
  lemma LastMultiple(m: nat, d: nat, s: nat)
    requires s > 0 && m <= d && m % s == 0
    ensures m <= d - d % s
  {
    Euclid(m, s);
    Euclid(d, s);
    Scale(d / s + 1, m / s, s);
    Scale(d / s, m / s, s);
  }

  /** A multiple of `s` not below `d` is not below d rounded up. */
  lemma NextMultiple(m: nat, d: nat, s: nat)
    requires s > 0 && m >= d && m % s == 0
    ensures d % s != 0 ==> m >= d + (s - d % s)
  {
    Euclid(m, s);
    Euclid(d, s);
    Scale(m / s, d / s + 1, s);
    Scale(m / s, d / s, s);
  }

  /** The rates picked really are on their side of `q`. */
  lemma LowDenBound(r: Ratnum, q: Uint)
    requires Usable(r) && q > 0 && LowFits(r, q)
    ensures q * LowDen(r, q) <= r.num
  {
    var d := DivDown(r.num, q);
    Euclid(r.num, q);
    RoundsDown(r, d);
    Scale(d, LowDen(r, q), q);
  }

  lemma HighDenBound(r: Ratnum, q: Uint)
    requires Usable(r) && q > 0 && HighFits(r, q)
    ensures q * HighDen(r, q) >= r.num
  {
    var d := DivUp(r.num, q);
    Euclid(r.num, q);
    Scale(d, r.num / q + 1, q);
    if d >= r.denMin { Euclid(d - r.denMin, r.denStep); }
    Scale(d, HighDen(r, q), q);
  }

  // ---------------------------------------------------------------- machine arithmetic

  /** The products of two clocks compared in the first loop fit an unsigned int. */
  predicate LowSafe(rats: seq<Ratnum>, q: Uint)
    requires q > 0 && forall r :: r in rats ==> Usable(r)
  {
    forall i, j :: 0 <= i < |rats| && 0 <= j < |rats| && i != j && LowFits(rats[i], q) && LowFits(rats[j], q) ==>
      (rats[i].num - q * LowDen(rats[i], q)) * LowDen(rats[j], q) <= UINT_MAX
  }

  /** So do those of the second loop, and so does each divider it picks. */
  predicate HighSafe(rats: seq<Ratnum>, q: Uint)
    requires q > 0 && forall r :: r in rats ==> Usable(r)
  {
    && (forall r :: r in rats && HighFits(r, q) ==> HighDen(r, q) <= UINT_MAX)
    && (forall i, j :: 0 <= i < |rats| && 0 <= j < |rats| && i != j && HighFits(rats[i], q) && HighFits(rats[j], q) ==>
          (q * HighDen(rats[i], q) - rats[i].num) * HighDen(rats[j], q) <= UINT_MAX)
  }

  /** The value an unsigned int has after an assignment; a signed int in between does not change it. */
  function Word(n: int): Uint {
    n % (UINT_MAX + 1)
  }

  lemma WordExact(n: int)
    requires 0 <= n <= UINT_MAX
    ensures Word(n) == n
  {
  }

  /** A product of two unsigned ints as the machine computes it. */
  function Wrapped(a: Uint, b: Uint): Uint {
    (a * b) % (UINT_MAX + 1)
  }

  lemma WrappedExact(a: Uint, b: Uint)
    requires a * b <= UINT_MAX
    ensures Wrapped(a, b) == a * b
  {
  }

  /** Comparing remainders over dividers is comparing rates. */
  lemma CloserIsSlower(q: int, n1: int, d1: int, n2: int, d2: int)
    ensures (n1 - q * d1) * d2 < (n2 - q * d2) * d1 <==> n1 * d2 < n2 * d1
    ensures (q * d1 - n1) * d2 < (q * d2 - n2) * d1 <==> n1 * d2 > n2 * d1
  {
    assert (n1 - q * d1) * d2 == n1 * d2 - q * d1 * d2;
    assert (n2 - q * d2) * d1 == n2 * d1 - q * d1 * d2;
  }

  // ---------------------------------------------------------------- the two searches

  /** A chosen rate, or `num == 0` for none. */
  datatype Best = Best(num: Uint, den: Uint)

  /** The slowest candidate rate among the clocks, if there is one. */
  ghost predicate IsSlowest(b: Best, rats: seq<Ratnum>, q: Uint)
    requires q > 0 && forall r :: r in rats ==> Usable(r)
  {
    && (b.num == 0 ==> b.den == 0 && forall r :: r in rats ==> !LowFits(r, q))
    && (b.num > 0 ==> (exists r :: r in rats && LowFits(r, q) && b == Best(r.num, LowDen(r, q)))
                      && forall r :: r in rats && LowFits(r, q) ==> b.num * LowDen(r, q) <= r.num * b.den)
  }

  /** The fastest candidate rate among the clocks, if there is one. */
  ghost predicate IsFastest(b: Best, rats: seq<Ratnum>, q: Uint)
    requires q > 0 && forall r :: r in rats ==> Usable(r)
  {
    && (b.num == 0 ==> b.den == 0 && forall r :: r in rats ==> !HighFits(r, q))
    && (b.num > 0 ==> (exists r :: r in rats && HighFits(r, q) && b.num == r.num && b.den == HighDen(r, q))
                      && forall r :: r in rats && HighFits(r, q) ==> b.num * HighDen(r, q) >= r.num * b.den)
  }

  /** What that means for the clocks alone. If there is a rate, it is one that a clock gives by a divider in its range,
      and at least `q`; no divider setting of any clock gives a slower one that is. If there is none, no setting does. */
  ghost predicate SlowestSetting(b: Best, rats: seq<Ratnum>, q: Uint) {
    && (forall r, den :: r in rats && Divider(r, den) && q * den <= r.num ==> b.num > 0 && b.num * den <= r.num * b.den)
    && (b.num > 0 ==>
          q * b.den <= b.num &&
          exists r :: r in rats && b.num == r.num && 0 < r.denMin <= b.den <= r.denMax &&
                      (b.den == r.denMax || Divider(r, b.den)))
  }

  /** The mirror image, where rounding up may take the divider past the largest one. */
  ghost predicate FastestSetting(b: Best, rats: seq<Ratnum>, q: Uint) {
    && (forall r, den :: r in rats && Divider(r, den) && q * den >= r.num ==> b.num > 0 && b.num * den >= r.num * b.den)
    && (b.num > 0 ==>
          q * b.den >= b.num &&
          exists r :: r in rats && r.denStep > 0 && b.num == r.num &&
                      0 < r.denMin <= b.den && (b.den - r.denMin) % r.denStep == 0)
  }

  lemma SlowestIsSetting(b: Best, rats: seq<Ratnum>, q: Uint)
    requires q > 0 && (forall r :: r in rats ==> Usable(r)) && IsSlowest(b, rats, q)
    ensures SlowestSetting(b, rats, q)
  {
    forall r, den | r in rats && Divider(r, den) && q * den <= r.num ensures b.num > 0 && b.num * den <= r.num * b.den {
      LowDenIsLargest(r, q, den);
      Below(b, r, LowDen(r, q), den);
    }
    if b.num > 0 {
      var r :| r in rats && LowFits(r, q) && b == Best(r.num, LowDen(r, q));
      LowDenIsReal(r, q);
      LowDenBound(r, q);
      assert r in rats && b.num == r.num && 0 < r.denMin <= b.den <= r.denMax && (b.den == r.denMax || Divider(r, b.den));
    }
  }

  lemma FastestIsSetting(b: Best, rats: seq<Ratnum>, q: Uint)
    requires q > 0 && (forall r :: r in rats ==> Usable(r)) && IsFastest(b, rats, q)
    ensures FastestSetting(b, rats, q)
  {
    forall r, den | r in rats && Divider(r, den) && q * den >= r.num ensures b.num > 0 && b.num * den >= r.num * b.den {
      HighDenIsSmallest(r, q, den);
      Above(b, r, HighDen(r, q), den);
    }
    if b.num > 0 {
      var r :| r in rats && HighFits(r, q) && b.num == r.num && b.den == HighDen(r, q);
      HighDenIsReal(r, q);
      HighDenBound(r, q);
    }
  }

  lemma Order(a: int, b: int, c: int, d: int, e: int, f: int)
    requires b > 0 && d > 0 && f > 0 && a * d <= c * b && c * f <= e * d
    ensures a * f <= e * b
  {
    Scale(a * d, c * b, f);
    Scale(c * f, e * d, b);
    assert (a * d) * f == (a * f) * d && (c * b) * f == (c * f) * b && (e * d) * b == (e * b) * d;
    Scale(e * b, a * f, d);
  }

  lemma SlowestStep(b: Best, c: Best, rats: seq<Ratnum>, r: Ratnum, q: Uint)
    requires q > 0 && Usable(r) && (forall s :: s in rats ==> Usable(s)) && IsSlowest(b, rats, q) && LowFits(r, q)
    requires c == if b.num == 0 || r.num * b.den < b.num * LowDen(r, q) then Best(r.num, LowDen(r, q)) else b
    ensures IsSlowest(c, rats + [r], q)
  {
    forall s | s in rats + [r] && LowFits(s, q) ensures c.num * LowDen(s, q) <= s.num * c.den {
      if s in rats && c != b {
        Order(c.num, c.den, b.num, b.den, s.num, LowDen(s, q));
      }
    }
    assert r in rats + [r];
    if c == b {
      var s :| s in rats && LowFits(s, q) && b == Best(s.num, LowDen(s, q));
      assert s in rats + [r];
    }
  }

  lemma FastestStep(b: Best, c: Best, rats: seq<Ratnum>, r: Ratnum, q: Uint)
    requires q > 0 && Usable(r) && (forall s :: s in rats ==> Usable(s)) && IsFastest(b, rats, q)
    requires HighFits(r, q) && HighDen(r, q) <= UINT_MAX
    requires c == if b.num == 0 || r.num * b.den > b.num * HighDen(r, q) then Best(r.num, HighDen(r, q)) else b
    ensures IsFastest(c, rats + [r], q)
  {
    forall s | s in rats + [r] && HighFits(s, q) ensures c.num * HighDen(s, q) >= s.num * c.den {
      if s in rats && c != b {
        Order(s.num, HighDen(s, q), b.num, b.den, c.num, c.den);
      }
    }
    assert r in rats + [r];
    if c == b {
      var s :| s in rats && HighFits(s, q) && b.num == s.num && b.den == HighDen(s, q);
      assert s in rats + [r];
    }
  }

  /** What the loops keep: the candidate chosen so far and how far it is from `q`. */
  ghost predicate Slowest(b: Best, diff: Uint, rats: seq<Ratnum>, q: Uint)
    requires q > 0 && forall r :: r in rats ==> Usable(r)
  {
    IsSlowest(b, rats, q) && (b.num > 0 ==> diff == b.num - q * b.den && b.den > 0)
  }

  ghost predicate Fastest(b: Best, diff: Uint, rats: seq<Ratnum>, q: Uint)
    requires q > 0 && forall r :: r in rats ==> Usable(r)
  {
    IsFastest(b, rats, q) && (b.num > 0 ==> diff == Word(q * b.den - b.num) && b.den > 0)
  }

  /** The first loop. */
  method FindSlowest(rats: seq<Ratnum>, q: Uint) returns (b: Best)
    requires q > 0 && (forall r :: r in rats ==> Usable(r)) && LowSafe(rats, q)
    ensures IsSlowest(b, rats, q)
  {
    b := Best(0, 0);
    var bestDiff: Uint := 0;
    var k := 0;
    while k < |rats|
      invariant 0 <= k <= |rats|
      invariant Slowest(b, bestDiff, rats[..k], q)
    {
      var r := rats[k];
      assert rats[..k + 1] == rats[..k] + [r] && r in rats;
      var den := DivDown(r.num, q);
      if den >= r.denMin {
        den := SettleLow(r, q, den);
        b, bestDiff := TakeSlower(rats, k, q, den, b, bestDiff);
      }
      k := k + 1;
    }
    assert rats[..k] == rats;
  }

  /** Down to the largest divider setting. */
  method SettleLow(r: Ratnum, q: Uint, den0: Uint) returns (den: Uint)
    requires Usable(r) && q > 0 && LowFits(r, q) && den0 == DivDown(r.num, q)
    ensures den == LowDen(r, q)
  {
    den := den0;
    if den > r.denMax {
      den := r.denMax;
    } else {
      RoundsDown(r, den);
      var m := (den - r.denMin) % r.denStep;
      if m != 0 {
        den := den - m;
      }
    }
  }

  /** Clock `k` takes over if it is nearer to `q`. */
  method TakeSlower(rats: seq<Ratnum>, k: nat, q: Uint, den: Uint, b0: Best, diff0: Uint) returns (b: Best, bestDiff: Uint)
    requires q > 0 && (forall r :: r in rats ==> Usable(r)) && LowSafe(rats, q) && k < |rats|
    requires Slowest(b0, diff0, rats[..k], q) && LowFits(rats[k], q) && den == LowDen(rats[k], q)
    ensures Slowest(b, bestDiff, rats[..k] + [rats[k]], q)
  {
    var r := rats[k];
    b, bestDiff := b0, diff0;
    LowDiffFits(r, q);
    var diff := Word(r.num - q * den);
    var closer := b.num == 0;
    if !closer {
      LowComparison(rats, k, q, b);
      closer := Wrapped(diff, b.den) < Wrapped(bestDiff, den);
    }
    if closer {
      bestDiff, b := diff, Best(r.num, den);
    }
    SlowestStep(b0, b, rats[..k], r, q);
  }

  lemma LowComparison(rats: seq<Ratnum>, k: nat, q: Uint, b: Best)
    requires q > 0 && (forall r :: r in rats ==> Usable(r)) && LowSafe(rats, q) && k < |rats|
    requires IsSlowest(b, rats[..k], q) && b.num > 0 && LowFits(rats[k], q)
    ensures var r := rats[k];
            var diff, bestDiff := r.num - q * LowDen(r, q), b.num - q * b.den;
            0 <= diff <= UINT_MAX && 0 <= bestDiff <= UINT_MAX &&
            (Wrapped(diff, b.den) < Wrapped(bestDiff, LowDen(r, q)) <==> r.num * b.den < b.num * LowDen(r, q))
  {
    var r := rats[k];
    var s :| s in rats[..k] && LowFits(s, q) && b == Best(s.num, LowDen(s, q));
    var j :| 0 <= j < k && rats[j] == s;
    LowDiffFits(r, q);
    LowDiffFits(s, q);
    WrappedCompare(r.num - q * LowDen(r, q), LowDen(r, q), b.num - q * b.den, b.den);
    CloserIsSlower(q, r.num, LowDen(r, q), b.num, b.den);
  }

  /** Cross products that fit are compared as they are. */
  lemma WrappedCompare(e1: Uint, d1: Uint, e2: Uint, d2: Uint)
    requires e1 * d2 <= UINT_MAX && e2 * d1 <= UINT_MAX
    ensures Wrapped(e1, d2) < Wrapped(e2, d1) <==> e1 * d2 < e2 * d1
  {
    WrappedExact(e1, d2);
    WrappedExact(e2, d1);
  }

  /** The second loop. */
  method FindFastest(rats: seq<Ratnum>, q: Uint) returns (b: Best)
    requires q > 0 && (forall r :: r in rats ==> Usable(r)) && HighSafe(rats, q)
    ensures IsFastest(b, rats, q)
  {
    b := Best(0, 0);
    var bestDiff: Uint := 0;
    var k := 0;
    while k < |rats|
      invariant 0 <= k <= |rats|
      invariant Fastest(b, bestDiff, rats[..k], q)
    {
      var r := rats[k];
      assert rats[..k + 1] == rats[..k] + [r] && r in rats;
      var den := DivUp(r.num, q);
      if den <= r.denMax {
        den := SettleHigh(r, q, den);
        b, bestDiff := TakeFaster(rats, k, q, den, b, bestDiff);
      }
      k := k + 1;
    }
    assert rats[..k] == rats;
  }

  /** Up to the smallest divider setting. */
  method SettleHigh(r: Ratnum, q: Uint, den0: Uint) returns (den: Uint)
    requires Usable(r) && q > 0 && HighFits(r, q) && den0 == DivUp(r.num, q) && HighDen(r, q) <= UINT_MAX
    ensures den == HighDen(r, q)
  {
    den := den0;
    if den < r.denMin {
      den := r.denMin;
    } else {
      var m := (den - r.denMin) % r.denStep;
      if m != 0 {
        WordExact(den + (r.denStep - m));
        den := Word(den + (r.denStep - m));
      }
    }
  }

  /** Clock `k` takes over if it is nearer to `q`. */
  method TakeFaster(rats: seq<Ratnum>, k: nat, q: Uint, den: Uint, b0: Best, diff0: Uint) returns (b: Best, bestDiff: Uint)
    requires q > 0 && (forall r :: r in rats ==> Usable(r)) && HighSafe(rats, q) && k < |rats|
    requires Fastest(b0, diff0, rats[..k], q) && HighFits(rats[k], q) && den == HighDen(rats[k], q)
    ensures Fastest(b, bestDiff, rats[..k] + [rats[k]], q)
  {
    var r := rats[k];
    b, bestDiff := b0, diff0;
    var diff := Word(q * den - r.num);
    var closer := b.num == 0;
    if !closer {
      HighComparison(rats, k, q, b);
      closer := Wrapped(diff, b.den) < Wrapped(bestDiff, den);
    }
    if closer {
      bestDiff, b := diff, Best(r.num, den);
    }
    FastestStep(b0, b, rats[..k], r, q);
  }

  lemma LowDiffFits(r: Ratnum, q: Uint)
    requires q > 0 && Usable(r) && LowFits(r, q)
    ensures 0 <= r.num - q * LowDen(r, q) <= UINT_MAX
    ensures Word(r.num - q * LowDen(r, q)) == r.num - q * LowDen(r, q)
  {
    LowDenBound(r, q);
    Scale(0, LowDen(r, q), q);
  }

  /** A remainder whose product with a divider fits, fits itself. */
  lemma HighDiffFits(r: Ratnum, q: Uint, d: nat)
    requires q > 0 && Usable(r) && HighFits(r, q) && d > 0 && (q * HighDen(r, q) - r.num) * d <= UINT_MAX
    ensures 0 <= q * HighDen(r, q) - r.num <= UINT_MAX
    ensures Word(q * HighDen(r, q) - r.num) == q * HighDen(r, q) - r.num
  {
    HighDenBound(r, q);
    FactorFits(q * HighDen(r, q) - r.num, d);
  }

  lemma FactorFits(n: nat, d: nat)
    requires d > 0 && n * d <= UINT_MAX
    ensures n <= UINT_MAX
  {
    if n > 0 { Scale(1, d, n); }
  }

  lemma HighComparison(rats: seq<Ratnum>, k: nat, q: Uint, b: Best)
    requires q > 0 && (forall r :: r in rats ==> Usable(r)) && HighSafe(rats, q) && k < |rats|
    requires IsFastest(b, rats[..k], q) && b.num > 0 && HighFits(rats[k], q)
    ensures var r := rats[k];
            HighDen(r, q) <= UINT_MAX &&
            (Wrapped(Word(q * HighDen(r, q) - r.num), b.den) < Wrapped(Word(q * b.den - b.num), HighDen(r, q)) <==>
             r.num * b.den > b.num * HighDen(r, q))
  {
    var r := rats[k];
    var s :| s in rats[..k] && HighFits(s, q) && b.num == s.num && b.den == HighDen(s, q);
    var j :| 0 <= j < k && rats[j] == s;
    HighCompare(r, s, q);
  }

  lemma HighCompare(r: Ratnum, s: Ratnum, q: Uint)
    requires q > 0 && Usable(r) && Usable(s) && HighFits(r, q) && HighFits(s, q)
    requires HighDen(r, q) <= UINT_MAX && HighDen(s, q) <= UINT_MAX
    requires (q * HighDen(r, q) - r.num) * HighDen(s, q) <= UINT_MAX && (q * HighDen(s, q) - s.num) * HighDen(r, q) <= UINT_MAX
    ensures Wrapped(Word(q * HighDen(r, q) - r.num), HighDen(s, q)) < Wrapped(Word(q * HighDen(s, q) - s.num), HighDen(r, q)) <==>
            r.num * HighDen(s, q) > s.num * HighDen(r, q)
  {
    HighDiffFits(r, q, HighDen(s, q));
    HighDiffFits(s, q, HighDen(r, q));
    WrappedCompare(q * HighDen(r, q) - r.num, HighDen(r, q), q * HighDen(s, q) - s.num, HighDen(s, q));
    CloserIsSlower(q, r.num, HighDen(r, q), s.num, HighDen(s, q));
  }

  // ---------------------------------------------------------------- the whole narrowing

  function LowEnd(i: Interval): Uint {
    if i.min == 0 then 1 else i.min
  }

  /** The closed hull of the two rates found, rounded outwards to integers. */
  function RateRange(lo: Best, hi: Best): Interval
    requires lo.den > 0 && hi.den > 0
  {
    Interval(DivDown(lo.num, lo.den), lo.num % lo.den != 0, DivUp(hi.num, hi.den), hi.num % hi.den != 0, false, false)
  }

  ghost predicate Achieves(rats: seq<Ratnum>, r: Ratnum, den: int, v: real) {
    r in rats && den > 0 && Divider(r, den) && v * den as real == r.num as real
  }

  /** Comparing a rate with an integer is comparing products of integers. */
  lemma RateCompare(num: int, den: int, v: real, q: int)
    requires den > 0 && v * den as real == num as real
    ensures q as real <= v ==> q * den <= num
    ensures v <= q as real ==> num <= q * den
  {
    assert (q * den) as real == q as real * den as real;
    ScaleReal(q as real, v, den as real);
  }

  /** A rate the dividers achieve inside the interval makes both searches succeed. */
  lemma AchievedIsCandidate(rats: seq<Ratnum>, i: Interval, r: Ratnum, den: int, v: real)
    requires forall r :: r in rats ==> Usable(r)
    requires Achieves(rats, r, den, v) && v >= 1.0 && Admits(i, v)
    ensures LowFits(r, LowEnd(i)) && den <= LowDen(r, LowEnd(i))
    ensures i.max > 0 && HighFits(r, i.max) && HighDen(r, i.max) <= den
  {
    RateCompare(r.num, den, v, LowEnd(i));
    RateCompare(r.num, den, v, i.max);
    LowDenIsLargest(r, LowEnd(i), den);
    HighDenIsSmallest(r, i.max, den);
  }

  /** A rate the dividers achieve is in the range between the slowest and the fastest candidate. */
  lemma AchievedInRange(rats: seq<Ratnum>, i: Interval, r: Ratnum, den: int, v: real, lo: Best, hi: Best)
    requires (forall r :: r in rats ==> Usable(r)) && i.max > 0
    requires IsSlowest(lo, rats, LowEnd(i)) && IsFastest(hi, rats, i.max)
    requires Achieves(rats, r, den, v) && v >= 1.0 && Admits(i, v)
    ensures lo.num > 0 && lo.den > 0 && hi.num > 0 && hi.den > 0 && Admits(RateRange(lo, hi), v)
  {
    AchievedIsCandidate(rats, i, r, den, v);
    Below(lo, r, LowDen(r, LowEnd(i)), den);
    Above(hi, r, HighDen(r, i.max), den);
    EndBelow(lo, r, den, v);
    EndAbove(hi, r, den, v);
  }

  lemma Below(lo: Best, r: Ratnum, d: nat, den: nat)
    requires lo.num * d <= r.num * lo.den && den <= d
    ensures lo.num * den <= r.num * lo.den
  {
    if lo.num > 0 { Scale(den, d, lo.num); }
  }

  lemma Above(hi: Best, r: Ratnum, d: nat, den: nat)
    requires hi.num * d >= r.num * hi.den && d <= den
    ensures hi.num * den >= r.num * hi.den
  {
    if hi.num > 0 { Scale(den, d, hi.num); }
  }

  lemma EndBelow(lo: Best, r: Ratnum, den: nat, v: real)
    requires lo.den > 0 && den > 0 && v * den as real == r.num as real && lo.num * den <= r.num * lo.den
    requires v < UINT_MAX as real + 1.0
    ensures (lo.num / lo.den) as real <= v && (lo.num % lo.den != 0 ==> (lo.num / lo.den) as real < v)
  {
    QuotientMonotone(r.num, den, lo.num, lo.den);
    Euclid(r.num, den);
    var q := r.num / den;
    assert r.num as real == q as real * den as real + (r.num % den) as real;
    ScaleReal(q as real, v, den as real);
  }

  lemma EndAbove(hi: Best, r: Ratnum, den: nat, v: real)
    requires hi.den > 0 && den > 0 && v * den as real == r.num as real && hi.num * den >= r.num * hi.den
    ensures v <= DivUp(hi.num, hi.den) as real && (hi.num % hi.den != 0 ==> v < DivUp(hi.num, hi.den) as real)
  {
    UpperEndMonotone(r.num, den, hi.num, hi.den);
    UpperEnd(r.num, den, v);
    Euclid(r.num, den);
    Euclid(hi.num, hi.den);
  }

  /** Every achievable rate of at least 1 in `i` is still in `j`, and the call did not fail if there is one. */
  ghost predicate KeepsRates(rats: seq<Ratnum>, i: Interval, ret: int, j: Interval) {
    !i.empty ==> forall r, den, v :: Achieves(rats, r, den, v) && v >= 1.0 && Admits(i, v) ==> ret >= 0 && Admits(j, v)
  }

  /** What the call returns for the two rates it found. */
  function RateRefined(i: Interval, lo: Best, hi: Best): Refinement {
    if lo.den == 0 || hi.den == 0 then Refinement(i.(empty := true), INVAL)
    else Refined(i, RateRange(lo, hi))
  }

  /** What the two searches find; the second one is not made if the first finds nothing or the upper end is 0. */
  ghost predicate Found(rats: seq<Ratnum>, i: Interval, lo: Best, hi: Best)
    requires forall r :: r in rats ==> Usable(r)
  {
    && IsSlowest(lo, rats, LowEnd(i))
    && if i.max > 0 && lo.num > 0 then IsFastest(hi, rats, i.max) else hi == Best(0, 0)
  }

  lemma RateRefinedKeeps(rats: seq<Ratnum>, i: Interval, lo: Best, hi: Best)
    requires (forall r :: r in rats ==> Usable(r)) && Found(rats, i, lo, hi)
    ensures KeepsRates(rats, i, RateRefined(i, lo, hi).ret, RateRefined(i, lo, hi).i)
  {
    forall r, den, v | !i.empty && Achieves(rats, r, den, v) && v >= 1.0 && Admits(i, v)
      ensures RateRefined(i, lo, hi).ret >= 0 && Admits(RateRefined(i, lo, hi).i, v)
    {
      AchievedIsCandidate(rats, i, r, den, v);
      assert lo.num > 0;
      AchievedInRange(rats, i, r, den, v, lo, hi);
      RefineKeeps(i, RateRange(lo, hi), v);
    }
  }

  /** Below 1 the guarantee ends: with a lower end of 0 the search starts at 1, and loses 1/2. */
  lemma RatesBelowOneAreLost()
    ensures exists r, i, lo, hi ::
              Usable(r) && Proper(i) && Achieves([r], r, 2, 0.5) && Admits(i, 0.5) &&
              IsSlowest(lo, [r], LowEnd(i)) && i.max > 0 && IsFastest(hi, [r], i.max) && lo.den > 0 && hi.den > 0 &&
              !Admits(RateRange(lo, hi), 0.5)
  {
    var r := Ratnum(1, 1, 2, 1);
    var i := Interval(0, false, 5, false, false, false);
    var b := Best(1, 1);
    assert r in [r] && Divider(r, 2) && 0.5 * 2.0 == 1.0;
    assert LowFits(r, 1) && LowDen(r, 1) == 1 && HighFits(r, 5) && HighDen(r, 5) == 1;
    assert IsSlowest(b, [r], LowEnd(i)) && IsFastest(b, [r], i.max);
    assert !Admits(RateRange(b, b), 0.5);
  }

  /** Every achievable rate in `i`, however slow, is still in `j`, and the call did not fail if there is one. */
  ghost predicate KeepsAllRates(rats: seq<Ratnum>, i: Interval, ret: int, j: Interval) {
    forall r, den, v :: Achieves(rats, r, den, v) && Admits(i, v) ==> ret >= 0 && Admits(j, v)
  }

  /** The interval reaches down to 0, and some clock can be divided down to less than 1. */
  predicate LosesSlowRates(rats: seq<Ratnum>, i: Interval)
    requires forall r :: r in rats ==> Usable(r)
  {
    i.min == 0 && i.max > 0 && !i.integer && exists r :: r in rats && r.num < LargestDivider(r)
  }

  /** With rates below 1 included, the guarantee holds if and only if the interval and the clocks are not of this kind. */
  lemma AllRatesKeptIff(rats: seq<Ratnum>, i: Interval, lo: Best, hi: Best)
    requires !i.empty && (forall r :: r in rats ==> Usable(r)) && Found(rats, i, lo, hi)
    ensures KeepsAllRates(rats, i, RateRefined(i, lo, hi).ret, RateRefined(i, lo, hi).i) <==> !LosesSlowRates(rats, i)
  {
    if LosesSlowRates(rats, i) {
      SlowRateLost(rats, i, lo, hi);
    } else {
      RateRefinedKeeps(rats, i, lo, hi);
      forall r, den, v | Achieves(rats, r, den, v) && Admits(i, v) ensures v >= 1.0 {
        if v < 1.0 {
          SlowRateMeansLoss(rats, i, r, den, v);
        }
      }
    }
  }

  /** A rate below 1 is not a whole number and needs a divider above the clock. */
  lemma SlowRate(num: int, den: int, v: real)
    requires num > 0 && den > 0 && v * den as real == num as real && v < 1.0
    ensures num < den
    ensures 0.0 < v && v.Floor == 0
  {
    BelowOne(v, den as real);
    AboveZero(v, den as real, num as real);
  }

  lemma BelowOne(v: real, d: real)
    requires d > 0.0 && v < 1.0
    ensures v * d < d
  {
    ScaleReal(v, 1.0, d);
  }

  lemma AboveZero(v: real, d: real, n: real)
    requires d > 0.0 && n > 0.0 && v * d == n
    ensures 0.0 < v
  {
    ScaleReal(0.0, v, d);
  }

  lemma SlowRateMeansLoss(rats: seq<Ratnum>, i: Interval, r: Ratnum, den: int, v: real)
    requires (forall r :: r in rats ==> Usable(r)) && Achieves(rats, r, den, v) && Admits(i, v) && v < 1.0
    ensures LosesSlowRates(rats, i)
  {
    SlowRate(r.num, den, v);
    LargestDividerIsOne(r);
  }

  /** Searching from 1 finds rates of at least 1. */
  lemma SearchFromOne(rats: seq<Ratnum>, lo: Best)
    requires (forall r :: r in rats ==> Usable(r)) && IsSlowest(lo, rats, 1) && lo.num > 0
    ensures lo.den > 0 && lo.num / lo.den >= 1
  {
    var s :| s in rats && LowFits(s, 1) && lo == Best(s.num, LowDen(s, 1));
    LowDenBound(s, 1);
    Euclid(lo.num, lo.den);
    Scale(lo.num / lo.den + 1, 1, lo.den);
  }

  /** The slowest rate of a clock with a large enough divider. */
  lemma SlowestRate(rats: seq<Ratnum>, i: Interval) returns (r: Ratnum, v: real)
    requires (forall r :: r in rats ==> Usable(r)) && LosesSlowRates(rats, i)
    ensures Usable(r) && Achieves(rats, r, LargestDivider(r), v) && Admits(i, v) && v < 1.0
  {
    r :| r in rats && r.num < LargestDivider(r);
    var den := LargestDivider(r);
    LargestDividerIsOne(r);
    v := r.num as real / den as real;
    FractionBelowOne(r.num, den, v);
  }

  lemma FractionBelowOne(num: nat, den: nat, v: real)
    requires 0 < num < den && v == num as real / den as real
    ensures v * den as real == num as real && 0.0 < v < 1.0
  {
    ScaleReal(v, 1.0, den as real);
    AboveZero(v, den as real, num as real);
  }

  lemma SlowRateLost(rats: seq<Ratnum>, i: Interval, lo: Best, hi: Best)
    requires !i.empty && (forall r :: r in rats ==> Usable(r)) && IsSlowest(lo, rats, LowEnd(i)) && LosesSlowRates(rats, i)
    ensures !KeepsAllRates(rats, i, RateRefined(i, lo, hi).ret, RateRefined(i, lo, hi).i)
  {
    var r, v := SlowestRate(rats, i);
    if lo.den > 0 && hi.den > 0 {
      SearchFromOne(rats, lo);
      RefineIntersectsIff(i, RateRange(lo, hi));
    }
  }

  // ---------------------------------------------------------------- the call

  /** `snd_interval_single` */
  predicate Single(i: Interval) {
    i.min == i.max || (i.min + 1 == i.max && i.openmax)
  }

  /** The rates found are those of the slowest and the fastest divider settings on the right side of the ends. */
  ghost predicate Settings(rats: seq<Ratnum>, i: Interval, lo: Best, hi: Best) {
    && SlowestSetting(lo, rats, if i.min == 0 then 1 else i.min)
    && if i.max > 0 && lo.num > 0 then FastestSetting(hi, rats, i.max) else hi == Best(0, 0)
  }

  /** The interval lies between the two rates, rounded outwards to integers, open where that rounds. */
  predicate WithinRates(i: Interval, lo: Best, hi: Best) {
    && i.min * lo.den + lo.den > lo.num && (i.min * lo.den < lo.num ==> i.openmin)
    && i.max * hi.den < hi.num + hi.den && (i.max * hi.den > hi.num ==> i.openmax)
  }

  /** `snd_interval_ratnum` on the interval at `a[k]`. The ghost results are the two rates it found; `ratio` is the
      fraction it reports, the faster one, when the interval has come down to a single value. */
  method RefineToRates(a: array<Interval>, k: nat, rats: seq<Ratnum>)
    returns (ret: int, ratio: Best, ghost lo: Best, ghost hi: Best)
    requires k < a.Length && (forall r :: r in rats ==> Usable(r))
    requires LowSafe(rats, LowEnd(a[k])) && (a[k].max > 0 ==> HighSafe(rats, a[k].max))
    modifies a
    ensures KeepsRates(rats, old(a[k]), ret, a[k])
    ensures !old(a[k].empty) ==> (KeepsAllRates(rats, old(a[k]), ret, a[k]) <==> !LosesSlowRates(rats, old(a[k])))
    ensures Found(rats, old(a[k]), lo, hi) && Settings(rats, old(a[k]), lo, hi)
    ensures ret >= 0 && WellEnded(old(a[k])) ==> WithinRates(a[k], lo, hi)
    ensures lo.num == 0 || hi.num == 0 ==> ret == INVAL
    ensures ret < 0 ==> a[k].empty
    ensures Refinement(a[k], ret) == RateRefined(old(a[k]), lo, hi)
    ensures ratio == if ret >= 0 && (a[k].min == a[k].max || (a[k].min + 1 == a[k].max && a[k].openmax)) then hi else Best(0, 0)
    ensures a[..] == old(a[..])[k := a[k]]
  {
    ghost var i := a[k];
    ratio := Best(0, 0);
    var slow, fast := FindRates(rats, a[k]);
    lo, hi := slow, fast;
    Promises(rats, i, lo, hi);
    if slow.den == 0 || fast.den == 0 {
      a[k] := a[k].(empty := true);
      return INVAL, ratio, lo, hi;
    }
    ret := Refine(a, k, RateRange(slow, fast));
    if ret >= 0 && Single(a[k]) {
      ratio := fast;
    }
  }

  /** The two loops. */
  method FindRates(rats: seq<Ratnum>, i: Interval) returns (lo: Best, hi: Best)
    requires (forall r :: r in rats ==> Usable(r)) && LowSafe(rats, LowEnd(i)) && (i.max > 0 ==> HighSafe(rats, i.max))
    ensures Found(rats, i, lo, hi)
  {
    lo := FindSlowest(rats, LowEnd(i));
    hi := Best(0, 0);
    if lo.den != 0 && i.max != 0 {
      hi := FindFastest(rats, i.max);
    }
  }

  lemma RatesBound(i: Interval, lo: Best, hi: Best)
    requires !i.empty && lo.den > 0 && hi.den > 0 && RateRefined(i, lo, hi).ret >= 0 && (i.integer ==> WellEnded(i))
    ensures WithinRates(RateRefined(i, lo, hi).i, lo, hi)
  {
    var t, j := RateRange(lo, hi), RateRefined(i, lo, hi).i;
    RateRangeWellEnded(lo, hi);
    RefineBelow(i, t);
    LowRateBound(j.min, j.openmin, lo.num, lo.den);
    HighRateBound(j.max, j.openmax, hi.num, hi.den);
  }

  lemma RateRangeWellEnded(lo: Best, hi: Best)
    requires lo.den > 0 && hi.den > 0
    ensures WellEnded(RateRange(lo, hi))
  {
    if lo.num % lo.den != 0 { QuotientBelow(lo.num, lo.den); }
  }

  lemma LowRateBound(min: nat, open: bool, num: nat, den: nat)
    requires den > 0 && (min > num / den || (min == num / den && (num % den != 0 ==> open)))
    ensures min * den + den > num && (min * den < num ==> open)
  {
    var q := num / den;
    Euclid(num, den);
    Scale(min, q + 1, den);
    assert (q + 1) * den == q * den + den;
  }

  lemma HighRateBound(max: nat, open: bool, num: Uint, den: Uint)
    requires den > 0 && (max < DivUp(num, den) || (max == DivUp(num, den) && (num % den != 0 ==> open)))
    ensures max * den < num + den && (max * den > num ==> open)
  {
    Euclid(num, den);
    var q := DivUp(num, den);
    if num % den != 0 {
      assert q * den == (num / den) * den + den;
      Scale(max, q - 1, den);
    }
    Scale(max, q, den);
  }

  lemma Promises(rats: seq<Ratnum>, i: Interval, lo: Best, hi: Best)
    requires (forall r :: r in rats ==> Usable(r)) && Found(rats, i, lo, hi)
    ensures KeepsRates(rats, i, RateRefined(i, lo, hi).ret, RateRefined(i, lo, hi).i)
    ensures !i.empty ==>
              (KeepsAllRates(rats, i, RateRefined(i, lo, hi).ret, RateRefined(i, lo, hi).i) <==> !LosesSlowRates(rats, i))
    ensures Settings(rats, i, lo, hi)
    ensures RateRefined(i, lo, hi).ret >= 0 && WellEnded(i) ==> WithinRates(RateRefined(i, lo, hi).i, lo, hi)
    ensures lo.num == 0 || hi.num == 0 ==> RateRefined(i, lo, hi).ret == INVAL
    ensures RateRefined(i, lo, hi).ret < 0 ==> RateRefined(i, lo, hi).i.empty
  {
    RateRefinedKeeps(rats, i, lo, hi);
    if !i.empty {
      AllRatesKeptIff(rats, i, lo, hi);
    }
    SlowestIsSetting(lo, rats, LowEnd(i));
    if i.max > 0 && lo.num > 0 {
      FastestIsSetting(hi, rats, i.max);
    }
    if RateRefined(i, lo, hi).ret >= 0 && WellEnded(i) {
      RatesBound(i, lo, hi);
    }
  }
}
