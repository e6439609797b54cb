/**
 Products and quotients of intervals, with 32-bit saturation and the floor/remainder rounding that
 decides the open ends. The two facts every rule needs: the result encloses all true values strictly
 between 0 and `UINT_MAX`, and it narrows when the operands narrow.
 */
module IntervalArithmetic {
  import opened Words
  import opened Numbers
  import opened Intervals

  datatype Quotient = Quotient(q: Uint, r: Uint)

  function Div32(a: Uint, b: Uint): Quotient {
    if b == 0 then Quotient(UINT_MAX, 0) else Quotient(a / b, a % b)
  }

  function DivDown(a: Uint, b: Uint): Uint {
    if b == 0 then UINT_MAX else a / b
  }

  function DivUp(a: Uint, b: Uint): Uint {
    if b == 0 then UINT_MAX
    else if a % b == 0 then a / b
    else QuotientBelow(a, b); a / b + 1
  }

  /** `mul`: the product, saturated at `UINT_MAX`. */
  function MulSaturating(a: Uint, b: Uint): Uint {
    if a == 0 then 0
    else if DivDown(UINT_MAX, a) < b then UINT_MAX
    else ProductFits(a, b); a * b
  }

  /** `muldiv32`: a·b/c through a 64-bit product, saturated at `UINT_MAX`. */
  function MulDiv32(a: Uint, b: Uint, c: Uint): Quotient {
    if c == 0 then Quotient(UINT_MAX, 0)
    else
      var n := Product(a, b);
      if n / c >= UINT_MAX then Quotient(UINT_MAX, 0) else Quotient(n / c, n % c)
  }

  /** A product of two word-sized naturals; named so that non-linear terms stay small. */
  function Product(a: Uint, b: Uint): nat {
    a * b
  }

  lemma QuotientBelow(a: Uint, b: Uint)
    requires b > 0 && a % b != 0
    ensures a / b < UINT_MAX
  {
    Euclid(a, b);
    Scale(a / b, UINT_MAX, b);
  }

  lemma ProductFits(a: Uint, b: Uint)
    requires a > 0 && b <= UINT_MAX / a
    ensures a * b <= UINT_MAX
  {
    Euclid(UINT_MAX, a);
    Scale(UINT_MAX / a, b, a);
  }

  /** What an operation leaves behind for an empty operand. */
  const NONE := Interval(0, false, 0, false, false, true)

  function Mul(a: Interval, b: Interval): Interval {
    if a.empty || b.empty then NONE
    else Interval(MulSaturating(a.min, b.min), a.openmin || b.openmin,
                  MulSaturating(a.max, b.max), a.openmax || b.openmax,
                  a.integer && b.integer, false)
  }

  function Div(a: Interval, b: Interval): Interval {
    if a.empty || b.empty then NONE
    else
      var lo := Div32(a.min, b.max);
      var hi := Div32(a.max, b.min);
      if b.min == 0 then
        Interval(lo.q, lo.r != 0 || a.openmin || b.openmax, UINT_MAX, false, false, false)
      else if hi.r != 0 then
        QuotientBelow(a.max, b.min);
        Interval(lo.q, lo.r != 0 || a.openmin || b.openmax, hi.q + 1, true, false, false)
      else
        Interval(lo.q, lo.r != 0 || a.openmin || b.openmax, hi.q, a.openmax || b.openmin, false, false)
  }

  /** a·b/k */
  function MulDivK(a: Interval, b: Interval, k: Uint): Interval {
    if a.empty || b.empty then NONE
    else
      var lo := MulDiv32(a.min, b.min, k);
      var hi := MulDiv32(a.max, b.max, k);
      if hi.r != 0 then
        Interval(lo.q, lo.r != 0 || a.openmin || b.openmin, hi.q + 1, true, false, false)
      else
        Interval(lo.q, lo.r != 0 || a.openmin || b.openmin, hi.q, a.openmax || b.openmax, false, false)
  }

  /** a·k/b */
  function MulKDiv(a: Interval, k: Uint, b: Interval): Interval {
    if a.empty || b.empty then NONE
    else
      var lo := MulDiv32(a.min, k, b.max);
      var hi := MulDiv32(a.max, k, b.min);
      if b.min == 0 then
        Interval(lo.q, lo.r != 0 || a.openmin || b.openmax, UINT_MAX, false, false, false)
      else if hi.r != 0 then
        Interval(lo.q, lo.r != 0 || a.openmin || b.openmax, hi.q + 1, true, false, false)
      else
        Interval(lo.q, lo.r != 0 || a.openmin || b.openmax, hi.q, a.openmax || b.openmin, false, false)
  }

  // ---------------------------------------------------------------- two of the four suffice

  lemma MulIsMulDivK(a: Interval, b: Interval)
    requires !a.empty && !b.empty
    ensures Mul(a, b) == MulDivK(a, b, 1).(integer := a.integer && b.integer)
  {
    SaturationAgrees(a.min, b.min);
    SaturationAgrees(a.max, b.max);
  }

  lemma SaturationAgrees(a: Uint, b: Uint)
    ensures MulDiv32(a, b, 1) == Quotient(MulSaturating(a, b), 0)
  {
    if a > 0 && UINT_MAX / a < b {
      assert a * b >= a * (UINT_MAX / a + 1) > UINT_MAX;
    } else if a > 0 {
      ProductFits(a, b);
    }
    assert Product(a, b) / 1 == Product(a, b) && Product(a, b) % 1 == 0;
  }

  lemma DivIsMulKDiv(a: Interval, b: Interval)
    requires !a.empty && !b.empty
    ensures Div(a, b) == MulKDiv(a, 1, b)
  {
    DivisionAgrees(a.min, b.max);
    DivisionAgrees(a.max, b.min);
  }

  lemma DivisionAgrees(a: Uint, b: Uint)
    ensures MulDiv32(a, 1, b) == Div32(a, b)
  {
    assert Product(a, 1) == a;
    if b > 0 && a / b >= UINT_MAX {
      if a % b != 0 { QuotientBelow(a, b); }
    }
  }

  // ---------------------------------------------------------------- enclosure

  /** `z` is at least n/c: what the rounded lower end may claim. */
  lemma LowerEnd(n: nat, c: nat, z: real)
    requires c > 0 && z * c as real >= n as real && z < UINT_MAX as real
    ensures n / c < UINT_MAX && (n / c) as real <= z
    ensures n % c != 0 || z * c as real > n as real ==> (n / c) as real < z
  {
    Euclid(n, c);
    DivisionInReals(n, c);
    LowerEndReal(z, (n / c) as real * c as real, n as real, (n / c) as real, c as real);
  }

  lemma DivisionInReals(n: nat, c: nat)
    requires c > 0
    ensures n as real == (n / c) as real * c as real + (n % c) as real
  {
    assert n == (n / c) * c + n % c;
    assert ((n / c) * c) as real == (n / c) as real * c as real;
  }

  lemma LowerEndReal(z: real, p: real, n: real, q: real, c: real)
    requires c > 0.0 && p == q * c && n >= p && z * c >= n
    ensures q <= z
    ensures n > p || z * c > n ==> q < z
  {
    ScaleReal(z, q, c);
  }

  /** `z` is at most n/c. */
  lemma UpperEnd(n: nat, c: nat, z: real)
    requires c > 0 && z * c as real <= n as real
    ensures n % c == 0 ==> z <= (n / c) as real
    ensures n % c == 0 && z * c as real < n as real ==> z < (n / c) as real
    ensures z < (n / c) as real + 1.0
  {
    var q := n / c;
    Euclid(n, c);
    assert n as real == q as real * c as real + (n % c) as real;
    ScaleReal(z, q as real, c as real);
    ScaleReal(z, q as real + 1.0, c as real);
    assert (q as real + 1.0) * c as real == q as real * c as real + c as real;
  }

  lemma ProductBounds(x: real, y: real, p: real, q: real)
    requires 0.0 <= p <= x && 0.0 <= q <= y && x > 0.0 && y > 0.0
    ensures p * q <= x * y
    ensures p < x || q < y ==> p * q < x * y
  {
    assert x * y - p * q == (x - p) * y + p * (y - q);
    assert x * y - p * q == x * (y - q) + (x - p) * q;
    if p < x { assert (x - p) * y > 0.0; } else if q < y { assert x * (y - q) > 0.0; }
  }

  lemma ProductReal(a: Uint, b: Uint)
    ensures Product(a, b) as real == a as real * b as real
  {
  }

  lemma ProductAbove(a: Interval, b: Interval, x: real, y: real, w: real)
    requires AboveMin(a, x) && AboveMin(b, y) && x > 0.0 && y > 0.0 && w == x * y
    ensures w >= Product(a.min, b.min) as real
    ensures a.openmin || b.openmin ==> w > Product(a.min, b.min) as real
  {
    ProductReal(a.min, b.min);
    ProductBounds(x, y, a.min as real, b.min as real);
  }

  lemma ProductUnder(a: Interval, b: Interval, x: real, y: real, w: real)
    requires BelowMax(a, x) && BelowMax(b, y) && x > 0.0 && y > 0.0 && w == x * y
    ensures w <= Product(a.max, b.max) as real
    ensures a.openmax || b.openmax ==> w < Product(a.max, b.max) as real
  {
    ProductReal(a.max, b.max);
    ProductBounds(a.max as real, b.max as real, x, y);
  }

  /** Every x·y/k strictly between 0 and `UINT_MAX` is in the interval computed for it. */
  lemma MulDivKEncloses(a: Interval, b: Interval, k: Uint, x: real, y: real, z: real)
    requires !a.empty && !b.empty && k > 0
    requires Admits(a, x) && Admits(b, y) && x > 0.0 && y > 0.0
    requires z * k as real == x * y && z < UINT_MAX as real
    ensures Admits(MulDivK(a, b, k), z)
  {
    ProductAbove(a, b, x, y, x * y);
    ProductUnder(a, b, x, y, x * y);
    MulDivKAdmits(a, b, k, x * y, z);
  }

  lemma MulDivKAdmits(a: Interval, b: Interval, k: Uint, w: real, z: real)
    requires !a.empty && !b.empty && k > 0 && z * k as real == w && z < UINT_MAX as real
    requires w >= Product(a.min, b.min) as real && (a.openmin || b.openmin ==> w > Product(a.min, b.min) as real)
    requires w <= Product(a.max, b.max) as real && (a.openmax || b.openmax ==> w < Product(a.max, b.max) as real)
    ensures Admits(MulDivK(a, b, k), z)
  {
    LowerEnd(Product(a.min, b.min), k, z);
    UpperEnd(Product(a.max, b.max), k, z);
  }

  /** Every x·k/y strictly between 0 and `UINT_MAX` is in the interval computed for it. */
  lemma MulKDivEncloses(a: Interval, k: Uint, b: Interval, x: real, y: real, z: real)
    requires !a.empty && !b.empty && k > 0
    requires Admits(a, x) && Admits(b, y) && x > 0.0 && y > 0.0
    requires z * y == x * k as real && 0.0 < z < UINT_MAX as real
    ensures Admits(MulKDiv(a, k, b), z)
  {
    MulKDivAboveMin(a, k, b, x, y, z);
    MulKDivBelowMax(a, k, b, x, y, z);
  }

  lemma MulKDivAboveMin(a: Interval, k: Uint, b: Interval, x: real, y: real, z: real)
    requires !a.empty && !b.empty && k > 0
    requires AboveMin(a, x) && BelowMax(b, y) && x > 0.0 && y > 0.0
    requires z * y == x * k as real && 0.0 < z < UINT_MAX as real
    ensures AboveMin(MulKDiv(a, k, b), z)
  {
    QuotientAbove(a.min, k, b.max, x, y, z);
    LowerEnd(Product(a.min, k), b.max, z);
  }

  lemma MulKDivBelowMax(a: Interval, k: Uint, b: Interval, x: real, y: real, z: real)
    requires !a.empty && !b.empty && k > 0
    requires BelowMax(a, x) && AboveMin(b, y) && x > 0.0 && y > 0.0
    requires z * y == x * k as real && 0.0 < z < UINT_MAX as real
    ensures BelowMax(MulKDiv(a, k, b), z)
  {
    if b.min > 0 {
      QuotientUnder(a.max, k, b.min, x, y, z);
      UpperEnd(Product(a.max, k), b.min, z);
    }
  }

  lemma QuotientAbove(p: Uint, k: Uint, d: Uint, x: real, y: real, z: real)
    requires k > 0 && p as real <= x && 0.0 < y <= d as real && z > 0.0 && z * y == x * k as real
    ensures z * d as real >= Product(p, k) as real
    ensures p as real < x || y < d as real ==> z * d as real > Product(p, k) as real
  {
    ProductReal(p, k);
    ScaleReal(x, p as real, k as real);
    ScaleReal(d as real, y, z);
  }

  lemma QuotientUnder(p: Uint, k: Uint, d: Uint, x: real, y: real, z: real)
    requires k > 0 && p as real >= x && y >= d as real > 0.0 && z > 0.0 && z * y == x * k as real
    ensures z * d as real <= Product(p, k) as real
    ensures p as real > x || y > d as real ==> z * d as real < Product(p, k) as real
  {
    ProductReal(p, k);
    ScaleReal(x, p as real, k as real);
    ScaleReal(d as real, y, z);
  }

  lemma MulEncloses(a: Interval, b: Interval, x: real, y: real, z: real)
    requires !a.empty && !b.empty
    requires Admits(a, x) && Admits(b, y) && x > 0.0 && y > 0.0 && z == x * y && z < UINT_MAX as real
    ensures Admits(Mul(a, b), z)
  {
    MulIsMulDivK(a, b);
    MulDivKEncloses(a, b, 1, x, y, z);
    if a.integer && b.integer {
      WholeProduct(x, y, z);
    }
  }

  lemma WholeProduct(x: real, y: real, z: real)
    requires x == x.Floor as real && y == y.Floor as real && z == x * y
    ensures z == z.Floor as real
  {
    assert z == (x.Floor * y.Floor) as real;
  }

  lemma DivEncloses(a: Interval, b: Interval, x: real, y: real, z: real)
    requires !a.empty && !b.empty
    requires Admits(a, x) && Admits(b, y) && x > 0.0 && y > 0.0
    requires z * y == x && 0.0 < z < UINT_MAX as real
    ensures Admits(Div(a, b), z)
  {
    DivIsMulKDiv(a, b);
    MulKDivEncloses(a, 1, b, x, y, z);
  }

  // ---------------------------------------------------------------- zero

  /** Zero is a point of the interval. */
  predicate HasZero(i: Interval) {
    i.min == 0 && !i.openmin && (i.max == 0 ==> !i.openmax)
  }

  ghost predicate Inhabited(i: Interval) {
    exists x :: Admits(i, x)
  }

  /** A product with the zero of `a` is lost: the open end of the other operand is inherited. */
  predicate LosesZero(a: Interval, b: Interval) {
    HasZero(a) && (b.openmin || (a.max == 0 && b.openmax))
  }

  /** A quotient of the zero of `a` is lost, likewise. */
  predicate LosesZeroQuotient(a: Interval, b: Interval) {
    HasZero(a) && (b.openmax || (a.max == 0 && b.min > 0 && b.openmin))
  }

  ghost predicate EnclosesProducts(c: Interval, a: Interval, b: Interval, k: Uint) {
    forall x, y, z :: Admits(a, x) && Admits(b, y) && z * k as real == x * y && z < UINT_MAX as real ==> Admits(c, z)
  }

  ghost predicate EnclosesQuotients(c: Interval, a: Interval, k: Uint, b: Interval) {
    forall x, y, z :: Admits(a, x) && Admits(b, y) && y > 0.0 && z * y == x * k as real && z < UINT_MAX as real ==> Admits(c, z)
  }

  /** With zeros included, a·b/k encloses all its values below `UINT_MAX` if and only if neither operand has a
      zero that an open end of the other one loses. */
  lemma MulDivKEnclosesIff(a: Interval, b: Interval, k: Uint)
    requires !a.empty && !b.empty && Inhabited(a) && Inhabited(b) && k > 0
    ensures EnclosesProducts(MulDivK(a, b, k), a, b, k) <==> !LosesZero(a, b) && !LosesZero(b, a)
  {
    if !LosesZero(a, b) && !LosesZero(b, a) {
      var c := MulDivK(a, b, k);
      forall x, y, z | Admits(a, x) && Admits(b, y) && z * k as real == x * y && z < UINT_MAX as real ensures Admits(c, z) {
        MulDivKPoint(a, b, k, x, y, z);
      }
    } else if LosesZero(a, b) {
      ZeroIsLost(a, b, k);
    } else {
      ZeroIsLost(b, a, k);
      ZeroProductIff(b, a, k);
      var x, y, z :| Admits(b, x) && Admits(a, y) && z * k as real == x * y && z < UINT_MAX as real && !Admits(MulDivK(b, a, k), z);
      assert x * y == y * x;
    }
  }

  lemma MulDivKPoint(a: Interval, b: Interval, k: Uint, x: real, y: real, z: real)
    requires !a.empty && !b.empty && k > 0 && !LosesZero(a, b) && !LosesZero(b, a)
    requires Admits(a, x) && Admits(b, y) && z * k as real == x * y && z < UINT_MAX as real
    ensures Admits(MulDivK(a, b, k), z)
  {
    if x > 0.0 && y > 0.0 {
      MulDivKEncloses(a, b, k, x, y, z);
    } else {
      ZeroKept(a, b, k, x, y);
      ZeroFactor(x, y, z, k as real);
    }
  }

  lemma ZeroKept(a: Interval, b: Interval, k: Uint, x: real, y: real)
    requires !a.empty && !b.empty && k > 0 && !LosesZero(a, b) && !LosesZero(b, a)
    requires Admits(a, x) && Admits(b, y) && !(x > 0.0 && y > 0.0)
    ensures (x == 0.0 || y == 0.0) && Admits(MulDivK(a, b, k), 0.0)
  {
    ZeroProductIff(a, b, k);
    ZeroProductIff(b, a, k);
  }

  lemma ZeroIsLost(a: Interval, b: Interval, k: Uint)
    requires !a.empty && !b.empty && Inhabited(b) && k > 0 && LosesZero(a, b)
    ensures !EnclosesProducts(MulDivK(a, b, k), a, b, k)
  {
    ZeroProductIff(a, b, k);
    var y :| Admits(b, y);
    assert 0.0 * k as real == 0.0 * y;
  }

  /** If `a` has a zero and `b` a point, the computed interval has a zero exactly when it is not lost. */
  lemma ZeroProductIff(a: Interval, b: Interval, k: Uint)
    requires !a.empty && !b.empty && Inhabited(b) && k > 0
    ensures HasZero(a) <==> Admits(a, 0.0)
    ensures HasZero(a) && !LosesZero(b, a) ==> (Admits(MulDivK(a, b, k), 0.0) <==> !LosesZero(a, b))
    ensures HasZero(a) && LosesZero(a, b) ==> !Admits(MulDivK(a, b, k), 0.0)
    ensures MulDivK(a, b, k) == MulDivK(b, a, k)
  {
    assert Product(a.min, b.min) == Product(b.min, a.min) && Product(a.max, b.max) == Product(b.max, a.max);
    if HasZero(a) {
      assert Product(a.min, b.min) == 0;
      ProductZeroIff(a.max, b.max);
      QuotientZeroIff(Product(a.max, b.max), k);
      var y :| Admits(b, y);
    }
  }

  lemma ProductZeroIff(a: Uint, b: Uint)
    ensures Product(a, b) == 0 <==> a == 0 || b == 0
  {
    if a > 0 && b > 0 { Scale(0, a, b); }
  }

  lemma QuotientZeroIff(n: nat, c: nat)
    requires c > 0
    ensures n / c == 0 && n % c == 0 <==> n == 0
  {
    Euclid(n, c);
  }

  lemma ZeroFactor(x: real, y: real, z: real, k: real)
    requires k > 0.0 && z * k == x * y && (x == 0.0 || y == 0.0)
    ensures z == 0.0
  {
    ScaleReal(z, 0.0, k);
  }

  /** Every product below `UINT_MAX` is in the product interval. */
  ghost predicate EnclosesAll(a: Interval, b: Interval) {
    forall x, y :: Admits(a, x) && Admits(b, y) && x * y < UINT_MAX as real ==> Admits(Mul(a, b), x * y)
  }

  /** The same for plain products, whose interval also carries the integer flag. */
  lemma MulEnclosesIff(a: Interval, b: Interval)
    requires !a.empty && !b.empty && Inhabited(a) && Inhabited(b)
    ensures EnclosesAll(a, b) <==> !LosesZero(a, b) && !LosesZero(b, a)
  {
    if !LosesZero(a, b) && !LosesZero(b, a) {
      forall x, y | Admits(a, x) && Admits(b, y) && x * y < UINT_MAX as real ensures Admits(Mul(a, b), x * y) {
        MulPoint(a, b, x, y);
      }
    } else {
      MulIsMulDivK(a, b);
      ZeroProductIff(a, b, 1);
      ZeroProductIff(b, a, 1);
      var x :| Admits(a, x);
      var y :| Admits(b, y);
      if LosesZero(a, b) {
        assert 0.0 * y == 0.0;
      } else {
        assert x * 0.0 == 0.0;
      }
    }
  }

  lemma MulPoint(a: Interval, b: Interval, x: real, y: real)
    requires !a.empty && !b.empty && !LosesZero(a, b) && !LosesZero(b, a)
    requires Admits(a, x) && Admits(b, y) && x * y < UINT_MAX as real
    ensures Admits(Mul(a, b), x * y)
  {
    if x > 0.0 && y > 0.0 {
      MulEncloses(a, b, x, y, x * y);
    } else {
      MulIsMulDivK(a, b);
      ZeroKept(a, b, 1, x, y);
    }
  }

  /** Likewise for a·k/b, on divisors that have a positive point. */
  lemma MulKDivEnclosesIff(a: Interval, k: Uint, b: Interval)
    requires !a.empty && !b.empty && k > 0 && exists y :: Admits(b, y) && y > 0.0
    ensures EnclosesQuotients(MulKDiv(a, k, b), a, k, b) <==> !LosesZeroQuotient(a, b)
  {
    var c := MulKDiv(a, k, b);
    ZeroQuotientIff(a, k, b);
    if !LosesZeroQuotient(a, b) {
      forall x, y, z | Admits(a, x) && Admits(b, y) && y > 0.0 && z * y == x * k as real && z < UINT_MAX as real
        ensures Admits(c, z)
      {
        if x > 0.0 {
          PositiveQuotient(x, y, z, k as real);
          MulKDivEncloses(a, k, b, x, y, z);
        } else {
          ZeroFactor(x, k as real, z, y);
        }
      }
    } else {
      var y :| Admits(b, y) && y > 0.0;
      assert 0.0 * y == 0.0 * k as real;
    }
  }

  lemma ZeroQuotientIff(a: Interval, k: Uint, b: Interval)
    requires !a.empty && !b.empty && k > 0 && exists y :: Admits(b, y) && y > 0.0
    ensures HasZero(a) <==> Admits(a, 0.0)
    ensures HasZero(a) ==> (Admits(MulKDiv(a, k, b), 0.0) <==> !LosesZeroQuotient(a, b))
  {
    if HasZero(a) {
      var y :| Admits(b, y) && y > 0.0;
      ProductZeroIff(a.min, k);
      ProductZeroIff(a.max, k);
      if b.min > 0 {
        QuotientZeroIff(Product(a.max, k), b.min);
      }
    }
  }

  lemma PositiveQuotient(x: real, y: real, z: real, k: real)
    requires x > 0.0 && y > 0.0 && k > 0.0 && z * y == x * k
    ensures z > 0.0
  {
    ScaleReal(0.0, x, k);
    ScaleReal(0.0, z, y);
  }

  lemma DivEnclosesIff(a: Interval, b: Interval)
    requires !a.empty && !b.empty && exists y :: Admits(b, y) && y > 0.0
    ensures EnclosesQuotients(Div(a, b), a, 1, b) <==> !LosesZeroQuotient(a, b)
  {
    MulKDivEnclosesIff(a, 1, b);
    DivIsMulKDiv(a, b);
  }

  /** Zeros are lost: 0·1 is not in [0,0]·[1,5). */
  lemma MulMissesZero()
    ensures exists a, b ::
              Proper(a) && Proper(b) && LosesZero(a, b) && Admits(a, 0.0) && Admits(b, 1.0) && !Admits(Mul(a, b), 0.0 * 1.0)
  {
    var a := Interval(0, false, 0, false, true, false);
    var b := Interval(1, false, 5, true, false, false);
    assert Mul(a, b).openmax && Mul(a, b).max == 0;
    assert Proper(a) && Proper(b) && Admits(a, 0.0) && Admits(b, 1.0);
  }

  /** Likewise 0/1 is not in [0,5]/[1,5). */
  lemma DivMissesZero()
    ensures exists a, b ::
              Proper(a) && Proper(b) && LosesZeroQuotient(a, b) && Admits(a, 0.0) && Admits(b, 1.0) && !Admits(Div(a, b), 0.0)
  {
    var a := Interval(0, false, 5, false, false, false);
    var b := Interval(1, false, 5, true, false, false);
    assert Div(a, b).openmin && Div(a, b).min == 0;
    assert Proper(a) && Proper(b) && Admits(a, 0.0) && Admits(b, 1.0);
  }

  // ---------------------------------------------------------------- tightness

  /** An integer lower end for n/c, rounded down, with the flag that belongs to it: `open` is inherited, and rounding
      opens the end too. From `UINT_MAX` on, or for a divisor of 0, it is `UINT_MAX`. */
  ghost predicate IsFloor(end: Uint, flag: bool, n: nat, c: nat, open: bool) {
    if n >= UINT_MAX * c then end == UINT_MAX && flag == open
    else end * c <= n < (end + 1) * c && (flag <==> open || end * c < n)
  }

  /** The same for an upper end, rounded up. */
  ghost predicate IsCeiling(end: Uint, flag: bool, n: nat, c: nat, open: bool) {
    if n >= UINT_MAX * c then end == UINT_MAX && flag == open
    else (end - 1) * c < n <= end * c && (flag <==> open || n < end * c)
  }

  /** The quotient is the true one rounded down, up to saturation. */
  lemma MulDiv32Rounds(a: Uint, b: Uint, c: Uint)
    ensures var n, d := Product(a, b), MulDiv32(a, b, c);
            if n >= UINT_MAX * c then d == Quotient(UINT_MAX, 0)
            else d.q < UINT_MAX && d.r < c && n == d.q * c + d.r
  {
    var n := Product(a, b);
    if c > 0 {
      Euclid(n, c);
      Scale(n / c, UINT_MAX, c);
      Scale(UINT_MAX, n / c + 1, c);
    }
  }

  lemma Floors(a: Uint, b: Uint, c: Uint, open: bool)
    ensures var d := MulDiv32(a, b, c); IsFloor(d.q, d.r != 0 || open, Product(a, b), c, open)
  {
    MulDiv32Rounds(a, b, c);
    RoundedTerms(MulDiv32(a, b, c).q, c);
  }

  lemma Ceilings(a: Uint, b: Uint, c: Uint, open: bool)
    ensures var d := MulDiv32(a, b, c);
            d.q < UINT_MAX || d.r == 0
    ensures var d := MulDiv32(a, b, c);
            IsCeiling(if d.r != 0 then d.q + 1 else d.q, d.r != 0 || open, Product(a, b), c, open)
  {
    MulDiv32Rounds(a, b, c);
    RoundedTerms(MulDiv32(a, b, c).q, c);
  }

  lemma RoundedTerms(q: int, c: int)
    ensures (q + 1) * c == q * c + c && (q - 1) * c == q * c - c
  {
  }

  /** The ends of a·k/b are the true ends, rounded outwards to the next integers, and open exactly if rounded or
      inherited. A divisor that reaches down to 0 leaves no upper end. */
  lemma MulKDivTight(a: Interval, k: Uint, b: Interval)
    requires !a.empty && !b.empty
    ensures var c := MulKDiv(a, k, b); !c.empty && !c.integer
    ensures var c := MulKDiv(a, k, b); IsFloor(c.min, c.openmin, Product(a.min, k), b.max, a.openmin || b.openmax)
    ensures var c := MulKDiv(a, k, b); b.min == 0 ==> c.max == UINT_MAX && !c.openmax
    ensures var c := MulKDiv(a, k, b);
            b.min > 0 ==> IsCeiling(c.max, c.openmax, Product(a.max, k), b.min, a.openmax || b.openmin)
  {
    Floors(a.min, k, b.max, a.openmin || b.openmax);
    Ceilings(a.max, k, b.min, a.openmax || b.openmin);
  }

  /** Likewise for a·b/k. */
  lemma MulDivKTight(a: Interval, b: Interval, k: Uint)
    requires !a.empty && !b.empty
    ensures var c := MulDivK(a, b, k);
            && !c.empty && !c.integer
            && IsFloor(c.min, c.openmin, Product(a.min, b.min), k, a.openmin || b.openmin)
            && IsCeiling(c.max, c.openmax, Product(a.max, b.max), k, a.openmax || b.openmax)
  {
    Floors(a.min, b.min, k, a.openmin || b.openmin);
    Ceilings(a.max, b.max, k, a.openmax || b.openmax);
  }

  /** A point of the interval as near to its lower end as needed. */
  lemma NearMin(i: Interval, m: real, t: real) returns (x: real)
    requires Proper(i) && m > 0.0 && i.min as real * m < t
    ensures Admits(i, x) && x * m < t
  {
    x := i.min as real;
    if i.openmin {
      var room, step := (i.max - i.min) as real / 2.0, (t - x * m) / (2.0 * m);
      StepBelow(x, m, t, step);
      var h := if room < step then room else step;
      ScaleReal(x + h, x + step, m);
      x := x + h;
    }
  }

  lemma NearMax(i: Interval, m: real, t: real) returns (x: real)
    requires Proper(i) && m > 0.0 && i.max as real * m > t
    ensures Admits(i, x) && x * m > t
  {
    x := i.max as real;
    if i.openmax {
      var room, step := (i.max - i.min) as real / 2.0, (x * m - t) / (2.0 * m);
      StepAbove(x, m, t, step);
      var h := if room < step then room else step;
      ScaleReal(x - step, x - h, m);
      x := x - h;
    }
  }

  lemma StepBelow(x: real, m: real, t: real, step: real)
    requires m > 0.0 && x * m < t && step == (t - x * m) / (2.0 * m)
    ensures step > 0.0 && (x + step) * m < t
  {
    HalfStep(t - x * m, m, step);
    assert (x + step) * m == x * m + step * m;
  }

  lemma StepAbove(x: real, m: real, t: real, step: real)
    requires m > 0.0 && x * m > t && step == (x * m - t) / (2.0 * m)
    ensures step > 0.0 && (x - step) * m > t
  {
    HalfStep(x * m - t, m, step);
    assert (x - step) * m == x * m - step * m;
  }

  lemma HalfStep(d: real, m: real, step: real)
    requires m > 0.0 && d > 0.0 && step == d / (2.0 * m)
    ensures step > 0.0 && step * m == d / 2.0
  {
    assert step * (2.0 * m) == d;
    ScaleReal(0.0, step, 2.0 * m);
  }

  /** All the values x·k/y of two intervals are in a third. */
  ghost predicate CoversQuotients(e: Interval, a: Interval, k: Uint, b: Interval) {
    forall x, y, z :: Admits(a, x) && Admits(b, y) && z * y == x * k as real ==> Admits(e, z)
  }

  /** All the values x·y/k. */
  ghost predicate CoversProducts(e: Interval, a: Interval, b: Interval, k: Uint) {
    forall x, y, z :: Admits(a, x) && Admits(b, y) && z * k as real == x * y ==> Admits(e, z)
  }

  /** No interval that holds all the values x·k/y has ends tighter than those computed. */
  lemma MulKDivTightest(a: Interval, k: Uint, b: Interval, e: Interval)
    requires Proper(a) && Proper(b) && k > 0 && b.min > 0 && CoversQuotients(e, a, k, b)
    ensures MinWithin(MulKDiv(a, k, b), e) && MaxWithin(MulKDiv(a, k, b), e)
  {
    QuotientsFromBelow(a, k, b, e);
    QuotientsFromAbove(a, k, b, e);
    var lo := LowestQuotient(a, k, b, e);
    var hi := HighestQuotient(a, k, b, e);
    MulKDivLower(a, k, b, e, lo);
    MulKDivUpper(a, k, b, e, hi);
  }

  lemma MulKDivLower(a: Interval, k: Uint, b: Interval, e: Interval, z: real)
    requires !a.empty && !b.empty && b.max > 0 && Product(e.min, b.max) <= Product(a.min, k)
    requires !a.openmin && !b.openmax ==> z * b.max as real == Product(a.min, k) as real && Admits(e, z)
    ensures MinWithin(MulKDiv(a, k, b), e)
  {
    FloorInside(a.min, k, b.max, a.openmin || b.openmax, e, z);
  }

  lemma MulKDivUpper(a: Interval, k: Uint, b: Interval, e: Interval, z: real)
    requires !a.empty && !b.empty && b.min > 0 && Product(e.max, b.min) >= Product(a.max, k)
    requires !a.openmax && !b.openmin ==> z * b.min as real == Product(a.max, k) as real && Admits(e, z)
    ensures MaxWithin(MulKDiv(a, k, b), e)
  {
    CeilingInside(a.max, k, b.min, a.openmax || b.openmin, e, z);
  }

  lemma FloorInside(p: Uint, k: Uint, d: Uint, open: bool, e: Interval, z: real)
    requires d > 0 && Product(e.min, d) <= Product(p, k)
    requires !open ==> z * d as real == Product(p, k) as real && Admits(e, z)
    ensures var q := MulDiv32(p, k, d); q.q > e.min || (q.q == e.min && (e.openmin ==> q.r != 0 || open))
  {
    var q := MulDiv32(p, k, d);
    Floors(p, k, d, open);
    LowerInside(q.q, q.r != 0 || open, e, Product(p, k), d, open, z);
  }

  lemma CeilingInside(p: Uint, k: Uint, d: Uint, open: bool, e: Interval, z: real)
    requires d > 0 && Product(e.max, d) >= Product(p, k)
    requires !open ==> z * d as real == Product(p, k) as real && Admits(e, z)
    ensures var q := MulDiv32(p, k, d);
            var end := if q.r != 0 then q.q + 1 else q.q;
            end < e.max || (end == e.max && (e.openmax ==> q.r != 0 || open))
  {
    var q := MulDiv32(p, k, d);
    Ceilings(p, k, d, open);
    UpperInside(if q.r != 0 then q.q + 1 else q.q, q.r != 0 || open, e, Product(p, k), d, open, z);
  }

  /** The extreme values, where they are attained. */
  lemma LowestQuotient(a: Interval, k: Uint, b: Interval, e: Interval) returns (z: real)
    requires Proper(a) && Proper(b) && b.min > 0 && CoversQuotients(e, a, k, b)
    ensures !a.openmin && !b.openmax ==> z * b.max as real == Product(a.min, k) as real && Admits(e, z)
  {
    z := 0.0;
    if !a.openmin && !b.openmax {
      z := CoveredQuotient(a, k, b, e, a.min as real, b.max as real);
      ProductReal(a.min, k);
    }
  }

  lemma HighestQuotient(a: Interval, k: Uint, b: Interval, e: Interval) returns (z: real)
    requires Proper(a) && Proper(b) && b.min > 0 && CoversQuotients(e, a, k, b)
    ensures !a.openmax && !b.openmin ==> z * b.min as real == Product(a.max, k) as real && Admits(e, z)
  {
    z := 0.0;
    if !a.openmax && !b.openmin {
      z := CoveredQuotient(a, k, b, e, a.max as real, b.min as real);
      ProductReal(a.max, k);
    }
  }

  /** An interval that begins no higher than n/d, and holds it if it is attained, begins no further in than the
      rounded end. */
  lemma LowerInside(end: Uint, flag: bool, e: Interval, n: nat, d: Uint, open: bool, z: real)
    requires d > 0 && IsFloor(end, flag, n, d, open) && Product(e.min, d) <= n
    requires !open ==> z * d as real == n as real && Admits(e, z)
    ensures end > e.min || (end == e.min && (e.openmin ==> flag))
  {
    Scale(e.min, end + 1, d);
    if !open {
      AtQuotient(z, end, n, d);
    }
  }

  lemma UpperInside(end: Uint, flag: bool, e: Interval, n: nat, d: Uint, open: bool, z: real)
    requires d > 0 && IsCeiling(end, flag, n, d, open) && Product(e.max, d) >= n
    requires !open ==> z * d as real == n as real && Admits(e, z)
    ensures end < e.max || (end == e.max && (e.openmax ==> flag))
  {
    Scale(end - 1, e.max, d);
    Scale(UINT_MAX, e.max, d);
    if !open {
      AtQuotient(z, end, n, d);
    }
  }

  lemma AtQuotient(z: real, end: nat, n: nat, d: nat)
    requires d > 0 && z * d as real == n as real
    ensures n >= end * d ==> z >= end as real
    ensures n == end * d ==> z == end as real
  {
    assert (end * d) as real == end as real * d as real;
    ScaleReal(z, end as real, d as real);
  }

  lemma CoveredQuotient(a: Interval, k: Uint, b: Interval, e: Interval, x: real, y: real) returns (z: real)
    requires CoversQuotients(e, a, k, b) && Admits(a, x) && Admits(b, y) && y > 0.0
    ensures z * y == x * k as real && Admits(e, z)
  {
    z := x * k as real / y;
    assert z * y == x * k as real;
  }

  lemma QuotientOrder(z: real, y: real, w: real, end: real)
    requires y > 0.0 && z * y == w
    ensures y * end > w ==> z < end
    ensures y * end < w ==> z > end
  {
    ScaleReal(z, end, y);
  }

  /** Values come as near to the lower end as one likes, so an interval around them does not begin above it. */
  lemma QuotientsFromBelow(a: Interval, k: Uint, b: Interval, e: Interval)
    requires Proper(a) && Proper(b) && k > 0 && b.min > 0 && CoversQuotients(e, a, k, b)
    ensures Product(e.min, b.max) <= Product(a.min, k)
  {
    if Product(e.min, b.max) > Product(a.min, k) {
      ProductReal(e.min, b.max);
      ProductReal(a.min, k);
      ProductZeroIff(e.min, b.max);
      var x := NearMin(a, k as real, Product(e.min, b.max) as real);
      var y := NearMax(b, e.min as real, x * k as real);
      var z := CoveredQuotient(a, k, b, e, x, y);
      QuotientOrder(z, y, x * k as real, e.min as real);
    }
  }

  lemma QuotientsFromAbove(a: Interval, k: Uint, b: Interval, e: Interval)
    requires Proper(a) && Proper(b) && k > 0 && b.min > 0 && CoversQuotients(e, a, k, b)
    ensures Product(e.max, b.min) >= Product(a.max, k)
  {
    if Product(e.max, b.min) < Product(a.max, k) {
      ProductReal(e.max, b.min);
      ProductReal(a.max, k);
      var x := NearMax(a, k as real, Product(e.max, b.min) as real);
      var y := AnyNearMin(b, e.max as real, x * k as real);
      var z := CoveredQuotient(a, k, b, e, x, y);
      QuotientOrder(z, y, x * k as real, e.max as real);
    }
  }

  /** The same for a factor that may be 0. */
  lemma AnyNearMin(i: Interval, m: real, t: real) returns (x: real)
    requires Proper(i) && m >= 0.0 && t > 0.0 && i.min as real * m < t
    ensures Admits(i, x) && x * m < t
  {
    if m > 0.0 {
      x := NearMin(i, m, t);
    } else {
      x := NearMin(i, 1.0, i.min as real + 1.0);
    }
  }

  /** Likewise for x·y/k. */
  lemma MulDivKTightest(a: Interval, b: Interval, k: Uint, e: Interval)
    requires Proper(a) && Proper(b) && k > 0 && CoversProducts(e, a, b, k)
    ensures MinWithin(MulDivK(a, b, k), e) && MaxWithin(MulDivK(a, b, k), e)
  {
    ProductsFromBelow(a, b, k, e);
    ProductsFromAbove(a, b, k, e);
    var lo := LowestProduct(a, b, k, e);
    var hi := HighestProduct(a, b, k, e);
    FloorInside(a.min, b.min, k, a.openmin || b.openmin, e, lo);
    CeilingInside(a.max, b.max, k, a.openmax || b.openmax, e, hi);
  }

  lemma LowestProduct(a: Interval, b: Interval, k: Uint, e: Interval) returns (z: real)
    requires Proper(a) && Proper(b) && k > 0 && CoversProducts(e, a, b, k)
    ensures !a.openmin && !b.openmin ==> z * k as real == Product(a.min, b.min) as real && Admits(e, z)
  {
    z := 0.0;
    if !a.openmin && !b.openmin {
      z := CoveredProduct(a, b, k, e, a.min as real, b.min as real);
      ProductReal(a.min, b.min);
    }
  }

  lemma HighestProduct(a: Interval, b: Interval, k: Uint, e: Interval) returns (z: real)
    requires Proper(a) && Proper(b) && k > 0 && CoversProducts(e, a, b, k)
    ensures !a.openmax && !b.openmax ==> z * k as real == Product(a.max, b.max) as real && Admits(e, z)
  {
    z := 0.0;
    if !a.openmax && !b.openmax {
      z := CoveredProduct(a, b, k, e, a.max as real, b.max as real);
      ProductReal(a.max, b.max);
    }
  }

  lemma CoveredProduct(a: Interval, b: Interval, k: Uint, e: Interval, x: real, y: real) returns (z: real)
    requires CoversProducts(e, a, b, k) && Admits(a, x) && Admits(b, y) && k > 0
    ensures z * k as real == x * y && Admits(e, z)
  {
    z := x * y / k as real;
    assert z * k as real == x * y;
  }

  lemma ProductsFromBelow(a: Interval, b: Interval, k: Uint, e: Interval)
    requires Proper(a) && Proper(b) && k > 0 && CoversProducts(e, a, b, k)
    ensures Product(e.min, k) <= Product(a.min, b.min)
  {
    if Product(e.min, k) > Product(a.min, b.min) {
      ProductReal(e.min, k);
      ProductReal(a.min, b.min);
      var t := Product(e.min, k) as real;
      var x := AnyNearMin(a, b.min as real, t);
      var y := AnyNearMin(b, x, t);
      var z := CoveredProduct(a, b, k, e, x, y);
      QuotientOrder(z, k as real, x * y, e.min as real);
    }
  }

  lemma ProductsFromAbove(a: Interval, b: Interval, k: Uint, e: Interval)
    requires Proper(a) && Proper(b) && k > 0 && CoversProducts(e, a, b, k)
    ensures Product(e.max, k) >= Product(a.max, b.max)
  {
    if Product(e.max, k) < Product(a.max, b.max) {
      ProductReal(e.max, k);
      ProductReal(a.max, b.max);
      ProductZeroIff(a.max, b.max);
      var t := Product(e.max, k) as real;
      var x := NearMax(a, b.max as real, t);
      ScaleReal(0.0, x, b.max as real);
      var y := NearMax(b, x, t);
      var z := CoveredProduct(a, b, k, e, x, y);
      QuotientOrder(z, k as real, x * y, e.max as real);
    }
  }

  /** The lower end of an interval is no further down than n/d and the next integer below it: what is left when it has
      been narrowed to that end. `open` says that n/d itself is not a value. */
  predicate NotBelow(t: Interval, n: nat, d: nat, open: bool) {
    if n >= UINT_MAX * d then t.min == UINT_MAX && (open ==> t.openmin)
    else n < (t.min + 1) * d && (t.min * d < n || (t.min * d == n && open) ==> t.openmin)
  }

  /** The same for an upper end. */
  predicate NotAbove(t: Interval, n: nat, d: nat, open: bool) {
    if n >= UINT_MAX * d then t.max == UINT_MAX && open ==> t.openmax
    else (t.max - 1) * d < n && (t.max * d > n || (t.max * d == n && open) ==> t.openmax)
  }

  lemma FloorReachedIff(t: Interval, end: Uint, flag: bool, n: nat, d: nat, open: bool)
    requires IsFloor(end, flag, n, d, open)
    ensures (t.min > end || (t.min == end && (flag ==> t.openmin))) <==> NotBelow(t, n, d, open)
  {
    if n < UINT_MAX * d {
      Scale(end, t.min, d);
      Scale(end + 1, t.min, d);
      Scale(end, t.min + 1, d);
    }
  }

  lemma CeilingReachedIff(t: Interval, end: Uint, flag: bool, n: nat, d: nat, open: bool)
    requires IsCeiling(end, flag, n, d, open)
    ensures (t.max < end || (t.max == end && (flag ==> t.openmax))) <==> NotAbove(t, n, d, open)
  {
    if n < UINT_MAX * d {
      Scale(end, t.max, d);
      Scale(end - 1, t.max, d);
      Scale(end, t.max - 1, d);
    }
  }

  /** An interval is within a·k/b exactly when both its ends are in place. */
  lemma WithinQuotientIff(t: Interval, a: Interval, k: Uint, b: Interval)
    requires !a.empty && !b.empty
    ensures Within(t, MulKDiv(a, k, b)) <==>
            NotBelow(t, a.min * k, b.max, a.openmin || b.openmax) &&
            (b.min > 0 ==> NotAbove(t, a.max * k, b.min, a.openmax || b.openmin))
  {
    var open, open' := a.openmin || b.openmax, a.openmax || b.openmin;
    var lo, hi := MulDiv32(a.min, k, b.max), MulDiv32(a.max, k, b.min);
    Floors(a.min, k, b.max, open);
    Ceilings(a.max, k, b.min, open');
    FloorReachedIff(t, lo.q, lo.r != 0 || open, Product(a.min, k), b.max, open);
    CeilingReachedIff(t, if hi.r != 0 then hi.q + 1 else hi.q, hi.r != 0 || open', Product(a.max, k), b.min, open');
  }

  lemma WithinProductIff(t: Interval, a: Interval, b: Interval, k: Uint)
    requires !a.empty && !b.empty
    ensures Within(t, MulDivK(a, b, k)) <==>
            NotBelow(t, a.min * b.min, k, a.openmin || b.openmin) && NotAbove(t, a.max * b.max, k, a.openmax || b.openmax)
  {
    var open, open' := a.openmin || b.openmin, a.openmax || b.openmax;
    var lo, hi := MulDiv32(a.min, b.min, k), MulDiv32(a.max, b.max, k);
    Floors(a.min, b.min, k, open);
    Ceilings(a.max, b.max, k, open');
    FloorReachedIff(t, lo.q, lo.r != 0 || open, Product(a.min, b.min), k, open);
    CeilingReachedIff(t, if hi.r != 0 then hi.q + 1 else hi.q, hi.r != 0 || open', Product(a.max, b.max), k, open');
  }

  // ---------------------------------------------------------------- monotonicity

  /** n1/c1 <= n2/c2 seen through the rounded upper ends. */
  lemma UpperEndMonotone(n1: nat, c1: nat, n2: nat, c2: nat)
    requires c1 > 0 && c2 > 0 && n1 * c2 <= n2 * c1
    ensures Ceiling(n1, c1) <= Ceiling(n2, c2)
    ensures Ceiling(n1, c1) == Ceiling(n2, c2) && n1 % c1 == 0 ==> n2 % c2 == 0 && n1 * c2 == n2 * c1
  {
    QuotientMonotone(n2, c2, n1, c1);
    if n1 % c1 == 0 && n2 % c2 == 0 && n1 / c1 == n2 / c2 {
      var q := n1 / c1;
      Euclid(n1, c1);
      Euclid(n2, c2);
      assert n1 * c2 == (q * c1) * c2 == (q * c2) * c1;
    }
  }

  function Ceiling(n: nat, c: nat): nat
    requires c > 0
  {
    if n % c == 0 then n / c else n / c + 1
  }

  lemma ProductMonotone(a: Uint, b: Uint, c: Uint, d: Uint)
    requires a >= c && b >= d
    ensures Product(a, b) >= Product(c, d)
    ensures c > 0 && d > 0 && Product(a, b) == Product(c, d) ==> a == c && b == d
  {
    assert a * b - c * d == (a - c) * b + c * (b - d);
    assert (a - c) * b >= 0 && c * (b - d) >= 0;
    if b > 0 { Scale(c, a, b); }
    if c > 0 { Scale(d, b, c); }
  }

  /** The operand has a positive lower end and at least one point between its ends. */
  predicate Positive(i: Interval) {
    Proper(i) && i.min > 0
  }

  /** n/c is at most `UINT_MAX`, so that `MulDiv32` does not saturate. */
  predicate Fits(n: nat, c: nat) {
    n <= UINT_MAX * c
  }

  lemma FitsQuotient(a: Uint, b: Uint, c: Uint)
    requires c > 0 && Fits(Product(a, b), c)
    ensures var n := Product(a, b); 0 <= n % c <= UINT_MAX && 0 <= n / c <= UINT_MAX &&
                                    MulDiv32(a, b, c) == Quotient(n / c, n % c)
  {
    var n := Product(a, b);
    Euclid(n, c);
    Scale(UINT_MAX, n / c, c);
  }

  lemma FitsShrinks(n1: nat, c1: nat, n2: nat, c2: nat)
    requires n1 <= n2 && c1 >= c2 && Fits(n2, c2)
    ensures Fits(n1, c1)
  {
    Scale(c2, c1, UINT_MAX);
  }

  predicate MulDivKFits(a: Interval, b: Interval, k: Uint) {
    k > 0 && Positive(a) && Positive(b) && Fits(Product(a.max, b.max), k)
  }

  predicate MulKDivFits(a: Interval, k: Uint, b: Interval) {
    k > 0 && Positive(a) && Positive(b) && Fits(Product(a.max, k), b.min)
  }

  lemma MulDivKMonotone(a1: Interval, b1: Interval, a2: Interval, b2: Interval, k: Uint)
    requires MulDivKFits(a2, b2, k) && Positive(a1) && Positive(b1) && Within(a1, a2) && Within(b1, b2)
    ensures MulDivKFits(a1, b1, k) && Within(MulDivK(a1, b1, k), MulDivK(a2, b2, k))
    ensures WellEnded(MulDivK(a2, b2, k))
  {
    var lo1, lo2 := Product(a1.min, b1.min), Product(a2.min, b2.min);
    var hi1, hi2 := Product(a1.max, b1.max), Product(a2.max, b2.max);
    ProductMonotone(a1.min, b1.min, a2.min, b2.min);
    ProductMonotone(a2.max, b2.max, a1.max, b1.max);
    ProductMonotone(a1.max, b1.max, a1.min, b1.min);
    ProductMonotone(a2.max, b2.max, a2.min, b2.min);
    FitsQuotient(a1.min, b1.min, k);
    FitsQuotient(a2.min, b2.min, k);
    FitsQuotient(a1.max, b1.max, k);
    FitsQuotient(a2.max, b2.max, k);
    ScaleMonotone(lo2, lo1, k);
    ScaleMonotone(hi1, hi2, k);
    QuotientMonotone(lo1, k, lo2, k);
    UpperEndMonotone(hi1, k, hi2, k);
    MulDivKWellEnded(a2, b2, k);
  }

  lemma ScaleMonotone(n1: nat, n2: nat, k: nat)
    requires n1 <= n2 && k > 0
    ensures n1 * k <= n2 * k
    ensures n1 * k == n2 * k ==> n1 == n2
  {
  }

  lemma MulDivKWellEnded(a: Interval, b: Interval, k: Uint)
    requires MulDivKFits(a, b, k)
    ensures WellEnded(MulDivK(a, b, k))
  {
    var lo, hi := Product(a.min, b.min), Product(a.max, b.max);
    ProductMonotone(a.max, b.max, a.min, b.min);
    ProductMonotone(a.min, b.min, 1, 1);
    FitsQuotient(a.min, b.min, k);
    FitsQuotient(a.max, b.max, k);
    assert lo == k * (lo / k) + lo % k && hi == k * (hi / k) + hi % k;
    if lo / k == UINT_MAX {
      assert lo == hi;
    }
  }

  lemma MulKDivMonotone(a1: Interval, b1: Interval, a2: Interval, b2: Interval, k: Uint)
    requires MulKDivFits(a2, k, b2) && Positive(a1) && Positive(b1) && Within(a1, a2) && Within(b1, b2)
    ensures MulKDivFits(a1, k, b1) && Within(MulKDiv(a1, k, b1), MulKDiv(a2, k, b2))
    ensures WellEnded(MulKDiv(a2, k, b2))
  {
    MulKDivNarrows(a1, b1, a2, b2, k);
    MulKDivExact(a1, k, b1);
    MulKDivExact(a2, k, b2);
    MulKDivWellEnded(a2, k, b2);
    CrossMonotone(a1.min, a2.min, k, b1.max, b2.max);
    CrossMonotone(a2.max, a1.max, k, b2.min, b1.min);
    QuotientMonotone(Product(a1.min, k), b1.max, Product(a2.min, k), b2.max);
    UpperEndMonotone(Product(a1.max, k), b1.min, Product(a2.max, k), b2.min);
  }

  lemma MulKDivNarrows(a1: Interval, b1: Interval, a2: Interval, b2: Interval, k: Uint)
    requires MulKDivFits(a2, k, b2) && Positive(a1) && Positive(b1) && Within(a1, a2) && Within(b1, b2)
    ensures MulKDivFits(a1, k, b1)
  {
    ProductMonotone(a2.max, k, a1.max, k);
    FitsShrinks(Product(a1.max, k), b1.min, Product(a2.max, k), b2.min);
  }

  /** a·k/b grows with a and falls with b; equality leaves no room for either. */
  lemma CrossMonotone(p1: Uint, p2: Uint, k: Uint, d1: Uint, d2: Uint)
    requires p1 >= p2 > 0 && k > 0 && 0 < d1 <= d2
    ensures Product(p1, k) * d2 >= Product(p2, k) * d1
    ensures Product(p1, k) * d2 == Product(p2, k) * d1 ==> p1 == p2 && d1 == d2
  {
    var n1, n2 := Product(p1, k), Product(p2, k);
    Scale(p1, p2, k);
    ProductMonotone(p2, k, 1, 1);
    Scale(n1, n2, d2);
    Scale(d1, d2, n2);
  }

  /** Without saturation both ends of a·k/b are the plain quotients. */
  lemma MulKDivExact(a: Interval, k: Uint, b: Interval)
    requires MulKDivFits(a, k, b)
    ensures var lo, hi := Product(a.min, k), Product(a.max, k);
            lo % b.max <= UINT_MAX && hi % b.min <= UINT_MAX && lo / b.max <= UINT_MAX && hi / b.min <= UINT_MAX &&
            MulDiv32(a.min, k, b.max) == Quotient(lo / b.max, lo % b.max) &&
            MulDiv32(a.max, k, b.min) == Quotient(hi / b.min, hi % b.min)
  {
    ProductMonotone(a.max, k, a.min, k);
    FitsShrinks(Product(a.min, k), b.max, Product(a.max, k), b.min);
    FitsQuotient(a.min, k, b.max);
    FitsQuotient(a.max, k, b.min);
  }

  lemma MulKDivWellEnded(a: Interval, k: Uint, b: Interval)
    requires MulKDivFits(a, k, b)
    ensures WellEnded(MulKDiv(a, k, b))
  {
    MulKDivExact(a, k, b);
    TopQuotientIsPoint(a, k, b);
    ProductMonotone(a.max, k, 1, 1);
    QuotientZeroIff(Product(a.max, k), b.min);
  }

  /** A lower end at `UINT_MAX` leaves no room: both operands are single points, and nothing was rounded. */
  lemma TopQuotientIsPoint(a: Interval, k: Uint, b: Interval)
    requires MulKDivFits(a, k, b)
    ensures Product(a.min, k) / b.max == UINT_MAX ==> Product(a.min, k) % b.max == 0 && a.min == a.max && b.min == b.max
  {
    var lo, hi := Product(a.min, k), Product(a.max, k);
    ProductMonotone(a.max, k, a.min, k);
    FitsShrinks(lo, b.max, hi, b.min);
    CrossMonotone(a.max, a.min, k, b.min, b.max);
    TopQuotientsMeet(lo, b.max, hi, b.min);
  }

  lemma TopQuotientsMeet(lo: nat, c: nat, hi: nat, d: nat)
    requires c > 0 && d > 0 && Fits(lo, c) && Fits(hi, d) && lo * d <= hi * c
    ensures lo / c == UINT_MAX ==> lo * d == hi * c && lo % c == 0
  {
    Euclid(lo, c);
    Scale(UINT_MAX * c, lo, d);
    Scale(hi, UINT_MAX * d, c);
    assert (UINT_MAX * c) * d == (UINT_MAX * d) * c;
  }
}
