/**
 The interval values of the hardware parameter solver and the operation that every rule ends in:
 narrowing one interval by another. `Refined` is the specification, `Refine` the in-place code.
 */
module Intervals {
  import opened Words

  datatype Interval = Interval(min: Uint, openmin: bool, max: Uint, openmax: bool, integer: bool, empty: bool)

  /** The closed interval of all unsigned ints, `snd_interval_any`. */
  const ANY := Interval(0, false, UINT_MAX, false, false, false)

  predicate CheckEmpty(i: Interval) {
    i.min > i.max || (i.min == i.max && (i.openmin || i.openmax))
  }

  /** `snd_interval_test`: membership of an integer, by the ends alone. */
  predicate Test(i: Interval, v: Uint) {
    (i.min < v || (i.min == v && !i.openmin)) && (v < i.max || (v == i.max && !i.openmax))
  }

  /** The rationals an interval stands for. */
  ghost predicate Admits(i: Interval, x: real) {
    AboveMin(i, x) && BelowMax(i, x) && (i.integer ==> x == x.Floor as real)
  }

  ghost predicate AboveMin(i: Interval, x: real) {
    i.min as real < x || (i.min as real == x && !i.openmin)
  }

  ghost predicate BelowMax(i: Interval, x: real) {
    x < i.max as real || (x == i.max as real && !i.openmax)
  }

  /** Closed ends wherever the integer flag is set, the flag on every single point, and not empty:
      what `Refine` leaves behind whenever it succeeds. */
  predicate Proper(i: Interval) {
    && !i.empty
    && !CheckEmpty(i)
    && (i.integer ==> !i.openmin && !i.openmax)
    && (!i.openmin && !i.openmax && i.min == i.max ==> i.integer)
  }

  /** Stepping inside an open end cannot wrap. */
  predicate WellEnded(i: Interval) {
    (i.openmin ==> i.min < UINT_MAX) && (i.openmax ==> i.max > 0)
  }

  predicate MinWithin(i: Interval, v: Interval) {
    i.min > v.min || (i.min == v.min && (v.openmin ==> i.openmin))
  }

  predicate MaxWithin(i: Interval, v: Interval) {
    i.max < v.max || (i.max == v.max && (v.openmax ==> i.openmax))
  }

  /** The order in which narrowing moves down. It compares the fields, so it also makes sense
      of the unnormalised intervals that rules compute. */
  predicate Within(i: Interval, v: Interval) {
    MinWithin(i, v) && MaxWithin(i, v) && (v.integer ==> i.integer)
  }

  // ---------------------------------------------------------------- narrowing, as a function

  /** The tighter of each pair of ends, and the integer flag of either. */
  function Meet(i: Interval, v: Interval): Interval {
    Interval(if MinWithin(i, v) then i.min else v.min,
             if MinWithin(i, v) then i.openmin else v.openmin,
             if MaxWithin(i, v) then i.max else v.max,
             if MaxWithin(i, v) then i.openmax else v.openmax,
             i.integer || v.integer,
             i.empty)
  }

  /** Step inside the open ends of an integer interval; mark a single point as integer. */
  function Normalized(m: Interval): Interval {
    if m.integer then
      m.(min := if m.openmin then Increment(m.min) else m.min, openmin := false,
         max := if m.openmax then Decrement(m.max) else m.max, openmax := false)
    else
      m.(integer := !m.openmin && !m.openmax && m.min == m.max)
  }

  datatype Refinement = Refinement(i: Interval, ret: int)

  function Refined(i: Interval, v: Interval): Refinement {
    if i.empty then
      Refinement(i, INVAL)
    else
      var n := Normalized(Meet(i, v));
      if CheckEmpty(n) then
        Refinement(n.(empty := true), INVAL)
      else
        Refinement(n, if Within(i, v) then 0 else 1)
  }

  /** The merge would step across the end of the word: an integer result whose open lower end is
      `UINT_MAX` or whose open upper end is 0. */
  predicate Wraps(i: Interval, v: Interval) {
    var m := Meet(i, v);
    m.integer && !WellEnded(m)
  }

  // ---------------------------------------------------------------- narrowing, in place

  /** `snd_interval_refine` on the interval at `a[k]`. */
  method Refine(a: array<Interval>, k: nat, v: Interval) returns (changed: int)
    requires k < a.Length
    modifies a
    ensures a[..] == old(a[..])[k := Refined(old(a[k]), v).i]
    ensures changed == Refined(old(a[k]), v).ret
  {
    changed := 0;
    if a[k].empty {
      return INVAL;
    }
    changed := MergeEnds(a, k, v);
    if a[k].integer {
      if a[k].openmin {
        a[k] := a[k].(min := Increment(a[k].min), openmin := false);
      }
      if a[k].openmax {
        a[k] := a[k].(max := Decrement(a[k].max), openmax := false);
      }
    } else if !a[k].openmin && !a[k].openmax && a[k].min == a[k].max {
      a[k] := a[k].(integer := true);
    }
    assert a[k] == Normalized(Meet(old(a[k]), v));
    if CheckEmpty(a[k]) {
      a[k] := a[k].(empty := true);
      return INVAL;
    }
  }

  /** The first half of `snd_interval_refine`: take over the tighter ends and the integer flag. */
  method MergeEnds(a: array<Interval>, k: nat, v: Interval) returns (changed: int)
    requires k < a.Length
    modifies a
    ensures a[..] == old(a[..])[k := Meet(old(a[k]), v)]
    ensures changed == if Within(old(a[k]), v) then 0 else 1
  {
    changed := 0;
    if a[k].min < v.min {
      a[k] := a[k].(min := v.min, openmin := v.openmin);
      changed := 1;
    } else if a[k].min == v.min && !a[k].openmin && v.openmin {
      a[k] := a[k].(openmin := true);
      changed := 1;
    }
    if a[k].max > v.max {
      a[k] := a[k].(max := v.max, openmax := v.openmax);
      changed := 1;
    } else if a[k].max == v.max && !a[k].openmax && v.openmax {
      a[k] := a[k].(openmax := true);
      changed := 1;
    }
    if !a[k].integer && v.integer {
      a[k] := a[k].(integer := true);
      changed := 1;
    }
  }

  // ---------------------------------------------------------------- narrowing is intersection

  ghost predicate Both(i: Interval, v: Interval, x: real) {
    Admits(i, x) && Admits(v, x)
  }

  /** `Refined` computes the intersection, and fails exactly when it is empty. */
  ghost predicate Intersects(i: Interval, v: Interval) {
    var r := Refined(i, v);
    && (r.ret < 0 <==> !exists x :: Both(i, v, x))
    && (r.ret >= 0 ==> forall x :: Admits(r.i, x) <==> Both(i, v, x))
  }

  lemma MeetAdmits(i: Interval, v: Interval, x: real)
    ensures Admits(Meet(i, v), x) <==> Both(i, v, x)
  {
  }

  lemma NormalizedAdmits(m: Interval, x: real)
    requires m.integer ==> WellEnded(m)
    ensures Admits(Normalized(m), x) <==> Admits(m, x)
  {
    if m.integer {
      var n := Normalized(m);
      assert x == x.Floor as real ==>
        (m.openmin ==> (m.min as real < x <==> m.min + 1 <= x.Floor)) &&
        (m.openmax ==> (x < m.max as real <==> x.Floor <= m.max - 1));
    }
  }

  /** A normalised interval that passes the emptiness test has a point. */
  lemma NonEmptyHasPoint(n: Interval) returns (x: real)
    requires !CheckEmpty(n) && (n.integer ==> !n.openmin && !n.openmax)
    ensures Admits(n, x)
  {
    if n.integer || n.min == n.max {
      x := n.min as real;
    } else {
      x := (n.min as real + n.max as real) / 2.0;
    }
  }

  /** Narrowing is exact on the rationals if and only if it does not step across the word's end. */
  lemma RefineIntersectsIff(i: Interval, v: Interval)
    requires !i.empty
    ensures Intersects(i, v) <==> !Wraps(i, v)
  {
    var m := Meet(i, v);
    var n := Normalized(m);
    forall x ensures Admits(m, x) <==> Both(i, v, x) { MeetAdmits(i, v, x); }
    if Wraps(i, v) {
      forall x ensures !Both(i, v, x) { MeetAdmits(i, v, x); }
      assert !CheckEmpty(n) || Refined(i, v).ret < 0;
      WrapLeavesPoints(m);
    } else {
      forall x ensures Admits(n, x) <==> Both(i, v, x) { NormalizedAdmits(m, x); }
      if !CheckEmpty(n) {
        var x := NonEmptyHasPoint(n);
        assert Both(i, v, x);
      }
    }
  }

  /** A step across the end of the word turns the empty set into a non-empty interval. */
  lemma WrapLeavesPoints(m: Interval)
    requires m.integer && !WellEnded(m)
    ensures !CheckEmpty(Normalized(m))
  {
  }

  /** What is in both intervals survives, with no condition at all: a common point rules out the wrap. */
  lemma RefineKeeps(i: Interval, v: Interval, x: real)
    requires !i.empty && Both(i, v, x)
    ensures !Wraps(i, v) && Refined(i, v).ret >= 0 && Admits(Refined(i, v).i, x)
  {
    var m := Meet(i, v);
    MeetAdmits(i, v, x);
    NormalizedAdmits(m, x);
  }

  // ---------------------------------------------------------------- narrowing is a meet

  lemma WithinTransitive(a: Interval, b: Interval, c: Interval)
    requires Within(a, b) && Within(b, c)
    ensures Within(a, c)
  {
  }

  lemma WithinAntisymmetric(a: Interval, b: Interval)
    requires Within(a, b) && Within(b, a) && a.empty == b.empty
    ensures a == b
  {
  }

  /** Unless the merge wraps, the result is a proper interval below both operands. */
  lemma RefineBelow(i: Interval, v: Interval)
    requires !i.empty && !Wraps(i, v) && Refined(i, v).ret >= 0
    ensures var r := Refined(i, v).i; Proper(r) && Within(r, i) && Within(r, v)
  {
  }

  /** It is the greatest such interval. */
  lemma RefineGreatest(i: Interval, v: Interval, x: Interval)
    requires !i.empty && Proper(x) && Within(x, i) && Within(x, v)
    ensures Refined(i, v).ret >= 0 && Within(x, Refined(i, v).i)
  {
  }

  /** On proper intervals, a return of 0 means that nothing moved, and says `i` is below `v`. */
  lemma RefineUnchanged(i: Interval, v: Interval)
    requires Proper(i)
    ensures Refined(i, v) == Refinement(i, 0) <==> Within(i, v)
    ensures Refined(i, v).ret == 0 ==> Within(i, v)
  {
  }

  /** The three return values, and the mark left by a failure. */
  lemma RefineCodes(i: Interval, v: Interval)
    ensures Refined(i, v).ret == -22 || Refined(i, v).ret == 0 || Refined(i, v).ret == 1
    ensures Refined(i, v).ret < 0 <==> Refined(i, v).i.empty
  {
  }

  /** What is left to take away from an interval. */
  function Weight(i: Interval): int {
    4 * (i.max - i.min) + (if i.openmin then 0 else 1) + (if i.openmax then 0 else 1) + (if i.integer then 0 else 1)
  }

  lemma ProperWeight(i: Interval)
    requires Proper(i)
    ensures Weight(i) >= 0
  {
  }

  /** A reported change is progress. */
  lemma RefineDrops(i: Interval, v: Interval)
    requires Proper(i) && !Wraps(i, v) && Refined(i, v).ret > 0
    ensures Weight(Refined(i, v).i) < Weight(i)
  {
  }

  /** And a change that can be seen. */
  lemma RefineMoves(i: Interval, v: Interval)
    requires !i.empty && !Wraps(i, v) && Refined(i, v).ret > 0
    ensures Refined(i, v).i != i
  {
  }

  /** What has moved on the way down has moved at the end of it. */
  lemma StaysMoved(a: Interval, b: Interval, c: Interval)
    requires Within(a, b) && Within(b, c) && a.empty == b.empty == c.empty
    ensures a != b || b != c ==> a != c
  {
  }

  /** On integers, narrowing is intersection under the plain membership test as well. */
  lemma RefineTest(i: Interval, v: Interval, x: Uint)
    requires !i.empty && !Wraps(i, v) && Refined(i, v).ret >= 0
    ensures Test(Refined(i, v).i, x) <==> Test(i, x) && Test(v, x)
  {
    assert Test(Meet(i, v), x) <==> Test(i, x) && Test(v, x);
  }
}
