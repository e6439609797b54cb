/**
 `snd_pcm_hw_refine` over a mutable parameter structure: intersect with the driver's constraints, then
 rerun rules, guided by stamps, until a whole pass changes nothing.
 */
module HwRefine {
  import opened Words
  import opened Intervals
  import opened IntervalArithmetic
  import opened HwRules
  import opened HwTheory

  class HwParams {
    const masks: array<set<nat>>
    const ivls: array<Interval>
    const flags: set<nat>
    var rmask: set<nat>
    var cmask: set<nat>

    constructor (b: Box, flags: set<nat>, rmask: set<nat>)
      requires Shaped(b)
      ensures Valid() && Current() == b && fresh(masks) && fresh(ivls)
      ensures this.flags == flags && this.rmask == rmask && cmask == {}
    {
      masks := new set<nat>[MASKS](k requires 0 <= k < MASKS => b.masks[k]);
      ivls := new Interval[INTERVALS](k requires 0 <= k < INTERVALS => b.ivls[k]);
      this.flags, this.rmask, cmask := flags, rmask, {};
      new;
      assert masks[..] == b.masks && ivls[..] == b.ivls;
    }

    ghost predicate Valid() {
      masks.Length == MASKS && ivls.Length == INTERVALS
    }

    ghost function Current(): Box
      reads masks, ivls
    {
      Box(masks[..], ivls[..])
    }
  }

  /** `snd_mask_refine`: intersect, fail when nothing is left, else say whether something went. */
  method RefineMask(a: array<set<nat>>, k: nat, v: set<nat>) returns (changed: int)
    requires k < a.Length
    modifies a
    ensures a[..] == old(a[..])[k := old(a[k]) * v]
    ensures changed == if old(a[k]) * v == {} then INVAL else if old(a[k]) <= v then 0 else 1
  {
    var was := a[k];
    a[k] := a[k] * v;
    if a[k] == {} {
      return INVAL;
    }
    changed := if a[k] == was then 0 else 1;
  }

  // ---------------------------------------------------------------- rule functions

  /** The loop of the sample-bits rule over all formats. */
  method WidthRange(formats: set<nat>) returns (t: Interval)
    ensures t == Hull(Widths(formats, FORMAT_LAST + 1), true)
  {
    t := Interval(UINT_MAX, false, 0, false, true, false);
    var k := 0;
    while k <= FORMAT_LAST
      invariant 0 <= k <= FORMAT_LAST + 1
      invariant t == Hull(Widths(formats, k), true)
    {
      var bits := PhysWidth(k);
      if k in formats && bits > 0 {
        assert Widths(formats, k + 1) == Widths(formats, k) + [bits];
        HullGrows(Widths(formats, k), bits);
        if t.min > bits { t := t.(min := bits); }
        if t.max < bits { t := t.(max := bits); }
      } else {
        assert Widths(formats, k + 1) == Widths(formats, k);
      }
      k := k + 1;
    }
  }

  /** The loop of `snd_interval_list` over the list. */
  method ListRange(list: seq<Uint>, mask: set<nat>, i: Interval) returns (t: Interval)
    ensures t == Hull(Chosen(list, mask, i, |list|), false)
  {
    t := ANY.(min := UINT_MAX, max := 0);
    var k := 0;
    while k < |list|
      invariant 0 <= k <= |list|
      invariant t == Hull(Chosen(list, mask, i, k), false)
    {
      if (mask == {} || k in mask) && Test(i, list[k]) {
        ghost var s := Chosen(list, mask, i, k);
        assert Chosen(list, mask, i, k + 1) == s + [list[k]];
        HullGrows(s, list[k]);
        if list[k] < t.min { t := t.(min := list[k]); }
        if list[k] > t.max { t := t.(max := list[k]); }
      } else {
        assert Chosen(list, mask, i, k + 1) == Chosen(list, mask, i, k);
      }
      k := k + 1;
    }
  }

  /** The loop of the format rule: the formats whose width falls outside the interval. */
  method OutsideWidths(formats: set<nat>, i: Interval) returns (m: set<nat>)
    ensures formats - m == Keep(formats, i)
  {
    m := {};
    var k := 0;
    while k <= FORMAT_LAST
      invariant 0 <= k <= FORMAT_LAST + 1
      invariant forall f :: f in m <==> f < k && f in formats && PhysWidth(f) > 0 && (PhysWidth(f) < i.min || PhysWidth(f) > i.max)
    {
      if k in formats {
        var bits := PhysWidth(k);
        if bits > 0 && (bits < i.min || bits > i.max) {
          m := m + {k};
        }
      }
      k := k + 1;
    }
  }

  /** One rule function, run on the parameters in place. */
  method RunRule(p: HwParams, r: Rule) returns (changed: int)
    requires p.Valid() && WellFormed(r)
    modifies p.masks, p.ivls
    ensures Outcome(p.Current(), changed) == Apply(r, old(p.Current()))
  {
    ghost var b := p.Current();
    match r.fn
    case FormatRule =>
      var formats := p.masks[FORMAT];
      var m := OutsideWidths(formats, p.ivls[r.deps[0] - FIRST_INTERVAL]);
      var kept := formats - m;
      assert formats * kept == kept;
      changed := RefineMask(p.masks, FORMAT, kept);
    case SampleBitsRule =>
      var t := WidthRange(p.masks[FORMAT]);
      changed := Refine(p.ivls, r.target - FIRST_INTERVAL, t);
    case ListRule(list, mask) =>
      var v := r.target - FIRST_INTERVAL;
      if |list| == 0 {
        p.ivls[v] := p.ivls[v].(empty := true);
        return INVAL;
      }
      var t := ListRange(list, mask, p.ivls[v]);
      changed := Refine(p.ivls, v, t);
    case BytesMaxRule(max) =>
      changed := Refine(p.ivls, r.target - FIRST_INTERVAL, Interval(0, false, max, false, true, false));
    case MulRule | DivRule | MulDivKRule(_) | MulKDivRule(_) =>
      var t := Combine(r.fn, p.ivls[r.deps[0] - FIRST_INTERVAL], p.ivls[r.deps[1] - FIRST_INTERVAL]);
      changed := Refine(p.ivls, r.target - FIRST_INTERVAL, t);
  }

  // ---------------------------------------------------------------- phase one: the constraints

  /** Nothing outside `cmask` differs, up to the normal form of an interval. */
  ghost predicate Reported(b: Box, c: Box, cmask: set<nat>)
    requires Shaped(b) && Shaped(c)
  {
    && (forall k :: 0 <= k < MASKS && k !in cmask ==> c.masks[k] == b.masks[k])
    && (forall k :: 0 <= k < INTERVALS && k + FIRST_INTERVAL !in cmask ==>
          c.ivls[k] == b.ivls[k] || c.ivls[k] == Normalized(b.ivls[k]))
  }

  /** Each parameter in the set has been narrowed. */
  ghost predicate Moved(b: Box, c: Box, vars: set<nat>)
    requires Shaped(b) && Shaped(c)
  {
    forall v :: v in vars ==>
      if IsMask(v) then c.masks[v] != b.masks[v] else IsInterval(v) && At(c, v) != At(b, v)
  }

  lemma MovedOn(a: Box, b: Box, c: Box, vars: set<nat>, more: set<nat>)
    requires ProperBox(a) && ProperBox(b) && Shaped(c) && NoneEmpty(c) && Sub(a, b) && Sub(b, c)
    requires Moved(c, b, vars) && Moved(b, a, more)
    ensures Moved(c, a, vars + more)
  {
    forall v | v in vars + more
      ensures if IsMask(v) then a.masks[v] != c.masks[v] else IsInterval(v) && At(a, v) != At(c, v)
    {
      if IsMask(v) {
        assert a.masks[v] <= b.masks[v] <= c.masks[v];
      } else {
        StaysMoved(At(a, v), At(b, v), At(c, v));
      }
    }
  }

  method NarrowMasks(p: HwParams, c: seq<set<nat>>) returns (ret: int)
    requires p.Valid() && |c| == MASKS
    modifies p`cmask, p.masks
    ensures ret == 0 || ret == INVAL
    ensures ret == 0 <==> EntersMasks(old(p.masks[..]), c, p.rmask)
    ensures ret == 0 ==> p.masks[..] == EnterMasks(old(p.masks[..]), c, p.rmask)
    ensures old(p.cmask) <= p.cmask
    ensures ret == 0 ==> forall k :: 0 <= k < MASKS && k !in p.cmask ==> p.masks[k] == old(p.masks[k])
    ensures forall v :: v in p.cmask && v !in old(p.cmask) ==> v < MASKS && p.masks[v] != old(p.masks[v])
  {
    ghost var m := p.masks[..];
    var k := 0;
    while k < MASKS
      invariant 0 <= k <= MASKS
      invariant forall j :: 0 <= j < k ==> p.masks[j] == EnterMask(m[j], c[j], j in p.rmask) != {}
      invariant forall j :: k <= j < MASKS ==> p.masks[j] == m[j]
      invariant old(p.cmask) <= p.cmask
      invariant forall j :: 0 <= j < k && j !in p.cmask ==> p.masks[j] == m[j]
      invariant forall v :: v in p.cmask && v !in old(p.cmask) ==> v < k && p.masks[v] != m[v]
    {
      if p.masks[k] == {} {
        assert EnterMask(m[k], c[k], k in p.rmask) == {};
        return INVAL;
      }
      if k in p.rmask {
        var changed := RefineMask(p.masks, k, c[k]);
        if changed != 0 {
          p.cmask := p.cmask + {k};
        }
        if changed < 0 {
          assert EnterMask(m[k], c[k], k in p.rmask) == {};
          return changed;
        }
        assert changed == 0 <==> m[k] * c[k] == m[k];
      }
      k := k + 1;
    }
    return 0;
  }

  /** One interval: check it, and narrow it if it was requested. */
  method NarrowInterval(p: HwParams, k: nat, v: Interval) returns (changed: int)
    requires p.Valid() && k < INTERVALS
    modifies p`cmask, p.ivls
    ensures var r := EnterInterval(old(p.ivls[k]), v, k + FIRST_INTERVAL in p.rmask);
            p.ivls[..] == old(p.ivls[..])[k := r.i] && changed == r.ret && (changed < 0 ==> changed == INVAL)
    ensures old(p.cmask) <= p.cmask
    ensures changed >= 0 ==> p.cmask == if changed != 0 then old(p.cmask) + {k + FIRST_INTERVAL} else old(p.cmask)
  {
    changed := 0;
    if p.ivls[k].empty {
      return INVAL;
    }
    if k + FIRST_INTERVAL in p.rmask {
      changed := Refine(p.ivls, k, v);
      if changed != 0 {
        p.cmask := p.cmask + {k + FIRST_INTERVAL};
      }
    }
  }

  /** The constraint of interval `v`, one of the first `n`, takes something away. */
  ghost predicate Narrows(i: seq<Interval>, c: seq<Interval>, rmask: set<nat>, v: nat, n: nat)
    requires |i| == INTERVALS && |c| == INTERVALS && n <= INTERVALS
  {
    FIRST_INTERVAL <= v < FIRST_INTERVAL + n && EnterInterval(i[v - FIRST_INTERVAL], c[v - FIRST_INTERVAL], v in rmask).ret > 0
  }

  method NarrowIntervals(p: HwParams, c: seq<Interval>) returns (ret: int)
    requires p.Valid() && |c| == INTERVALS
    modifies p`cmask, p.ivls
    ensures ret == 0 || ret == INVAL
    ensures ret == 0 <==> EntersIntervals(old(p.ivls[..]), c, p.rmask)
    ensures ret == 0 ==> p.ivls[..] == EnterIntervals(old(p.ivls[..]), c, p.rmask)
    ensures old(p.cmask) <= p.cmask
    ensures ret == 0 ==> forall v :: v in p.cmask <==> v in old(p.cmask) || Narrows(old(p.ivls[..]), c, p.rmask, v, INTERVALS)
  {
    ghost var i := p.ivls[..];
    var k := 0;
    while k < INTERVALS
      invariant 0 <= k <= INTERVALS
      invariant forall j :: 0 <= j < k ==> p.ivls[j] == EnterInterval(i[j], c[j], j + FIRST_INTERVAL in p.rmask).i
      invariant forall j :: 0 <= j < k ==> EnterInterval(i[j], c[j], j + FIRST_INTERVAL in p.rmask).ret >= 0
      invariant forall j :: k <= j < INTERVALS ==> p.ivls[j] == i[j]
      invariant forall v :: v in p.cmask <==> v in old(p.cmask) || Narrows(i, c, p.rmask, v, k)
    {
      var changed := NarrowInterval(p, k, c[k]);
      if changed < 0 {
        return changed;
      }
      k := k + 1;
    }
    return 0;
  }

  /** A reported change of an interval can be seen. */
  lemma EnteredMoves(i: Interval, c: Interval, requested: bool)
    requires EnterInterval(i, c, requested).ret > 0 && !Wraps(i, c)
    ensures EnterInterval(i, c, requested).i != i
  {
    RefineMoves(i, c);
  }

  lemma EnteredSame(i: Interval, c: Interval, requested: bool)
    requires EnterInterval(i, c, requested).ret == 0
    ensures EnterInterval(i, c, requested).i == i || EnterInterval(i, c, requested).i == Normalized(i)
  {
  }

  lemma IntervalsReported(i: seq<Interval>, c: seq<Interval>, rmask: set<nat>, before: set<nat>, cmask: set<nat>)
    requires |i| == INTERVALS && |c| == INTERVALS && EntersIntervals(i, c, rmask)
    requires forall v :: v in cmask <==> v in before || Narrows(i, c, rmask, v, INTERVALS)
    ensures var e := EnterIntervals(i, c, rmask);
            && (forall k :: 0 <= k < INTERVALS && k + FIRST_INTERVAL !in cmask ==> e[k] == i[k] || e[k] == Normalized(i[k]))
            && ((forall k :: 0 <= k < INTERVALS && !i[k].empty && k + FIRST_INTERVAL in rmask ==> !Wraps(i[k], c[k])) ==>
                  forall v :: v in cmask - before ==> IsInterval(v) && e[v - FIRST_INTERVAL] != i[v - FIRST_INTERVAL])
  {
    var e := EnterIntervals(i, c, rmask);
    forall k | 0 <= k < INTERVALS && k + FIRST_INTERVAL !in cmask ensures e[k] == i[k] || e[k] == Normalized(i[k]) {
      assert !Narrows(i, c, rmask, k + FIRST_INTERVAL, INTERVALS);
      EnteredSame(i[k], c[k], k + FIRST_INTERVAL in rmask);
    }
    if forall k :: 0 <= k < INTERVALS && !i[k].empty && k + FIRST_INTERVAL in rmask ==> !Wraps(i[k], c[k]) {
      forall v | v in cmask - before ensures IsInterval(v) && e[v - FIRST_INTERVAL] != i[v - FIRST_INTERVAL] {
        EnteredMoves(i[v - FIRST_INTERVAL], c[v - FIRST_INTERVAL], v in rmask);
      }
    }
  }

  method EnterConstraints(p: HwParams, c: Box) returns (ret: int)
    requires p.Valid() && Shaped(c)
    modifies p`cmask, p.masks, p.ivls
    ensures ret == 0 || ret == INVAL
    ensures ret == 0 <==> Enters(old(p.Current()), c, p.rmask)
    ensures ret == 0 ==> p.Current() == Enter(old(p.Current()), c, p.rmask)
    ensures ret == 0 ==> old(p.cmask) <= p.cmask && Reported(old(p.Current()), p.Current(), p.cmask)
    ensures ret == 0 && Presentable(old(p.Current()), c, p.rmask) ==>
              Moved(old(p.Current()), p.Current(), p.cmask - old(p.cmask))
  {
    ret := NarrowMasks(p, c.masks);
    if ret < 0 { return; }
    ghost var cmask := p.cmask;
    ret := NarrowIntervals(p, c.ivls);
    if ret < 0 { return; }
    IntervalsReported(old(p.ivls[..]), c.ivls, p.rmask, cmask, p.cmask);
  }

  // ---------------------------------------------------------------- phase two: the rules

  /** Does some dependency carry a newer stamp than the rule? */
  method Stale(r: Rule, rstamp: nat, vstamps: array<nat>) returns (doit: bool)
    requires WellFormed(r) && vstamps.Length == PARAMS
    ensures doit <==> Pending(r, rstamp, vstamps[..])
  {
    var d := 0;
    while d < |r.deps|
      invariant 0 <= d <= |r.deps|
      invariant forall i :: 0 <= i < d ==> r.deps[i] < PARAMS && vstamps[r.deps[i]] <= rstamp
    {
      assert r.deps[d] in r.deps;
      if vstamps[r.deps[d]] > rstamp {
        assert vstamps[..][r.deps[d]] > rstamp;
        return true;
      }
      d := d + 1;
    }
    return false;
  }

  /** The variables of the solver are where the run has got to; no step of it wrapped or failed. */
  ghost predicate Tracks(cs: Constraints, flags: set<nat>, start: Run, trace: seq<nat>, s: Run)
    requires Sound(cs) && ShapedRun(cs, start)
  {
    IsRun(cs, flags, start, trace) && AllClean(cs, start, trace) && NoneFails(cs, start, trace) && After(cs, start, trace) == s
  }

  /** The same, with every rule from the last one executed to place `k` of the array not due. */
  ghost predicate AtPlace(cs: Constraints, flags: set<nat>, rmask: set<nat>, e: Box, trace: seq<nat>, k: nat, s: Run)
    requires Sound(cs) && Shaped(e)
  {
    Tracks(cs, flags, Started(cs, rmask, e), trace, s) && NoneDue(cs, flags, s, Place(trace), k)
  }

  /** The last step of the run failed and left box `b`, and what that means. */
  ghost predicate Refused(cs: Constraints, flags: set<nat>, rmask: set<nat>, e: Box, trace: seq<nat>, b: Box)
    requires Sound(cs) && Shaped(e)
  {
    var start := Started(cs, rmask, e);
    && IsRun(cs, flags, start, trace) && EndsInFailure(cs, start, trace) && After(cs, start, trace).b == b
    && NoSolution(cs, flags, e)
    && (AllTame(cs, flags, e) ==> GreatestClosed(cs, flags, e, INVAL, b))
  }

  lemma TrackedWeight(cs: Constraints, flags: set<nat>, rmask: set<nat>, e: Box, trace: seq<nat>, s: Run)
    requires Sound(cs) && ProperBox(e) && Tracks(cs, flags, Started(cs, rmask, e), trace, s)
    ensures Running(cs, flags, Primed(cs, flags, rmask, e), e, s) && BoxWeight(s.b) >= 0
  {
    RunKeeps(cs, flags, rmask, e, trace);
    SumWeightsNonNegative(s.b.ivls);
  }

  /** A run that failed at rule `k` proves what failure means. */
  lemma FailureMeans(cs: Constraints, flags: set<nat>, primed: bool, e: Box, s: Run, k: nat)
    requires Sound(cs) && ProperBox(e) && Running(cs, flags, primed, e, s)
    requires k < |cs.rules| && Enabled(cs.rules[k], flags) && Apply(cs.rules[k], s.b).ret < 0
    ensures NoSolution(cs, flags, e)
    ensures AllTame(cs, flags, e) ==> GreatestClosed(cs, flags, e, INVAL, s.b)
  {
    var r := cs.rules[k];
    assert Active(cs, flags, r);
    StepKeepsSolutions(cs, flags, e, s.b, r);
    if AllTame(cs, flags, e) {
      StepKeepsClosed(cs, flags, e, s.b, r);
    }
  }

  ghost predicate NoSolution(cs: Constraints, flags: set<nat>, e: Box)
    requires Sound(cs) && Shaped(e)
  {
    forall c :: In(c, e) ==> !Solves(cs, flags, c)
  }

  /** One more execution that succeeds is one more step of the run. */
  lemma StepTracks(cs: Constraints, flags: set<nat>, rmask: set<nat>, e: Box, trace: seq<nat>, s: Run, k: nat)
    requires Sound(cs) && Shaped(e) && Settling(cs, flags, rmask, e) && AtPlace(cs, flags, rmask, e, trace, k, s)
    requires Due(cs, flags, s, k) && Apply(cs.rules[k], s.b).ret >= 0
    ensures AtPlace(cs, flags, rmask, e, trace + [k], k + 1, Executed(cs, k, s))
    ensures Clean(cs.rules[k], s.b)
  {
    RunExtended(cs, flags, Started(cs, rmask, e), trace, k);
    assert (trace + [k])[..|trace|] == trace;
    assert AllClean(cs, Started(cs, rmask, e), trace + [k]);
  }

  /** It makes progress if it reports a change, and leaves the rule not due if it does not. */
  lemma StepProgress(cs: Constraints, flags: set<nat>, rmask: set<nat>, e: Box, trace: seq<nat>, s: Run, k: nat)
    requires Sound(cs) && ProperBox(e) && AtPlace(cs, flags, rmask, e, trace, k, s)
    requires Due(cs, flags, s, k) && Apply(cs.rules[k], s.b).ret >= 0 && Clean(cs.rules[k], s.b)
    ensures ProperBox(s.b) && Sub(s.b, e)
    ensures Apply(cs.rules[k], s.b).ret > 0 ==> BoxWeight(Executed(cs, k, s).b) < BoxWeight(s.b)
    ensures Apply(cs.rules[k], s.b).ret == 0 ==>
              var t := Executed(cs, k, s);
              t.b == s.b && (Quiet(cs, flags, s.rstamps, s.vstamps, k) ==> Quiet(cs, flags, t.rstamps, t.vstamps, k + 1))
  {
    RunKeeps(cs, flags, rmask, e, trace);
    ExecutedRuns(cs, flags, Primed(cs, flags, rmask, e), e, s, k);
    if Apply(cs.rules[k], s.b).ret == 0 {
      QuietGrows(cs, flags, s, k);
    }
  }

  /** A rule that was just executed without a change is not due, and no other becomes so. */
  lemma QuietGrows(cs: Constraints, flags: set<nat>, s: Run, k: nat)
    requires Sound(cs) && ShapedRun(cs, s) && k < |cs.rules| && Apply(cs.rules[k], s.b).ret == 0
    requires forall v :: 0 <= v < PARAMS ==> s.vstamps[v] < s.stamp
    ensures var t := Executed(cs, k, s);
            Quiet(cs, flags, s.rstamps, s.vstamps, k) ==> Quiet(cs, flags, t.rstamps, t.vstamps, k + 1)
  {
    var t := Executed(cs, k, s);
    assert t.vstamps == s.vstamps && t.rstamps == s.rstamps[k := s.stamp];
  }

  /** A rule that is not due is passed by. */
  lemma SkipTracks(cs: Constraints, flags: set<nat>, rmask: set<nat>, e: Box, trace: seq<nat>, s: Run, k: nat)
    requires Sound(cs) && Shaped(e) && AtPlace(cs, flags, rmask, e, trace, k, s) && !Due(cs, flags, s, k)
    ensures AtPlace(cs, flags, rmask, e, trace, k + 1, s)
    ensures k < |cs.rules| && Quiet(cs, flags, s.rstamps, s.vstamps, k) ==> Quiet(cs, flags, s.rstamps, s.vstamps, k + 1)
  {
  }

  /** One more execution that fails. */
  lemma StepRefused(cs: Constraints, flags: set<nat>, rmask: set<nat>, e: Box, trace: seq<nat>, s: Run, k: nat)
    requires Sound(cs) && ProperBox(e) && AtPlace(cs, flags, rmask, e, trace, k, s)
    requires Due(cs, flags, s, k) && Apply(cs.rules[k], s.b).ret < 0
    ensures Apply(cs.rules[k], s.b).ret == INVAL
    ensures Refused(cs, flags, rmask, e, trace + [k], Apply(cs.rules[k], s.b).b)
  {
    RunFails(cs, flags, rmask, e, trace, s, k);
    RunKeeps(cs, flags, rmask, e, trace);
    FailureMeans(cs, flags, Primed(cs, flags, rmask, e), e, s, k);
  }

  lemma RunFails(cs: Constraints, flags: set<nat>, rmask: set<nat>, e: Box, trace: seq<nat>, s: Run, k: nat)
    requires Sound(cs) && Shaped(e) && AtPlace(cs, flags, rmask, e, trace, k, s)
    requires Due(cs, flags, s, k) && Apply(cs.rules[k], s.b).ret < 0
    ensures var start := Started(cs, rmask, e);
            && IsRun(cs, flags, start, trace + [k]) && EndsInFailure(cs, start, trace + [k])
            && After(cs, start, trace + [k]).b == Apply(cs.rules[k], s.b).b
  {
    RunExtended(cs, flags, Started(cs, rmask, e), trace, k);
  }

  /** Run rule `k` and book the run in the stamps and in `cmask`. */
  method Execute(p: HwParams, cs: Constraints, k: nat, rstamps: array<nat>, vstamps: array<nat>, stamp: nat)
    returns (changed: int)
    requires p.Valid() && Sound(cs) && k < |cs.rules| && rstamps != vstamps
    requires rstamps.Length == |cs.rules| && vstamps.Length == PARAMS
    modifies p`cmask, p.masks, p.ivls, rstamps, vstamps
    ensures Outcome(p.Current(), changed) == Apply(cs.rules[k], old(p.Current()))
    ensures Run(p.Current(), rstamps[..], vstamps[..], stamp + 1) ==
            Executed(cs, k, Run(old(p.Current()), old(rstamps[..]), old(vstamps[..]), stamp))
    ensures p.cmask == if changed != 0 then old(p.cmask) + {cs.rules[k].target} else old(p.cmask)
  {
    var r := cs.rules[k];
    changed := RunRule(p, r);
    rstamps[k] := stamp;
    if changed != 0 {
      p.cmask := p.cmask + {r.target};
      vstamps[r.target] := stamp;
    }
  }

  /** The due rule `k` is executed. */
  method ExecuteDue(p: HwParams, cs: Constraints, ghost e: Box, ghost before: set<nat>, ghost trace0: seq<nat>,
              k: nat, rstamps: array<nat>, vstamps: array<nat>, stamp0: nat)
    returns (changed: int, stamp: nat, ghost trace: seq<nat>)
    requires p.Valid() && Sound(cs) && ProperBox(e) && Settling(cs, p.flags, p.rmask, e) && k < |cs.rules| && rstamps != vstamps
    requires rstamps.Length == |cs.rules| && vstamps.Length == PARAMS
    requires AtPlace(cs, p.flags, p.rmask, e, trace0, k, Run(p.Current(), rstamps[..], vstamps[..], stamp0))
    requires Due(cs, p.flags, Run(p.Current(), rstamps[..], vstamps[..], stamp0), k)
    requires Booked(e, before, p.Current(), p.cmask)
    modifies p`cmask, p.masks, p.ivls, rstamps, vstamps
    ensures old(p.cmask) <= p.cmask
    ensures changed == 0 ==> p.Current() == old(p.Current())
    ensures changed == 0 && old(Quiet(cs, p.flags, rstamps[..], vstamps[..], k)) ==> Quiet(cs, p.flags, rstamps[..], vstamps[..], k + 1)
    ensures changed < 0 ==> changed == INVAL && Refused(cs, p.flags, p.rmask, e, trace, p.Current())
    ensures changed > 0 ==> BoxWeight(p.Current()) < BoxWeight(old(p.Current()))
    ensures changed >= 0 ==> Booked(e, before, p.Current(), p.cmask)
    ensures changed >= 0 ==> AtPlace(cs, p.flags, p.rmask, e, trace, k + 1, Run(p.Current(), rstamps[..], vstamps[..], stamp))
  {
    ghost var s, cmask := Run(p.Current(), rstamps[..], vstamps[..], stamp0), p.cmask;
    changed := Execute(p, cs, k, rstamps, vstamps, stamp0);
    stamp, trace := stamp0, trace0 + [k];
    if changed >= 0 {
      StepTracks(cs, p.flags, p.rmask, e, trace0, s, k);
      StepProgress(cs, p.flags, p.rmask, e, trace0, s, k);
      BookedOn(cs.rules[k], e, before, s.b, cmask);
      stamp := stamp + 1;
    } else {
      StepRefused(cs, p.flags, p.rmask, e, trace0, s, k);
    }
  }

  /** The body of the inner loop: execute rule `k` if it is enabled and stale. */
  method Step(p: HwParams, cs: Constraints, ghost e: Box, ghost before: set<nat>, ghost trace0: seq<nat>,
              k: nat, rstamps: array<nat>, vstamps: array<nat>, stamp0: nat)
    returns (changed: int, stamp: nat, ghost trace: seq<nat>)
    requires p.Valid() && Sound(cs) && ProperBox(e) && Settling(cs, p.flags, p.rmask, e) && k < |cs.rules| && rstamps != vstamps
    requires rstamps.Length == |cs.rules| && vstamps.Length == PARAMS
    requires AtPlace(cs, p.flags, p.rmask, e, trace0, k, Run(p.Current(), rstamps[..], vstamps[..], stamp0))
    requires Booked(e, before, p.Current(), p.cmask)
    modifies p`cmask, p.masks, p.ivls, rstamps, vstamps
    ensures old(p.cmask) <= p.cmask
    ensures changed == 0 ==> p.Current() == old(p.Current())
    ensures changed == 0 && old(Quiet(cs, p.flags, rstamps[..], vstamps[..], k)) ==> Quiet(cs, p.flags, rstamps[..], vstamps[..], k + 1)
    ensures changed < 0 ==> changed == INVAL && Refused(cs, p.flags, p.rmask, e, trace, p.Current())
    ensures changed > 0 ==> BoxWeight(p.Current()) < BoxWeight(old(p.Current()))
    ensures changed >= 0 ==> Booked(e, before, p.Current(), p.cmask)
    ensures changed >= 0 ==> AtPlace(cs, p.flags, p.rmask, e, trace, k + 1, Run(p.Current(), rstamps[..], vstamps[..], stamp))
  {
    var r := cs.rules[k];
    changed, stamp, trace := 0, stamp0, trace0;
    var doit := false;
    if Enabled(r, p.flags) {
      doit := Stale(r, rstamps[k], vstamps);
    }
    if doit {
      changed, stamp, trace := ExecuteDue(p, cs, e, before, trace0, k, rstamps, vstamps, stamp0);
    } else {
      SkipTracks(cs, p.flags, p.rmask, e, trace0, Run(p.Current(), rstamps[..], vstamps[..], stamp0), k);
    }
  }

  /** One pass over all rules. */
  method Pass(p: HwParams, cs: Constraints, ghost e: Box, ghost before: set<nat>,
              rstamps: array<nat>, vstamps: array<nat>, stamp0: nat, ghost trace0: seq<nat>)
    returns (again: bool, changed: int, stamp: nat, ghost trace: seq<nat>)
    requires p.Valid() && Sound(cs) && ProperBox(e) && Settling(cs, p.flags, p.rmask, e) && rstamps != vstamps
    requires rstamps.Length == |cs.rules| && vstamps.Length == PARAMS
    requires AtPlace(cs, p.flags, p.rmask, e, trace0, 0, Run(p.Current(), rstamps[..], vstamps[..], stamp0))
    requires Booked(e, before, p.Current(), p.cmask)
    modifies p`cmask, p.masks, p.ivls, rstamps, vstamps
    ensures old(p.cmask) <= p.cmask
    ensures changed < 0 ==> changed == INVAL && Refused(cs, p.flags, p.rmask, e, trace, p.Current())
    ensures changed >= 0 ==> Booked(e, before, p.Current(), p.cmask)
    ensures changed >= 0 ==>
              AtPlace(cs, p.flags, p.rmask, e, trace, |cs.rules|, Run(p.Current(), rstamps[..], vstamps[..], stamp))
    ensures changed >= 0 && again ==> BoxWeight(p.Current()) < BoxWeight(old(p.Current()))
    ensures changed >= 0 && !again ==> p.Current() == old(p.Current()) && Quiet(cs, p.flags, rstamps[..], vstamps[..], |cs.rules|)
  {
    again, changed, stamp, trace := false, 0, stamp0, trace0;
    ghost var b := p.Current();
    var k := 0;
    while k < |cs.rules|
      invariant 0 <= k <= |cs.rules|
      invariant AtPlace(cs, p.flags, p.rmask, e, trace, k, Run(p.Current(), rstamps[..], vstamps[..], stamp))
      invariant old(p.cmask) <= p.cmask && Booked(e, before, p.Current(), p.cmask)
      invariant again ==> BoxWeight(p.Current()) < BoxWeight(b)
      invariant !again ==> p.Current() == b && Quiet(cs, p.flags, rstamps[..], vstamps[..], k)
      invariant changed >= 0
    {
      changed, stamp, trace := Step(p, cs, e, before, trace, k, rstamps, vstamps, stamp);
      if changed < 0 {
        return;
      }
      if changed != 0 {
        again := true;
      }
      k := k + 1;
    }
  }

  /** The do-while loop: ends, keeps all solutions, and leaves a box no enabled rule can narrow. The trace is
      the one run there is from this box. */
  method Settle(p: HwParams, cs: Constraints) returns (ret: int, ghost trace: seq<nat>)
    requires p.Valid() && Sound(cs) && ProperBox(p.Current()) && Settling(cs, p.flags, p.rmask, p.Current())
    modifies p`cmask, p.masks, p.ivls
    ensures ret == 0 || ret == INVAL
    ensures EndsAt(cs, p.flags, Started(cs, p.rmask, old(p.Current())), trace, ret, p.Current())
    ensures ret == 0 ==> ProperBox(p.Current()) && Sub(p.Current(), old(p.Current()))
    ensures ret == 0 ==> KeepsSolutions(cs, p.flags, p.Current(), old(p.Current()))
    ensures ret < 0 ==> NoSolution(cs, p.flags, old(p.Current()))
    ensures ret == 0 && Primed(cs, p.flags, p.rmask, old(p.Current())) ==> Closed(cs, p.flags, p.Current())
    ensures Primed(cs, p.flags, p.rmask, old(p.Current())) && AllTame(cs, p.flags, old(p.Current())) ==>
              GreatestClosed(cs, p.flags, old(p.Current()), ret, p.Current())
    ensures old(p.cmask) <= p.cmask
    ensures ret == 0 ==> Booked(old(p.Current()), old(p.cmask), p.Current(), p.cmask)
  {
    ghost var e, before := p.Current(), p.cmask;
    var rstamps := new nat[|cs.rules|](_ => 0);
    var rmask := p.rmask;
    var vstamps := new nat[PARAMS](v => if v in rmask then 1 else 0);
    var stamp := 2;
    trace := [];
    assert Run(e, rstamps[..], vstamps[..], stamp) == Started(cs, p.rmask, e);
    var again := true;
    while again
      invariant AtPlace(cs, p.flags, p.rmask, e, trace, 0, Run(p.Current(), rstamps[..], vstamps[..], stamp))
      invariant old(p.cmask) <= p.cmask && Booked(e, before, p.Current(), p.cmask)
      invariant !again ==> Quiet(cs, p.flags, rstamps[..], vstamps[..], |cs.rules|)
      decreases BoxWeight(p.Current()) + if again then 1 else 0
    {
      TrackedWeight(cs, p.flags, p.rmask, e, trace, Run(p.Current(), rstamps[..], vstamps[..], stamp));
      var changed;
      again, changed, stamp, trace := Pass(p, cs, e, before, rstamps, vstamps, stamp, trace);
      if changed < 0 {
        return changed, trace;
      }
      PlaceInRange(cs, p.flags, Started(cs, p.rmask, e), trace);
    }
    QuietTrack(cs, p.flags, p.rmask, e, trace, Run(p.Current(), rstamps[..], vstamps[..], stamp));
    return 0, trace;
  }

  /** Where the run ends: with its failure, or with no rule due. */
  ghost predicate EndsAt(cs: Constraints, flags: set<nat>, start: Run, trace: seq<nat>, ret: int, b: Box)
    requires Sound(cs) && ShapedRun(cs, start)
  {
    && IsRun(cs, flags, start, trace) && After(cs, start, trace).b == b
    && if ret < 0 then EndsInFailure(cs, start, trace) else NoneFails(cs, start, trace) && !AnyDue(cs, flags, After(cs, start, trace))
  }

  lemma PlaceInRange(cs: Constraints, flags: set<nat>, start: Run, trace: seq<nat>)
    requires Sound(cs) && ShapedRun(cs, start) && IsRun(cs, flags, start, trace)
    ensures Place(trace) <= |cs.rules|
  {
  }

  /** A run that has come to rest. */
  lemma QuietTrack(cs: Constraints, flags: set<nat>, rmask: set<nat>, e: Box, trace: seq<nat>, s: Run)
    requires Sound(cs) && ProperBox(e) && Tracks(cs, flags, Started(cs, rmask, e), trace, s)
    requires Quiet(cs, flags, s.rstamps, s.vstamps, |cs.rules|)
    ensures Running(cs, flags, Primed(cs, flags, rmask, e), e, s) && !AnyDue(cs, flags, s)
    ensures Primed(cs, flags, rmask, e) ==> Closed(cs, flags, s.b)
  {
    RunKeeps(cs, flags, rmask, e, trace);
    if Primed(cs, flags, rmask, e) {
      QuietIsClosed(cs, flags, e, s);
    }
  }

  /** Among the first `n` rules, no enabled one has a dependency newer than itself. */
  ghost predicate Quiet(cs: Constraints, flags: set<nat>, rstamps: seq<nat>, vstamps: seq<nat>, n: nat)
    requires Sound(cs) && |rstamps| == |cs.rules| && |vstamps| == PARAMS && n <= |cs.rules|
  {
    forall j :: 0 <= j < n && Enabled(cs.rules[j], flags) ==> !Pending(cs.rules[j], rstamps[j], vstamps)
  }

  ghost predicate SameOutside(b: Box, c: Box, cmask: set<nat>) {
    && Shaped(b) && Shaped(c)
    && (forall k :: 0 <= k < MASKS && k !in cmask ==> c.masks[k] == b.masks[k])
    && (forall k :: 0 <= k < INTERVALS && k + FIRST_INTERVAL !in cmask ==> c.ivls[k] == b.ivls[k])
  }

  /** `cmask` says what has been narrowed since it was `before`. */
  ghost predicate Booked(b: Box, before: set<nat>, c: Box, cmask: set<nat>) {
    before <= cmask && SameOutside(b, c, cmask) && Moved(b, c, cmask - before)
  }

  lemma BookedOn(r: Rule, e: Box, before: set<nat>, b: Box, cmask: set<nat>)
    requires WellFormed(r) && ProperBox(e) && ProperBox(b) && Sub(b, e) && Clean(r, b) && Apply(r, b).ret >= 0
    requires Booked(e, before, b, cmask)
    ensures Booked(e, before, Apply(r, b).b, if Apply(r, b).ret != 0 then cmask + {r.target} else cmask)
  {
    NoOpIff(r, b);
    if Apply(r, b).ret != 0 {
      var c := Apply(r, b).b;
      ApplyShrinks(r, b);
      TargetMoved(r, b);
      MovedOn(c, b, e, cmask - before, {r.target});
    }
  }

  lemma TargetMoved(r: Rule, b: Box)
    requires WellFormed(r) && ProperBox(b) && Clean(r, b) && Apply(r, b).ret > 0
    ensures Moved(b, Apply(r, b).b, {r.target})
  {
    if !r.fn.FormatRule? {
      RefineMoves(At(b, r.target), Out(r, b));
    }
  }

  // ---------------------------------------------------------------- the whole call

  /** `snd_pcm_hw_refine`. The trace lists the rule executions of the run. */
  method RefineParams(p: HwParams, cs: Constraints) returns (ret: int, ghost trace: seq<nat>)
    requires p.Valid() && Sound(cs) && Presentable(p.Current(), cs.box, p.rmask)
    requires Enters(p.Current(), cs.box, p.rmask) ==> Settling(cs, p.flags, p.rmask, Enter(p.Current(), cs.box, p.rmask))
    modifies p, p.masks, p.ivls
    ensures ret == 0 || ret == INVAL
    // Every configuration that was asked for and satisfies the rules is still there; failure means there is none.
    ensures forall s :: Requested(s, old(p.Current()), cs.box, old(p.rmask)) && Solves(cs, p.flags, s) ==>
              ret == 0 && In(s, p.Current())
    // The result is where the one run from the intersection with the constraints ends.
    ensures ret == 0 ==> Enters(old(p.Current()), cs.box, old(p.rmask))
    ensures var e := Enter(old(p.Current()), cs.box, old(p.rmask));
            Enters(old(p.Current()), cs.box, old(p.rmask)) ==>
              EndsAt(cs, p.flags, Started(cs, old(p.rmask), e), trace, ret, p.Current())
    ensures ret == 0 ==> ProperBox(p.Current()) && Sub(p.Current(), old(p.Current())) && p.rmask == {}
    ensures ret == 0 ==> Confined(p.Current(), cs.box, old(p.rmask))
    // No enabled rule can narrow the result; on tame boxes it is the greatest such box.
    ensures var e := Enter(old(p.Current()), cs.box, old(p.rmask));
            Primed(cs, p.flags, old(p.rmask), e) ==>
              (ret == 0 ==> Closed(cs, p.flags, p.Current())) &&
              (Enters(old(p.Current()), cs.box, old(p.rmask)) && AllTame(cs, p.flags, e) ==>
                 GreatestClosed(cs, p.flags, e, ret, p.Current()))
    // What is not reported in `cmask` did not change, and what is newly reported did.
    ensures ret == 0 ==> old(p.cmask) <= p.cmask && Reported(old(p.Current()), p.Current(), p.cmask)
    ensures ret == 0 ==> Moved(old(p.Current()), p.Current(), p.cmask - old(p.cmask))
  {
    ghost var b := p.Current();
    ghost var e := Enter(b, cs.box, p.rmask);
    forall s | Requested(s, b, cs.box, p.rmask)
      ensures Enters(b, cs.box, p.rmask) && In(s, e)
    {
      EnterKeeps(b, cs.box, p.rmask, s);
    }
    trace := [];
    ret := EnterConstraints(p, cs.box);
    if ret < 0 { return; }
    EnterShrinks(b, cs.box, p.rmask);
    EnterConfines(b, cs.box, p.rmask);
    ghost var cmask := p.cmask;
    ret, trace := Settle(p, cs);
    if ret < 0 { return; }
    SubTransitive(p.Current(), e, b);
    StaysConfined(p.Current(), e, cs.box, p.rmask);
    MovedOn(p.Current(), e, b, cmask - old(p.cmask), p.cmask - cmask);
    p.rmask := {};
  }

  /** Two calls with the same rules in different arrays end alike: with the same box, or both in failure. */
  method RefineInAnyOrder(p: HwParams, q: HwParams, cs: Constraints, ds: Constraints) returns (ret: int, ret': int)
    requires p.Valid() && q.Valid() && p != q && p.masks != q.masks && p.ivls != q.ivls
    requires p.Current() == q.Current() && p.rmask == q.rmask && p.flags == q.flags
    requires Sound(cs) && Sound(ds) && cs.box == ds.box && forall r :: r in cs.rules <==> r in ds.rules
    requires Presentable(p.Current(), cs.box, p.rmask)
    requires var e := Enter(p.Current(), cs.box, p.rmask); Primed(cs, p.flags, p.rmask, e) && AllTame(cs, p.flags, e)
    modifies p, p.masks, p.ivls, q, q.masks, q.ivls
    ensures ret == ret'
    ensures ret == 0 ==> p.Current() == q.Current()
  {
    ghost var b, c, rmask := p.Current(), cs.box, p.rmask;
    ghost var e := Enter(b, c, rmask);
    SameActive(cs, ds, p.flags, rmask, e);
    if Enters(b, c, rmask) {
      EnterShrinks(b, c, rmask);
      TameSettles(cs, p.flags, rmask, e);
      TameSettles(ds, p.flags, rmask, e);
    }
    ghost var trace, trace';
    ret, trace := RefineParams(p, cs);
    ret', trace' := RefineParams(q, ds);
    if Enters(b, c, rmask) {
      OrderIndependence(cs, ds, p.flags, e, ret, p.Current(), ret', q.Current());
    }
  }

  lemma SameActive(cs: Constraints, ds: Constraints, flags: set<nat>, rmask: set<nat>, e: Box)
    requires Sound(cs) && Sound(ds) && Shaped(e) && forall r :: r in cs.rules <==> r in ds.rules
    ensures forall r :: Active(cs, flags, r) <==> Active(ds, flags, r)
    ensures Primed(cs, flags, rmask, e) ==> Primed(ds, flags, rmask, e)
    ensures AllTame(cs, flags, e) ==> AllTame(ds, flags, e)
  {
  }
}
