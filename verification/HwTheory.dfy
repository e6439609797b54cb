/**
 Whole runs of the solver, on values: what its loop keeps, when its rules cannot wrap,
 and why the final box does not depend on the order of the rules.
 */
module HwTheory {
  import opened Words
  import opened Intervals
  import opened IntervalArithmetic
  import opened HwRules

  /** The constraint box and the rules a driver has registered. */
  datatype Constraints = Constraints(box: Box, rules: seq<Rule>)

  ghost predicate Sound(cs: Constraints) {
    Shaped(cs.box) && forall r :: r in cs.rules ==> WellFormed(r)
  }

  // ---------------------------------------------------------------- intersecting with the constraints

  function EnterMask(m: set<nat>, c: set<nat>, requested: bool): set<nat> {
    if requested then m * c else m
  }

  function EnterInterval(i: Interval, c: Interval, requested: bool): Refinement {
    if requested then Refined(i, c) else Refinement(i, if i.empty then INVAL else 0)
  }

  function EnterMasks(m: seq<set<nat>>, c: seq<set<nat>>, rmask: set<nat>): seq<set<nat>>
    requires |m| == MASKS && |c| == MASKS
  {
    seq(MASKS, k requires 0 <= k < MASKS => EnterMask(m[k], c[k], k in rmask))
  }

  function EnterIntervals(i: seq<Interval>, c: seq<Interval>, rmask: set<nat>): seq<Interval>
    requires |i| == INTERVALS && |c| == INTERVALS
  {
    seq(INTERVALS, k requires 0 <= k < INTERVALS => EnterInterval(i[k], c[k], k + FIRST_INTERVAL in rmask).i)
  }

  /** The box the rules start from: every requested parameter narrowed by its constraint. */
  function Enter(b: Box, c: Box, rmask: set<nat>): (e: Box)
    requires Shaped(b) && Shaped(c)
    ensures Shaped(e)
  {
    Box(EnterMasks(b.masks, c.masks, rmask), EnterIntervals(b.ivls, c.ivls, rmask))
  }

  ghost predicate EntersMasks(m: seq<set<nat>>, c: seq<set<nat>>, rmask: set<nat>)
    requires |m| == MASKS && |c| == MASKS
  {
    forall k :: 0 <= k < MASKS ==> EnterMask(m[k], c[k], k in rmask) != {}
  }

  ghost predicate EntersIntervals(i: seq<Interval>, c: seq<Interval>, rmask: set<nat>)
    requires |i| == INTERVALS && |c| == INTERVALS
  {
    forall k :: 0 <= k < INTERVALS ==> EnterInterval(i[k], c[k], k + FIRST_INTERVAL in rmask).ret >= 0
  }

  ghost predicate Enters(b: Box, c: Box, rmask: set<nat>)
    requires Shaped(b) && Shaped(c)
  {
    EntersMasks(b.masks, c.masks, rmask) && EntersIntervals(b.ivls, c.ivls, rmask)
  }

  /** The configuration is in the request, and in the constraint of every requested parameter. */
  ghost predicate Requested(s: Config, b: Box, c: Box, rmask: set<nat>)
    requires Shaped(b) && Shaped(c)
  {
    && NoneEmpty(b) && In(s, b)
    && (forall k :: 0 <= k < MASKS && k in rmask ==> s.choice[k] in c.masks[k])
    && (forall k :: 0 <= k < INTERVALS && k + FIRST_INTERVAL in rmask ==> Admits(c.ivls[k], s.value[k]))
  }

  lemma EnterKeeps(b: Box, c: Box, rmask: set<nat>, s: Config)
    requires Shaped(b) && Shaped(c) && Requested(s, b, c, rmask)
    ensures Enters(b, c, rmask) && In(s, Enter(b, c, rmask))
  {
    forall k | 0 <= k < INTERVALS
      ensures var r := EnterInterval(b.ivls[k], c.ivls[k], k + FIRST_INTERVAL in rmask); r.ret >= 0 && Admits(r.i, s.value[k])
    {
      if k + FIRST_INTERVAL in rmask {
        RefineKeeps(b.ivls[k], c.ivls[k], s.value[k]);
      }
    }
    forall k | 0 <= k < MASKS ensures EnterMask(b.masks[k], c.masks[k], k in rmask) != {} {
      assert s.choice[k] in EnterMask(b.masks[k], c.masks[k], k in rmask);
    }
  }

  /** Intersecting with the constraints does not wrap; parameters not named in `rmask` are as an earlier
      refinement left them. */
  ghost predicate Presentable(b: Box, c: Box, rmask: set<nat>)
    requires Shaped(b) && Shaped(c)
  {
    forall k :: 0 <= k < INTERVALS && !b.ivls[k].empty ==>
      if k + FIRST_INTERVAL in rmask then !Wraps(b.ivls[k], c.ivls[k]) else Proper(b.ivls[k])
  }

  lemma EnterShrinks(b: Box, c: Box, rmask: set<nat>)
    requires Shaped(b) && Shaped(c) && Presentable(b, c, rmask) && Enters(b, c, rmask)
    ensures ProperBox(Enter(b, c, rmask)) && Sub(Enter(b, c, rmask), b)
  {
    var e := Enter(b, c, rmask);
    forall k | 0 <= k < INTERVALS ensures Proper(e.ivls[k]) && Within(e.ivls[k], b.ivls[k]) {
      assert e.ivls[k] == EnterInterval(b.ivls[k], c.ivls[k], k + FIRST_INTERVAL in rmask).i;
      if k + FIRST_INTERVAL in rmask {
        RefineBelow(b.ivls[k], c.ivls[k]);
      }
    }
    forall k | 0 <= k < MASKS ensures e.masks[k] != {} && e.masks[k] <= b.masks[k] {
      assert e.masks[k] == EnterMask(b.masks[k], c.masks[k], k in rmask);
    }
  }

  /** Every requested parameter is within its constraint. */
  ghost predicate Confined(b: Box, c: Box, rmask: set<nat>)
    requires Shaped(b) && Shaped(c)
  {
    && (forall k :: 0 <= k < MASKS && k in rmask ==> b.masks[k] <= c.masks[k])
    && (forall k :: 0 <= k < INTERVALS && k + FIRST_INTERVAL in rmask ==> Within(b.ivls[k], c.ivls[k]))
  }

  lemma EnterConfines(b: Box, c: Box, rmask: set<nat>)
    requires Shaped(b) && Shaped(c) && Presentable(b, c, rmask) && Enters(b, c, rmask)
    ensures Confined(Enter(b, c, rmask), c, rmask)
  {
    var e := Enter(b, c, rmask);
    forall k | 0 <= k < INTERVALS && k + FIRST_INTERVAL in rmask ensures Within(e.ivls[k], c.ivls[k]) {
      assert EnterInterval(b.ivls[k], c.ivls[k], true).ret >= 0;
      RefineBelow(b.ivls[k], c.ivls[k]);
    }
  }

  lemma StaysConfined(a: Box, b: Box, c: Box, rmask: set<nat>)
    requires Shaped(a) && Shaped(b) && Shaped(c) && Sub(a, b) && Confined(b, c, rmask)
    ensures Confined(a, c, rmask)
  {
    forall k | 0 <= k < INTERVALS && k + FIRST_INTERVAL in rmask ensures Within(a.ivls[k], c.ivls[k]) {
      WithinTransitive(a.ivls[k], b.ivls[k], c.ivls[k]);
    }
  }

  // ---------------------------------------------------------------- solutions and closed boxes

  ghost predicate Active(cs: Constraints, flags: set<nat>, r: Rule) {
    r in cs.rules && Enabled(r, flags)
  }

  /** A configuration with all values in range that satisfies every enabled rule. */
  ghost predicate Solves(cs: Constraints, flags: set<nat>, s: Config)
    requires Sound(cs)
  {
    ShapedConfig(s) && InRange(s) && forall r :: Active(cs, flags, r) ==> Satisfies(r, s)
  }

  /** Every enabled rule has nothing to do. */
  ghost predicate Closed(cs: Constraints, flags: set<nat>, b: Box)
    requires Sound(cs) && Shaped(b)
  {
    forall r :: Active(cs, flags, r) ==> NoOp(r, b)
  }

  /** A closed box is one in which every enabled rule supports its target. */
  lemma ClosedMeans(cs: Constraints, flags: set<nat>, b: Box)
    requires Sound(cs) && ProperBox(b)
    ensures Closed(cs, flags, b) <==> forall r :: Active(cs, flags, r) ==> Supported(r, b)
  {
    forall r | Active(cs, flags, r) ensures NoOp(r, b) <==> Supported(r, b) {
      NoOpMeans(r, b);
    }
  }

  ghost predicate AllTame(cs: Constraints, flags: set<nat>, b: Box)
    requires Sound(cs) && Shaped(b)
  {
    forall r :: Active(cs, flags, r) ==> Tame(r, b)
  }

  ghost predicate KeepsSolutions(cs: Constraints, flags: set<nat>, b: Box, e: Box)
    requires Sound(cs) && Shaped(b) && Shaped(e)
  {
    forall s :: In(s, e) && Solves(cs, flags, s) ==> In(s, b)
  }

  ghost predicate KeepsClosed(cs: Constraints, flags: set<nat>, b: Box, e: Box)
    requires Sound(cs) && Shaped(b) && Shaped(e)
  {
    forall x :: ProperBox(x) && Sub(x, e) && Closed(cs, flags, x) ==> Sub(x, b)
  }

  // ---------------------------------------------------------------- stamps

  /** Some dependency changed after the rule last ran. */
  ghost predicate Pending(r: Rule, rstamp: nat, vstamps: seq<nat>)
    requires WellFormed(r) && |vstamps| == PARAMS
  {
    exists d :: d in r.deps && vstamps[d] > rstamp
  }

  ghost predicate Stamped(cs: Constraints, flags: set<nat>, b: Box, rstamps: seq<nat>, vstamps: seq<nat>)
    requires Sound(cs) && Shaped(b) && |rstamps| == |cs.rules| && |vstamps| == PARAMS
  {
    forall j :: 0 <= j < |cs.rules| && Enabled(cs.rules[j], flags) ==>
      Pending(cs.rules[j], rstamps[j], vstamps) || NoOp(cs.rules[j], b)
  }

  /** Every enabled rule either depends on a requested parameter or has nothing to do at the start. */
  ghost predicate Primed(cs: Constraints, flags: set<nat>, rmask: set<nat>, e: Box)
    requires Sound(cs) && Shaped(e)
  {
    forall r :: Active(cs, flags, r) ==> (exists d :: d in r.deps && d in rmask) || NoOp(r, e)
  }

  lemma FullRequestPrimes(cs: Constraints, flags: set<nat>, rmask: set<nat>, e: Box)
    requires Sound(cs) && Shaped(e)
    requires forall v :: IsMask(v) || IsInterval(v) ==> v in rmask
    ensures Primed(cs, flags, rmask, e)
  {
    forall r | Active(cs, flags, r) ensures exists d :: d in r.deps && d in rmask {
      assert r.deps[0] in r.deps;
    }
  }

  datatype Run = Run(b: Box, rstamps: seq<nat>, vstamps: seq<nat>, stamp: nat)

  ghost predicate ShapedRun(cs: Constraints, s: Run) {
    Shaped(s.b) && |s.rstamps| == |cs.rules| && |s.vstamps| == PARAMS
  }

  /** The loop invariant of the solver, for a run that entered the rules with box `e`. */
  ghost predicate Running(cs: Constraints, flags: set<nat>, primed: bool, e: Box, s: Run)
    requires Sound(cs) && Shaped(e)
  {
    && ProperBox(s.b) && Sub(s.b, e)
    && KeepsSolutions(cs, flags, s.b, e)
    && (AllTame(cs, flags, e) ==> KeepsClosed(cs, flags, s.b, e))
    && ShapedRun(cs, s)
    && (forall j :: 0 <= j < |s.rstamps| ==> s.rstamps[j] < s.stamp)
    && (forall v :: 0 <= v < PARAMS ==> s.vstamps[v] < s.stamp)
    && (primed ==> Stamped(cs, flags, s.b, s.rstamps, s.vstamps))
  }

  /** One execution of rule `k`, as the solver books it. */
  ghost function Executed(cs: Constraints, k: nat, s: Run): (t: Run)
    requires k < |cs.rules| && WellFormed(cs.rules[k]) && ShapedRun(cs, s)
    ensures ShapedRun(cs, t)
  {
    var o := Apply(cs.rules[k], s.b);
    Run(o.b, s.rstamps[k := s.stamp],
        if o.ret != 0 then s.vstamps[cs.rules[k].target := s.stamp] else s.vstamps, s.stamp + 1)
  }

  /** Where the rules start: requested parameters count as just changed. */
  ghost function Started(cs: Constraints, rmask: set<nat>, e: Box): (s: Run)
    requires Shaped(e)
    ensures ShapedRun(cs, s)
  {
    Run(e, seq(|cs.rules|, _ => 0), seq(PARAMS, v => if v in rmask then 1 else 0), 2)
  }

  /** At the start exactly the rules with a requested dependency are pending ... */
  lemma PendingAtStart(cs: Constraints, rmask: set<nat>, e: Box, k: nat)
    requires Sound(cs) && Shaped(e) && k < |cs.rules|
    ensures var s := Started(cs, rmask, e);
            Pending(cs.rules[k], s.rstamps[k], s.vstamps) <==> exists d :: d in cs.rules[k].deps && d in rmask
  {
    var r, s := cs.rules[k], Started(cs, rmask, e);
    assert WellFormed(r);
    assert forall d :: d in r.deps ==> (s.vstamps[d] > 0 <==> d in rmask);
  }

  /** ... and an execution settles its own rule, makes those pending that depend on what it changed, and no others. */
  lemma PendingAfter(cs: Constraints, flags: set<nat>, primed: bool, e: Box, s: Run, k: nat, j: nat)
    requires Sound(cs) && Shaped(e) && Running(cs, flags, primed, e, s) && k < |cs.rules| && j < |cs.rules|
    ensures var t := Executed(cs, k, s);
            Pending(cs.rules[j], t.rstamps[j], t.vstamps) <==>
            j != k && (Pending(cs.rules[j], s.rstamps[j], s.vstamps) ||
                       (Apply(cs.rules[k], s.b).ret != 0 && cs.rules[k].target in cs.rules[j].deps))
  {
    var r, q, t := cs.rules[k], cs.rules[j], Executed(cs, k, s);
    assert WellFormed(r) && WellFormed(q);
    assert forall d :: d in q.deps ==> t.vstamps[d] == if Apply(r, s.b).ret != 0 && d == r.target then s.stamp else s.vstamps[d];
    if Pending(q, s.rstamps[j], s.vstamps) {
      var d :| d in q.deps && s.vstamps[d] > s.rstamps[j];
      assert j != k ==> t.vstamps[d] > t.rstamps[j];
    } else if Apply(r, s.b).ret != 0 && r.target in q.deps {
      assert t.vstamps[r.target] == s.stamp;
    }
  }

  lemma EntryRuns(cs: Constraints, flags: set<nat>, rmask: set<nat>, e: Box)
    requires Sound(cs) && ProperBox(e)
    ensures Running(cs, flags, Primed(cs, flags, rmask, e), e, Started(cs, rmask, e))
  {
    var s := Started(cs, rmask, e);
    if Primed(cs, flags, rmask, e) {
      forall j | 0 <= j < |cs.rules| && Enabled(cs.rules[j], flags)
        ensures Pending(cs.rules[j], s.rstamps[j], s.vstamps) || NoOp(cs.rules[j], e)
      {
        var r := cs.rules[j];
        assert Active(cs, flags, r);
        if !NoOp(r, e) {
          var d :| d in r.deps && d in rmask;
          assert s.vstamps[d] > 0;
        }
      }
    }
  }

  /** The stamps stay truthful across one execution. */
  lemma ExecutedStamps(cs: Constraints, flags: set<nat>, e: Box, s: Run, k: nat)
    requires Sound(cs) && ProperBox(e) && Running(cs, flags, true, e, s)
    requires k < |cs.rules| && Enabled(cs.rules[k], flags) && Clean(cs.rules[k], s.b)
    requires Apply(cs.rules[k], s.b).ret >= 0
    ensures var t := Executed(cs, k, s); Stamped(cs, flags, t.b, t.rstamps, t.vstamps)
  {
    var r := cs.rules[k];
    var t := Executed(cs, k, s);
    ApplyShrinks(r, s.b);
    ApplyIdempotent(r, s.b);
    NoOpIff(r, s.b);
    forall j | 0 <= j < |cs.rules| && Enabled(cs.rules[j], flags)
      ensures Pending(cs.rules[j], t.rstamps[j], t.vstamps) || NoOp(cs.rules[j], t.b)
    {
      if j != k {
        OthersStamped(cs, flags, e, s, k, j);
      }
    }
  }

  lemma OthersStamped(cs: Constraints, flags: set<nat>, e: Box, s: Run, k: nat, j: nat)
    requires Sound(cs) && ProperBox(e) && Running(cs, flags, true, e, s)
    requires k < |cs.rules| && j < |cs.rules| && j != k && Enabled(cs.rules[j], flags)
    requires var t := Executed(cs, k, s); ProperBox(t.b) && Sub(t.b, s.b) && (t.b == s.b || Apply(cs.rules[k], s.b).ret != 0)
    ensures var t := Executed(cs, k, s); Pending(cs.rules[j], t.rstamps[j], t.vstamps) || NoOp(cs.rules[j], t.b)
  {
    var r, q := cs.rules[k], cs.rules[j];
    var t := Executed(cs, k, s);
    if Pending(q, s.rstamps[j], s.vstamps) {
      var d :| d in q.deps && s.vstamps[d] > s.rstamps[j];
      assert t.vstamps[d] > t.rstamps[j];
    } else if t.b != s.b && r.target in q.deps {
      assert t.vstamps[r.target] == s.stamp;
    } else if t.b != s.b {
      ApplyFrame(r, q.deps, s.b);
      NoOpSurvives(q, s.b, t.b);
    }
  }

  /** One execution keeps the invariant, and a reported change makes the box lighter. */
  lemma ExecutedRuns(cs: Constraints, flags: set<nat>, primed: bool, e: Box, s: Run, k: nat)
    requires Sound(cs) && ProperBox(e) && Running(cs, flags, primed, e, s)
    requires k < |cs.rules| && Enabled(cs.rules[k], flags)
    requires Clean(cs.rules[k], s.b) && Apply(cs.rules[k], s.b).ret >= 0
    ensures Running(cs, flags, primed, e, Executed(cs, k, s))
    ensures Apply(cs.rules[k], s.b).ret > 0 ==> BoxWeight(Executed(cs, k, s).b) < BoxWeight(s.b)
    ensures Apply(cs.rules[k], s.b).ret == 0 ==> Executed(cs, k, s).b == s.b
  {
    var r := cs.rules[k];
    var t := Executed(cs, k, s);
    assert Active(cs, flags, r);
    ApplyShrinks(r, s.b);
    SubTransitive(t.b, s.b, e);
    NoOpIff(r, s.b);
    if Apply(r, s.b).ret > 0 {
      ApplyDrops(r, s.b);
    }
    StepKeepsSolutions(cs, flags, e, s.b, r);
    if AllTame(cs, flags, e) {
      StepKeepsClosed(cs, flags, e, s.b, r);
    }
    if primed {
      ExecutedStamps(cs, flags, e, s, k);
    }
  }

  /** No rule loses a solution, and a rule fails only when there is none. */
  lemma StepKeepsSolutions(cs: Constraints, flags: set<nat>, e: Box, b: Box, r: Rule)
    requires Sound(cs) && Shaped(e) && ProperBox(b) && KeepsSolutions(cs, flags, b, e) && Active(cs, flags, r)
    ensures KeepsSolutions(cs, flags, Apply(r, b).b, e)
    ensures Apply(r, b).ret < 0 ==> forall s :: In(s, e) ==> !Solves(cs, flags, s)
  {
    forall s | In(s, e) && Solves(cs, flags, s)
      ensures In(s, Apply(r, b).b) && Apply(r, b).ret >= 0
    {
      ApplyKeeps(r, b, s);
    }
  }

  /** On tame boxes no rule cuts into a closed box, and a rule fails only when there is none. */
  lemma StepKeepsClosed(cs: Constraints, flags: set<nat>, e: Box, b: Box, r: Rule)
    requires Sound(cs) && ProperBox(e) && ProperBox(b) && Sub(b, e) && AllTame(cs, flags, e)
    requires KeepsClosed(cs, flags, b, e) && Active(cs, flags, r)
    ensures KeepsClosed(cs, flags, Apply(r, b).b, e)
    ensures Apply(r, b).ret < 0 ==> forall x :: ProperBox(x) && Sub(x, e) ==> !Closed(cs, flags, x)
  {
    TameNarrows(r, b, e);
    forall x | ProperBox(x) && Sub(x, e) && Closed(cs, flags, x)
      ensures Sub(x, Apply(r, b).b) && Apply(r, b).ret >= 0
    {
      ClosedStaysInside(r, x, b);
    }
  }

  lemma TameNarrows(r: Rule, b: Box, e: Box)
    requires WellFormed(r) && ProperBox(b) && ProperBox(e) && Sub(b, e) && Tame(r, e)
    ensures Tame(r, b)
  {
    if !r.fn.FormatRule? {
      OutMonotone(r, b, e);
    }
  }

  /** When no rule is pending, every enabled rule has nothing left to do. */
  lemma QuietIsClosed(cs: Constraints, flags: set<nat>, e: Box, s: Run)
    requires Sound(cs) && Shaped(e) && Running(cs, flags, true, e, s)
    requires forall j :: 0 <= j < |cs.rules| && Enabled(cs.rules[j], flags) ==> !Pending(cs.rules[j], s.rstamps[j], s.vstamps)
    ensures Closed(cs, flags, s.b)
  {
    forall r | Active(cs, flags, r) ensures NoOp(r, s.b) {
      var j :| 0 <= j < |cs.rules| && cs.rules[j] == r;
    }
  }

  // ---------------------------------------------------------------- the run

  ghost predicate Indices(cs: Constraints, trace: seq<nat>) {
    forall i :: 0 <= i < |trace| ==> trace[i] < |cs.rules|
  }

  /** The state after executing the listed rules in turn. */
  ghost function After(cs: Constraints, s: Run, trace: seq<nat>): (t: Run)
    requires Sound(cs) && ShapedRun(cs, s) && Indices(cs, trace)
    ensures ShapedRun(cs, t)
  {
    if trace == [] then s
    else
      var n := |trace| - 1;
      Executed(cs, trace[n], After(cs, s, trace[..n]))
  }

  /** Rule `k` is enabled and stale. */
  ghost predicate Due(cs: Constraints, flags: set<nat>, s: Run, k: nat)
    requires Sound(cs) && ShapedRun(cs, s)
  {
    k < |cs.rules| && Enabled(cs.rules[k], flags) && Pending(cs.rules[k], s.rstamps[k], s.vstamps)
  }

  /** Going round the rule array from place `from`, no rule before place `k` is due. */
  ghost predicate NoneDue(cs: Constraints, flags: set<nat>, s: Run, from: nat, k: nat)
    requires Sound(cs) && ShapedRun(cs, s)
  {
    forall j :: 0 <= j < |cs.rules| && (if from <= k then from <= j < k else from <= j || j < k) ==> !Due(cs, flags, s, j)
  }

  /** The place after the rule that was executed last. */
  ghost function Place(trace: seq<nat>): nat {
    if trace == [] then 0 else trace[|trace| - 1] + 1
  }

  /** Each step of the trace is the next rule due, going round from the one before: the run of the solver. */
  ghost predicate IsRun(cs: Constraints, flags: set<nat>, s: Run, trace: seq<nat>)
    requires Sound(cs) && ShapedRun(cs, s)
  {
    && Indices(cs, trace)
    && (trace == [] ||
        var n := |trace| - 1;
        var t := After(cs, s, trace[..n]);
        IsRun(cs, flags, s, trace[..n]) && Due(cs, flags, t, trace[n]) && NoneDue(cs, flags, t, Place(trace[..n]), trace[n]))
  }

  /** No step of the trace wraps. */
  ghost predicate AllClean(cs: Constraints, s: Run, trace: seq<nat>)
    requires Sound(cs) && ShapedRun(cs, s) && Indices(cs, trace)
  {
    trace == [] ||
    var n := |trace| - 1;
    AllClean(cs, s, trace[..n]) && Clean(cs.rules[trace[n]], After(cs, s, trace[..n]).b)
  }

  /** No step of the trace fails. */
  ghost predicate NoneFails(cs: Constraints, s: Run, trace: seq<nat>)
    requires Sound(cs) && ShapedRun(cs, s) && Indices(cs, trace)
  {
    trace == [] || (NoneFails(cs, s, trace[..|trace| - 1]) && !EndsInFailure(cs, s, trace))
  }

  /** The last step of the trace fails. */
  ghost predicate EndsInFailure(cs: Constraints, s: Run, trace: seq<nat>)
    requires Sound(cs) && ShapedRun(cs, s) && Indices(cs, trace)
  {
    trace != [] &&
    var n := |trace| - 1;
    Apply(cs.rules[trace[n]], After(cs, s, trace[..n]).b).ret < 0
  }

  lemma RunExtended(cs: Constraints, flags: set<nat>, s: Run, trace: seq<nat>, k: nat)
    requires Sound(cs) && ShapedRun(cs, s) && IsRun(cs, flags, s, trace)
    requires var t := After(cs, s, trace); Due(cs, flags, t, k) && NoneDue(cs, flags, t, Place(trace), k)
    ensures IsRun(cs, flags, s, trace + [k])
    ensures After(cs, s, trace + [k]) == Executed(cs, k, After(cs, s, trace))
    ensures AllClean(cs, s, trace + [k]) <==> AllClean(cs, s, trace) && Clean(cs.rules[k], After(cs, s, trace).b)
    ensures EndsInFailure(cs, s, trace + [k]) <==> Apply(cs.rules[k], After(cs, s, trace).b).ret < 0
    ensures NoneFails(cs, s, trace + [k]) <==> NoneFails(cs, s, trace) && !EndsInFailure(cs, s, trace + [k])
  {
    assert (trace + [k])[..|trace|] == trace;
  }

  /** All states of a run that neither wraps nor fails meet the loop invariant. */
  lemma {:induction false} RunKeeps(cs: Constraints, flags: set<nat>, rmask: set<nat>, e: Box, trace: seq<nat>)
    requires Sound(cs) && ProperBox(e)
    requires var s := Started(cs, rmask, e);
             IsRun(cs, flags, s, trace) && AllClean(cs, s, trace) && NoneFails(cs, s, trace)
    ensures Running(cs, flags, Primed(cs, flags, rmask, e), e, After(cs, Started(cs, rmask, e), trace))
  {
    if trace == [] {
      EntryRuns(cs, flags, rmask, e);
    } else {
      var n := |trace| - 1;
      RunKeeps(cs, flags, rmask, e, trace[..n]);
      ExecutedRuns(cs, flags, Primed(cs, flags, rmask, e), e, After(cs, Started(cs, rmask, e), trace[..n]), trace[n]);
    }
  }

  // ---------------------------------------------------------------- runs that do not wrap

  /** As long as no step failed, the next rule of the run does not wrap: what ending, shrinking and the
      fixpoint rest on. It speaks of the one run that starts from `e`, and of no other boxes. */
  ghost predicate Settling(cs: Constraints, flags: set<nat>, rmask: set<nat>, e: Box)
    requires Sound(cs) && Shaped(e)
  {
    var s := Started(cs, rmask, e);
    forall trace :: Reached(cs, flags, s, trace) ==> AllClean(cs, s, trace)
  }

  /** The run gets that far: no step but perhaps the last one fails. */
  ghost predicate Reached(cs: Constraints, flags: set<nat>, s: Run, trace: seq<nat>)
    requires Sound(cs) && ShapedRun(cs, s)
  {
    IsRun(cs, flags, s, trace) && (trace == [] || NoneFails(cs, s, trace[..|trace| - 1]))
  }

  lemma ReachedBefore(cs: Constraints, flags: set<nat>, s: Run, trace: seq<nat>)
    requires Sound(cs) && ShapedRun(cs, s) && trace != [] && Reached(cs, flags, s, trace)
    ensures Reached(cs, flags, s, trace[..|trace| - 1]) && NoneFails(cs, s, trace[..|trace| - 1])
  {
  }

  /** First way to know it: some configuration solves the rules. */
  lemma SolvableSettles(cs: Constraints, flags: set<nat>, rmask: set<nat>, e: Box, c: Config)
    requires Sound(cs) && ProperBox(e) && In(c, e) && Solves(cs, flags, c)
    ensures Settling(cs, flags, rmask, e)
  {
    var s := Started(cs, rmask, e);
    forall trace | Reached(cs, flags, s, trace) ensures AllClean(cs, s, trace) {
      SolvableClean(cs, flags, rmask, e, c, trace);
    }
  }

  lemma {:induction false} SolvableClean(cs: Constraints, flags: set<nat>, rmask: set<nat>, e: Box, c: Config, trace: seq<nat>)
    requires Sound(cs) && ProperBox(e) && In(c, e) && Solves(cs, flags, c)
    requires Reached(cs, flags, Started(cs, rmask, e), trace)
    ensures AllClean(cs, Started(cs, rmask, e), trace)
  {
    if trace != [] {
      var n := |trace| - 1;
      ReachedBefore(cs, flags, Started(cs, rmask, e), trace);
      SolvableClean(cs, flags, rmask, e, c, trace[..n]);
      RunKeeps(cs, flags, rmask, e, trace[..n]);
      assert Active(cs, flags, cs.rules[trace[n]]);
      ApplyKeeps(cs.rules[trace[n]], After(cs, Started(cs, rmask, e), trace[..n]).b, c);
    }
  }

  /** Second way: positive lower ends and no saturating product on the starting box. */
  lemma TameSettles(cs: Constraints, flags: set<nat>, rmask: set<nat>, e: Box)
    requires Sound(cs) && ProperBox(e) && AllTame(cs, flags, e)
    ensures Settling(cs, flags, rmask, e)
  {
    var s := Started(cs, rmask, e);
    forall trace | Reached(cs, flags, s, trace) ensures AllClean(cs, s, trace) {
      TameClean(cs, flags, rmask, e, trace);
    }
  }

  lemma {:induction false} TameClean(cs: Constraints, flags: set<nat>, rmask: set<nat>, e: Box, trace: seq<nat>)
    requires Sound(cs) && ProperBox(e) && AllTame(cs, flags, e)
    requires Reached(cs, flags, Started(cs, rmask, e), trace)
    ensures AllClean(cs, Started(cs, rmask, e), trace)
  {
    if trace != [] {
      var n := |trace| - 1;
      ReachedBefore(cs, flags, Started(cs, rmask, e), trace);
      TameClean(cs, flags, rmask, e, trace[..n]);
      RunKeeps(cs, flags, rmask, e, trace[..n]);
      var r, b := cs.rules[trace[n]], After(cs, Started(cs, rmask, e), trace[..n]).b;
      assert Active(cs, flags, r);
      if !r.fn.FormatRule? {
        OutMonotone(r, b, e);
        OutMonotone(r, b, b);
      }
    }
  }

  /** The run stops here: its last rule failed, or no rule is due. */
  ghost predicate Finished(cs: Constraints, flags: set<nat>, s: Run, run: seq<nat>)
    requires Sound(cs) && ShapedRun(cs, s) && Indices(cs, run)
  {
    EndsInFailure(cs, s, run) || !AnyDue(cs, flags, After(cs, s, run))
  }

  ghost predicate AnyDue(cs: Constraints, flags: set<nat>, s: Run)
    requires Sound(cs) && ShapedRun(cs, s)
  {
    exists k :: Due(cs, flags, s, k)
  }

  /** Third way, which needs neither: carry the run out. If it ends, in a failure or because no rule is due, and
      no step of it wrapped, then none ever does. */
  lemma FinishedRunSettles(cs: Constraints, flags: set<nat>, rmask: set<nat>, e: Box, run: seq<nat>)
    requires Sound(cs) && Shaped(e)
    requires var s := Started(cs, rmask, e);
             IsRun(cs, flags, s, run) && AllClean(cs, s, run) && Finished(cs, flags, s, run)
    ensures Settling(cs, flags, rmask, e)
  {
    var s := Started(cs, rmask, e);
    forall trace | Reached(cs, flags, s, trace) ensures AllClean(cs, s, trace) {
      RunsAgree(cs, flags, s, run, trace);
      assert run[..|trace|] == trace;
      PrefixOfRun(cs, flags, s, run, |trace|);
    }
  }

  /** A request that the first rule refuses. */
  lemma RefusedAtOnceSettles(cs: Constraints, flags: set<nat>, rmask: set<nat>, e: Box)
    requires Sound(cs) && Shaped(e) && Due(cs, flags, Started(cs, rmask, e), 0)
    requires Clean(cs.rules[0], e) && Apply(cs.rules[0], e).ret < 0
    ensures Settling(cs, flags, rmask, e)
  {
    var s := Started(cs, rmask, e);
    RunExtended(cs, flags, s, [], 0);
    assert [] + [0] == [0];
    FinishedRunSettles(cs, flags, rmask, e, [0]);
  }

  lemma {:induction false} PrefixOfRun(cs: Constraints, flags: set<nat>, s: Run, run: seq<nat>, n: nat)
    requires Sound(cs) && ShapedRun(cs, s) && IsRun(cs, flags, s, run) && n <= |run|
    ensures IsRun(cs, flags, s, run[..n])
    ensures AllClean(cs, s, run) ==> AllClean(cs, s, run[..n])
    ensures n < |run| ==> var t := After(cs, s, run[..n]); Due(cs, flags, t, run[n]) && NoneDue(cs, flags, t, Place(run[..n]), run[n])
  {
    if n < |run| {
      var m := |run| - 1;
      if n < m {
        PrefixOfRun(cs, flags, s, run[..m], n);
        assert run[..m][..n] == run[..n];
      }
    } else {
      assert run[..n] == run;
    }
  }

  /** There is only one run: a run that has not failed yet is a prefix of the finished one. */
  lemma {:induction false} RunsAgree(cs: Constraints, flags: set<nat>, s: Run, run: seq<nat>, trace: seq<nat>)
    requires Sound(cs) && ShapedRun(cs, s) && IsRun(cs, flags, s, run)
    requires Finished(cs, flags, s, run)
    requires Reached(cs, flags, s, trace)
    ensures trace <= run
  {
    if trace != [] {
      var n := |trace| - 1;
      ReachedBefore(cs, flags, s, trace);
      RunsAgree(cs, flags, s, run, trace[..n]);
      FinishedRunEnds(cs, flags, s, run, trace);
      AgreeOneMore(cs, flags, s, run, trace);
    }
  }

  lemma AgreeOneMore(cs: Constraints, flags: set<nat>, s: Run, run: seq<nat>, trace: seq<nat>)
    requires Sound(cs) && ShapedRun(cs, s) && IsRun(cs, flags, s, run) && IsRun(cs, flags, s, trace)
    requires 0 < |trace| <= |run| && trace[..|trace| - 1] <= run
    ensures trace <= run
  {
    var n := |trace| - 1;
    PrefixOfRun(cs, flags, s, run, n);
    assert run[..n] == trace[..n];
    OneNext(cs, flags, After(cs, s, trace[..n]), Place(trace[..n]), trace[n], run[n]);
    PrefixGrows(trace, run);
  }

  lemma PrefixGrows(trace: seq<nat>, run: seq<nat>)
    requires 0 < |trace| <= |run| && trace[..|trace| - 1] <= run && trace[|trace| - 1] == run[|trace| - 1]
    ensures trace <= run
  {
    assert trace == trace[..|trace| - 1] + [trace[|trace| - 1]];
  }

  /** Nothing comes after a finished run. */
  lemma FinishedRunEnds(cs: Constraints, flags: set<nat>, s: Run, run: seq<nat>, trace: seq<nat>)
    requires Sound(cs) && ShapedRun(cs, s) && IsRun(cs, flags, s, run)
    requires Finished(cs, flags, s, run)
    requires trace != [] && Reached(cs, flags, s, trace)
    requires trace[..|trace| - 1] <= run
    ensures |trace| <= |run|
  {
    var n := |trace| - 1;
    if n == |run| {
      assert trace[..n] == run;
      LastWasDue(cs, flags, s, trace);
      NotFailed(cs, s, run);
    }
  }

  lemma LastWasDue(cs: Constraints, flags: set<nat>, s: Run, trace: seq<nat>)
    requires Sound(cs) && ShapedRun(cs, s) && trace != [] && IsRun(cs, flags, s, trace)
    ensures AnyDue(cs, flags, After(cs, s, trace[..|trace| - 1]))
  {
  }

  lemma NotFailed(cs: Constraints, s: Run, trace: seq<nat>)
    requires Sound(cs) && ShapedRun(cs, s) && Indices(cs, trace) && NoneFails(cs, s, trace)
    ensures !EndsInFailure(cs, s, trace)
  {
  }

  lemma OneNext(cs: Constraints, flags: set<nat>, s: Run, from: nat, k: nat, j: nat)
    requires Sound(cs) && ShapedRun(cs, s) && Due(cs, flags, s, k) && Due(cs, flags, s, j)
    requires NoneDue(cs, flags, s, from, k) && NoneDue(cs, flags, s, from, j)
    ensures k == j
  {
  }

  /** A rule that wraps can widen the box: an open lower end at `UINT_MAX` steps round to 0. */
  lemma WrapWidens()
    ensures exists r, b :: WellFormed(r) && ProperBox(b) && Apply(r, b).ret > 0 && !Sub(Apply(r, b).b, b)
  {
    var any := ANY.(min := 1, integer := true);
    var r := Rule({}, BUFFER_SIZE, MulRule, [PERIOD_SIZE, PERIODS]);
    var ps := Interval(65536, true, 100000, false, false, false);
    var pn := Interval(65536, false, 100000, false, true, false);
    var b := Box([{0}, {0}, {0}], [any, any, any, any, any, ps, any, pn, any, any, any, any]);
    assert At(b, PERIOD_SIZE) == ps && At(b, PERIODS) == pn && At(b, BUFFER_SIZE) == any;
    assert Out(r, b) == Mul(ps, pn);
    assert Mul(ps, pn).min == UINT_MAX && Mul(ps, pn).openmin;
    var c := Apply(r, b).b;
    assert c.ivls[9].min == 0;
    assert !Within(c.ivls[9], b.ivls[9]);
    assert ProperBox(b);
  }

  // ---------------------------------------------------------------- order independence

  /** The outcome a tame run has: the greatest closed box below `e`, or failure if there is none. */
  ghost predicate GreatestClosed(cs: Constraints, flags: set<nat>, e: Box, ret: int, b: Box)
    requires Sound(cs) && Shaped(e)
  {
    && (ret == 0 ==> ProperBox(b) && Sub(b, e) && Closed(cs, flags, b) && KeepsClosed(cs, flags, b, e))
    && (ret < 0 ==> forall x :: ProperBox(x) && Sub(x, e) ==> !Closed(cs, flags, x))
  }

  /** Two rule arrays with the same rules, in any order and multiplicity, end the same way. */
  lemma OrderIndependence(cs: Constraints, ds: Constraints, flags: set<nat>, e: Box, ret: int, b: Box, ret': int, b': Box)
    requires Sound(cs) && Sound(ds) && Shaped(e)
    requires forall r :: r in cs.rules <==> r in ds.rules
    requires GreatestClosed(cs, flags, e, ret, b) && ret <= 0
    requires GreatestClosed(ds, flags, e, ret', b') && ret' <= 0
    ensures ret == 0 <==> ret' == 0
    ensures ret == 0 ==> b == b'
  {
    assert forall r :: Active(cs, flags, r) <==> Active(ds, flags, r);
    if ret == 0 {
      assert Closed(ds, flags, b);
    }
    if ret' == 0 {
      assert Closed(cs, flags, b');
    }
    if ret == 0 && ret' == 0 {
      SubAntisymmetric(b, b');
    }
  }
}
