/**
 The hardware parameter box, the rules that narrow it, and what one rule application does:
 it keeps every configuration that satisfies the rule, only shrinks the box, and is idempotent.
 */
module HwRules {
  import opened Words
  import opened Intervals
  import opened IntervalArithmetic

  // ---------------------------------------------------------------- the box

  // Parameter numbers. There are three masks, for access, format and subformat, and twelve intervals; no rule
  // names the first and the third mask, nor the last interval, the tick time.
  const FORMAT: nat := 1
  const SAMPLE_BITS: nat := 8
  const FRAME_BITS: nat := 9
  const CHANNELS: nat := 10
  const RATE: nat := 11
  const PERIOD_TIME: nat := 12
  const PERIOD_SIZE: nat := 13
  const PERIOD_BYTES: nat := 14
  const PERIODS: nat := 15
  const BUFFER_TIME: nat := 16
  const BUFFER_SIZE: nat := 17
  const BUFFER_BYTES: nat := 18

  const MASKS: nat := 3
  const FIRST_INTERVAL: nat := 8
  const INTERVALS: nat := 12
  const PARAMS: nat := 20

  predicate IsMask(v: nat) { v < MASKS }

  predicate IsInterval(v: nat) { FIRST_INTERVAL <= v < PARAMS }

  /** A mask is its set of allowed alternatives. */
  datatype Box = Box(masks: seq<set<nat>>, ivls: seq<Interval>)

  predicate Shaped(b: Box) {
    |b.masks| == MASKS && |b.ivls| == INTERVALS
  }

  function At(b: Box, v: nat): Interval
    requires Shaped(b) && IsInterval(v)
  {
    b.ivls[v - FIRST_INTERVAL]
  }

  predicate ProperBox(b: Box) {
    && Shaped(b)
    && (forall k :: 0 <= k < MASKS ==> b.masks[k] != {})
    && (forall k :: 0 <= k < INTERVALS ==> Proper(b.ivls[k]))
  }

  predicate Sub(b: Box, c: Box)
    requires Shaped(b) && Shaped(c)
  {
    && (forall k :: 0 <= k < MASKS ==> b.masks[k] <= c.masks[k])
    && (forall k :: 0 <= k < INTERVALS ==> Within(b.ivls[k], c.ivls[k]))
  }

  lemma SubTransitive(a: Box, b: Box, c: Box)
    requires Shaped(a) && Shaped(b) && Shaped(c) && Sub(a, b) && Sub(b, c)
    ensures Sub(a, c)
  {
    forall k | 0 <= k < INTERVALS ensures Within(a.ivls[k], c.ivls[k]) {
      WithinTransitive(a.ivls[k], b.ivls[k], c.ivls[k]);
    }
  }

  lemma SubAntisymmetric(a: Box, b: Box)
    requires ProperBox(a) && ProperBox(b) && Sub(a, b) && Sub(b, a)
    ensures a == b
  {
    forall k | 0 <= k < MASKS ensures a.masks[k] == b.masks[k] {
      assert a.masks[k] <= b.masks[k] && b.masks[k] <= a.masks[k];
    }
    forall k | 0 <= k < INTERVALS ensures a.ivls[k] == b.ivls[k] {
      WithinAntisymmetric(a.ivls[k], b.ivls[k]);
    }
    assert a.masks == b.masks && a.ivls == b.ivls;
  }

  // ---------------------------------------------------------------- formats

  const FORMAT_LAST: nat := 43

  /** Physical sample width of a PCM format; 0 for formats without one. */
  function PhysWidth(f: nat): Uint {
    if f <= 1 then 8
    else if f <= 5 then 16
    else if f <= 15 then 32
    else if f <= 17 then 64
    else if f <= 19 then 32
    else if f <= 21 then 8
    else if f == 22 then 4
    else if f <= 31 then 0
    else if f <= FORMAT_LAST then 24
    else 0
  }

  /** Widths of the valid formats below `n` in the mask, in order. */
  function Widths(formats: set<nat>, n: nat): seq<Uint> {
    if n == 0 then []
    else Widths(formats, n - 1) + if n - 1 in formats && PhysWidth(n - 1) > 0 then [PhysWidth(n - 1)] else []
  }

  lemma {:induction false} WidthsMembers(formats: set<nat>, n: nat, v: Uint)
    ensures v in Widths(formats, n) <==> exists k :: 0 <= k < n && k in formats && PhysWidth(k) == v && v > 0
  {
    if n > 0 {
      WidthsMembers(formats, n - 1, v);
    }
  }

  // ---------------------------------------------------------------- value lists

  /** Bit `k` of a selection mask; an all-zero mask selects everything. */
  predicate Selected(mask: set<nat>, k: nat) {
    mask == {} || k in mask
  }

  /** The selected list entries below `n` that lie in the interval. */
  function Chosen(list: seq<Uint>, mask: set<nat>, i: Interval, n: nat): seq<Uint>
    requires n <= |list|
  {
    if n == 0 then []
    else Chosen(list, mask, i, n - 1) + if Selected(mask, n - 1) && Test(i, list[n - 1]) then [list[n - 1]] else []
  }

  lemma {:induction false} ChosenMembers(list: seq<Uint>, mask: set<nat>, i: Interval, n: nat, v: Uint)
    requires n <= |list|
    ensures v in Chosen(list, mask, i, n) <==> exists k :: 0 <= k < n && Selected(mask, k) && list[k] == v && Test(i, v)
  {
    if n > 0 {
      ChosenMembers(list, mask, i, n - 1, v);
    }
  }

  function Lowest(s: seq<Uint>): Uint {
    if s == [] then UINT_MAX
    else var m := Lowest(s[..|s| - 1]); if s[|s| - 1] < m then s[|s| - 1] else m
  }

  function Highest(s: seq<Uint>): Uint {
    if s == [] then 0
    else var m := Highest(s[..|s| - 1]); if s[|s| - 1] > m then s[|s| - 1] else m
  }

  /** The smallest closed interval around a list; the inverted interval for an empty one. */
  function Hull(s: seq<Uint>, integer: bool): Interval {
    Interval(Lowest(s), false, Highest(s), false, integer, false)
  }

  lemma {:induction false} HullBounds(s: seq<Uint>)
    ensures forall v :: v in s ==> Lowest(s) <= v <= Highest(s)
    ensures s != [] ==> Lowest(s) in s && Highest(s) in s
  {
    if s != [] {
      var t := s[..|s| - 1];
      HullBounds(t);
      assert s == t + [s[|s| - 1]];
    }
  }

  lemma HullGrows(s: seq<Uint>, v: Uint)
    ensures Lowest(s + [v]) == if v < Lowest(s) then v else Lowest(s)
    ensures Highest(s + [v]) == if v > Highest(s) then v else Highest(s)
  {
    assert (s + [v])[..|s|] == s;
  }

  lemma HullMonotone(s: seq<Uint>, t: seq<Uint>)
    requires forall v :: v in s ==> v in t
    ensures Lowest(s) >= Lowest(t) && Highest(s) <= Highest(t)
  {
    HullBounds(s);
    HullBounds(t);
  }

  lemma HullAdmits(s: seq<Uint>, v: Uint, integer: bool)
    requires v in s
    ensures Admits(Hull(s, integer), v as real)
  {
    HullBounds(s);
  }

  // ---------------------------------------------------------------- rules

  datatype RuleFn =
    | MulRule
    | DivRule
    | MulDivKRule(k: Uint)
    | MulKDivRule(k: Uint)
    | FormatRule
    | SampleBitsRule
    | ListRule(list: seq<Uint>, mask: set<nat>)
    | BytesMaxRule(max: Uint)

  /** `cond` is a set of flag bits: the rule runs if it is empty or meets the flags of the request. */
  datatype Rule = Rule(cond: set<nat>, target: nat, fn: RuleFn, deps: seq<nat>)

  predicate Enabled(r: Rule, flags: set<nat>) {
    r.cond == {} || r.cond * flags != {}
  }

  lemma EnabledMeans(r: Rule, flags: set<nat>)
    ensures Enabled(r, flags) <==> (r.cond != {} ==> exists f :: f in r.cond && f in flags)
  {
    if f :| f in r.cond && f in flags {
      assert f in r.cond * flags;
    }
  }

  predicate IsArithmetic(fn: RuleFn) {
    fn.MulRule? || fn.DivRule? || fn.MulDivKRule? || fn.MulKDivRule?
  }

  /** The interval an arithmetic rule computes from its two operands. */
  function Combine(fn: RuleFn, a: Interval, b: Interval): Interval
    requires IsArithmetic(fn)
  {
    match fn
    case MulRule => Mul(a, b)
    case DivRule => Div(a, b)
    case MulDivKRule(k) => MulDivK(a, b, k)
    case MulKDivRule(k) => MulKDiv(a, k, b)
  }

  /** The equation an arithmetic rule stands for. */
  ghost predicate Related(fn: RuleFn, x: real, y: real, z: real)
    requires IsArithmetic(fn)
  {
    match fn
    case MulRule => z == x * y
    case DivRule => z * y == x
    case MulDivKRule(k) => z * k as real == x * y
    case MulKDivRule(k) => z * y == x * k as real
  }

  /** What the registration of a rule promises: its inputs are among its dependencies, and an
      arithmetic rule does not read the variable it narrows. */
  predicate WellFormed(r: Rule) {
    && r.deps != []
    && (forall d :: d in r.deps ==> IsMask(d) || IsInterval(d))
    && match r.fn
       case MulRule | DivRule | MulDivKRule(_) | MulKDivRule(_) =>
         && |r.deps| == 2 && IsInterval(r.deps[0]) && IsInterval(r.deps[1])
         && IsInterval(r.target) && r.target !in r.deps
         && (r.fn.MulDivKRule? ==> r.fn.k > 0) && (r.fn.MulKDivRule? ==> r.fn.k > 0)
       case FormatRule => r.target == FORMAT && IsInterval(r.deps[0])
       case SampleBitsRule => IsInterval(r.target) && FORMAT in r.deps
       case ListRule(_, _) => IsInterval(r.target) && r.target in r.deps
       case BytesMaxRule(_) => IsInterval(r.target)
  }

  /** The interval a rule narrows its target by. */
  function Out(r: Rule, b: Box): Interval
    requires WellFormed(r) && !r.fn.FormatRule? && Shaped(b)
  {
    match r.fn
    case MulRule | DivRule | MulDivKRule(_) | MulKDivRule(_) =>
      Combine(r.fn, At(b, r.deps[0]), At(b, r.deps[1]))
    case SampleBitsRule => Hull(Widths(b.masks[FORMAT], FORMAT_LAST + 1), true)
    case ListRule(list, mask) => Hull(Chosen(list, mask, At(b, r.target), |list|), false)
    case BytesMaxRule(max) => Interval(0, false, max, false, true, false)
  }

  /** The formats the format rule keeps: those without a width, and those whose width is between the ends. */
  function Keep(formats: set<nat>, i: Interval): set<nat> {
    set f | f in formats && (PhysWidth(f) == 0 || i.min <= PhysWidth(f) <= i.max)
  }

  datatype Outcome = Outcome(b: Box, ret: int)

  function Apply(r: Rule, b: Box): Outcome
    requires WellFormed(r) && Shaped(b)
  {
    if r.fn.FormatRule? then
      var kept := Keep(b.masks[FORMAT], At(b, r.deps[0]));
      Outcome(b.(masks := b.masks[FORMAT := kept]),
              if kept == {} then INVAL else if kept == b.masks[FORMAT] then 0 else 1)
    else if r.fn.ListRule? && r.fn.list == [] then
      Outcome(b.(ivls := b.ivls[r.target - FIRST_INTERVAL := At(b, r.target).(empty := true)]), INVAL)
    else
      var n := Refined(At(b, r.target), Out(r, b));
      Outcome(b.(ivls := b.ivls[r.target - FIRST_INTERVAL := n.i]), n.ret)
  }

  predicate NoOp(r: Rule, b: Box)
    requires WellFormed(r) && Shaped(b)
  {
    Apply(r, b) == Outcome(b, 0)
  }

  /** Narrowing the target by the rule's output does not step across the end of the word. */
  predicate Clean(r: Rule, b: Box)
    requires WellFormed(r) && Shaped(b)
  {
    r.fn.FormatRule? || !Wraps(At(b, r.target), Out(r, b))
  }

  // ---------------------------------------------------------------- one application

  /** A rule leaves the box alone exactly when its target already lies within its output. */
  lemma NoOpIff(r: Rule, b: Box)
    requires WellFormed(r) && ProperBox(b)
    ensures !r.fn.FormatRule? ==> (NoOp(r, b) <==> Within(At(b, r.target), Out(r, b)))
    ensures r.fn.FormatRule? ==> (NoOp(r, b) <==> Keep(b.masks[FORMAT], At(b, r.deps[0])) == b.masks[FORMAT])
    ensures Apply(r, b).ret == 0 ==> NoOp(r, b)
  {
    if r.fn.FormatRule? {
      var kept := Keep(b.masks[FORMAT], At(b, r.deps[0]));
      assert b.masks[FORMAT := b.masks[FORMAT]] == b.masks;
      assert kept != b.masks[FORMAT] ==> Apply(r, b).ret != 0;
    } else {
      var i := At(b, r.target);
      RefineUnchanged(i, Out(r, b));
      assert b.ivls[r.target - FIRST_INTERVAL := i] == b.ivls;
    }
  }

  /** Every value of the target is near one that the rule can explain: the ends of an arithmetic target are those of the
      true result, to the next integer; each format has a width in range, the ends of the sample bits are widths of
      formats, the ends of a listed value are selected list entries, and a byte count is whole and small enough. */
  ghost predicate Supported(r: Rule, b: Box)
    requires WellFormed(r) && Shaped(b)
  {
    match r.fn
    case MulRule | DivRule | MulDivKRule(_) | MulKDivRule(_) =>
      EndsInPlace(r.fn, At(b, r.target), At(b, r.deps[0]), At(b, r.deps[1]))
    case FormatRule =>
      forall f :: f in b.masks[FORMAT] && PhysWidth(f) > 0 ==>
        At(b, r.deps[0]).min <= PhysWidth(f) <= At(b, r.deps[0]).max
    case SampleBitsRule =>
      var t := At(b, r.target);
      && t.integer
      && (exists f :: IsFormat(f, b) && PhysWidth(f) <= t.min)
      && (exists f :: IsFormat(f, b) && t.max <= PhysWidth(f))
    case ListRule(list, mask) =>
      var t := At(b, r.target);
      !t.openmin && !t.openmax && IsListed(list, mask, t.min) && IsListed(list, mask, t.max)
    case BytesMaxRule(max) => At(b, r.target).integer && At(b, r.target).max <= max
  }

  predicate IsFormat(f: nat, b: Box)
    requires Shaped(b)
  {
    f <= 43 && f in b.masks[FORMAT] && PhysWidth(f) > 0
  }

  ghost predicate IsListed(list: seq<Uint>, mask: set<nat>, v: Uint) {
    exists k :: 0 <= k < |list| && (mask == {} || k in mask) && list[k] == v
  }

  ghost predicate EndsInPlace(fn: RuleFn, t: Interval, x: Interval, y: Interval)
    requires IsArithmetic(fn)
  {
    match fn
    case MulRule =>
      && NotBelow(t, x.min * y.min, 1, x.openmin || y.openmin)
      && NotAbove(t, x.max * y.max, 1, x.openmax || y.openmax)
      && (x.integer && y.integer ==> t.integer)
    case DivRule =>
      && NotBelow(t, x.min, y.max, x.openmin || y.openmax)
      && (y.min > 0 ==> NotAbove(t, x.max, y.min, x.openmax || y.openmin))
    case MulDivKRule(k) =>
      && NotBelow(t, x.min * y.min, k, x.openmin || y.openmin)
      && NotAbove(t, x.max * y.max, k, x.openmax || y.openmax)
    case MulKDivRule(k) =>
      && NotBelow(t, x.min * k, y.max, x.openmin || y.openmax)
      && (y.min > 0 ==> NotAbove(t, x.max * k, y.min, x.openmax || y.openmin))
  }

  lemma WithinCombineIff(fn: RuleFn, t: Interval, x: Interval, y: Interval)
    requires IsArithmetic(fn) && !x.empty && !y.empty
    ensures Within(t, Combine(fn, x, y)) <==> EndsInPlace(fn, t, x, y)
  {
    match fn
    case MulRule =>
      MulIsMulDivK(x, y);
      WithinProductIff(t, x, y, 1);
    case DivRule =>
      DivIsMulKDiv(x, y);
      WithinQuotientIff(t, x, 1, y);
    case MulDivKRule(k) => WithinProductIff(t, x, y, k);
    case MulKDivRule(k) => WithinQuotientIff(t, x, k, y);
  }

  /** A rule has nothing to do exactly when its target is supported. */
  lemma NoOpMeans(r: Rule, b: Box)
    requires WellFormed(r) && ProperBox(b)
    ensures NoOp(r, b) <==> Supported(r, b)
  {
    NoOpIff(r, b);
    match r.fn
    case MulRule | DivRule | MulDivKRule(_) | MulKDivRule(_) =>
      WithinCombineIff(r.fn, At(b, r.target), At(b, r.deps[0]), At(b, r.deps[1]));
    case FormatRule =>
      assert Keep(b.masks[FORMAT], At(b, r.deps[0])) == b.masks[FORMAT] <==>
             forall f :: f in b.masks[FORMAT] ==> f in Keep(b.masks[FORMAT], At(b, r.deps[0]));
    case SampleBitsRule => WidthSupport(At(b, r.target), b);
    case ListRule(list, mask) => ListSupport(At(b, r.target), list, mask);
    case BytesMaxRule(max) =>
  }

  lemma WidthSupport(t: Interval, b: Box)
    requires Shaped(b) && Proper(t)
    ensures Within(t, Hull(Widths(b.masks[FORMAT], FORMAT_LAST + 1), true)) <==>
            && t.integer
            && (exists f :: IsFormat(f, b) && PhysWidth(f) <= t.min)
            && (exists f :: IsFormat(f, b) && t.max <= PhysWidth(f))
  {
    var s := Widths(b.masks[FORMAT], FORMAT_LAST + 1);
    HullBounds(s);
    forall v: Uint ensures v in s <==> exists f :: IsFormat(f, b) && PhysWidth(f) == v {
      WidthsMembers(b.masks[FORMAT], FORMAT_LAST + 1, v);
    }
    forall f | IsFormat(f, b) ensures PhysWidth(f) in s {}
    if s != [] {
      var f :| IsFormat(f, b) && PhysWidth(f) == Lowest(s);
      var f' :| IsFormat(f', b) && PhysWidth(f') == Highest(s);
    }
  }

  lemma ListSupport(t: Interval, list: seq<Uint>, mask: set<nat>)
    requires Proper(t)
    ensures Within(t, Hull(Chosen(list, mask, t, |list|), false)) <==>
            !t.openmin && !t.openmax && IsListed(list, mask, t.min) && IsListed(list, mask, t.max)
  {
    var s := Chosen(list, mask, t, |list|);
    HullBounds(s);
    forall v: Uint ensures v in s <==> IsListed(list, mask, v) && Test(t, v) {
      ChosenMembers(list, mask, t, |list|, v);
    }
  }

  lemma ApplyShrinks(r: Rule, b: Box)
    requires WellFormed(r) && ProperBox(b) && Clean(r, b) && Apply(r, b).ret >= 0
    ensures ProperBox(Apply(r, b).b) && Sub(Apply(r, b).b, b)
  {
    if !r.fn.FormatRule? {
      RefineBelow(At(b, r.target), Out(r, b));
    }
  }

  /** Running a rule twice in a row is running it once, also for rules that read their own target. */
  lemma ApplyIdempotent(r: Rule, b: Box)
    requires WellFormed(r) && ProperBox(b) && Clean(r, b) && Apply(r, b).ret >= 0
    ensures NoOp(r, Apply(r, b).b)
  {
    var c := Apply(r, b).b;
    ApplyShrinks(r, b);
    NoOpIff(r, c);
    if !r.fn.FormatRule? {
      RefineBelow(At(b, r.target), Out(r, b));
      if r.fn.ListRule? {
        ListIdempotent(r, b);
      }
    }
  }

  lemma ListIdempotent(r: Rule, b: Box)
    requires WellFormed(r) && r.fn.ListRule? && ProperBox(b) && Apply(r, b).ret >= 0
    ensures var c := Apply(r, b).b; Shaped(c) && Within(Out(r, b), Out(r, c)) && Within(Out(r, c), Out(r, b))
  {
    var c := Apply(r, b).b;
    var list, mask := r.fn.list, r.fn.mask;
    var i, j := At(b, r.target), At(c, r.target);
    var s, t := Chosen(list, mask, i, |list|), Chosen(list, mask, j, |list|);
    HullBounds(s);
    forall v: Uint ensures v in s <==> v in t {
      ChosenMembers(list, mask, i, |list|, v);
      ChosenMembers(list, mask, j, |list|, v);
      RefineTest(i, Out(r, b), v);
    }
    HullMonotone(s, t);
    HullMonotone(t, s);
  }

  /** A rule that had nothing to do still has nothing to do after variables outside its
      dependencies shrank. */
  lemma NoOpSurvives(r: Rule, b: Box, c: Box)
    requires WellFormed(r) && ProperBox(b) && ProperBox(c) && Sub(c, b) && NoOp(r, b)
    requires forall d :: d in r.deps ==> (IsMask(d) ==> c.masks[d] == b.masks[d]) && (IsInterval(d) ==> At(c, d) == At(b, d))
    ensures NoOp(r, c)
  {
    NoOpIff(r, b);
    NoOpIff(r, c);
    if r.fn.FormatRule? {
      assert At(c, r.deps[0]) == At(b, r.deps[0]);
    } else {
      SameOut(r, b, c);
      WithinTransitive(At(c, r.target), At(b, r.target), Out(r, c));
    }
  }

  /** A rule touches its target only. */
  lemma ApplyFrame(r: Rule, deps: seq<nat>, b: Box)
    requires WellFormed(r) && Shaped(b) && r.target !in deps
    ensures var c := Apply(r, b).b;
            forall d :: d in deps ==> (IsMask(d) ==> c.masks[d] == b.masks[d]) && (IsInterval(d) ==> At(c, d) == At(b, d))
  {
  }

  lemma SameOut(r: Rule, b: Box, c: Box)
    requires WellFormed(r) && !r.fn.FormatRule? && Shaped(b) && Shaped(c)
    requires forall d :: d in r.deps ==> (IsMask(d) ==> c.masks[d] == b.masks[d]) && (IsInterval(d) ==> At(c, d) == At(b, d))
    ensures Out(r, b) == Out(r, c)
  {
    assert r.deps[0] in r.deps;
    if |r.deps| == 2 { assert r.deps[1] in r.deps; }
  }

  // ---------------------------------------------------------------- configurations

  /** One choice per mask and one rational per interval. */
  datatype Config = Config(choice: seq<nat>, value: seq<real>)

  ghost predicate ShapedConfig(s: Config) {
    |s.choice| == MASKS && |s.value| == INTERVALS
  }

  ghost function Value(s: Config, v: nat): real
    requires ShapedConfig(s) && IsInterval(v)
  {
    s.value[v - FIRST_INTERVAL]
  }

  ghost predicate In(s: Config, b: Box)
    requires Shaped(b)
  {
    && ShapedConfig(s)
    && (forall k :: 0 <= k < MASKS ==> s.choice[k] in b.masks[k])
    && (forall k :: 0 <= k < INTERVALS ==> Admits(b.ivls[k], s.value[k]))
  }

  ghost predicate NoneEmpty(b: Box)
    requires Shaped(b)
  {
    forall k :: 0 <= k < INTERVALS ==> !b.ivls[k].empty
  }

  /** The defining relation behind a rule. */
  ghost predicate Satisfies(r: Rule, s: Config)
    requires WellFormed(r) && ShapedConfig(s)
  {
    match r.fn
    case MulRule | DivRule | MulDivKRule(_) | MulKDivRule(_) =>
      Related(r.fn, Value(s, r.deps[0]), Value(s, r.deps[1]), Value(s, r.target))
    case FormatRule => PhysWidth(s.choice[FORMAT]) as real == Value(s, r.deps[0])
    case SampleBitsRule => PhysWidth(s.choice[FORMAT]) as real == Value(s, r.target)
    case ListRule(list, mask) => exists k :: 0 <= k < |list| && Selected(mask, k) && list[k] as real == Value(s, r.target)
    case BytesMaxRule(max) => Value(s, r.target) <= max as real && IsWhole(Value(s, r.target))
  }

  ghost predicate IsWhole(x: real) {
    x == x.Floor as real
  }

  /** All values strictly between 0 and `UINT_MAX`: the range in which interval arithmetic encloses. */
  ghost predicate InRange(s: Config)
    requires ShapedConfig(s)
  {
    forall k :: 0 <= k < INTERVALS ==> 0.0 < s.value[k] < UINT_MAX as real
  }

  /** The output of a rule admits the target value of every configuration that satisfies the rule. */
  lemma OutAdmits(r: Rule, b: Box, s: Config)
    requires WellFormed(r) && !r.fn.FormatRule? && Shaped(b) && NoneEmpty(b)
    requires In(s, b) && InRange(s) && Satisfies(r, s)
    ensures Admits(Out(r, b), Value(s, r.target))
  {
    match r.fn
    case MulRule | DivRule | MulDivKRule(_) | MulKDivRule(_) =>
      CombineAdmits(r.fn, At(b, r.deps[0]), At(b, r.deps[1]), Value(s, r.deps[0]), Value(s, r.deps[1]), Value(s, r.target));
    case SampleBitsRule =>
      var w := PhysWidth(s.choice[FORMAT]);
      WidthsMembers(b.masks[FORMAT], FORMAT_LAST + 1, w);
      HullAdmits(Widths(b.masks[FORMAT], FORMAT_LAST + 1), w, true);
    case ListRule(list, mask) =>
      var k :| 0 <= k < |list| && Selected(mask, k) && list[k] as real == Value(s, r.target);
      ChosenMembers(list, mask, At(b, r.target), |list|, list[k]);
      HullAdmits(Chosen(list, mask, At(b, r.target), |list|), list[k], false);
    case BytesMaxRule(max) =>
  }

  lemma CombineAdmits(fn: RuleFn, i: Interval, j: Interval, x: real, y: real, z: real)
    requires IsArithmetic(fn) && (fn.MulDivKRule? || fn.MulKDivRule? ==> fn.k > 0)
    requires !i.empty && !j.empty && Admits(i, x) && Admits(j, y) && x > 0.0 && y > 0.0
    requires 0.0 < z < UINT_MAX as real && Related(fn, x, y, z)
    ensures Admits(Combine(fn, i, j), z)
  {
    match fn
    case MulRule => MulEncloses(i, j, x, y, z);
    case DivRule => DivEncloses(i, j, x, y, z);
    case MulDivKRule(k) => MulDivKEncloses(i, j, k, x, y, z);
    case MulKDivRule(k) => MulKDivEncloses(i, k, j, x, y, z);
  }

  lemma ApplyKeeps(r: Rule, b: Box, s: Config)
    requires WellFormed(r) && Shaped(b) && NoneEmpty(b)
    requires In(s, b) && InRange(s) && Satisfies(r, s)
    ensures Clean(r, b) && Apply(r, b).ret >= 0 && In(s, Apply(r, b).b)
  {
    if r.fn.FormatRule? {
      assert s.choice[FORMAT] in Keep(b.masks[FORMAT], At(b, r.deps[0]));
    } else {
      OutAdmits(r, b, s);
      RefineKeeps(At(b, r.target), Out(r, b), Value(s, r.target));
    }
  }

  // ---------------------------------------------------------------- progress

  function SumWeights(s: seq<Interval>): int {
    if s == [] then 0 else Weight(s[0]) + SumWeights(s[1..])
  }

  lemma {:induction false} SumWeightsUpdate(s: seq<Interval>, k: nat, i: Interval)
    requires k < |s|
    ensures SumWeights(s[k := i]) == SumWeights(s) - Weight(s[k]) + Weight(i)
  {
    if k > 0 {
      SumWeightsUpdate(s[1..], k - 1, i);
      assert s[k := i][1..] == s[1..][k - 1 := i];
    } else {
      assert s[k := i][1..] == s[1..];
    }
  }

  lemma {:induction false} SumWeightsNonNegative(s: seq<Interval>)
    requires forall k :: 0 <= k < |s| ==> Proper(s[k])
    ensures SumWeights(s) >= 0
  {
    if s != [] {
      ProperWeight(s[0]);
      SumWeightsNonNegative(s[1..]);
    }
  }

  /** How much a box can still lose. */
  function BoxWeight(b: Box): int
    requires Shaped(b)
  {
    |b.masks[FORMAT]| + SumWeights(b.ivls)
  }

  lemma ApplyDrops(r: Rule, b: Box)
    requires WellFormed(r) && ProperBox(b) && Clean(r, b) && Apply(r, b).ret > 0
    ensures BoxWeight(Apply(r, b).b) < BoxWeight(b)
  {
    if r.fn.FormatRule? {
      var kept := Keep(b.masks[FORMAT], At(b, r.deps[0]));
      assert kept < b.masks[FORMAT];
      SmallerSet(kept, b.masks[FORMAT]);
    } else {
      RefineDrops(At(b, r.target), Out(r, b));
      SumWeightsUpdate(b.ivls, r.target - FIRST_INTERVAL, Apply(r, b).b.ivls[r.target - FIRST_INTERVAL]);
    }
  }

  lemma SmallerSet(a: set<nat>, b: set<nat>)
    requires a < b
    ensures |a| < |b|
  {
    assert b == a + (b - a);
    assert |b| == |a| + |b - a|;
  }

  // ---------------------------------------------------------------- monotone rules

  /** The arithmetic rule sees positive operands and does not saturate on this box. */
  predicate Tame(r: Rule, b: Box)
    requires WellFormed(r) && Shaped(b)
  {
    IsArithmetic(r.fn) ==> TameOperands(r.fn, At(b, r.deps[0]), At(b, r.deps[1]))
  }

  predicate TameOperands(fn: RuleFn, a: Interval, b: Interval)
    requires IsArithmetic(fn)
  {
    match fn
    case MulRule => MulDivKFits(a, b, 1)
    case DivRule => MulKDivFits(a, 1, b)
    case MulDivKRule(k) => MulDivKFits(a, b, k)
    case MulKDivRule(k) => MulKDivFits(a, k, b)
  }

  lemma CombineMonotone(fn: RuleFn, a: Interval, b: Interval, c: Interval, d: Interval)
    requires IsArithmetic(fn) && TameOperands(fn, c, d)
    requires Proper(a) && Proper(b) && Within(a, c) && Within(b, d)
    ensures TameOperands(fn, a, b) && Within(Combine(fn, a, b), Combine(fn, c, d)) && WellEnded(Combine(fn, c, d))
  {
    match fn
    case MulRule =>
      MulIsMulDivK(a, b);
      MulIsMulDivK(c, d);
      MulDivKMonotone(a, b, c, d, 1);
    case DivRule =>
      DivIsMulKDiv(a, b);
      DivIsMulKDiv(c, d);
      MulKDivMonotone(a, b, c, d, 1);
    case MulDivKRule(k) => MulDivKMonotone(a, b, c, d, k);
    case MulKDivRule(k) => MulKDivMonotone(a, b, c, d, k);
  }

  lemma OutMonotone(r: Rule, b: Box, c: Box)
    requires WellFormed(r) && !r.fn.FormatRule? && ProperBox(b) && ProperBox(c) && Sub(b, c) && Tame(r, c)
    ensures Tame(r, b) && Within(Out(r, b), Out(r, c)) && WellEnded(Out(r, c))
  {
    match r.fn
    case MulRule | DivRule | MulDivKRule(_) | MulKDivRule(_) =>
      CombineMonotone(r.fn, At(b, r.deps[0]), At(b, r.deps[1]), At(c, r.deps[0]), At(c, r.deps[1]));
    case SampleBitsRule =>
      var s, t := Widths(b.masks[FORMAT], FORMAT_LAST + 1), Widths(c.masks[FORMAT], FORMAT_LAST + 1);
      forall v | v in s ensures v in t {
        WidthsMembers(b.masks[FORMAT], FORMAT_LAST + 1, v);
        WidthsMembers(c.masks[FORMAT], FORMAT_LAST + 1, v);
      }
      HullMonotone(s, t);
    case ListRule(list, mask) =>
      var i, j := At(b, r.target), At(c, r.target);
      var s, t := Chosen(list, mask, i, |list|), Chosen(list, mask, j, |list|);
      assert forall v: Uint :: Test(i, v) ==> Test(j, v);
      forall v | v in s ensures v in t {
        ChosenMembers(list, mask, i, |list|, v);
        ChosenMembers(list, mask, j, |list|, v);
      }
      HullMonotone(s, t);
    case BytesMaxRule(max) =>
  }

  /** A box on which the rule has nothing to do, inside `b`, is still inside after the rule ran on `b`. */
  lemma ClosedStaysInside(r: Rule, x: Box, b: Box)
    requires WellFormed(r) && ProperBox(x) && ProperBox(b) && Sub(x, b) && NoOp(r, x) && Tame(r, b)
    ensures Apply(r, b).ret >= 0 && Sub(x, Apply(r, b).b)
  {
    NoOpIff(r, x);
    if r.fn.FormatRule? {
      assert x.masks[FORMAT] <= Keep(b.masks[FORMAT], At(b, r.deps[0]));
    } else {
      OutMonotone(r, x, b);
      WithinTransitive(At(x, r.target), Out(r, x), Out(r, b));
      RefineGreatest(At(b, r.target), Out(r, b), At(x, r.target));
      if r.fn.ListRule? && r.fn.list == [] {
        assert false;
      }
    }
  }
}
