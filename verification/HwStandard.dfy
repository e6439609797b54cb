/**
 The rules every PCM stream starts with, and what they mean together: seven equations between
 sizes, times and rates, and a format of the right width.
 */
module HwStandard {
  import opened Words
  import opened Intervals
  import opened IntervalArithmetic
  import opened HwRules
  import opened HwTheory
  import HwRefine

  const MICROSECONDS: Uint := 1000000

  // The rule table of `snd_pcm_hw_constraints_init`, in registration order, in four parts.

  const SAMPLE_RULES: seq<Rule> := [
    Rule({}, FORMAT, FormatRule, [SAMPLE_BITS]),
    Rule({}, SAMPLE_BITS, SampleBitsRule, [FORMAT, SAMPLE_BITS]),
    Rule({}, SAMPLE_BITS, DivRule, [FRAME_BITS, CHANNELS]),
    Rule({}, FRAME_BITS, MulRule, [SAMPLE_BITS, CHANNELS]),
    Rule({}, FRAME_BITS, MulKDivRule(8), [PERIOD_BYTES, PERIOD_SIZE])
  ]

  const RATE_RULES: seq<Rule> := [
    Rule({}, FRAME_BITS, MulKDivRule(8), [BUFFER_BYTES, BUFFER_SIZE]),
    Rule({}, CHANNELS, DivRule, [FRAME_BITS, SAMPLE_BITS]),
    Rule({}, RATE, MulKDivRule(MICROSECONDS), [PERIOD_SIZE, PERIOD_TIME]),
    Rule({}, RATE, MulKDivRule(MICROSECONDS), [BUFFER_SIZE, BUFFER_TIME]),
    Rule({}, PERIODS, DivRule, [BUFFER_SIZE, PERIOD_SIZE])
  ]

  const SIZE_RULES: seq<Rule> := [
    Rule({}, PERIOD_SIZE, DivRule, [BUFFER_SIZE, PERIODS]),
    Rule({}, PERIOD_SIZE, MulKDivRule(8), [PERIOD_BYTES, FRAME_BITS]),
    Rule({}, PERIOD_SIZE, MulDivKRule(MICROSECONDS), [PERIOD_TIME, RATE]),
    Rule({}, BUFFER_SIZE, MulRule, [PERIOD_SIZE, PERIODS]),
    Rule({}, BUFFER_SIZE, MulKDivRule(8), [BUFFER_BYTES, FRAME_BITS])
  ]

  const BYTE_RULES: seq<Rule> := [
    Rule({}, BUFFER_SIZE, MulDivKRule(MICROSECONDS), [BUFFER_TIME, RATE]),
    Rule({}, PERIOD_BYTES, MulDivKRule(8), [PERIOD_SIZE, FRAME_BITS]),
    Rule({}, BUFFER_BYTES, MulDivKRule(8), [BUFFER_SIZE, FRAME_BITS]),
    Rule({}, PERIOD_TIME, MulKDivRule(MICROSECONDS), [PERIOD_SIZE, RATE]),
    Rule({}, BUFFER_TIME, MulKDivRule(MICROSECONDS), [BUFFER_SIZE, RATE])
  ]

  const STANDARD: seq<Rule> := SAMPLE_RULES + RATE_RULES + SIZE_RULES + BYTE_RULES

  const KNOWN_RATES: seq<Uint> :=
    [5512, 8000, 11025, 16000, 22050, 32000, 44100, 48000, 64000, 88200, 96000, 176400, 192000]

  /** The rates a driver offers: any, or those selected from the known ones. */
  datatype Rates = AnyRate | Discrete(selected: set<nat>)

  /** What a driver's description adds: the size of its buffer and, if they are discrete, its rates. */
  function DriverRules(bufferBytesMax: Uint, rates: Rates): seq<Rule> {
    [Rule({}, BUFFER_BYTES, BytesMaxRule(bufferBytesMax), [BUFFER_BYTES])] +
    if rates.Discrete? then [Rule({}, RATE, ListRule(KNOWN_RATES, rates.selected), [RATE])] else []
  }

  // The relations between the parameters of a stream.

  ghost predicate WidthMatches(s: Config)
    requires ShapedConfig(s)
  {
    Value(s, SAMPLE_BITS) == PhysWidth(s.choice[FORMAT]) as real
  }

  ghost predicate FrameBitsMatch(s: Config)
    requires ShapedConfig(s)
  {
    Value(s, FRAME_BITS) == Value(s, SAMPLE_BITS) * Value(s, CHANNELS)
  }

  ghost predicate PeriodBytesMatch(s: Config)
    requires ShapedConfig(s)
  {
    Value(s, PERIOD_BYTES) * 8.0 == Value(s, PERIOD_SIZE) * Value(s, FRAME_BITS)
  }

  ghost predicate BufferBytesMatch(s: Config)
    requires ShapedConfig(s)
  {
    Value(s, BUFFER_BYTES) * 8.0 == Value(s, BUFFER_SIZE) * Value(s, FRAME_BITS)
  }

  ghost predicate PeriodTimeMatches(s: Config)
    requires ShapedConfig(s)
  {
    Value(s, PERIOD_TIME) * Value(s, RATE) == Value(s, PERIOD_SIZE) * 1000000.0
  }

  ghost predicate BufferTimeMatches(s: Config)
    requires ShapedConfig(s)
  {
    Value(s, BUFFER_TIME) * Value(s, RATE) == Value(s, BUFFER_SIZE) * 1000000.0
  }

  ghost predicate PeriodsMatch(s: Config)
    requires ShapedConfig(s)
  {
    Value(s, BUFFER_SIZE) == Value(s, PERIOD_SIZE) * Value(s, PERIODS)
  }

  ghost predicate StreamEquations(s: Config)
    requires ShapedConfig(s)
  {
    && WidthMatches(s)
    && FrameBitsMatch(s)
    && PeriodBytesMatch(s)
    && BufferBytesMatch(s)
    && PeriodTimeMatches(s)
    && BufferTimeMatches(s)
    && PeriodsMatch(s)
  }

  predicate Registered(rules: seq<Rule>) {
    forall r :: r in rules ==> WellFormed(r) && Enabled(r, {})
  }

  lemma SampleRulesAreWellFormed() ensures Registered(SAMPLE_RULES) {}

  lemma RateRulesAreWellFormed() ensures Registered(RATE_RULES) {}

  lemma SizeRulesAreWellFormed() ensures Registered(SIZE_RULES) {}

  lemma ByteRulesAreWellFormed() ensures Registered(BYTE_RULES) {}

  lemma StandardIsWellFormed()
    ensures Registered(STANDARD)
  {
    SampleRulesAreWellFormed();
    RateRulesAreWellFormed();
    SizeRulesAreWellFormed();
    ByteRulesAreWellFormed();
  }

  lemma DriverRulesAreWellFormed(bufferBytesMax: Uint, rates: Rates)
    ensures Registered(DriverRules(bufferBytesMax, rates))
  {
  }

  ghost predicate AllSatisfied(rules: seq<Rule>, s: Config)
    requires Registered(rules) && ShapedConfig(s)
  {
    forall k :: 0 <= k < |rules| ==> Satisfies(rules[k], s)
  }

  lemma SampleRulesMean(s: Config)
    requires ShapedConfig(s) && Registered(SAMPLE_RULES)
    ensures AllSatisfied(SAMPLE_RULES, s) <==>
            && WidthMatches(s)
            && FrameBitsMatch(s)
            && PeriodBytesMatch(s)
  {
    var f := SAMPLE_RULES;
    assert f[0].fn.FormatRule? && f[1].fn.SampleBitsRule? && f[2].fn.DivRule? && f[3].fn.MulRule? && f[4].fn == MulKDivRule(8);
  }

  lemma RateRulesMean(s: Config)
    requires ShapedConfig(s) && Registered(RATE_RULES)
    ensures AllSatisfied(RATE_RULES, s) <==>
            && BufferBytesMatch(s)
            && FrameBitsMatch(s)
            && PeriodTimeMatches(s)
            && BufferTimeMatches(s)
            && PeriodsMatch(s)
  {
    var f := RATE_RULES;
    assert f[0].fn == MulKDivRule(8) && f[1].fn.DivRule? && f[2].fn.MulKDivRule? && f[3].fn.MulKDivRule? && f[4].fn.DivRule?;
  }

  lemma SizeRulesMean(s: Config)
    requires ShapedConfig(s) && Registered(SIZE_RULES)
    ensures AllSatisfied(SIZE_RULES, s) <==>
            && PeriodsMatch(s)
            && PeriodBytesMatch(s)
            && PeriodTimeMatches(s)
            && BufferBytesMatch(s)
  {
    var f := SIZE_RULES;
    assert f[0].fn.DivRule? && f[1].fn == MulKDivRule(8) && f[2].fn.MulDivKRule? && f[3].fn.MulRule? && f[4].fn.MulKDivRule?;
  }

  lemma ByteRulesMean(s: Config)
    requires ShapedConfig(s) && Registered(BYTE_RULES)
    ensures AllSatisfied(BYTE_RULES, s) <==>
            && BufferTimeMatches(s)
            && PeriodBytesMatch(s)
            && BufferBytesMatch(s)
            && PeriodTimeMatches(s)
  {
    var f := BYTE_RULES;
    assert f[0].fn.MulDivKRule? && f[1].fn.MulDivKRule? && f[2].fn.MulDivKRule? && f[3].fn.MulKDivRule? && f[4].fn.MulKDivRule?;
  }

  /** Twenty rules, seven relations: a configuration satisfies all of the former exactly when it
      satisfies all of the latter. */
  lemma StandardMeans(s: Config)
    requires ShapedConfig(s) && Registered(STANDARD)
    ensures (forall r :: r in STANDARD ==> Satisfies(r, s)) <==> StreamEquations(s)
  {
    SampleRulesAreWellFormed();
    RateRulesAreWellFormed();
    SizeRulesAreWellFormed();
    ByteRulesAreWellFormed();
    SampleRulesMean(s);
    RateRulesMean(s);
    SizeRulesMean(s);
    ByteRulesMean(s);
    PartsMean(s);
  }

  lemma PartsMean(s: Config)
    requires ShapedConfig(s) && Registered(STANDARD)
    requires Registered(SAMPLE_RULES) && Registered(RATE_RULES) && Registered(SIZE_RULES) && Registered(BYTE_RULES)
    ensures (forall r :: r in STANDARD ==> Satisfies(r, s)) <==>
            AllSatisfied(SAMPLE_RULES, s) && AllSatisfied(RATE_RULES, s) && AllSatisfied(SIZE_RULES, s) && AllSatisfied(BYTE_RULES, s)
  {
    JoinSatisfied(SAMPLE_RULES, RATE_RULES, s);
    JoinSatisfied(SAMPLE_RULES + RATE_RULES, SIZE_RULES, s);
    JoinSatisfied(SAMPLE_RULES + RATE_RULES + SIZE_RULES, BYTE_RULES, s);
    assert forall r :: r in STANDARD ==> exists k :: 0 <= k < |STANDARD| && STANDARD[k] == r;
  }

  lemma JoinSatisfied(a: seq<Rule>, b: seq<Rule>, s: Config)
    requires ShapedConfig(s) && Registered(a) && Registered(b)
    ensures Registered(a + b)
    ensures AllSatisfied(a + b, s) <==> AllSatisfied(a, s) && AllSatisfied(b, s)
  {
    if AllSatisfied(a + b, s) {
      forall k | 0 <= k < |a| ensures Satisfies(a[k], s) { assert (a + b)[k] == a[k]; }
      forall k | 0 <= k < |b| ensures Satisfies(b[k], s) { assert (a + b)[|a| + k] == b[k]; }
    }
  }

  // When the rules come to rest.

  /** product = x·y/k: the ends of the product are in place. */
  ghost predicate ProductInPlace(b: Box, product: nat, x: nat, y: nat, k: nat)
    requires Shaped(b) && IsInterval(product) && IsInterval(x) && IsInterval(y)
  {
    var t, i, j := At(b, product), At(b, x), At(b, y);
    NotBelow(t, i.min * j.min, k, i.openmin || j.openmin) && NotAbove(t, i.max * j.max, k, i.openmax || j.openmax)
  }

  /** x = product·k/y: the ends of the factor are in place. */
  ghost predicate FactorInPlace(b: Box, x: nat, product: nat, y: nat, k: nat)
    requires Shaped(b) && IsInterval(product) && IsInterval(x) && IsInterval(y)
  {
    var t, i, j := At(b, x), At(b, product), At(b, y);
    && NotBelow(t, i.min * k, j.max, i.openmin || j.openmax)
    && (j.min > 0 ==> NotAbove(t, i.max * k, j.min, i.openmax || j.openmin))
  }

  /** Each of the three variables of an equation is narrowed by the other two. */
  ghost predicate Balanced(b: Box, product: nat, x: nat, y: nat, k: nat)
    requires Shaped(b) && IsInterval(product) && IsInterval(x) && IsInterval(y)
  {
    ProductInPlace(b, product, x, y, k) && FactorInPlace(b, x, product, y, k) && FactorInPlace(b, y, product, x, k)
  }

  /** Formats and sample bits agree. */
  ghost predicate WidthsFit(b: Box)
    requires Shaped(b)
  {
    var t := At(b, SAMPLE_BITS);
    && (forall f :: f in b.masks[FORMAT] && PhysWidth(f) > 0 ==> t.min <= PhysWidth(f) <= t.max)
    && t.integer
    && (exists f :: IsFormat(f, b) && PhysWidth(f) <= t.min)
    && (exists f :: IsFormat(f, b) && t.max <= PhysWidth(f))
  }

  /** A frame of whole samples, and a buffer of whole periods, is whole. */
  predicate WholeProducts(b: Box)
    requires Shaped(b)
  {
    && (At(b, SAMPLE_BITS).integer && At(b, CHANNELS).integer ==> At(b, FRAME_BITS).integer)
    && (At(b, PERIOD_SIZE).integer && At(b, PERIODS).integer ==> At(b, BUFFER_SIZE).integer)
  }

  ghost predicate AtRest(b: Box)
    requires Shaped(b)
  {
    && WidthsFit(b) && WholeProducts(b)
    && Balanced(b, FRAME_BITS, SAMPLE_BITS, CHANNELS, 1)
    && Balanced(b, PERIOD_BYTES, PERIOD_SIZE, FRAME_BITS, 8)
    && Balanced(b, BUFFER_BYTES, BUFFER_SIZE, FRAME_BITS, 8)
    && Balanced(b, PERIOD_SIZE, PERIOD_TIME, RATE, 1000000)
    && Balanced(b, BUFFER_SIZE, BUFFER_TIME, RATE, 1000000)
    && Balanced(b, BUFFER_SIZE, PERIOD_SIZE, PERIODS, 1)
  }

  ghost predicate AllSupported(rules: seq<Rule>, b: Box)
    requires Registered(rules) && Shaped(b)
  {
    forall k :: 0 <= k < |rules| ==> Supported(rules[k], b)
  }

  lemma SampleRulesRest(b: Box)
    requires Shaped(b) && Registered(SAMPLE_RULES)
    ensures AllSupported(SAMPLE_RULES, b) <==>
            && WidthsFit(b)
            && FactorInPlace(b, SAMPLE_BITS, FRAME_BITS, CHANNELS, 1)
            && ProductInPlace(b, FRAME_BITS, SAMPLE_BITS, CHANNELS, 1)
            && (At(b, SAMPLE_BITS).integer && At(b, CHANNELS).integer ==> At(b, FRAME_BITS).integer)
            && FactorInPlace(b, FRAME_BITS, PERIOD_BYTES, PERIOD_SIZE, 8)
  {
    var f := SAMPLE_RULES;
    assert f[0].fn.FormatRule? && f[1].fn.SampleBitsRule? && f[2].fn.DivRule? && f[3].fn.MulRule? && f[4].fn == MulKDivRule(8);
  }

  lemma RateRulesRest(b: Box)
    requires Shaped(b) && Registered(RATE_RULES)
    ensures AllSupported(RATE_RULES, b) <==>
            && FactorInPlace(b, FRAME_BITS, BUFFER_BYTES, BUFFER_SIZE, 8)
            && FactorInPlace(b, CHANNELS, FRAME_BITS, SAMPLE_BITS, 1)
            && FactorInPlace(b, RATE, PERIOD_SIZE, PERIOD_TIME, 1000000)
            && FactorInPlace(b, RATE, BUFFER_SIZE, BUFFER_TIME, 1000000)
            && FactorInPlace(b, PERIODS, BUFFER_SIZE, PERIOD_SIZE, 1)
  {
    var f := RATE_RULES;
    assert f[0].fn == MulKDivRule(8) && f[1].fn.DivRule? && f[2].fn.MulKDivRule? && f[3].fn.MulKDivRule? && f[4].fn.DivRule?;
  }

  lemma SizeRulesRest(b: Box)
    requires Shaped(b) && Registered(SIZE_RULES)
    ensures AllSupported(SIZE_RULES, b) <==>
            && FactorInPlace(b, PERIOD_SIZE, BUFFER_SIZE, PERIODS, 1)
            && FactorInPlace(b, PERIOD_SIZE, PERIOD_BYTES, FRAME_BITS, 8)
            && ProductInPlace(b, PERIOD_SIZE, PERIOD_TIME, RATE, 1000000)
            && ProductInPlace(b, BUFFER_SIZE, PERIOD_SIZE, PERIODS, 1)
            && (At(b, PERIOD_SIZE).integer && At(b, PERIODS).integer ==> At(b, BUFFER_SIZE).integer)
            && FactorInPlace(b, BUFFER_SIZE, BUFFER_BYTES, FRAME_BITS, 8)
  {
    var f := SIZE_RULES;
    assert f[0].fn.DivRule? && f[1].fn == MulKDivRule(8) && f[2].fn.MulDivKRule? && f[3].fn.MulRule? && f[4].fn.MulKDivRule?;
  }

  lemma ByteRulesRest(b: Box)
    requires Shaped(b) && Registered(BYTE_RULES)
    ensures AllSupported(BYTE_RULES, b) <==>
            && ProductInPlace(b, BUFFER_SIZE, BUFFER_TIME, RATE, 1000000)
            && ProductInPlace(b, PERIOD_BYTES, PERIOD_SIZE, FRAME_BITS, 8)
            && ProductInPlace(b, BUFFER_BYTES, BUFFER_SIZE, FRAME_BITS, 8)
            && FactorInPlace(b, PERIOD_TIME, PERIOD_SIZE, RATE, 1000000)
            && FactorInPlace(b, BUFFER_TIME, BUFFER_SIZE, RATE, 1000000)
  {
    var f := BYTE_RULES;
    assert f[0].fn.MulDivKRule? && f[1].fn.MulDivKRule? && f[2].fn.MulDivKRule? && f[3].fn.MulKDivRule? && f[4].fn.MulKDivRule?;
  }

  /** The twenty rules have nothing left to do on a box exactly when, in each of the six equations between intervals,
      all three variables have their ends where the other two put them, and formats and sample bits agree. */
  lemma StandardRests(b: Box)
    requires ProperBox(b) && Registered(STANDARD)
    ensures (forall r :: r in STANDARD ==> NoOp(r, b)) <==> AtRest(b)
  {
    forall r | r in STANDARD ensures NoOp(r, b) <==> Supported(r, b) {
      NoOpMeans(r, b);
    }
    SampleRulesAreWellFormed();
    RateRulesAreWellFormed();
    SizeRulesAreWellFormed();
    ByteRulesAreWellFormed();
    SampleRulesRest(b);
    RateRulesRest(b);
    SizeRulesRest(b);
    ByteRulesRest(b);
    PartsRest(b);
  }

  lemma PartsRest(b: Box)
    requires Shaped(b) && Registered(STANDARD)
    requires Registered(SAMPLE_RULES) && Registered(RATE_RULES) && Registered(SIZE_RULES) && Registered(BYTE_RULES)
    ensures (forall r :: r in STANDARD ==> Supported(r, b)) <==>
            && AllSupported(SAMPLE_RULES, b)
            && AllSupported(RATE_RULES, b)
            && AllSupported(SIZE_RULES, b)
            && AllSupported(BYTE_RULES, b)
  {
    JoinSupported(SAMPLE_RULES, RATE_RULES, b);
    JoinSupported(SAMPLE_RULES + RATE_RULES, SIZE_RULES, b);
    JoinSupported(SAMPLE_RULES + RATE_RULES + SIZE_RULES, BYTE_RULES, b);
    assert forall r :: r in STANDARD ==> exists k :: 0 <= k < |STANDARD| && STANDARD[k] == r;
  }

  lemma JoinSupported(f: seq<Rule>, g: seq<Rule>, b: Box)
    requires Shaped(b) && Registered(f) && Registered(g)
    ensures Registered(f + g)
    ensures AllSupported(f + g, b) <==> AllSupported(f, b) && AllSupported(g, b)
  {
    if AllSupported(f + g, b) {
      forall k | 0 <= k < |f| ensures Supported(f[k], b) { assert (f + g)[k] == f[k]; }
      forall k | 0 <= k < |g| ensures Supported(g[k], b) { assert (f + g)[|f| + k] == g[k]; }
    }
  }

  // What a driver's description asks for besides.

  ghost predicate BytesFit(s: Config, bufferBytesMax: Uint)
    requires ShapedConfig(s)
  {
    Value(s, BUFFER_BYTES) <= bufferBytesMax as real && IsWhole(Value(s, BUFFER_BYTES))
  }

  /** The rate is one of the listed ones, unless the driver takes any. */
  ghost predicate RateOffered(s: Config, rates: Rates)
    requires ShapedConfig(s)
  {
    rates.Discrete? ==>
      exists k :: 0 <= k < |KNOWN_RATES| && Selected(rates.selected, k) && KNOWN_RATES[k] as real == Value(s, RATE)
  }

  lemma DriverRulesMean(bufferBytesMax: Uint, rates: Rates, s: Config)
    requires ShapedConfig(s) && Registered(DriverRules(bufferBytesMax, rates))
    ensures AllSatisfied(DriverRules(bufferBytesMax, rates), s) <==> BytesFit(s, bufferBytesMax) && RateOffered(s, rates)
  {
    var f := DriverRules(bufferBytesMax, rates);
    assert f[0].fn == BytesMaxRule(bufferBytesMax);
    if rates.Discrete? {
      assert f[1].fn == ListRule(KNOWN_RATES, rates.selected);
    }
  }

  /** With the rules every stream has, the equations and the driver's description alone decide what the solver
      must keep. */
  lemma StandardSolves(cs: Constraints, flags: set<nat>, bufferBytesMax: Uint, rates: Rates, s: Config)
    requires Sound(cs) && cs.rules == STANDARD + DriverRules(bufferBytesMax, rates) && ShapedConfig(s) && InRange(s)
    ensures Solves(cs, flags, s) <==> StreamEquations(s) && BytesFit(s, bufferBytesMax) && RateOffered(s, rates)
  {
    var d := DriverRules(bufferBytesMax, rates);
    StandardIsWellFormed();
    DriverRulesAreWellFormed(bufferBytesMax, rates);
    StandardMeans(s);
    DriverRulesMean(bufferBytesMax, rates, s);
    assert AllSatisfied(d, s) <==> forall r :: r in d ==> Satisfies(r, s);
    EnabledAnyhow(cs.rules, flags);
    assert forall r :: Active(cs, flags, r) <==> r in STANDARD || r in d;
  }

  lemma EnabledAnyhow(rules: seq<Rule>, flags: set<nat>)
    requires forall r :: r in rules ==> Enabled(r, {})
    ensures forall r :: r in rules ==> Enabled(r, flags)
  {
  }

  /** What is left of byte counts and rates for the driver's description. */
  ghost predicate DriverRests(b: Box, bufferBytesMax: Uint, rates: Rates)
    requires Shaped(b)
  {
    var bytes, rate := At(b, BUFFER_BYTES), At(b, RATE);
    && bytes.integer && bytes.max <= bufferBytesMax
    && (rates.Discrete? ==>
          !rate.openmin && !rate.openmax &&
          IsListed(KNOWN_RATES, rates.selected, rate.min) && IsListed(KNOWN_RATES, rates.selected, rate.max))
  }

  lemma DriverRulesRest(b: Box, bufferBytesMax: Uint, rates: Rates)
    requires ProperBox(b) && Registered(DriverRules(bufferBytesMax, rates))
    ensures (forall r :: r in DriverRules(bufferBytesMax, rates) ==> NoOp(r, b)) <==> DriverRests(b, bufferBytesMax, rates)
  {
    var f := DriverRules(bufferBytesMax, rates);
    assert f[0].fn == BytesMaxRule(bufferBytesMax);
    if rates.Discrete? {
      assert f[1].fn == ListRule(KNOWN_RATES, rates.selected);
    }
    forall r | r in f ensures NoOp(r, b) <==> Supported(r, b) {
      NoOpMeans(r, b);
    }
    assert AllSupported(f, b) <==> forall r :: r in f ==> Supported(r, b);
  }

  lemma ClosedRests(cs: Constraints, flags: set<nat>, bufferBytesMax: Uint, rates: Rates, b: Box)
    requires Sound(cs) && cs.rules == STANDARD + DriverRules(bufferBytesMax, rates) && ProperBox(b)
    ensures Closed(cs, flags, b) <==> AtRest(b) && DriverRests(b, bufferBytesMax, rates)
  {
    var d := DriverRules(bufferBytesMax, rates);
    StandardIsWellFormed();
    DriverRulesAreWellFormed(bufferBytesMax, rates);
    StandardRests(b);
    DriverRulesRest(b, bufferBytesMax, rates);
    EnabledAnyhow(cs.rules, flags);
    assert forall r :: Active(cs, flags, r) <==> r in STANDARD || r in d;
  }

  /** A configuration that was asked for and is one of the stream and its driver, with all values in range. */
  ghost predicate Wanted(s: Config, b: Box, c: Box, rmask: set<nat>, bufferBytesMax: Uint, rates: Rates)
    requires Shaped(b) && Shaped(c)
  {
    && ShapedConfig(s) && InRange(s) && Requested(s, b, c, rmask)
    && StreamEquations(s) && BytesFit(s, bufferBytesMax) && RateOffered(s, rates)
  }

  /** The solver as every driver sets it up: if anything at all is wanted, the call succeeds and keeps all of it. */
  method RefineStandard(p: HwRefine.HwParams, cs: Constraints, bufferBytesMax: Uint, rates: Rates, ghost some: Config)
    returns (ret: int)
    requires p.Valid() && Sound(cs) && cs.rules == STANDARD + DriverRules(bufferBytesMax, rates)
    requires Presentable(p.Current(), cs.box, p.rmask)
    requires Wanted(some, p.Current(), cs.box, p.rmask, bufferBytesMax, rates)
    modifies p, p.masks, p.ivls
    ensures ret == 0
    ensures forall s :: Wanted(s, old(p.Current()), cs.box, old(p.rmask), bufferBytesMax, rates) ==> In(s, p.Current())
    ensures Sub(p.Current(), old(p.Current())) && Confined(p.Current(), cs.box, old(p.rmask))
    ensures Primed(cs, p.flags, old(p.rmask), Enter(old(p.Current()), cs.box, old(p.rmask))) ==>
              AtRest(p.Current()) && DriverRests(p.Current(), bufferBytesMax, rates)
  {
    ghost var b, rmask := p.Current(), p.rmask;
    forall s | Wanted(s, b, cs.box, rmask, bufferBytesMax, rates) ensures Solves(cs, p.flags, s) {
      StandardSolves(cs, p.flags, bufferBytesMax, rates, s);
    }
    EnterKeeps(b, cs.box, rmask, some);
    EnterShrinks(b, cs.box, rmask);
    SolvableSettles(cs, p.flags, rmask, Enter(b, cs.box, rmask), some);
    ghost var trace;
    ret, trace := HwRefine.RefineParams(p, cs);
    if Primed(cs, p.flags, rmask, Enter(b, cs.box, rmask)) {
      ClosedRests(cs, p.flags, bufferBytesMax, rates, p.Current());
    }
  }

  /** A wide request that contradicts itself, for five-bit samples: the first rule refuses it, so the run settles. */
  lemma ContradictoryRequest(cs: Constraints, flags: set<nat>, rmask: set<nat>, e: Box)
    requires Sound(cs) && STANDARD <= cs.rules && SAMPLE_BITS in rmask
    requires ProperBox(e) && At(e, SAMPLE_BITS) == Interval(5, false, 5, false, true, false) && e.masks[FORMAT] == {0}
    ensures Settling(cs, flags, rmask, e) && Apply(cs.rules[0], e).ret == INVAL
  {
    assert cs.rules[0] == STANDARD[0] == SAMPLE_RULES[0];
    assert Keep({0}, At(e, SAMPLE_BITS)) == {};
    assert SAMPLE_BITS in cs.rules[0].deps;
    RefusedAtOnceSettles(cs, flags, rmask, e);
  }

  const TAME_BOX := Box([{0}, {2}, {0}], [
    Interval(16, false, 16, false, true, false), Interval(16, false, 32, false, true, false), Interval(1, false, 2, false, true, false),
    Interval(32000, false, 64000, false, false, false), Interval(16000, false, 32000, false, false, false),
    Interval(512, false, 1024, false, true, false), Interval(1024, false, 4096, false, true, false),
    Interval(2, false, 4, false, true, false), Interval(32000, false, 128000, false, false, false),
    Interval(1024, false, 4096, false, true, false), Interval(2048, false, 16384, false, true, false),
    Interval(1, false, 1, false, true, false)])

  predicate AllTameIn(rules: seq<Rule>, b: Box)
    requires Registered(rules) && Shaped(b)
  {
    forall k :: 0 <= k < |rules| ==> Tame(rules[k], b)
  }

  lemma SampleRulesAreTame()
    requires Registered(SAMPLE_RULES)
    ensures AllTameIn(SAMPLE_RULES, TAME_BOX)
  {
  }

  lemma RateRulesAreTame()
    requires Registered(RATE_RULES)
    ensures AllTameIn(RATE_RULES, TAME_BOX)
  {
  }

  lemma SizeRulesAreTame()
    requires Registered(SIZE_RULES)
    ensures AllTameIn(SIZE_RULES, TAME_BOX)
  {
  }

  lemma ByteRulesAreTame()
    requires Registered(BYTE_RULES)
    ensures AllTameIn(BYTE_RULES, TAME_BOX)
  {
  }

  /** Tame boxes exist as well: one or two channels of 16 bits, at 32 to 64 kHz, in two to four periods. */
  lemma TameStream(cs: Constraints, flags: set<nat>)
    requires Sound(cs) && cs.rules == STANDARD
    ensures ProperBox(TAME_BOX) && AllTame(cs, flags, TAME_BOX)
  {
    SampleRulesAreWellFormed();
    RateRulesAreWellFormed();
    SizeRulesAreWellFormed();
    ByteRulesAreWellFormed();
    SampleRulesAreTame();
    RateRulesAreTame();
    SizeRulesAreTame();
    ByteRulesAreTame();
  }

  /** Such configurations exist: 64 kHz, 16-bit stereo, four periods of 1024 frames. */
  lemma StereoStream()
    ensures exists s :: ShapedConfig(s) && InRange(s) && StreamEquations(s)
  {
    var s := Config([0, 2, 0],
                    [16.0, 32.0, 2.0, 64000.0, 16000.0, 1024.0, 4096.0, 4.0, 64000.0, 4096.0, 16384.0, 1.0]);
    assert Value(s, SAMPLE_BITS) == 16.0 && Value(s, FRAME_BITS) == 32.0 && Value(s, CHANNELS) == 2.0;
    assert Value(s, RATE) == 64000.0 && Value(s, PERIOD_TIME) == 16000.0 && Value(s, PERIOD_SIZE) == 1024.0;
    assert Value(s, PERIOD_BYTES) == 4096.0 && Value(s, PERIODS) == 4.0 && Value(s, BUFFER_TIME) == 64000.0;
    assert Value(s, BUFFER_SIZE) == 4096.0 && Value(s, BUFFER_BYTES) == 16384.0 && PhysWidth(s.choice[FORMAT]) == 16;
    assert InRange(s);
  }
}
