/**
 Two moduli: stream positions count frames modulo `boundary`, buffer slots modulo `buffer`, and the one is
 a multiple of the other. The lemmas relate wrapped pointers to unbounded frame counts.
 */
module PcmGeometry {
  import opened Numbers

  /** Sizes in frames; `longMax` is the largest signed long. */
  datatype Geometry = Geometry(boundary: nat, buffer: nat, period: nat, longMax: nat)

  predicate ValidGeometry(g: Geometry) {
    && 0 < g.period <= g.buffer
    && 2 * g.buffer <= g.boundary <= g.longMax - g.buffer
    && g.boundary % g.buffer == 0
  }

  // ---------------------------------------------------------------- the boundary

  function DoubledTimes(n: nat, k: nat): nat {
    if k == 0 then n else 2 * DoubledTimes(n, k - 1)
  }

  lemma {:induction false} DoubledIsMultiple(n: nat, k: nat)
    requires n > 0
    ensures DoubledTimes(n, k) >= n && DoubledTimes(n, k) % n == 0
  {
    if k == 0 {
      EuclidUnique(n, n, 1, 0);
    } else {
      DoubledIsMultiple(n, k - 1);
      var m := DoubledTimes(n, k - 1);
      Euclid(m, n);
      EuclidUnique(2 * m, n, 2 * (m / n), 0);
    }
  }

  /** The doubling loop of `snd_pcm_hw_params` and, with limit 2^31 - 1, of `recalculate_boundary`: the
      largest power-of-two multiple of the buffer that leaves room for one more buffer below `limit`. */
  method ComputeBoundary(buffer: nat, limit: nat) returns (boundary: nat, ghost doublings: nat)
    requires 0 < buffer && 2 * buffer <= limit
    ensures boundary == DoubledTimes(buffer, doublings) && boundary % buffer == 0
    ensures boundary <= limit - buffer < 2 * boundary
    ensures 3 * buffer <= limit ==> boundary >= 2 * buffer
  {
    boundary, doublings := buffer, 0;
    while boundary * 2 <= limit - buffer
      invariant buffer <= boundary <= limit - buffer
      invariant boundary == DoubledTimes(buffer, doublings)
      invariant boundary >= 2 * buffer || boundary == buffer
      decreases limit - boundary
    {
      boundary := boundary * 2;
      doublings := doublings + 1;
    }
    DoubledIsMultiple(buffer, doublings);
  }

  /** Reducing a pointer by any multiple of the buffer size keeps its slot in the buffer. */
  lemma SlotSurvivesModulus(p: nat, m: nat, buffer: nat)
    requires 0 < buffer && 0 < m && m % buffer == 0
    ensures (p % m) % buffer == p % buffer
  {
    Euclid(p, m);
    Euclid(m, buffer);
    Euclid(p % m, buffer);
    var a, c := p / m, m / buffer;
    assert a * m == (a * c) * buffer;
    EuclidUnique(p, buffer, a * c + (p % m) / buffer, (p % m) % buffer);
  }

  /** The 32-bit interface reports both pointers modulo its own boundary; the buffer offsets are unaffected. */
  method CompatPointer(p: nat, buffer: nat) returns (q: nat)
    requires 0 < buffer && 2 * buffer <= 0x7fff_ffff
    ensures q <= 0x7fff_ffff - buffer && q % buffer == p % buffer
  {
    var boundary, doublings := ComputeBoundary(buffer, 0x7fff_ffff);
    SlotSurvivesModulus(p, boundary, buffer);
    q := p % boundary;
  }

  // ---------------------------------------------------------------- signed differences

  /** `(snd_pcm_sframes_t)(a - b)`: the difference of two unsigned longs, read as a signed long. */
  function SignedDifference(a: nat, b: nat, g: Geometry): int {
    var d := (a - b) % (2 * g.longMax + 2);
    if d <= g.longMax then d else d - (2 * g.longMax + 2)
  }

  /** It is the plain difference of pointers that are less than a signed long apart. */
  method Difference(a: nat, b: nat, g: Geometry) returns (d: int)
    requires a - b <= g.longMax && b - a <= g.longMax
    ensures d == a - b
  {
    SignedDifferenceFits(a, b, g);
    d := SignedDifference(a, b, g);
  }

  lemma SignedDifferenceFits(a: nat, b: nat, g: Geometry)
    requires a - b <= g.longMax && b - a <= g.longMax
    ensures SignedDifference(a, b, g) == a - b
  {
    if a >= b {
      EuclidUnique(a - b, 2 * g.longMax + 2, 0, a - b);
    } else {
      NegativeRemainder(b - a, 2 * g.longMax + 2);
      assert -(b - a) == a - b;
    }
  }

  /** `a + b` in signed longs. */
  function SignedSum(a: nat, b: nat, g: Geometry): int {
    var s := (a + b) % (2 * g.longMax + 2);
    if s <= g.longMax then s else s - (2 * g.longMax + 2)
  }

  /** A sum of two pointers below the boundary is exact if and only if it fits; otherwise it is negative. */
  lemma SignedSumFits(a: nat, b: nat, g: Geometry)
    requires ValidGeometry(g) && a < g.boundary && b < g.boundary
    ensures SignedSum(a, b, g) == if a + b <= g.longMax then a + b else a + b - (2 * g.longMax + 2)
  {
    EuclidUnique(a + b, 2 * g.longMax + 2, 0, a + b);
  }

  /** It need not fit: forty frames on from 63, with a largest long of 80. */
  lemma SumOverflows()
    ensures var g := Geometry(64, 16, 4, 80);
            ValidGeometry(g) && SignedSum(63, 40, g) == -59 && Wrap(63 + 40, g) == 39
  {
  }

  // ---------------------------------------------------------------- steps of a wrapped pointer

  function Wrap(n: nat, g: Geometry): nat
    requires g.boundary > 0
  {
    n % g.boundary
  }

  function Slot(n: nat, g: Geometry): nat
    requires g.buffer > 0
  {
    n % g.buffer
  }

  /** Start of the buffer block a wrapped pointer lies in. */
  function Base(n: nat, g: Geometry): int
    requires g.boundary > 0 && g.buffer > 0
  {
    Wrap(n, g) - Slot(n, g)
  }

  lemma ModStep(n: nat, d: nat, m: nat)
    requires m > 0 && d < m
    ensures (n + d) % m == if n % m + d < m then n % m + d else n % m + d - m
  {
    Euclid(n, m);
    if n % m + d < m {
      EuclidUnique(n + d, m, n / m, n % m + d);
    } else {
      assert (n / m + 1) * m == (n / m) * m + m;
      EuclidUnique(n + d, m, n / m + 1, n % m + d - m);
    }
  }

  lemma ModBack(n: nat, d: nat, m: nat)
    requires m > 0 && d < m && d <= n
    ensures (n - d) % m == if n % m >= d then n % m - d else n % m - d + m
  {
    ModStep(n - d, d, m);
    Euclid(n - d, m);
  }

  /** A block never crosses the boundary: it ends at it or a whole block before it. */
  lemma BaseFits(n: nat, g: Geometry)
    requires ValidGeometry(g)
    ensures Wrap(n, g) % g.buffer == Slot(n, g) && Slot(n, g) < g.buffer && Wrap(n, g) < g.boundary
    ensures 0 <= Base(n, g) <= g.boundary - g.buffer
    ensures Base(n, g) + g.buffer == g.boundary || Base(n, g) + 2 * g.buffer <= g.boundary
    ensures Base(n, g) == 0 || Base(n, g) >= g.buffer
  {
    var p := Wrap(n, g);
    SlotSurvivesModulus(n, g.boundary, g.buffer);
    Euclid(p, g.buffer);
    Euclid(g.boundary, g.buffer);
    var k, m := p / g.buffer, g.boundary / g.buffer;
    assert Base(n, g) == k * g.buffer;
    Scale(k, m, g.buffer);
    assert (k + 1) * g.buffer == k * g.buffer + g.buffer;
    Scale(k + 1, m, g.buffer);
    assert (k + 2) * g.buffer == k * g.buffer + 2 * g.buffer;
    Scale(m, k + 2, g.buffer);
    if k > 0 { Scale(0, k - 1, g.buffer); }
  }

  /** Moving on by less than a buffer: the slot wraps exactly when the block changes. */
  lemma Advance(n: nat, d: nat, g: Geometry)
    requires ValidGeometry(g) && d < g.buffer
    ensures Wrap(n + d, g) == if Wrap(n, g) + d < g.boundary then Wrap(n, g) + d else Wrap(n, g) + d - g.boundary
    ensures Slot(n + d, g) == if Slot(n, g) + d < g.buffer then Slot(n, g) + d else Slot(n, g) + d - g.buffer
    ensures Base(n + d, g) == if Slot(n, g) + d < g.buffer then Base(n, g)
                              else if Base(n, g) + g.buffer >= g.boundary then 0 else Base(n, g) + g.buffer
  {
    ModStep(n, d, g.boundary);
    ModStep(n, d, g.buffer);
    BaseFits(n, g);
  }

  /** Two counts less than a buffer apart use different slots. */
  lemma SlotsDiffer(j: nat, k: nat, g: Geometry)
    requires g.buffer > 0 && j < k < j + g.buffer
    ensures Slot(j, g) != Slot(k, g)
  {
    ModStep(j, k - j, g.buffer);
  }

  // ---------------------------------------------------------------- how much is available

  /** `snd_pcm_playback_avail`: free frames, from wrapped pointers. */
  function PlaybackAvail(hw: nat, appl: nat, g: Geometry): int {
    var avail := hw + g.buffer - appl;
    if avail < 0 then avail + g.boundary
    else if avail >= g.boundary then avail - g.boundary
    else avail
  }

  /** `snd_pcm_capture_avail`: captured frames, from wrapped pointers. */
  function CaptureAvail(hw: nat, appl: nat, g: Geometry): int {
    var avail := hw - appl;
    if avail < 0 then avail + g.boundary else avail
  }

  lemma PlaybackAvailExact(h: nat, a: nat, g: Geometry)
    requires ValidGeometry(g) && 0 <= h + g.buffer - a < g.boundary
    ensures PlaybackAvail(Wrap(h, g), Wrap(a, g), g) == h + g.buffer - a
  {
    if a >= h {
      ModStep(h, a - h, g.boundary);
    } else {
      ModStep(a, h - a, g.boundary);
    }
  }

  lemma CaptureAvailExact(h: nat, a: nat, g: Geometry)
    requires ValidGeometry(g) && 0 <= h - a < g.boundary
    ensures CaptureAvail(Wrap(h, g), Wrap(a, g), g) == h - a
  {
    ModStep(a, h - a, g.boundary);
  }
}
