/**
 The PCM ring buffer at run time. The code works on wrapped pointers and an array of slots. Beside them the
 model keeps unbounded counts and the stream of frames itself, and `Valid` says how the two agree.
 */
module PcmRuntime {
  import opened Words
  import opened Numbers
  import opened PcmGeometry
  import opened PcmPointer
  import opened PcmStates

  /** One frame: a sample per channel. */
  type Frame = seq<int>

  const FAULT := -14

  /** What the outside may do to a transfer: break off a copy, send a signal, let a wait run into its timeout although
      enough is available, refuse a start. */
  datatype Outside = Outside(faults: bool, signals: bool, timeouts: bool, refusals: bool)

  /** Periods per buffer. */
  function Periods(g: Geometry): (n: nat)
    requires ValidGeometry(g)
    ensures n * g.period <= g.buffer < n * g.period + g.period
  {
    Euclid(g.buffer, g.period);
    g.buffer / g.period
  }

  function Max(a: int, b: int): int {
    if a < b then b else a
  }

  // ---------------------------------------------------------------- what slots hold

  /** Slots hold frames `lo` up to `hi`, if there are any. */
  ghost predicate Holds(area: seq<Frame>, frames: seq<Frame>, lo: int, hi: int, g: Geometry) {
    && 0 < g.buffer == |area| && 0 <= lo && hi <= |frames| && hi - lo <= g.buffer
    && forall k :: lo <= k < hi ==> area[Slot(k, g)] == frames[k]
  }

  /** The slots of counts `lo` up to `hi` are silent. */
  ghost predicate Silenced(area: seq<Frame>, lo: int, hi: int, silent: Frame, g: Geometry) {
    && 0 < g.buffer == |area| && 0 <= lo <= hi <= lo + g.buffer
    && forall k :: lo <= k < hi ==> area[Slot(k, g)] == silent
  }

  /** Two buffers agree on the slots of counts `lo` up to `hi`. */
  ghost predicate SameSlots(a: seq<Frame>, b: seq<Frame>, lo: int, hi: int, g: Geometry) {
    && 0 < g.buffer == |a| == |b| && 0 <= lo
    && forall k :: lo <= k < hi ==> a[Slot(k, g)] == b[Slot(k, g)]
  }

  ghost function Silence(n: nat, silent: Frame): (s: seq<Frame>)
    ensures |s| == n && forall i :: 0 <= i < n ==> s[i] == silent
  {
    seq(n, _ => silent)
  }

  /** `new` is `old`, some of whose frames have been silenced. */
  ghost predicate Drowned(old': seq<Frame>, new': seq<Frame>, silent: Frame) {
    |new'| == |old'| && forall i :: 0 <= i < |new'| ==> new'[i] == old'[i] || new'[i] == silent
  }

  /** The stream has grown by the data, give or take frames that were silenced on the way. */
  ghost predicate Took(old': seq<Frame>, new': seq<Frame>, data: seq<Frame>, silent: Frame) {
    old' <= new' && Drowned(old' + data, new', silent)
  }

  lemma TookMore(s: seq<Frame>, t: seq<Frame>, u: seq<Frame>, d: seq<Frame>, e: seq<Frame>, silent: Frame)
    requires Took(s, t, d, silent) && Took(t, u, e, silent)
    ensures Took(s, u, d + e, silent)
    ensures u == s + (d + e) <==> t == s + d && u == t + e
  {
    if u == s + (d + e) {
      assert t == u[..|t|] && s + (d + e) == (s + d) + e;
    }
    forall i | 0 <= i < |u| ensures u[i] == (s + (d + e))[i] || u[i] == silent {
      if i < |t| {
        assert u[i] == t[i] && (s + d)[i] == (s + (d + e))[i];
      } else {
        assert (t + e)[i] == (s + (d + e))[i];
      }
    }
  }

  lemma TookOn(s: seq<Frame>, t: seq<Frame>, u: seq<Frame>, data: seq<Frame>, n: nat, m: nat, silent: Frame)
    requires n + m <= |data| && Took(s, t, data[..n], silent) && Took(t, u, data[n..][..m], silent)
    ensures Took(s, u, data[..n + m], silent)
    ensures u == s + data[..n + m] <==> t == s + data[..n] && u == t + data[n..][..m]
  {
    TookMore(s, t, u, data[..n], data[n..][..m], silent);
    assert data[..n] + data[n..][..m] == data[..n + m];
  }

  /** Frames on their way, and whether one of them has been hit. */
  ghost predicate Flight(given: seq<Frame>, buffered: seq<Frame>, hit: bool, silent: Frame) {
    Drowned(given, buffered, silent) && (hit <==> buffered != given)
  }

  /** One more frame, and perhaps a hit after that. */
  lemma FlightMore(stream: seq<Frame>, chunk: seq<Frame>, i: nat, before: seq<Frame>, hit: bool, after: seq<Frame>, hit': bool, silent: Frame)
    requires i < |chunk| && Flight(stream + chunk[..i], before, hit, silent)
    requires Drowned(before + [chunk[i]], after, silent) && hit' == (hit || after != before + [chunk[i]])
    ensures Flight(stream + chunk[..i + 1], after, hit', silent)
  {
    var given, f := stream + chunk[..i], chunk[i];
    assert stream + chunk[..i + 1] == given + [f];
    DrownedMore(given, before, f, after, silent);
  }

  /** One more frame on top of frames some of which may have been silenced, and more silenced after that. */
  lemma DrownedMore(given: seq<Frame>, before: seq<Frame>, f: Frame, after: seq<Frame>, silent: Frame)
    requires Drowned(given, before, silent) && Drowned(before + [f], after, silent)
    ensures Drowned(given + [f], after, silent)
    ensures after == given + [f] <==> before == given && after == before + [f]
  {
    var n := |given|;
    if after == given + [f] {
      forall i | 0 <= i < n ensures before[i] == given[i] {
        assert (before + [f])[i] == before[i] && after[i] == given[i];
      }
    }
    forall i | 0 <= i < |after| ensures after[i] == (given + [f])[i] || after[i] == silent {
      assert i < n ==> (before + [f])[i] == before[i];
    }
  }

  lemma SlotRepeats(k: nat, g: Geometry)
    requires g.buffer > 0
    ensures Slot(k + g.buffer, g) == Slot(k, g)
  {
    Euclid(k, g.buffer);
    EuclidUnique(k + g.buffer, g.buffer, k / g.buffer + 1, k % g.buffer);
  }

  /** Slots in a window further on by one buffer are the same slots. */
  lemma SameSlotsShift(a: seq<Frame>, b: seq<Frame>, lo: nat, hi: int, g: Geometry)
    requires SameSlots(a, b, lo + g.buffer, hi + g.buffer, g)
    ensures SameSlots(a, b, lo, hi, g)
  {
    forall k | lo <= k < hi ensures a[Slot(k, g)] == b[Slot(k, g)] {
      SlotRepeats(k, g);
      assert a[Slot(k + g.buffer, g)] == b[Slot(k + g.buffer, g)];
    }
  }

  lemma SilencedExtends(area: seq<Frame>, lo: int, mid: int, hi: int, silent: Frame, g: Geometry)
    requires mid <= hi <= lo + g.buffer && mid - g.buffer >= 0
    requires Silenced(area, lo, mid, silent, g) && Silenced(area, mid - g.buffer, hi - g.buffer, silent, g)
    ensures Silenced(area, lo, hi, silent, g)
  {
    forall k | lo <= k < hi ensures area[Slot(k, g)] == silent {
      if k >= mid {
        SlotRepeats(k - g.buffer, g);
        assert area[Slot(k - g.buffer, g)] == silent;
      }
    }
  }

  /** After the played frames were silenced, the pending ones are intact and the silence reaches further. The device
      may have played past the last frame stored. */
  lemma PlayedSilenced(a: seq<Frame>, b: seq<Frame>, frames: seq<Frame>, h: nat, next: nat, quiet: bool, silent: Frame, g: Geometry)
    requires h <= next <= h + g.buffer && |frames| <= h + g.buffer && |a| == |b| && Holds(a, frames, h, |frames|, g)
    requires Silenced(b, h, next, silent, g) && SameSlots(a, b, next, h + g.buffer, g)
    requires quiet ==> Silenced(a, Max(h, |frames|), h + g.buffer, silent, g)
    ensures Holds(b, frames, next, |frames|, g)
    ensures quiet ==> Silenced(b, Max(next, |frames|), next + g.buffer, silent, g)
  {
    if quiet {
      assert Silenced(b, Max(next, |frames|), h + g.buffer, silent, g);
      SilencedExtends(b, Max(next, |frames|), h + g.buffer, next + g.buffer, silent, g);
    }
  }

  /** After a fill from `first` on, committed frames are intact and everything else is silent: also the frames stored
      but not committed. */
  lemma FillDrowns(a: seq<Frame>, b: seq<Frame>, frames: seq<Frame>, h: nat, n: nat, first: nat, silent: Frame, g: Geometry)
    requires n <= |frames| <= h + g.buffer && first == Max(h, n) && |a| == |b| && Holds(a, frames, h, |frames|, g)
    requires Silenced(b, first, h + g.buffer, silent, g) && SameSlots(a, b, h, first, g)
    ensures Holds(b, frames[..n] + Silence(|frames| - n, silent), h, |frames|, g)
    ensures Silenced(b, Max(h, |frames|), h + g.buffer, silent, g)
  {
    var fs := frames[..n] + Silence(|frames| - n, silent);
    forall k | h <= k < |frames| ensures b[Slot(k, g)] == fs[k] {
      if k < n { assert a[Slot(k, g)] == frames[k]; }
    }
  }

  /** Silencing what lies above `n` changes something exactly if not all of it was silent. */
  lemma SilenceDrowns(frames: seq<Frame>, n: nat, silent: Frame)
    requires n <= |frames|
    ensures frames != frames[..n] + Silence(|frames| - n, silent) <==> exists k :: n <= k < |frames| && frames[k] != silent
    ensures var fs := frames[..n] + Silence(|frames| - n, silent); fs[..n] == frames[..n] && Drowned(frames, fs, silent)
  {
    var fs := frames[..n] + Silence(|frames| - n, silent);
    if frames != fs {
      var k :| 0 <= k < |frames| && frames[k] != fs[k];
    }
  }

  /** Storing the next frame: the window grows, as long as it stays within one buffer. */
  lemma HoldsAppend(area: seq<Frame>, frames: seq<Frame>, lo: nat, f: Frame, g: Geometry)
    requires Holds(area, frames, lo, |frames|, g) && |frames| < lo + g.buffer
    ensures Holds(area[Slot(|frames|, g) := f], frames + [f], lo, |frames| + 1, g)
  {
    var n := |frames|;
    forall k | lo <= k < n + 1 ensures area[Slot(n, g) := f][Slot(k, g)] == (frames + [f])[k] {
      if k < n { SlotsDiffer(k, n, g); }
    }
  }

  /** Storing a frame keeps the pending ones, and the silence if it is not behind the hardware. */
  lemma StoreHolds(a: seq<Frame>, frames: seq<Frame>, h: nat, f: Frame, quiet: bool, silent: Frame, g: Geometry)
    requires |frames| < h + g.buffer && Holds(a, frames, h, |frames|, g)
    requires quiet ==> Silenced(a, Max(h, |frames|), h + g.buffer, silent, g)
    ensures Holds(a[Slot(|frames|, g) := f], frames + [f], h, |frames| + 1, g)
    ensures quiet && |frames| >= h ==> Silenced(a[Slot(|frames|, g) := f], |frames| + 1, h + g.buffer, silent, g)
  {
    HoldsAppend(a, frames, h, f, g);
    if |frames| >= h {
      StoreElsewhere(a, |frames|, f, |frames| + 1, h + g.buffer, g);
    }
  }

  lemma StoreElsewhere(area: seq<Frame>, n: nat, f: Frame, lo: nat, hi: int, g: Geometry)
    requires 0 < g.buffer == |area| && n < lo && hi <= n + g.buffer
    ensures SameSlots(area, area[Slot(n, g) := f], lo, hi, g)
  {
    forall k | lo <= k < hi ensures area[Slot(k, g)] == area[Slot(n, g) := f][Slot(k, g)] {
      SlotsDiffer(n, k, g);
    }
  }

  /** Silencing one contiguous chunk of slots, `done` frames into a fill that starts at count `first`. */
  lemma ChunkSilences(o: seq<Frame>, a: seq<Frame>, b: seq<Frame>, first: nat, done: nat, n: nat, ofs: nat, silent: Frame, g: Geometry)
    requires 0 < g.buffer == |o| == |a| == |b| && done + n <= g.buffer && ofs + n <= g.buffer
    requires ofs == Slot(first + done, g) || n == 0
    requires Silenced(a, first, first + done, silent, g) && SameSlots(o, a, first + done, first + g.buffer, g)
    requires forall j :: 0 <= j < g.buffer ==> b[j] == if ofs <= j < ofs + n then silent else a[j]
    ensures Silenced(b, first, first + done + n, silent, g)
    ensures SameSlots(o, b, first + done + n, first + g.buffer, g)
  {
    forall k | first + done <= k < first + done + n ensures Slot(k, g) == ofs + (k - first - done) {
      ModStep(first + done, k - first - done, g.buffer);
    }
    forall k | first + done + n <= k < first + g.buffer ensures !(ofs <= Slot(k, g) < ofs + n) {
      if ofs <= Slot(k, g) < ofs + n {
        SlotsDiffer(first + done + (Slot(k, g) - ofs), k, g);
      }
    }
  }

  /** Frames between two wrapped pointers that are less than a buffer apart. */
  method Elapsed(newPtr: nat, oldPtr: nat, g: Geometry, ghost h: nat, ghost next: nat) returns (frames: int)
    requires ValidGeometry(g) && h <= next < h + g.buffer && oldPtr == Wrap(h, g) && newPtr == Wrap(next, g)
    ensures frames == next - h
  {
    ModStep(h, next - h, g.boundary);
    frames := Difference(newPtr, oldPtr, g);
    if frames < 0 {
      frames := frames + g.boundary;
    }
  }

  lemma WrapSum(h: nat, d: nat, g: Geometry)
    requires ValidGeometry(g) && d < g.boundary
    ensures (Wrap(h, g) + d) % g.boundary == Wrap(h + d, g)
  {
    Euclid(h, g.boundary);
    EuclidUnique(Wrap(h, g), g.boundary, 0, Wrap(h, g));
    ModStep(h, d, g.boundary);
    ModStep(Wrap(h, g), d, g.boundary);
  }

  /** A chunk that ends at the end of the buffer is followed by slot 0. */
  lemma SlotAtEnd(n: nat, d: nat, g: Geometry)
    requires g.buffer > 0 && Slot(n, g) + d == g.buffer
    ensures Slot(n + d, g) == 0
  {
    Euclid(n, g.buffer);
    EuclidUnique(n + d, g.buffer, n / g.buffer + 1, 0);
  }

  lemma SamePointer(h: nat, next: nat, g: Geometry)
    requires ValidGeometry(g) && h <= next < h + g.buffer
    ensures Wrap(h, g) == Wrap(next, g) <==> h == next
  {
    ModStep(h, next - h, g.boundary);
  }

  /** What the buffer happens to contain for the next `m` counts. */
  ghost function Skipped(area: seq<Frame>, n: nat, m: nat, g: Geometry): (s: seq<Frame>)
    requires 0 < g.buffer == |area|
    ensures |s| == m && forall i :: 0 <= i < m ==> s[i] == area[Slot(n + i, g)]
  {
    seq(m, i requires 0 <= i < m => area[Slot(n + i, g)])
  }

  lemma HoldsSkipped(area: seq<Frame>, frames: seq<Frame>, lo: nat, m: nat, g: Geometry)
    requires Holds(area, frames, lo, |frames|, g) && |frames| + m <= lo + g.buffer
    ensures Holds(area, frames + Skipped(area, |frames|, m, g), lo, |frames| + m, g)
  {
    var n := |frames|;
    var t := frames + Skipped(area, n, m, g);
    forall k | n <= k < n + m ensures area[Slot(k, g)] == t[k] {
      assert t[k] == area[Slot(n + (k - n), g)];
    }
  }

  /** Frames held above `n` are part of the silence around them exactly if they are silent. */
  lemma SilentUnlessLittered(area: seq<Frame>, frames: seq<Frame>, h: nat, n: nat, silent: Frame, g: Geometry)
    requires n <= |frames| <= h + g.buffer && Holds(area, frames, h, |frames|, g)
    ensures Silenced(area, Max(h, |frames|), h + g.buffer, silent, g) ==>
              (Silenced(area, Max(h, n), h + g.buffer, silent, g) <==>
               !exists k :: Max(h, n) <= k < |frames| && frames[k] != silent)
  {
    if k :| Max(h, n) <= k < |frames| && frames[k] != silent {
      assert area[Slot(k, g)] == frames[k];
    }
  }

  /** Skipping on over what the buffer contains keeps the pending frames, and the silence further on. */
  lemma SkipOn(area: seq<Frame>, frames: seq<Frame>, lo: nat, m: nat, quiet: bool, silent: Frame, g: Geometry)
    returns (longer: seq<Frame>)
    requires Holds(area, frames, lo, |frames|, g) && |frames| + m <= lo + g.buffer
    requires quiet ==> Silenced(area, Max(lo, |frames|), lo + g.buffer, silent, g)
    ensures frames <= longer && |longer| == |frames| + m && longer[..|longer|] == longer
    ensures Holds(area, longer, lo, |longer|, g)
    ensures quiet ==> Silenced(area, Max(lo, |longer|), lo + g.buffer, silent, g)
  {
    longer := frames + Skipped(area, |frames|, m, g);
    HoldsSkipped(area, frames, lo, m, g);
  }

  /** Taking the buffer as it is for the past. */
  lemma SkippedHolds(area: seq<Frame>, lo: nat, n: nat, g: Geometry)
    requires 0 < g.buffer == |area| && n <= lo + g.buffer
    ensures Holds(area, Skipped(area, 0, n, g), lo, n, g)
  {
    forall k | lo <= k < n ensures area[Slot(k, g)] == Skipped(area, 0, n, g)[k] {
      assert Skipped(area, 0, n, g)[k] == area[Slot(0 + k, g)];
    }
  }

  lemma SlotInRow(n: nat, d: nat, g: Geometry)
    requires g.buffer > 0 && Slot(n, g) + d < g.buffer
    ensures Slot(n + d, g) == Slot(n, g) + d
  {
    ModStep(n, d, g.buffer);
  }

  /** The oldest frame gives way to the newest. */
  lemma HoldsRoll(area: seq<Frame>, stream: seq<Frame>, f: Frame, g: Geometry)
    requires |stream| >= g.buffer && Holds(area, stream, |stream| - g.buffer, |stream|, g)
    ensures Holds(area[Slot(|stream|, g) := f], stream + [f], |stream| + 1 - g.buffer, |stream| + 1, g)
  {
    assert Holds(area, stream, |stream| - g.buffer + 1, |stream|, g);
    HoldsAppend(area, stream, |stream| - g.buffer + 1, f, g);
  }

  lemma WrapForward(n: nat, d: nat, g: Geometry)
    requires ValidGeometry(g) && d < g.boundary
    ensures Wrap(n + d, g) == if Wrap(n, g) + d >= g.boundary then Wrap(n, g) + d - g.boundary else Wrap(n, g) + d
  {
    ModStep(n, d, g.boundary);
  }

  lemma WrapBack(n: nat, d: nat, g: Geometry)
    requires ValidGeometry(g) && d <= g.buffer && d <= n
    ensures Wrap(n - d, g) == if Wrap(n, g) - d < 0 then Wrap(n, g) - d + g.boundary else Wrap(n, g) - d
  {
    ModBack(n, d, g.boundary);
  }

  /** Counting afresh from the boundary: position `s` of the buffer. */
  lemma CountAfresh(s: nat, d: nat, g: Geometry)
    requires ValidGeometry(g) && s < g.buffer
    ensures Slot(g.boundary + s, g) == s && Wrap(g.boundary + s, g) == s && Base(g.boundary + s, g) == 0
    ensures Slot(g.boundary + s + d, g) == (s + d) % g.buffer
  {
    Euclid(g.boundary, g.buffer);
    EuclidUnique(g.boundary + s, g.buffer, g.boundary / g.buffer, s);
    EuclidUnique(g.boundary + s, g.boundary, 1, s);
    Euclid(s + d, g.buffer);
    var q := g.boundary / g.buffer + (s + d) / g.buffer;
    assert q * g.buffer == (g.boundary / g.buffer) * g.buffer + ((s + d) / g.buffer) * g.buffer;
    EuclidUnique(g.boundary + s + d, g.buffer, q, (s + d) % g.buffer);
  }

  lemma SlotSum(n: nat, d: nat, g: Geometry)
    requires g.buffer > 0
    ensures (Slot(n, g) + d) % g.buffer == Slot(n + d, g)
  {
    Euclid(n, g.buffer);
    Euclid(Slot(n, g) + d, g.buffer);
    var q := n / g.buffer + (Slot(n, g) + d) / g.buffer;
    assert q * g.buffer == (n / g.buffer) * g.buffer + ((Slot(n, g) + d) / g.buffer) * g.buffer;
    EuclidUnique(n + d, g.buffer, q, (Slot(n, g) + d) % g.buffer);
  }

  /** The part of a playback stream that a transfer is judged by. */
  datatype Tally = Tally(appl: nat, stream: seq<Frame>, quiet: bool, started: bool, drowned: nat, spoilt: nat, torn: nat, late: nat)

  ghost predicate StartsBetween(started: bool, started': bool, drowned: nat, drowned': nat, silenced: bool) {
    && (started ==> started')
    && (drowned' == drowned || (drowned' == drowned + 1 && silenced && !started && started'))
  }

  /** What copying leaves alone, and what it may cost. */
  ghost predicate CopiedBetween(a: Tally, b: Tally, silenced: bool) {
    && b.appl == a.appl && b.stream == a.stream && b.spoilt == a.spoilt && b.torn == a.torn
    && b.late >= a.late && (b.late == a.late && a.quiet ==> b.quiet)
    && StartsBetween(a.started, b.started, a.drowned, b.drowned, silenced)
  }

  ghost predicate AcceptedBetween(a: Tally, b: Tally, data: seq<Frame>, silent: Frame, silenced: bool) {
    && b.appl == a.appl + |data| && Took(a.stream, b.stream, data, silent)
    && StartsBetween(a.started, b.started, a.drowned, b.drowned, silenced) && 0 <= b.spoilt - a.spoilt <= b.drowned - a.drowned
    && (b.spoilt == a.spoilt <==> b.stream == a.stream + data)
    && b.late >= a.late && b.torn >= a.torn && (b.late == a.late && b.torn == a.torn && a.quiet ==> b.quiet)
  }

  /** Exactly what was given, unless a start hit it. */
  ghost predicate Exact(a: Tally, b: Tally, data: seq<Frame>) {
    b.stream == a.stream + data <==> b.drowned == a.drowned
  }

  /** Two transfers after each other are one of all the data. */
  lemma AcceptedOn(a: Tally, b: Tally, c: Tally, data: seq<Frame>, n: nat, m: nat, silent: Frame, silenced: bool)
    requires n + m <= |data|
    requires AcceptedBetween(a, b, data[..n], silent, silenced) && AcceptedBetween(b, c, data[n..][..m], silent, silenced)
    ensures AcceptedBetween(a, c, data[..n + m], silent, silenced)
    ensures Exact(a, b, data[..n]) && Exact(b, c, data[n..][..m]) ==> Exact(a, c, data[..n + m])
  {
    TookOn(a.stream, b.stream, c.stream, data, n, m, silent);
  }

  // ---------------------------------------------------------------- the runtime

  class Runtime {
    const g: Geometry
    const playback: bool
    const align: nat          // frames, `min_align`
    const silent: Frame
    const silenceSize: nat
    const availMin: nat
    const startThreshold: nat
    const stopThreshold: nat
    const area: array<Frame>  // the DMA buffer

    var state: State
    var hwPtr: nat
    var hwPtrBase: nat
    var hwPtrInterrupt: nat
    var applPtr: nat
    var silenceStart: nat
    var silenceFilled: nat

    // Unbounded counts. The code decides nothing by them; they say where the device is and what the
    // wrapped pointers stand for.
    var dev: nat                    // frames the device itself has been through
    var hw: nat                     // frames the driver knows it has been through
    var appl: nat                   // frames the application has been through
    var armed: bool                 // silence filling has been started
    var started: bool               // the stream has been started since it was prepared
    ghost var stream: seq<Frame>    // all frames that entered the buffer, by count
    ghost var buffered: seq<Frame>  // on playback, the stream and the frames of a write in progress
    ghost var quiet: bool           // nothing but silence outside the frames buffered
    ghost var hit: bool             // a fill has silenced a frame of the write in progress that was not silent
    ghost var drowned: nat          // such fills, each made by a start
    ghost var spoilt: nat           // chunks committed after such a hit
    ghost var torn: nat             // writes given up with a frame in the buffer that is not silent
    ghost var overruns: nat         // captured frames overwritten before they were read
    ghost var late: nat             // frames stored behind the hardware

    ghost predicate Pointers()
      reads this`hwPtr, this`hwPtrBase, this`hwPtrInterrupt, this`applPtr, this`hw, this`dev, this`appl
    {
      && ValidGeometry(g) && align > 0 && area.Length == g.buffer
      && hwPtr == Wrap(hw, g) && hwPtrBase == Base(hw, g) && applPtr == Wrap(appl, g) && hwPtrInterrupt < g.boundary
      && hw <= dev < hw + g.buffer && g.boundary <= hw && Slot(hw, g) % align == 0
      && (silenceSize == 0 || silenceSize >= g.boundary)
    }

    /** Playback: every frame stored that the driver has not seen played is in its slot. The device may be ahead of the
        application, by less than what the wrapped pointers can tell. */
    ghost predicate PlaybackRing()
      reads this`hw, this`dev, this`appl, this`hwPtr, this`hwPtrBase, this`hwPtrInterrupt, this`applPtr, this`buffered, this`stream, this`hit, area
      requires Pointers()
    {
      PlaybackCounts() && Holds(area[..], buffered, hw, |buffered|, g)
    }

    ghost predicate PlaybackCounts()
      reads this`hw, this`dev, this`appl, this`hwPtr, this`hwPtrBase, this`hwPtrInterrupt, this`applPtr, this`buffered, this`stream, this`hit
      requires Pointers()
    {
      && appl <= |buffered| <= hw + g.buffer && dev + g.buffer < appl + g.boundary
      && stream == buffered[..appl] && (hit ==> |buffered| > appl)
    }

    /** Outside the frames buffered, behind the hardware or ahead of both, there is silence. */
    ghost predicate Quietness()
      reads this`hw, this`dev, this`appl, this`hwPtr, this`hwPtrBase, this`hwPtrInterrupt, this`applPtr, this`buffered, this`quiet, this`armed, this`silenceFilled, area
      requires Pointers()
    {
      && (quiet ==> armed && Silenced(area[..], Max(hw, |buffered|), hw + g.buffer, silent, g))
      && (armed ==> silenceFilled == g.buffer && silenceSize > 0)
    }

    /** A stream runs if it has been started, and is prepared only as long as it has not been. */
    ghost predicate Lifecycle()
      reads this`state, this`started, this`armed
    {
      && (state.Running? || state.Draining? ==> started)
      && (started ==> !state.Prepared?)
      && (started && playback && silenceSize > 0 ==> armed)
    }

    /** Capture: the last buffer of frames is in its slots. The device may have overwritten frames not yet read. */
    ghost predicate CaptureRing()
      reads this`hw, this`dev, this`appl, this`hwPtr, this`hwPtrBase, this`hwPtrInterrupt, this`applPtr, this`stream, area
      requires Pointers()
    {
      && appl <= hw && dev < appl + g.boundary
      && |stream| == dev && Holds(area[..], stream, dev - g.buffer, dev, g)
    }

    ghost predicate ValidPlayback()
      reads this, area
    {
      playback && Pointers() && Lifecycle() && PlaybackRing() && Quietness()
    }

    ghost predicate ValidCapture()
      reads this, area
    {
      !playback && Pointers() && Lifecycle() && CaptureRing()
    }

    ghost predicate Valid()
      reads this, area
    {
      ValidPlayback() || ValidCapture()
    }

    /** No write is in progress. */
    ghost predicate Settled()
      reads this`buffered, this`appl
    {
      playback ==> |buffered| == appl
    }

    /** Frames the application can transfer, as the code computes it. */
    function Avail(): int
      reads this
    {
      if playback then PlaybackAvail(hwPtr, applPtr, g) else CaptureAvail(hwPtr, applPtr, g)
    }

    function HwAvail(): int
      reads this
    {
      g.buffer - Avail()
    }

    /** The computed number is the true distance between application and hardware, also when the hardware has passed
        the application. */
    lemma AvailExact()
      requires Valid()
      ensures Avail() == if playback then hw + g.buffer - appl else hw - appl
      ensures 0 <= Avail() < g.boundary
    {
      if playback { PlaybackAvailExact(hw, appl, g); } else { CaptureAvailExact(hw, appl, g); }
    }

    /** A stream that has just been prepared: all counts one lap from zero, so that rewinding at the
        very start stays in range, and whatever the buffer contained as the past. */
    constructor (g: Geometry, playback: bool, align: nat, silent: Frame, silenceSize: nat, availMin: nat,
                 startThreshold: nat, stopThreshold: nat, area: array<Frame>)
      requires ValidGeometry(g) && align > 0 && area.Length == g.buffer
      requires silenceSize == 0 || silenceSize >= g.boundary
      ensures Valid() && Settled() && state == Prepared && hw == appl == dev == g.boundary && !quiet && !started
      ensures this.g == g && this.playback == playback && this.area == area && this.silenceSize == silenceSize
      ensures this.availMin == availMin && this.align == align && this.silent == silent
      ensures this.startThreshold == startThreshold && this.stopThreshold == stopThreshold
      ensures drowned == spoilt == torn == late == 0
    {
      this.g, this.playback, this.align, this.silent, this.silenceSize := g, playback, align, silent, silenceSize;
      this.availMin, this.startThreshold, this.stopThreshold := availMin, startThreshold, stopThreshold;
      this.area := area;
      state, hwPtr, hwPtrBase, hwPtrInterrupt, applPtr := Prepared, 0, 0, 0, 0;
      silenceStart, silenceFilled := 0, 0;
      dev, hw, appl := g.boundary, g.boundary, g.boundary;
      stream := Skipped(area[..], 0, g.boundary, g);
      buffered := stream;
      armed, started, quiet, hit := false, false, false, false;
      drowned, spoilt, torn, overruns, late := 0, 0, 0, 0, 0;
      new;
      CountAfresh(0, 0, g);
    }

    // -------------------------------------------------------------- silence

    method SetSilence(ofs: nat, n: nat)
      requires ofs + n <= area.Length
      modifies area
      ensures forall j :: 0 <= j < area.Length ==> area[j] == if ofs <= j < ofs + n then silent else old(area[j])
    {
      for i := 0 to n
        invariant forall j :: 0 <= j < area.Length ==> area[j] == if ofs <= j < ofs + i then silent else old(area[j])
      {
        area[ofs + i] := silent;
      }
    }

    /** The fill loop: `frames` slots from `silenceStart` on, in at most two chunks, none across the end. */
    method FillSilence(frames: nat, ghost first: nat)
      requires 0 < g.buffer == area.Length && frames <= g.buffer && silenceStart % g.buffer == Slot(first, g)
      modifies area, this`silenceFilled
      ensures Silenced(area[..], first, first + frames, silent, g)
      ensures SameSlots(old(area[..]), area[..], first + frames, first + g.buffer, g)
      ensures silenceFilled == old(silenceFilled) + frames
    {
      var left, ofs := frames, silenceStart % g.buffer;
      ghost var done := 0;
      while left > 0
        invariant left >= 0 && done + left == frames && silenceFilled == old(silenceFilled) + done
        invariant left > 0 ==> ofs == Slot(first + done, g)
        invariant Silenced(area[..], first, first + done, silent, g)
        invariant SameSlots(old(area[..]), area[..], first + done, first + g.buffer, g)
        decreases left
      {
        var transfer := if ofs + left > g.buffer then g.buffer - ofs else left;
        ghost var a := area[..];
        SetSilence(ofs, transfer);
        ChunkSilences(old(area[..]), a, area[..], first, done, transfer, ofs, silent, g);
        silenceFilled := silenceFilled + transfer;
        left := left - transfer;
        if left > 0 { SlotAtEnd(first + done, transfer, g); }
        ofs := 0;
        done := done + transfer;
      }
    }

    /** `snd_pcm_playback_silence` in full-silence mode, for a hardware that has reached `next`: what was
        played since the last call, and as much as was missing before, becomes silent. */
    method PlaybackSilence(newHwPtr: nat, ghost next: nat)
      requires Pointers() && silenceSize > 0 && silenceFilled <= g.buffer
      requires hw <= next < hw + g.buffer && newHwPtr == Wrap(next, g)
      modifies area, this`silenceFilled, this`silenceStart
      ensures silenceFilled == g.buffer
      ensures var rest := old(silenceFilled) - (next - hw);
              if rest >= 0 then
                Silenced(area[..], hw, hw + g.buffer - rest, silent, g) &&
                SameSlots(old(area[..]), area[..], hw + g.buffer - rest, hw + g.buffer, g)
              else
                Silenced(area[..], next, next + g.buffer, silent, g)
    {
      var ofs := hwPtr;
      var frames := Elapsed(newHwPtr, ofs, g, hw, next);
      var filled := silenceFilled - frames;
      if filled < 0 {
        silenceFilled := 0;
        silenceStart := newHwPtr;
      } else {
        silenceFilled := filled;
        silenceStart := ofs;
      }
      frames := g.buffer - silenceFilled;
      BaseFits(hw, g);
      BaseFits(next, g);
      FillSilence(frames, if filled < 0 then next else hw);
    }

    /** `snd_pcm_playback_silence` at the start of the stream: everything but the frames committed and not yet played
        becomes silent. Frames of a write in progress are lost; a hardware past the application leaves no frame. */
    method SilenceAtStart()
      requires Pointers() && playback && PlaybackRing() && silenceSize > 0
      modifies area, this`silenceFilled, this`silenceStart, this`armed, this`quiet, this`buffered, this`hit, this`drowned
      ensures Pointers() && PlaybackRing() && Quietness() && armed && StartEffect(true)
    {
      FillOutside();
      armed := true;
      DrownFlight();
    }

    /** The frames in flight are silence now, and that is counted if it makes a difference. */
    ghost method DrownFlight()
      requires Pointers() && PlaybackCounts() && armed && silenceFilled == g.buffer && playback && silenceSize > 0
      requires Holds(area[..], stream + Silence(|buffered| - appl, silent), hw, |buffered|, g)
      requires Silenced(area[..], Max(hw, |buffered|), hw + g.buffer, silent, g)
      modifies this`quiet, this`buffered, this`hit, this`drowned
      ensures PlaybackRing() && Quietness() && StartEffect(true)
    {
      var left := CountHit();
      Drown(left);
    }

    /** What is left of the frames buffered, and whether that is worth counting. */
    ghost method CountHit() returns (left: seq<Frame>)
      requires Pointers() && PlaybackCounts()
      modifies this`hit, this`drowned
      ensures PlaybackCounts() && |left| == |buffered| && left[..appl] == stream
      ensures left == stream + Silence(|buffered| - appl, silent) && (Exposed() <==> buffered != left)
      ensures hit == (old(hit) || Exposed()) && drowned == old(drowned) + if Exposed() then 1 else 0
    {
      left := stream + Silence(|buffered| - appl, silent);
      SilenceDrowns(buffered, appl, silent);
      hit, drowned := hit || Exposed(), drowned + if Exposed() then 1 else 0;
    }

    ghost method Drown(left: seq<Frame>)
      requires Pointers() && PlaybackCounts() && armed && silenceFilled == g.buffer && silenceSize > 0
      requires |left| == |buffered| && left[..appl] == stream && Holds(area[..], left, hw, |buffered|, g)
      requires Silenced(area[..], Max(hw, |buffered|), hw + g.buffer, silent, g)
      modifies this`quiet, this`buffered
      ensures PlaybackRing() && Quietness() && quiet && buffered == left
    {
      buffered, quiet := left, true;
    }

    /** A write is in progress and has stored a frame that is not silent. */
    ghost predicate Exposed()
      reads this`buffered, this`appl
    {
      exists k :: appl <= k < |buffered| && buffered[k] != silent
    }

    /** The fill of the start: from the application on, or from the hardware if that has passed it. */
    method FillOutside()
      requires Pointers() && playback && PlaybackRing() && silenceSize > 0
      modifies area, this`silenceFilled, this`silenceStart
      ensures silenceFilled == g.buffer
      ensures Holds(area[..], stream + Silence(|buffered| - appl, silent), hw, |buffered|, g)
      ensures Silenced(area[..], Max(hw, |buffered|), hw + g.buffer, silent, g)
    {
      PlaybackAvailExact(hw, appl, g);
      var avail := HwAvail();
      silenceFilled := if avail > 0 then avail else 0;
      silenceStart := (hwPtr + silenceFilled) % g.boundary;
      WrapSum(hw, silenceFilled, g);
      ghost var a, first := area[..], hw + silenceFilled;
      BaseFits(first, g);
      FillSilence(g.buffer - silenceFilled, first);
      SameSlotsShift(a, area[..], hw, first, g);
      FillDrowns(a, area[..], buffered, hw, appl, first, silent, g);
    }

    // -------------------------------------------------------------- pointer updates

    /** In counts. A draining stream is set up when nothing is pending on playback, or a buffer is unread on capture;
        any other is in xrun when its distance has reached the stop threshold. Both break the pipe, and nothing else
        does or changes the state. */
    ghost predicate Judged(s: State, s': State, ret: int)
      reads this`hw, this`appl
    {
      var avail := if playback then hw + g.buffer - appl else hw - appl;
      if s.Draining? then
        if avail >= g.buffer then s' == Setup && ret == PIPE else s' == Draining && ret == 0
      else
        if avail >= stopThreshold then s' == Xrun && ret == PIPE else s' == s && ret == 0
    }

    /** `snd_pcm_update_hw_ptr_post` */
    method UpdatePost() returns (ret: int)
      requires Valid()
      modifies this`state
      ensures Valid() && Judged(old(state), state, ret)
    {
      var avail := Avail();
      AvailExact();
      if state == Draining {
        if avail >= g.buffer {
          state := Setup;
          return PIPE;
        }
      } else if avail >= stopThreshold {
        state := Xrun;
        return PIPE;
      }
      return 0;
    }

    /** The playback half of an update: what was played becomes silent, what is pending stays. */
    method SilencePlayed(newPtr: nat, ghost next: nat)
      requires Valid() && playback && (silenceSize > 0 ==> armed) && hw <= next <= dev && newPtr == Wrap(next, g)
      modifies this`silenceFilled, this`silenceStart, area
      ensures armed ==> silenceFilled == g.buffer
      ensures Holds(area[..], buffered, next, |buffered|, g)
      ensures quiet ==> Silenced(area[..], Max(next, |buffered|), next + g.buffer, silent, g)
      ensures SameSlots(old(area[..]), area[..], next, hw + g.buffer, g)
    {
      ghost var a := area[..];
      if silenceSize > 0 {
        PlaybackSilence(newPtr, next);
        PlayedSilenced(a, area[..], buffered, hw, next, quiet, silent, g);
      }
    }

    /** The assignments themselves. The base is only written when the pointer moves. */
    method SetPointers(newBase: nat, newPtr: nat, newMark: nat, next: nat) returns (moved: bool)
      requires Pointers() && hw <= next <= dev && Slot(next, g) % align == 0
      requires newBase == Base(next, g) && newPtr == Wrap(next, g) && newMark < g.boundary
      requires if playback then
                 PlaybackCounts() && Holds(area[..], buffered, next, |buffered|, g) &&
                 (quiet ==> armed && Silenced(area[..], Max(next, |buffered|), next + g.buffer, silent, g)) &&
                 (armed ==> silenceFilled == g.buffer && silenceSize > 0)
               else CaptureRing()
      requires Lifecycle()
      modifies this`hwPtr, this`hwPtrBase, this`hwPtrInterrupt, this`hw
      ensures Valid() && hw == next && hwPtrInterrupt == newMark
      ensures moved <==> next != old(hw)
    {
      SamePointer(hw, next, g);
      hwPtrInterrupt := newMark;
      moved := hwPtr != newPtr;
      if moved {
        hwPtrBase, hwPtr, hw := newBase, newPtr, next;
      }
    }

    /** `xrun`, as far as the ring is concerned. */
    method EnterXrun()
      requires Valid()
      modifies this`state
      ensures Valid() && state == Xrun
    {
      state := Xrun;
    }

    /** The common tail of both updates: move the mark, silence what was played, move the pointer. */
    method MovePointers(newBase: nat, newPtr: nat, newMark: nat, next: nat) returns (ret: int)
      requires Valid() && (playback && silenceSize > 0 ==> armed)
      requires hw <= next <= dev && Slot(next, g) % align == 0 && newBase == Base(next, g) && newPtr == Wrap(next, g)
      requires newMark < g.boundary
      modifies this`state, this`hwPtr, this`hwPtrBase, this`hwPtrInterrupt, this`hw, this`silenceFilled, this`silenceStart, area
      ensures Valid() && hw == next && hwPtrInterrupt == newMark
      ensures playback ==> SameSlots(old(area[..]), area[..], hw, old(hw) + g.buffer, g)
      ensures !playback ==> area[..] == old(area[..])
      ensures if next == old(hw) then state == old(state) && ret == 0 else Judged(old(state), state, ret)
    {
      var moved := MoveSilently(newBase, newPtr, newMark, next);
      if !moved {
        return 0;
      }
      ret := UpdatePost();
    }

    /** Silence what was played, then move the pointer. */
    method MoveSilently(newBase: nat, newPtr: nat, newMark: nat, next: nat) returns (moved: bool)
      requires Valid() && (playback && silenceSize > 0 ==> armed)
      requires hw <= next <= dev && Slot(next, g) % align == 0 && newBase == Base(next, g) && newPtr == Wrap(next, g)
      requires newMark < g.boundary
      modifies this`hwPtr, this`hwPtrBase, this`hwPtrInterrupt, this`hw, this`silenceFilled, this`silenceStart, area
      ensures Valid() && hw == next && hwPtrInterrupt == newMark && (moved <==> next != old(hw))
      ensures playback ==> SameSlots(old(area[..]), area[..], hw, old(hw) + g.buffer, g)
      ensures !playback ==> area[..] == old(area[..])
    {
      if playback {
        SilencePlayed(newPtr, next);
      }
      moved := SetPointers(newBase, newPtr, newMark, next);
    }

    /** `snd_pcm_update_hw_ptr`: the driver's count becomes what the device reports. */
    method UpdateHwPtr(p: Position) returns (ret: int)
      requires Valid() && (playback && silenceSize > 0 ==> armed) && (p.At? ==> p.raw == Slot(dev, g))
      modifies this`state, this`hwPtr, this`hwPtrBase, this`hwPtrInterrupt, this`hw, this`silenceFilled, this`silenceStart, area
      ensures Valid() && hw >= old(hw) && hwPtrInterrupt == old(hwPtrInterrupt)
      ensures p.At? ==> hw == Reported(dev, align, g)
      ensures p.At? && hw == old(hw) ==> state == old(state) && ret == 0
      ensures p.At? && hw != old(hw) ==> Judged(old(state), state, ret)
      ensures p.At? && hw != old(hw) && !old(state).Draining? && stopThreshold == g.buffer ==>
                (ret == PIPE && state == Xrun <==> if playback then hw >= appl else hw >= appl + g.buffer)
      ensures p.RanDry? ==> hw == old(hw) && state == Xrun && ret == PIPE && area[..] == old(area[..])
      ensures playback ==> SameSlots(old(area[..]), area[..], hw, old(hw) + g.buffer, g)
      ensures !playback ==> area[..] == old(area[..])
    {
      if p.RanDry? {
        EnterXrun();
        return PIPE;
      }
      var next := Reported(dev, align, g);
      ReportedPosition(hw, dev, align, g);
      var pos := Sanitized(p.raw, align, g);
      var ok, newBase, newPtr := Follow(hwPtr, hwPtrBase, pos, g, hw, next);
      if !ok {
        return 0;
      }
      ret := MovePointers(newBase, newPtr, hwPtrInterrupt, next);
    }

    /** How far the device is ahead of the driver's count. */
    function Lag(): nat
      reads this
      requires ValidGeometry(g) && align > 0
    {
      var next := Reported(dev, align, g);
      if next > hw then next - hw else 0
    }

    /** How late a period interrupt is now, and what it would do. */
    function Tardiness(): int
      reads this
      requires ValidGeometry(g) && align > 0
    {
      Lateness(hwPtr, hwPtrBase, hwPtrInterrupt, Lag(), g)
    }

    function InterruptVerdict(): Verdict
      reads this
      requires ValidGeometry(g) && align > 0
    {
      VerdictAt(hwPtr, hwPtrBase, hwPtrInterrupt, Lag(), g, Periods(g))
    }

    /** What a period interrupt does that is not ignored. */
    twostate predicate Followed(ret: int)
      reads this
      requires ValidGeometry(g) && align > 0
    {
      && hw == Reported(dev, align, g) && hwPtrInterrupt == NextMark(old(hwPtrInterrupt), hwPtr, old(Tardiness()), g)
      && (if hw == old(hw) then state == old(state) && ret == 0 else Judged(old(state), state, ret))
    }

    /** What one does that is. */
    twostate predicate Ignored(ret: int)
      reads this, area
    {
      && ret == 0 && hw == old(hw) && hwPtrInterrupt == old(hwPtrInterrupt) && state == old(state) && area[..] == old(area[..])
    }

    /** `snd_pcm_update_hw_ptr_interrupt`: the same at a period interrupt, which also moves the mark; or nothing at all,
        for an interrupt that is ignored. In the two remaining cases the pointer would land a buffer off. */
    method UpdateHwPtrInterrupt(p: Position) returns (ret: int)
      requires Valid() && (playback && silenceSize > 0 ==> armed) && (p.At? ==> p.raw == Slot(dev, g))
      requires p.At? ==> InterruptVerdict() == Follows || InterruptVerdict() == Skips
      modifies this`state, this`hwPtr, this`hwPtrBase, this`hwPtrInterrupt, this`hw, this`silenceFilled, this`silenceStart, area
      ensures Valid() && hw >= old(hw)
      ensures p.RanDry? ==> hw == old(hw) && hwPtrInterrupt == old(hwPtrInterrupt) && state == Xrun && ret == PIPE && area[..] == old(area[..])
      ensures p.At? && old(InterruptVerdict()) == Skips ==> Ignored(ret)
      ensures p.At? && old(InterruptVerdict()) == Follows ==> Followed(ret)
      ensures playback ==> SameSlots(old(area[..]), area[..], hw, old(hw) + g.buffer, g)
      ensures !playback ==> area[..] == old(area[..])
    {
      if p.RanDry? {
        EnterXrun();
        ret := PIPE;
      } else {
        ret := FollowAtInterrupt(p.raw);
      }
    }

    method FollowAtInterrupt(raw: nat) returns (ret: int)
      requires Valid() && (playback && silenceSize > 0 ==> armed) && raw == Slot(dev, g)
      requires InterruptVerdict() == Follows || InterruptVerdict() == Skips
      modifies this`state, this`hwPtr, this`hwPtrBase, this`hwPtrInterrupt, this`hw, this`silenceFilled, this`silenceStart, area
      ensures Valid() && hw >= old(hw)
      ensures old(InterruptVerdict()) == Skips ==> Ignored(ret)
      ensures old(InterruptVerdict()) == Follows ==> Followed(ret)
      ensures playback ==> SameSlots(old(area[..]), area[..], hw, old(hw) + g.buffer, g)
      ensures !playback ==> area[..] == old(area[..])
    {
      var ok, newBase, newPtr, newMark, next := Aim(raw);
      if !ok {
        return 0;
      }
      ret := MovePointers(newBase, newPtr, newMark, next);
    }

    /** Where the interrupt takes the pointer, if it is not ignored. */
    method Aim(raw: nat) returns (ok: bool, newBase: nat, newPtr: nat, newMark: nat, next: nat)
      requires Valid() && raw == Slot(dev, g)
      requires InterruptVerdict() == Follows || InterruptVerdict() == Skips
      ensures ok <==> InterruptVerdict() == Follows
      ensures next == Reported(dev, align, g) && hw <= next <= dev && Slot(next, g) % align == 0
      ensures ok ==> newBase == Base(next, g) && newPtr == Wrap(next, g) && newMark < g.boundary
      ensures ok ==> newMark == NextMark(hwPtrInterrupt, newPtr, Tardiness(), g)
    {
      next := Reported(dev, align, g);
      ReportedPosition(hw, dev, align, g);
      assert Lag() == next - hw;
      var pos := Sanitized(raw, align, g);
      ok, newBase, newPtr, newMark := FollowInterrupt(hwPtr, hwPtrBase, hwPtrInterrupt, pos, g, Periods(g), hw, next);
    }

    // -------------------------------------------------------------- the device and everybody else

    /** The device plays a frame: the next of the stream, or silence if there is none and the buffer is quiet. */
    method DevicePlays() returns (f: Frame)
      requires Valid() && playback && dev + 1 < hw + g.buffer && dev + 1 + g.buffer < appl + g.boundary
      modifies this`dev
      ensures Valid() && dev == old(dev) + 1
      ensures old(dev) < appl ==> f == stream[old(dev)]
      ensures old(dev) >= |buffered| && quiet ==> f == silent
    {
      f := area[dev % g.buffer];
      assert f == area[..][Slot(dev, g)];
      dev := dev + 1;
    }

    /** The device captures a frame, over the oldest one. */
    method DeviceCaptures(f: Frame)
      requires Valid() && !playback && dev + 1 < hw + g.buffer && dev + 1 < appl + g.boundary
      modifies this`dev, this`stream, this`overruns, area
      ensures Valid() && dev == old(dev) + 1 && stream == old(stream) + [f]
      ensures overruns == old(overruns) + if old(dev) >= appl + g.buffer then 1 else 0
    {
      HoldsRoll(area[..], stream, f, g);
      area[dev % g.buffer] := f;
      stream := stream + [f];
      overruns := overruns + if dev >= appl + g.buffer then 1 else 0;
      dev := dev + 1;
    }

    /** Somebody else moves the stream to another state, but neither starts nor prepares it. */
    method ChangeState()
      requires Valid()
      modifies this`state
      ensures Valid()
    {
      var s: State := *;
      if (s.Running? || s.Draining? ==> started) && (s.Prepared? ==> !started) {
        state := s;
      }
    }

    /** `snd_pcm_playback_data`: there is something to play, or the stream runs on regardless. */
    predicate HasData()
      reads this
    {
      stopThreshold >= g.boundary || Avail() < g.buffer
    }

    /** `snd_pcm_start`, on a driver that accepts the trigger or not. A write may be in progress. */
    method Start(accepts: bool) returns (err: int)
      requires Valid()
      modifies this`state, this`armed, this`started, this`silenceFilled, this`silenceStart, area
      modifies this`quiet, this`buffered, this`hit, this`drowned
      ensures Valid() && StartEffect(err == 0)
      ensures err == if !old(state).Prepared? then BADFD
                     else if playback && appl <= hw && stopThreshold < g.boundary then PIPE
                     else if accepts then 0 else IO
      ensures if err == 0 then state == Running && started else state == old(state) && started == old(started)
    {
      if state != Prepared {
        return BADFD;
      }
      AvailExact();
      if playback && !HasData() {
        return PIPE;
      }
      if !accepts {
        return IO;
      }
      PostStart(Running);
      return 0;
    }

    /** The start of a prepared playback stream by a drain, whatever its driver says. */
    method DrainStart() returns (started': bool)
      requires Valid()
      modifies this`state, this`armed, this`started, this`silenceFilled, this`silenceStart, area
      modifies this`quiet, this`buffered, this`hit, this`drowned
      ensures Valid() && StartEffect(started')
      ensures started' <==> playback && old(state).Prepared? && hw < appl
      ensures if started' then state == Draining && started else state == old(state) && started == old(started)
    {
      AvailExact();
      started' := playback && state == Prepared && Avail() < g.buffer;
      if started' {
        PostStart(Draining);
      }
    }

    /** `snd_pcm_post_start`: the stream runs, on a silent buffer if asked for. */
    method PostStart(target: State)
      requires Valid() && !started && (target.Running? || target.Draining?)
      modifies this`state, this`armed, this`started, this`silenceFilled, this`silenceStart, area
      modifies this`quiet, this`buffered, this`hit, this`drowned
      ensures Valid() && StartEffect(true) && state == target && started
    {
      if playback && silenceSize > 0 {
        SilenceAtStart();
      }
      SetRunning(target);
    }

    method SetRunning(target: State)
      requires Pointers() && (if playback then PlaybackRing() && Quietness() else CaptureRing())
      requires (playback && silenceSize > 0 ==> armed) && (target.Running? || target.Draining?)
      modifies this`state, this`started
      ensures Valid() && state == target && started
    {
      state, started := target, true;
    }

    /** What a start does to a write in progress: with silence filling, the frames stored become silent, and if one of
        them was not before, that is counted. */
    twostate predicate StartEffect(starts: bool)
      reads this`drowned, this`hit, this`quiet, this`buffered, this`stream, this`appl
    {
      var fills := starts && playback && silenceSize > 0;
      && drowned == old(drowned) + (if fills && old(Exposed()) then 1 else 0)
      && hit == (old(hit) || (fills && old(Exposed())))
      && (buffered != old(buffered) <==> fills && old(Exposed()))
      && (if fills then quiet && appl <= |old(buffered)| && buffered == stream + Silence(|old(buffered)| - appl, silent)
          else quiet == old(quiet))
    }

    /** Starts happen once between prepares, and only they hit a write: only on a silenced stream, and counted. */
    twostate predicate Starts()
      reads this`started, this`drowned
    {
      StartsBetween(old(started), started, old(drowned), drowned, playback && silenceSize > 0)
    }

    /** What holds across any activity of the device, its interrupts and other threads that do not themselves transfer
        frames or move the application pointer. A write in progress is intact, or it was hit by a start. */
    twostate predicate Interference()
      reads this`applPtr, this`appl, this`hw, this`quiet, this`late, this`spoilt, this`torn, this`overruns
      reads this`started, this`drowned, this`stream, this`buffered, this`hit, this`dev
    {
      && applPtr == old(applPtr) && appl == old(appl) && hw >= old(hw)
      && (old(quiet) ==> quiet) && late == old(late) && spoilt == old(spoilt) && torn == old(torn)
      && overruns >= old(overruns) && Starts()
      && (if playback then InterferedWrite() else InterferedRead())
    }

    twostate predicate InterferedWrite()
      reads this`stream, this`buffered, this`hit, this`drowned
    {
      && stream == old(stream) && Drowned(old(buffered), buffered, silent)
      && (buffered != old(buffered) <==> drowned > old(drowned))
      && hit == (old(hit) || drowned > old(drowned))
    }

    twostate predicate InterferedRead()
      reads this`stream, this`overruns, this`dev, this`appl
    {
      old(stream) <= stream && (overruns == old(overruns) && old(dev) <= appl + g.buffer ==> dev <= appl + g.buffer)
    }

    /** The position the device reports: the truth, or that it ran dry. */
    method ReadPosition() returns (p: Position)
      requires Valid()
      ensures p.At? ==> p.raw == Slot(dev, g)
    {
      if * { p := RanDry; } else { p := At(dev % g.buffer); }
    }

    /** One thing the rest of the system may do: move the device by a frame, poll, take a period interrupt, start the
        stream, or change its state otherwise. Period interrupts come when they do not misplace the pointer. */
    method InterfereOnce()
      requires Valid()
      modifies this, area
      ensures Valid() && Interference()
    {
      if * {
        DeviceMoves();
      } else if * {
        ChangeState();
      } else if * {
        StartElsewhere();
      } else if * {
        DrainElsewhere();
      } else if state.Running? || state.Draining? {
        var p := ReadPosition();
        var interrupt: bool := *;
        if interrupt && (p.RanDry? || InterruptVerdict() == Follows || InterruptVerdict() == Skips) {
          UpdateAtInterrupt(p);
        } else {
          UpdateAtPoll(p);
        }
      }
    }

    method DeviceMoves()
      requires Valid()
      modifies this`dev, this`stream, this`overruns, area
      ensures Valid() && Interference()
    {
      if playback {
        if dev + 1 < hw + g.buffer && dev + 1 + g.buffer < appl + g.boundary {
          var _ := DevicePlays();
        }
      } else if dev + 1 < hw + g.buffer && dev + 1 < appl + g.boundary {
        var f: Frame := *;
        DeviceCaptures(f);
      }
    }

    method StartElsewhere()
      requires Valid()
      modifies this`state, this`armed, this`started, this`silenceFilled, this`silenceStart, area
      modifies this`quiet, this`buffered, this`hit, this`drowned
      ensures Valid() && Interference()
    {
      var accepts: bool := *;
      var err := Start(accepts);
      StartInterferes(err == 0);
    }

    method DrainElsewhere()
      requires Valid()
      modifies this`state, this`armed, this`started, this`silenceFilled, this`silenceStart, area
      modifies this`quiet, this`buffered, this`hit, this`drowned
      ensures Valid() && Interference()
    {
      var starts := DrainStart();
      StartInterferes(starts);
    }

    twostate lemma StartInterferes(starts: bool)
      requires StartEffect(starts) && if starts then !old(started) && started else started == old(started)
      requires playback ==> |old(buffered)| >= appl && stream == old(buffered)[..appl]
      requires applPtr == old(applPtr) && appl == old(appl) && hw == old(hw) && dev == old(dev) && stream == old(stream)
      requires late == old(late) && spoilt == old(spoilt) && torn == old(torn) && overruns == old(overruns)
      ensures Interference()
    {
      if playback {
        SilenceDrowns(old(buffered), appl, silent);
      }
    }

    method UpdateAtPoll(p: Position)
      requires Valid() && (p.At? ==> p.raw == Slot(dev, g)) && (state.Running? || state.Draining?)
      modifies this`state, this`hwPtr, this`hwPtrBase, this`hwPtrInterrupt, this`hw, this`silenceFilled, this`silenceStart, area
      ensures Valid() && Interference()
      ensures state.Running? ==> hw == Reported(dev, align, g)
    {
      var _ := UpdateHwPtr(p);
    }

    method UpdateAtInterrupt(p: Position)
      requires Valid() && (p.At? ==> p.raw == Slot(dev, g)) && (state.Running? || state.Draining?)
      requires p.At? ==> InterruptVerdict() == Follows || InterruptVerdict() == Skips
      modifies this`state, this`hwPtr, this`hwPtrBase, this`hwPtrInterrupt, this`hw, this`silenceFilled, this`silenceStart, area
      ensures Valid() && Interference()
    {
      var _ := UpdateHwPtrInterrupt(p);
    }

    method Interfere()
      requires Valid()
      modifies this, area
      ensures Valid() && Interference()
    {
      var n: nat :| n >= 0;
      for i := 0 to n
        invariant Valid() && Interference()
      {
        InterfereOnce();
      }
    }

    /** An error of a transfer has its cause in the stream or outside. `-EAGAIN` is for a caller who does not want to wait
        although nothing can be transferred, on a running stream even after asking the device. */
    ghost predicate Excused(err: int, nonblock: bool, out: Outside)
      reads this`state, this`hw, this`appl, this`dev
      requires ValidGeometry(g) && align > 0
    {
      var avail := if playback then hw + g.buffer - appl else hw - appl;
      || err == 0
      || (err == AGAIN && nonblock && avail == 0 && (state.Running? ==> hw == Reported(dev, align, g)))
      || (err == PIPE && (state.Xrun? || (playback && state.Draining?)))
      || (err == STRPIPE && state.Suspended?)
      || (err == BADFD && (state.Open? || state.Setup? || state.Disconnected?))
      || (err == FAULT && out.faults)
      || (err == RESTARTSYS && !nonblock && out.signals)
      || (err == IO && !nonblock && (out.timeouts || avail < availMin))
    }

    /** `wait_for_avail_min`: sleep while the rest of the system runs, until enough is available, a signal or
        a timeout comes, or the stream has left the states in which waiting makes sense. */
    method WaitForAvail(out: Outside) returns (err: int, avail: int)
      requires Valid()
      modifies this, area
      ensures Valid() && Interference()
      ensures Excused(err, false, out)
      ensures err == 0 && avail != 0 ==> avail == Avail() && avail >= availMin
      ensures err == 0 && avail == 0 && availMin > 0 ==> !playback && state.Draining?
    {
      Interfere();
      avail := 0;
      var signal: bool, timeout: bool := *, *;
      if signal && out.signals {
        return RESTARTSYS, avail;
      }
      match state
      case Suspended => err := STRPIPE;
      case Xrun => err := PIPE;
      case Draining => err := if playback then PIPE else 0;
      case Open | Setup | Disconnected => err := BADFD;
      case Prepared | Running | Paused =>
        if timeout && out.timeouts {
          return IO, avail;
        }
        AvailExact();
        avail := Avail();
        err := if avail >= availMin then 0 else IO;  // woken too early, and then no more until the timeout
    }

    // -------------------------------------------------------------- writing

    /** One frame of a transfer in progress: it goes to a slot that holds nothing pending, though to a silent one if the
        hardware has already passed it. */
    method Store(f: Frame, slot: nat)
      requires Valid() && playback && |buffered| < hw + g.buffer && slot == Slot(|buffered|, g)
      modifies area, this`buffered, this`quiet, this`late
      ensures Valid() && buffered == old(buffered) + [f]
      ensures late == old(late) + (if |old(buffered)| < hw then 1 else 0)
      ensures quiet == (old(quiet) && |old(buffered)| >= hw)
    {
      ghost var a, n := area[..], |buffered|;
      StoreHolds(a, buffered, hw, f, quiet, silent, g);
      area[slot] := f;
      assert area[..] == a[slot := f];
      buffered, quiet := buffered + [f], quiet && n >= hw;
      late := late + if n < hw then 1 else 0;
    }

    /** Of the chunk being written, the first `i` frames are in the buffer, or hit. */
    ghost predicate InFlight(chunk: seq<Frame>, i: nat)
      reads this`stream, this`buffered, this`hit
    {
      i <= |chunk| && Flight(stream + chunk[..i], buffered, hit, silent)
    }

    /** What copying leaves alone, and what it may cost. */
    twostate predicate Copying()
      reads this`applPtr, this`appl, this`stream, this`hw, this`spoilt, this`torn, this`late, this`quiet, this`started, this`drowned, this`hit
    {
      && applPtr == old(applPtr) && appl == old(appl) && stream == old(stream) && hw >= old(hw)
      && spoilt == old(spoilt) && torn == old(torn) && late >= old(late) && (late == old(late) && old(quiet) ==> quiet)
      && Starts() && hit == (old(hit) || drowned > old(drowned))
    }

    /** Copying a chunk into a row of slots while the device and other threads keep going. */
    method CopyIn(chunk: seq<Frame>, ofs: nat, out: Outside) returns (err: int)
      requires Valid() && playback && Settled() && ofs == Slot(appl, g)
      requires ofs + |chunk| <= g.buffer && appl + |chunk| <= hw + g.buffer
      modifies this, area
      ensures Valid() && Copying() && (err == 0 || (err == FAULT && out.faults))
      ensures err == 0 ==> InFlight(chunk, |chunk|)
    {
      assert stream + chunk[..0] == buffered;
      for i := 0 to |chunk|
        invariant Valid() && Copying() && InFlight(chunk, i)
      {
        var fault: bool := *;
        if fault && out.faults {
          return FAULT;
        }
        CopyFrame(chunk, i, ofs);
      }
      return 0;
    }

    /** Store the next frame, then let the others go on. */
    method CopyFrame(chunk: seq<Frame>, i: nat, ofs: nat)
      requires Valid() && playback && i < |chunk| && InFlight(chunk, i)
      requires ofs == Slot(appl, g) && ofs + |chunk| <= g.buffer && appl + |chunk| <= hw + g.buffer
      modifies this, area
      ensures Valid() && Copying() && InFlight(chunk, i + 1)
    {
      ghost var before := buffered;
      SlotInRow(appl, i, g);
      Store(chunk[i], ofs + i);
      Interfere();
      FlightMore(stream, chunk, i, before, old(hit), buffered, hit, silent);
    }

    /** The application pointer moves over what has been stored, which thereby becomes part of the stream. */
    method Commit(n: nat)
      requires Valid() && playback && |buffered| == appl + n && n <= g.buffer
      modifies this`applPtr, this`appl, this`stream, this`hit, this`spoilt
      ensures Valid() && Settled() && appl == old(appl) + n && stream == buffered
      ensures spoilt == old(spoilt) + if old(hit) then 1 else 0
    {
      var p := NextAppl(n);
      applPtr, appl := p, appl + n;
      Adopt();
    }

    /** All that is stored belongs to the stream now. */
    ghost method Adopt()
      requires playback && Pointers() && Lifecycle() && Quietness() && |buffered| == appl <= hw + g.buffer
      requires dev + g.buffer < appl + g.boundary && Holds(area[..], buffered, hw, |buffered|, g)
      modifies this`stream, this`hit, this`spoilt
      ensures Valid() && Settled() && stream == buffered && spoilt == old(spoilt) + if old(hit) then 1 else 0
    {
      assert buffered[..|buffered|] == buffered;
      spoilt, hit, stream := spoilt + (if hit then 1 else 0), false, buffered;
    }

    /** The application pointer after a chunk. */
    method NextAppl(n: nat) returns (p: nat)
      requires Pointers() && n <= g.buffer
      ensures p == Wrap(appl + n, g)
    {
      WrapForward(appl, n, g);
      p := applPtr + n;
      if p >= g.boundary {
        p := p - g.boundary;
      }
    }

    /** A frame is in the buffer, ahead of the hardware and not committed, that is not silent. */
    ghost predicate Littered()
      reads this`hw, this`appl, this`buffered
    {
      exists k :: Max(hw, appl) <= k < |buffered| && buffered[k] != silent
    }

    /** A transfer is given up: its slots are free again, and as silent as before exactly if it had left only silence
        in them. */
    ghost method Abandon()
      requires Valid() && playback
      modifies this`buffered, this`quiet, this`hit, this`torn
      ensures Valid() && Settled()
      ensures torn == old(torn) + (if old(Littered()) then 1 else 0) && quiet == (old(quiet) && torn == old(torn))
      ensures old(quiet) ==> (quiet <==> Silenced(area[..], Max(hw, appl), hw + g.buffer, silent, g))
    {
      ghost var litters := Littered();
      SilentUnlessLittered(area[..], buffered, hw, appl, silent, g);
      GiveUp(quiet && !litters);
      torn := torn + if litters then 1 else 0;
    }

    /** Only the stream itself is buffered, on what silence there is. */
    ghost method GiveUp(still: bool)
      requires Valid() && playback
      requires still ==> armed && Silenced(area[..], Max(hw, appl), hw + g.buffer, silent, g)
      modifies this`buffered, this`quiet, this`hit
      ensures Valid() && Settled() && quiet == still
    {
      assert stream[..|stream|] == stream;
      hit, quiet, buffered := false, still, stream;
    }

    /** The largest chunk that fits the request, the free space and the rest of the buffer. */
    method ChunkSize(size: nat, avail: nat) returns (frames: nat, ofs: nat)
      requires Pointers() && size > 0 && avail > 0
      ensures 0 < frames <= size && frames <= avail && ofs == Slot(appl, g) && ofs + frames <= g.buffer
      ensures frames == size || frames == avail || ofs + frames == g.buffer
    {
      BaseFits(appl, g);
      frames := if size > avail then avail else size;
      ofs := applPtr % g.buffer;
      var cont := g.buffer - ofs;
      if frames > cont {
        frames := cont;
      }
    }

    /** Wait, if need be, until something can be transferred. */
    method MakeAvail(nonblock: bool, out: Outside) returns (err: int, avail: int)
      requires Valid() && availMin > 0
      modifies this, area
      ensures Valid() && Interference() && Excused(err, nonblock, out)
      ensures err == 0 ==> avail == Avail() && (avail > 0 || (!playback && state.Draining?))
    {
      Poll();
      AvailExact();
      err, avail := 0, Avail();
      if avail == 0 && (playback || !state.Draining?) {
        if nonblock {
          return AGAIN, 0;
        }
        err, avail := Await(out);
      }
    }

    /** The look at the hardware at the top of both transfer loops. */
    method Poll()
      requires Valid()
      modifies this`state, this`hwPtr, this`hwPtrBase, this`hwPtrInterrupt, this`hw, this`silenceFilled, this`silenceStart, area
      ensures Valid() && Interference()
      ensures state.Running? ==> hw == Reported(dev, align, g)
    {
      if state.Running? {
        var p := ReadPosition();
        UpdateAtPoll(p);
      }
    }

    /** Wait, and in a draining stream go around the loop once more. */
    method Await(out: Outside) returns (err: int, avail: int)
      requires Valid() && availMin > 0
      modifies this, area
      ensures Valid() && Interference() && Excused(err, false, out)
      ensures err == 0 ==> avail == Avail() && (avail > 0 || (!playback && state.Draining?))
    {
      err, avail := WaitForAvail(out);
      if err == 0 && avail == 0 {
        AvailExact();
        avail := Avail();
      }
    }

    /** What a transfer has done to the stream: the frames accepted follow in order, each as it was given or silenced on
        the way. They are exactly what was given if and only if no chunk was committed after a hit; and there are no
        more of those than there were starts that hit one. It is still quiet around them unless a frame was stored
        behind the hardware, or a copy was given up that had stored a frame that is not silent. */
    twostate predicate Accepted(data: seq<Frame>)
      reads this`appl, this`spoilt, this`torn, this`late, this`quiet, this`stream, this`started, this`drowned
    {
      AcceptedBetween(old(Now()), Now(), data, silent, playback && silenceSize > 0)
    }

    ghost function Now(): Tally
      reads this`appl, this`spoilt, this`torn, this`late, this`quiet, this`stream, this`started, this`drowned
    {
      Tally(appl, stream, quiet, started, drowned, spoilt, torn, late)
    }

    /** The copy broke off, or the stream did under it. */
    predicate Breakdown(err: int) {
      err == FAULT || err == PIPE || err == STRPIPE
    }

    /** The copy broke off because of a fault, or because of what became of the stream. */
    ghost predicate BrokeOff(err: int, out: Outside)
      reads this`state
    {
      (err == FAULT && out.faults) || (err == PIPE && state.Xrun?) || (err == STRPIPE && state.Suspended?)
    }

    /** One chunk: transfer it, then move the application pointer unless the stream broke down meanwhile. */
    method WriteChunk(chunk: seq<Frame>, ofs: nat, out: Outside) returns (err: int)
      requires Valid() && playback && Settled() && ofs == Slot(appl, g)
      requires ofs + |chunk| <= g.buffer && appl + |chunk| <= hw + g.buffer
      modifies this, area
      ensures Valid() && Settled()
      ensures err == 0 || BrokeOff(err, out)
      ensures Accepted(if err == 0 then chunk else [])
      ensures err == 0 ==> torn == old(torn) && Exact(old(Now()), Now(), chunk)
    {
      ghost var before := Now();
      assert !hit;
      err := CopyIn(chunk, ofs, out);
      if err == 0 && state.Xrun? {
        err := PIPE;
      }
      if err == 0 && state.Suspended? {
        err := STRPIPE;
      }
      Conclude(chunk, err, before);
    }

    /** After the copy: the chunk is committed, or given up. */
    method Conclude(chunk: seq<Frame>, err: int, ghost before: Tally)
      requires Valid() && playback && |chunk| <= g.buffer && CopiedBetween(before, Now(), playback && silenceSize > 0)
      requires (err == 0 ==> InFlight(chunk, |chunk|)) && (hit <==> drowned > before.drowned)
      modifies this`applPtr, this`appl, this`stream, this`buffered, this`quiet, this`hit, this`spoilt, this`torn
      ensures Valid() && Settled()
      ensures AcceptedBetween(before, Now(), if err == 0 then chunk else [], silent, playback && silenceSize > 0)
      ensures err == 0 ==> torn == before.torn && Exact(before, Now(), chunk)
    {
      if err == 0 {
        CommitChunk(chunk);
      } else {
        Abandon();
        assert stream + [] == stream;
      }
    }

    /** The whole chunk becomes part of the stream. */
    method CommitChunk(chunk: seq<Frame>)
      requires Valid() && playback && InFlight(chunk, |chunk|) && |chunk| <= g.buffer
      modifies this`applPtr, this`appl, this`stream, this`hit, this`spoilt
      ensures Valid() && Settled() && appl == old(appl) + |chunk| && Took(old(stream), stream, chunk, silent)
      ensures stream == old(stream) + chunk <==> !old(hit)
      ensures spoilt == old(spoilt) + if old(hit) then 1 else 0
    {
      assert chunk[..|chunk|] == chunk && stream <= buffered;
      Commit(|chunk|);
    }

    predicate Writable(s: State) {
      s.Prepared? || s.Running? || s.Paused?
    }

    /** Enough is written to start a prepared stream. */
    ghost predicate Startable()
      reads this`state, this`hw, this`appl
    {
      state.Prepared? && appl - hw >= startThreshold
    }

    /** The automatic start failed: the driver refused it, or there is nothing left to play. */
    ghost predicate StartFailed(err: int, out: Outside)
      reads this`state, this`hw, this`appl
    {
      Startable() && ((err == IO && out.refusals) || (err == PIPE && appl <= hw))
    }

    function StateError(s: State): int {
      if s.Xrun? then PIPE else if s.Suspended? then STRPIPE else BADFD
    }

    /** Transfer one chunk into the available space; the first one may start the stream. */
    method WriteSome(data: seq<Frame>, avail: nat, out: Outside) returns (err: int, frames: nat)
      requires Valid() && playback && Settled() && data != [] && 0 < avail == hw + g.buffer - appl
      modifies this, area
      ensures Valid() && Settled() && if frames > 0 then Started(err, out) else BrokeOff(err, out)
      ensures frames <= |data| && Accepted(data[..frames])
      ensures torn == old(torn) || (frames == 0 && Breakdown(err))
      ensures frames > 0 ==> Exact(old(Now()), Now(), data[..frames])
    {
      var n, ofs := ChunkSize(|data|, avail);
      ghost var before := Now();
      frames := 0;
      err := WriteChunk(data[..n], ofs, out);
      assert data[..0] == [];
      if err == 0 {
        frames := n;
        err := StartAfter(data[..n], before, out);
      }
    }

    /** The start that a chunk just committed may bring about leaves the transfer as it is. */
    method StartAfter(chunk: seq<Frame>, ghost before: Tally, out: Outside) returns (err: int)
      requires Valid() && playback && Settled()
      requires AcceptedBetween(before, Now(), chunk, silent, playback && silenceSize > 0) && Exact(before, Now(), chunk)
      modifies this`state, this`armed, this`started, this`silenceFilled, this`silenceStart, area
      modifies this`quiet, this`buffered, this`hit, this`drowned
      ensures Valid() && Settled() && Started(err, out)
      ensures AcceptedBetween(before, Now(), chunk, silent, playback && silenceSize > 0) && Exact(before, Now(), chunk)
    {
      err := StartAtThreshold(out);
    }

    /** Frames have been accepted, and a prepared stream has been started if it was time to, or failed to start. */
    ghost predicate Started(err: int, out: Outside)
      reads this`state, this`hw, this`appl
    {
      (err == 0 && !Startable()) || StartFailed(err, out)
    }

    /** Some of the frames were not accepted. */
    ghost predicate CutShort(err: int, xfer: nat, nonblock: bool, out: Outside)
      reads this`state, this`hw, this`appl, this`dev
      requires ValidGeometry(g) && align > 0
    {
      err < 0 && (Excused(err, nonblock, out) || (xfer > 0 && StartFailed(err, out)))
    }

    method StartAtThreshold(out: Outside) returns (err: int)
      requires Valid() && playback && Settled()
      modifies this`state, this`armed, this`started, this`silenceFilled, this`silenceStart, area
      modifies this`quiet, this`buffered, this`hit, this`drowned
      ensures Valid() && Settled() && (old(quiet) ==> quiet) && (old(started) ==> started) && drowned == old(drowned)
      ensures if old(Startable()) && err == 0 then state == Running else state == old(state)
      ensures err == 0 || StartFailed(err, out)
    {
      err := 0;
      AvailExact();
      if state.Prepared? && HwAvail() >= startThreshold {
        var refuses: bool := *;
        err := Start(!(refuses && out.refusals));
      }
    }

    /** One round of the write loop. */
    method WriteRound(data: seq<Frame>, nonblock: bool, out: Outside) returns (err: int, frames: nat)
      requires Valid() && playback && Settled() && availMin > 0 && data != []
      modifies this, area
      ensures Valid() && Settled() && if frames > 0 then Started(err, out) else CutShort(err, 0, nonblock, out)
      ensures frames <= |data| && Accepted(data[..frames])
      ensures torn == old(torn) || (frames == 0 && Breakdown(err))
      ensures frames > 0 ==> Exact(old(Now()), Now(), data[..frames])
    {
      var avail;
      frames := 0;
      err, avail := MakeAvail(nonblock, out);
      assert data[..0] == [] && stream + [] == stream;
      if err == 0 {
        AvailExact();
        err, frames := WriteSome(data, avail, out);
      }
    }

    /** How far a write that began at `start` has got. */
    ghost predicate Progress(start: Tally, data: seq<Frame>, xfer: nat, err: int)
      reads this`appl, this`spoilt, this`torn, this`late, this`quiet, this`stream, this`started, this`drowned
    {
      && xfer <= |data| && err <= 0
      && AcceptedBetween(start, Now(), data[..xfer], silent, playback && silenceSize > 0)
      && (torn == start.torn || (xfer < |data| && Breakdown(err)))
      && (err == 0 || xfer == |data| ==> Exact(start, Now(), data[..xfer]))
    }

    method WriteLoop(data: seq<Frame>, nonblock: bool, out: Outside) returns (err: int, xfer: nat)
      requires Valid() && playback && Settled() && availMin > 0 && data != []
      modifies this, area
      ensures Valid() && Settled() && Progress(old(Now()), data, xfer, err)
      ensures if xfer == |data| then Started(err, out) else CutShort(err, xfer, nonblock, out)
    {
      xfer, err := 0, 0;
      ghost var start := Now();
      assert data[..0] == [] && stream + [] == stream;
      while xfer < |data| && err == 0
        invariant Valid() && Settled() && Progress(start, data, xfer, err)
        invariant if xfer == |data| then Started(err, out) else err == 0 || CutShort(err, xfer, nonblock, out)
        decreases |data| - xfer, if err == 0 then 1 else 0
      {
        err, xfer := WriteNext(data, xfer, nonblock, out, start);
      }
    }

    /** The next round, on top of those before. */
    method WriteNext(data: seq<Frame>, xfer0: nat, nonblock: bool, out: Outside, ghost start: Tally) returns (err: int, xfer: nat)
      requires Valid() && playback && Settled() && availMin > 0 && xfer0 < |data| && Progress(start, data, xfer0, 0)
      modifies this, area
      ensures Valid() && Settled() && Progress(start, data, xfer, err)
      ensures xfer >= xfer0 && (err == 0 ==> xfer > xfer0)
      ensures if xfer == |data| then Started(err, out) else err == 0 || CutShort(err, xfer, nonblock, out)
    {
      ghost var before := Now();
      var frames;
      err, frames := WriteRound(data[xfer0..], nonblock, out);
      AcceptedOn(start, before, Now(), data, xfer0, frames, silent, playback && silenceSize > 0);
      xfer := xfer0 + frames;
    }

    /** `snd_pcm_lib_write1`: the frames accepted are a prefix of the data, they enter the stream in order,
        and a positive return value is their number. They are exactly what was given on a stream without silence
        filling, on one that has been started before, and on any other as long as no start by another thread comes
        when a frame that is not silent has been stored but not committed. After such a start, they are exactly what
        was given if and only if the chunk it hit was given up. It stays quiet around them as long as no frame was stored
        behind the hardware and no copy was given up with a frame in the buffer that is not silent; which takes an
        error that shows, unless some frames were accepted before. Fewer frames than given are accepted only because of
        an error that has its cause in the stream or outside, and when all are, a prepared stream has been started if
        enough is pending. */
    method Write1(data: seq<Frame>, nonblock: bool, out: Outside) returns (ret: int, ghost n: nat, ghost err: int)
      requires Valid() && playback && Settled() && availMin > 0
      modifies this, area
      ensures Valid() && Settled()
      ensures n <= |data| && Accepted(data[..n])
      ensures silenceSize == 0 || old(started) || drowned == old(drowned) ==> stream == old(stream) + data[..n]
      ensures ret == if n > 0 then n else err
      ensures ret == 0 <==> data == []
      ensures torn == old(torn) || (n < |data| && (ret > 0 || Breakdown(ret)))
      ensures n == |data| ==> (stream == old(stream) + data <==> drowned == old(drowned))
      // What goes wrong, and why.
      ensures data != [] && old(state).Xrun? ==> ret == PIPE
      ensures data != [] && old(state).Suspended? ==> ret == STRPIPE
      ensures data != [] && (old(state).Open? || old(state).Setup? || old(state).Draining? || old(state).Disconnected?) ==>
                ret == BADFD
      ensures !old(state).Prepared? && !old(state).Running? && !old(state).Paused? ==> unchanged(this) && unchanged(area)
      ensures old(state).Prepared? || old(state).Running? || old(state).Paused? ==>
                n < |data| ==> err < 0 && (Excused(err, nonblock, out) || (n > 0 && StartFailed(err, out)))
      ensures n == |data| > 0 && state.Prepared? && appl - hw >= startThreshold ==> out.refusals || appl <= hw
    {
      n, err := 0, 0;
      assert data[..0] == [] && stream + [] == stream;
      if |data| == 0 {
        assert stream + data == stream;
        return 0, 0, 0;
      }
      if !Writable(state) {
        return StateError(state), 0, StateError(state);
      }
      assert data[..|data|] == data;
      var e, xfer := WriteLoop(data, nonblock, out);
      n, err := xfer, e;
      ret := if xfer > 0 then xfer else e;
    }

    // -------------------------------------------------------------- reading

    /** What a reader relies on while others are active: captured frames are only added, and unread ones are not
        overwritten unless counted. */
    twostate predicate Capturing()
      reads this`started, this`applPtr, this`appl, this`hw, this`overruns, this`stream, this`dev
    {
      applPtr == old(applPtr) && appl == old(appl) && hw >= old(hw) && overruns >= old(overruns) && InterferedRead() &&
      (old(started) ==> started)
    }

    /** No frame the application has yet to read has been overwritten. */
    ghost predicate Unbroken()
      reads this`dev, this`appl
    {
      dev <= appl + g.buffer
    }

    /** Copying a chunk out of a row of slots while the device keeps capturing. */
    method CopyOut(ofs: nat, n: nat, out: Outside) returns (err: int, chunk: seq<Frame>)
      requires Valid() && !playback && ofs == Slot(appl, g) && ofs + n <= g.buffer && appl + n <= hw
      modifies this, area
      ensures Valid() && Capturing()
      ensures err == 0 || (err == FAULT && out.faults)
      ensures err == 0 ==> |chunk| == n && appl + n <= |stream|
      ensures err == 0 && overruns == old(overruns) && old(Unbroken()) ==> chunk == stream[appl..appl + n]
    {
      chunk := [];
      for i := 0 to n
        invariant Valid() && Capturing() && |chunk| == i && appl + n <= |stream|
        invariant overruns == old(overruns) && old(Unbroken()) ==> chunk == stream[appl..appl + i]
      {
        var fault: bool := *;
        if fault && out.faults {
          return FAULT, chunk;
        }
        chunk := ReadFrame(ofs + i, chunk);
      }
      return 0, chunk;
    }

    /** The slot of a captured, unread frame holds it, unless it has been overwritten. */
    method ReadSlot(slot: nat, i: nat) returns (f: Frame)
      requires Valid() && !playback && appl + i < hw && Slot(appl, g) + i == slot < g.buffer
      ensures appl + i < |stream|
      ensures dev <= appl + i + g.buffer ==> f == stream[appl + i]
    {
      SlotInRow(appl, i, g);
      assert area[slot] == area[..][Slot(appl + i, g)];
      f := area[slot];
    }

    /** Read a slot, then let the others go on. */
    method ReadFrame(slot: nat, chunk: seq<Frame>) returns (longer: seq<Frame>)
      requires Valid() && !playback && appl + |chunk| < hw && Slot(appl, g) + |chunk| == slot < g.buffer
      modifies this, area
      ensures Valid() && Capturing() && |longer| == |chunk| + 1 && appl + |longer| <= |stream|
      ensures old(Unbroken()) && old(|stream| >= appl + |chunk| && chunk == stream[appl..appl + |chunk|]) ==>
                longer == stream[appl..appl + |longer|]
    {
      ghost var s := stream;
      var f := ReadSlot(slot, |chunk|);
      Interfere();
      longer := chunk + [f];
      if old(Unbroken()) && chunk == s[appl..appl + |chunk|] {
        SpliceNext(s, stream, appl, |chunk|, chunk, f);
      }
    }

    /** The application pointer moves over what was read. */
    method Consume(n: nat)
      requires Valid() && !playback && appl + n <= hw && n <= g.buffer
      modifies this`applPtr, this`appl
      ensures Valid() && appl == old(appl) + n
    {
      var p := NextAppl(n);
      applPtr, appl := p, appl + n;
    }

    predicate Readable(s: State) {
      s.Prepared? || s.Running? || s.Paused? || s.Draining?
    }

    /** What a read has done: the data are the next frames of the stream, in order, if the device did not overrun the
        application before or meanwhile. */
    twostate predicate Fetched(data: seq<Frame>)
      reads this`started, this`stream, this`appl, this`overruns, this`dev
    {
      && old(stream) <= stream && appl == old(appl) + |data| <= |stream| && overruns >= old(overruns)
      && (overruns == old(overruns) && old(Unbroken()) ==> Unbroken() && data == stream[old(appl)..appl])
      && (old(started) ==> started)
    }

    /** One chunk: transfer it, then move the application pointer unless the stream broke down meanwhile. */
    method ReadChunk(ofs: nat, n: nat, out: Outside) returns (err: int, chunk: seq<Frame>)
      requires Valid() && !playback && ofs == Slot(appl, g) && ofs + n <= g.buffer && appl + n <= hw
      modifies this, area
      ensures Valid() && Fetched(chunk)
      ensures err == 0 || BrokeOff(err, out)
      ensures |chunk| == if err == 0 then n else 0
    {
      err, chunk := CopyOut(ofs, n, out);
      if err == 0 && state.Xrun? {
        err := PIPE;
      }
      if err == 0 && state.Suspended? {
        err := STRPIPE;
      }
      if err == 0 {
        Consume(n);
      } else {
        chunk := [];
      }
    }

    /** One round of the read loop: a chunk, an error, or `done` when a draining stream is empty. */
    method ReadRound(size: nat, nonblock: bool, out: Outside) returns (err: int, chunk: seq<Frame>, done: bool)
      requires Valid() && !playback && availMin > 0 && size > 0
      modifies this, area
      ensures Valid() && Fetched(chunk) && |chunk| <= size && Excused(err, nonblock, out)
      ensures done || err < 0 || |chunk| > 0
      ensures done ==> |chunk| == 0 && err == 0 && Exhausted()
    {
      var avail;
      err, avail := MakeAvail(nonblock, out);
      AvailExact();
      chunk, done := [], err == 0 && avail == 0;
      if done {
        StopDrained();
      } else if err == 0 {
        err, chunk := ReadSome(size, avail, out);
      }
    }

    /** The stream has been drained: it is set up again, and nothing is left to read. */
    ghost predicate Exhausted()
      reads this`state, this`hw, this`appl
    {
      state.Setup? && hw == appl
    }

    method ReadSome(size: nat, avail: nat, out: Outside) returns (err: int, chunk: seq<Frame>)
      requires Valid() && !playback && size > 0 && 0 < avail == hw - appl
      modifies this, area
      ensures Valid() && Fetched(chunk)
      ensures |chunk| <= size && if |chunk| > 0 then err == 0 else BrokeOff(err, out)
    {
      var n, ofs := ChunkSize(size, avail);
      err, chunk := ReadChunk(ofs, n, out);
    }

    /** `snd_pcm_stop` of a capture stream that has been drained. */
    method StopDrained()
      requires Valid()
      modifies this`state
      ensures Valid() && state == Setup
    {
      state := Setup;
    }

    /** `snd_pcm_lib_read1`: the mirror image of writing. A positive return value is the number of frames read. Fewer than
        asked for come only because of an error that has its cause in the stream or outside, or at the end of a stream
        that has been drained; and only there does a read of something return 0. */
    method Read1(size: nat, nonblock: bool, out: Outside) returns (ret: int, data: seq<Frame>, ghost err: int)
      requires Valid() && !playback && availMin > 0
      modifies this, area
      ensures Valid() && Fetched(data) && |data| <= size
      ensures ret == if |data| > 0 then |data| else err
      ensures |data| < size ==> err < 0 || (err == 0 && state.Setup? && hw == appl)
      ensures size > 0 && ret == 0 ==> state.Setup? && Avail() == 0
      ensures size > 0 && old(state).Xrun? ==> ret == PIPE
      ensures size > 0 && old(state).Suspended? ==> ret == STRPIPE
      ensures size > 0 && (old(state).Open? || old(state).Setup? || old(state).Disconnected?) ==> ret == BADFD
      ensures !old(state).Prepared? && !old(state).Running? && !old(state).Paused? && !old(state).Draining? ==>
                unchanged(this) && unchanged(area)
      ensures old(state).Prepared? || old(state).Running? || old(state).Paused? || old(state).Draining? ==>
                Excused(err, nonblock, out) || (err == IO && out.refusals && data == [] && old(state).Prepared?)
      ensures size > 0 && old(state).Prepared? && size >= startThreshold ==> started || (ret == IO && out.refusals)
    {
      data, err := [], 0;
      if size == 0 {
        return 0, data, 0;
      }
      if !Readable(state) {
        return StateError(state), data, StateError(state);
      }
      var e;
      e, data := StartAndRead(size, nonblock, out);
      err := e;
      ret := if |data| > 0 then |data| else e;
      AvailExact();
    }

    /** A large enough request starts a prepared stream. */
    method StartAndRead(size: nat, nonblock: bool, out: Outside) returns (err: int, data: seq<Frame>)
      requires Valid() && !playback && availMin > 0
      modifies this, area
      ensures Valid() && Fetched(data) && |data| <= size
      ensures Excused(err, nonblock, out) || (err == IO && out.refusals && data == [] && old(state).Prepared?)
      ensures |data| < size ==> err < 0 || (err == 0 && Exhausted())
      ensures old(state).Prepared? && size >= startThreshold ==> started || (err == IO && out.refusals && data == [])
    {
      err, data := 0, [];
      if state.Prepared? && size >= startThreshold {
        var refuses: bool := *;
        err := Start(!(refuses && out.refusals));
      }
      if err == 0 {
        err, data := ReadLoop(size, nonblock, out);
      }
    }

    method ReadLoop(size: nat, nonblock: bool, out: Outside) returns (err: int, data: seq<Frame>)
      requires Valid() && !playback && availMin > 0
      modifies this, area
      ensures Valid() && Fetched(data) && |data| <= size && Excused(err, nonblock, out)
      ensures |data| < size ==> err < 0 || (err == 0 && Exhausted())
    {
      var done := false;
      err, data := 0, [];
      while |data| < size && err == 0 && !done
        invariant Valid() && Fetched(data) && |data| <= size && Excused(err, nonblock, out)
        invariant done ==> err == 0 && Exhausted()
        decreases size - |data|, if err == 0 && !done then 1 else 0
      {
        var chunk;
        ghost var s, a := stream, appl;
        err, chunk, done := ReadRound(size - |data|, nonblock, out);
        SplicePrefix(s, stream, old(appl), a, appl);
        data := data + chunk;
      }
    }

    // -------------------------------------------------------------- rewinding and forwarding

    /** Whether rewind and forward ask the hardware first. */
    predicate Updates(s: State) {
      s.Running? || (playback && s.Draining?)
    }

    predicate Movable(s: State, forward: bool) {
      s.Prepared? || s.Running? || s.Draining? || (forward && s.Paused?)
    }

    /** Where the driver's count is after it asked, if it asks. */
    function Located(): int
      reads this
      requires ValidGeometry(g) && align > 0
    {
      if state.Running? || (playback && state.Draining?) then Reported(dev, align, g) else hw
    }

    /** The hardware was asked, and had run dry, or has got to where the stream stops. */
    twostate predicate Broken(p: Position)
      reads this`hw
    {
      && (old(state).Running? || (playback && old(state).Draining?))
      && (p.RanDry? ||
          (hw != old(hw) &&
           (if playback then hw + g.buffer else hw) - old(appl) >= (if old(state).Draining? then g.buffer else stopThreshold)))
    }

    /** What rewind and forward return for a request of `frames`, with `room` to move in once the hardware has been asked. */
    twostate predicate Moves(frames: nat, p: Position, forward: bool, room: int, ret: int)
      reads this`hw, this`state
      requires ValidGeometry(g) && align > 0
    {
      && ret == (if frames == 0 then 0
                 else if old(state).Xrun? then PIPE
                 else if old(state).Suspended? then STRPIPE
                 else if old(state).Open? || old(state).Setup? || old(state).Disconnected? then BADFD
                 else if old(state).Paused? && !forward then BADFD
                 else if Broken(p) then PIPE
                 else if room <= 0 then 0
                 else if frames > room then room
                 else frames)
      && hw == (if frames > 0 && p.At? && (old(state).Running? || (playback && old(state).Draining?))
                then Reported(old(dev), align, g) else old(hw))
      && (frames == 0 || !Broken(p) ==> state == old(state))
    }

    /** The common preamble of the four calls: check the state, follow the hardware. */
    method Locate(forward: bool, p: Position) returns (err: int)
      requires Valid() && (p.At? ==> p.raw == Slot(dev, g))
      modifies this`state, this`hwPtr, this`hwPtrBase, this`hwPtrInterrupt, this`hw, this`silenceFilled, this`silenceStart, area
      ensures Valid() && hw >= old(hw)
      ensures err == if !Movable(old(state), forward) then StateError(old(state)) else if Broken(p) then PIPE else 0
      ensures hw == if p.At? && Updates(old(state)) then Reported(dev, align, g) else old(hw)
      ensures !Broken(p) ==> state == old(state)
      ensures playback ==> SameSlots(old(area[..]), area[..], hw, old(hw) + g.buffer, g)
    {
      if !Movable(state, forward) {
        return StateError(state);
      }
      err := 0;
      if Updates(state) {
        err := UpdateHwPtr(p);
      }
    }

    /** The new application pointer, in signed arithmetic that cannot overflow. */
    method MoveBack(m: nat) returns (p: nat)
      requires Pointers() && m <= g.buffer && m <= appl
      ensures p == Wrap(appl - m, g)
      ensures 0 - g.longMax <= applPtr - m <= g.longMax
    {
      WrapBack(appl, m, g);
      BaseFits(appl, g);
      var q: int := applPtr - m;
      if q < 0 {
        q := q + g.boundary;
      }
      p := q;
    }

    /** The same forwards: right if and only if the sum fits a signed long. Within a buffer it always does. */
    method MoveAhead(m: nat) returns (p: int)
      requires Pointers() && m < g.boundary
      ensures p == Wrap(appl + m, g) <==> applPtr + m <= g.longMax
      ensures m <= g.buffer ==> applPtr + m <= g.longMax
    {
      WrapForward(appl, m, g);
      BaseFits(appl, g);
      SignedSumFits(applPtr, m, g);
      p := SignedSum(applPtr, m, g);
      if p >= g.boundary {
        p := p - g.boundary;
      }
    }

    /** A forward that fits. */
    method MoveAheadFitting(m: nat) returns (p: nat)
      requires Pointers() && m < g.boundary && applPtr + m <= g.longMax
      ensures p == Wrap(appl + m, g)
    {
      p := MoveAhead(m);
    }

    /** The sum a forward makes fits a signed long. */
    predicate SumFits(frames: nat)
      reads this
    {
      SumFitsAt(frames, hw)
    }

    predicate SumFitsAt(frames: nat, h: int)
      reads this
    {
      var avail := if playback then h + g.buffer - appl else h - appl;
      applPtr + (if frames > avail then avail else frames) <= g.longMax
    }

    /** The same for where the hardware will be when it has been asked. */
    predicate ForwardFits(frames: nat)
      reads this
      requires ValidGeometry(g) && align > 0
    {
      SumFitsAt(frames, Located())
    }

    /** As long as the hardware is not ahead of the application, any forward fits; on capture, as long as it is not
        ahead by more than a buffer. */
    lemma ForwardFitsInTime(frames: nat)
      requires Pointers() && Located() <= appl + if playback then 0 else g.buffer
      ensures ForwardFits(frames)
    {
      BaseFits(appl, g);
    }

    lemma WithinBufferFits(frames: nat)
      requires Pointers() && frames <= g.buffer
      ensures ForwardFits(frames)
    {
      BaseFits(appl, g);
    }

    /** `snd_pcm_playback_rewind`: take back the last frames the driver has not seen played. */
    method PlaybackRewind(frames: nat, p: Position) returns (ret: int)
      requires Valid() && playback && Settled() && (p.At? ==> p.raw == Slot(dev, g))
      modifies this`state, this`hwPtr, this`hwPtrBase, this`hwPtrInterrupt, this`hw, this`silenceFilled, this`silenceStart, area
      modifies this`applPtr, this`appl, this`stream, this`buffered, this`quiet
      ensures Valid() && Settled() && hw >= old(hw)
      ensures Moves(frames, p, false, old(appl) - hw, ret)
      ensures ret > 0 ==> appl == old(appl) - ret && stream == old(stream)[..appl] && hw <= appl <= hw + g.buffer
      ensures ret <= 0 ==> appl == old(appl) && stream == old(stream) && quiet == old(quiet)
      ensures ret > 0 ==> SameSlots(old(area[..]), area[..], hw, old(appl), g)
    {
      if frames == 0 {
        return 0;
      }
      var err := Locate(false, p);
      if err != 0 {
        return err;
      }
      ret := TakeBack(frames);
    }

    /** Once the hardware has been asked. */
    method TakeBack(frames: nat) returns (ret: int)
      requires Valid() && playback && Settled() && frames > 0
      modifies this`applPtr, this`appl, this`stream, this`buffered, this`quiet
      ensures Valid() && Settled() && appl == old(appl) - ret
      ensures ret == if old(appl) <= hw then 0 else if frames > old(appl) - hw then old(appl) - hw else frames
      ensures ret > 0 ==> stream == old(stream)[..appl]
      ensures ret == 0 ==> stream == old(stream) && quiet == old(quiet)
    {
      var hwAvail := HwAvail();
      AvailExact();
      if hwAvail <= 0 {
        return 0;
      }
      var m := if frames > hwAvail then hwAvail else frames;
      var p := MoveBack(m);
      Truncate(p, m);
      ret := m;
    }

    method Truncate(p: nat, m: nat)
      requires Valid() && playback && Settled() && 0 < m <= appl - hw && p == Wrap(appl - m, g)
      modifies this`applPtr, this`appl, this`stream, this`buffered, this`quiet
      ensures Valid() && Settled() && appl == old(appl) - m && stream == old(stream)[..appl]
    {
      applPtr, appl := p, appl - m;
      stream, quiet := stream[..appl], false;
      buffered := stream;
    }

    /** `snd_pcm_playback_forward`: skip ahead over whatever the buffer contains. */
    method PlaybackForward(frames: nat, p: Position) returns (ret: int)
      requires Valid() && playback && Settled() && ForwardFits(frames) && (p.At? ==> p.raw == Slot(dev, g))
      modifies this`state, this`hwPtr, this`hwPtrBase, this`hwPtrInterrupt, this`hw, this`silenceFilled, this`silenceStart, area
      modifies this`applPtr, this`appl, this`stream, this`buffered
      ensures Valid() && Settled() && hw >= old(hw)
      ensures Moves(frames, p, true, hw + g.buffer - old(appl), ret)
      ensures ret > 0 ==> appl == old(appl) + ret <= hw + g.buffer && |stream| == appl && old(stream) <= stream
      ensures ret <= 0 ==> appl == old(appl) && stream == old(stream)
      ensures ret > 0 ==> SameSlots(old(area[..]), area[..], hw, old(hw) + g.buffer, g)
    {
      if frames == 0 {
        return 0;
      }
      var err := Locate(true, p);
      if err != 0 {
        return err;
      }
      ret := SkipAhead(frames);
    }

    /** Once the hardware has been asked. */
    method SkipAhead(frames: nat) returns (ret: int)
      requires Valid() && playback && Settled() && SumFits(frames)
      modifies this`applPtr, this`appl, this`stream, this`buffered
      ensures Valid() && Settled() && appl == old(appl) + ret && |stream| == appl && old(stream) <= stream
      ensures var room := hw + g.buffer - old(appl);
              ret == if room <= 0 then 0 else if frames > room then room else frames
    {
      var avail := Avail();
      AvailExact();
      if avail <= 0 {
        return 0;
      }
      var m := if frames > avail then avail else frames;
      var p := MoveAheadFitting(m);
      Extend(p, m);
      ret := m;
    }

    method Extend(p: nat, m: nat)
      requires Valid() && playback && Settled() && appl + m <= hw + g.buffer && p == Wrap(appl + m, g)
      modifies this`applPtr, this`appl, this`stream, this`buffered
      ensures Valid() && Settled() && appl == old(appl) + m && |stream| == appl && old(stream) <= stream
    {
      ghost var longer := SkipOn(area[..], buffered, hw, m, quiet, silent, g);
      applPtr, appl := p, appl + m;
      stream, buffered := longer, longer;
    }

    /** `snd_pcm_capture_rewind`: go back to frames already read that are still in the buffer. */
    method CaptureRewind(frames: nat, p: Position) returns (ret: int)
      requires Valid() && !playback && (p.At? ==> p.raw == Slot(dev, g))
      modifies this`state, this`hwPtr, this`hwPtrBase, this`hwPtrInterrupt, this`hw, this`silenceFilled, this`silenceStart, area
      modifies this`applPtr, this`appl
      ensures Valid() && hw >= old(hw)
      ensures Moves(frames, p, false, old(appl) + g.buffer - hw, ret)
      ensures ret > 0 ==> appl == old(appl) - ret && 0 <= hw - appl <= g.buffer
      ensures ret <= 0 ==> appl == old(appl)
    {
      if frames == 0 {
        return 0;
      }
      var err := Locate(false, p);
      if err != 0 {
        return err;
      }
      ret := StepBack(frames);
    }

    /** Once the hardware has been asked. */
    method StepBack(frames: nat) returns (ret: int)
      requires Valid() && !playback
      modifies this`applPtr, this`appl
      ensures Valid() && appl == old(appl) - ret
      ensures var room := old(appl) + g.buffer - hw;
              ret == if room <= 0 then 0 else if frames > room then room else frames
    {
      var hwAvail := HwAvail();
      AvailExact();
      if hwAvail <= 0 {
        return 0;
      }
      var m := if frames > hwAvail then hwAvail else frames;
      var p := MoveBack(m);
      SetAppl(p, appl - m);
      ret := m;
    }

    /** `snd_pcm_capture_forward`: skip captured frames. */
    method CaptureForward(frames: nat, p: Position) returns (ret: int)
      requires Valid() && !playback && ForwardFits(frames) && (p.At? ==> p.raw == Slot(dev, g))
      modifies this`state, this`hwPtr, this`hwPtrBase, this`hwPtrInterrupt, this`hw, this`silenceFilled, this`silenceStart, area
      modifies this`applPtr, this`appl
      ensures Valid() && hw >= old(hw)
      ensures Moves(frames, p, true, hw - old(appl), ret)
      ensures appl == old(appl) + (if ret > 0 then ret else 0) && appl <= hw
    {
      if frames == 0 {
        return 0;
      }
      var err := Locate(true, p);
      if err != 0 {
        return err;
      }
      ret := StepAhead(frames);
    }

    /** Once the hardware has been asked. */
    method StepAhead(frames: nat) returns (ret: int)
      requires Valid() && !playback && SumFits(frames)
      modifies this`applPtr, this`appl
      ensures Valid() && appl == old(appl) + ret
      ensures var room := hw - old(appl);
              ret == if room <= 0 then 0 else if frames > room then room else frames
    {
      var avail := Avail();
      AvailExact();
      if avail <= 0 {
        return 0;
      }
      var m := if frames > avail then avail else frames;
      var p := MoveAheadFitting(m);
      SetAppl(p, appl + m);
      ret := m;
    }

    method SetAppl(p: nat, n: nat)
      requires Valid() && !playback && n <= hw && dev < n + g.boundary && p == Wrap(n, g)
      modifies this`applPtr, this`appl
      ensures Valid() && appl == n
    {
      applPtr, appl := p, n;
    }

    // -------------------------------------------------------------- undoing a rewind

    /** On playback, forwarding by what a rewind returned puts the application pointer, and the stream, back, unless the
        device runs dry in between. */
    method RewindThenForward(frames: nat, p: Position, q: Position) returns (m: int, k: int)
      requires Valid() && playback && Settled() && (p.At? ==> p.raw == Slot(dev, g)) && (q.At? ==> q.raw == Slot(dev, g))
      modifies this, area
      ensures Valid() && dev == old(dev)
      ensures m > 0 && q.At? ==> k == m && applPtr == old(applPtr) && stream == old(stream)
    {
      ghost var s, a, h := stream, area[..], hw;
      StreamHeld();
      m := PlaybackRewind(frames, p);
      k := 0;
      if m > 0 {
        k := Redo(m, q, s, a, h);
      }
    }

    /** What was taken back of stream `s`, which was in buffer `a`, is still in its slots. */
    method Redo(m: nat, q: Position, ghost s: seq<Frame>, ghost a: seq<Frame>, ghost h: nat) returns (k: int)
      requires Valid() && playback && Settled() && Movable(state, false) && (q.At? ==> q.raw == Slot(dev, g))
      requires 0 < m <= g.buffer && |s| == appl + m <= hw + g.buffer && h <= hw <= appl && s[..appl] == stream
      requires Holds(a, s, h, |s|, g) && SameSlots(a, area[..], hw, |s|, g) && hw == Located()
      modifies this, area
      ensures Valid() && dev == old(dev)
      ensures q.At? ==> k == m && appl == |s| && stream == s
    {
      ghost var b := area[..];
      WithinBufferFits(m);
      k := PlaybackForward(m, q);
      if k > 0 {
        StreamHeld();
        Restored(s, stream, a, b, area[..], h, hw, appl, g);
      }
    }

    lemma StreamHeld()
      requires Valid() && playback && Settled()
      ensures stream == buffered && Holds(area[..], stream, hw, appl, g)
    {
    }

    /** On capture too, and the frames to be read next are the same as before. */
    method RewindThenForwardCapture(frames: nat, p: Position, q: Position) returns (m: int, k: int)
      requires Valid() && !playback && (p.At? ==> p.raw == Slot(dev, g)) && (q.At? ==> q.raw == Slot(dev, g))
      modifies this, area
      ensures Valid() && dev == old(dev) && stream == old(stream)
      ensures m > 0 && q.At? ==> k == m && applPtr == old(applPtr) && appl == old(appl)
    {
      m := CaptureRewind(frames, p);
      k := 0;
      if m > 0 {
        WithinBufferFits(m);
        k := CaptureForward(m, q);
      }
    }

    // -------------------------------------------------------------- reset and prepare

    /** `snd_pcm_reset`: the driver's pointer goes back to the device's position in the buffer if the stream runs and that
        is known, else to 0, and the application is where the hardware is. The mark is at the last period before it. The
        counts start afresh, one lap from zero. */
    method Reset(p: Position) returns (ret: int)
      requires Valid() && Settled() && (p.At? ==> p.raw == Slot(dev, g))
      modifies this, area
      ensures Valid() && Settled() && Slot(dev, g) == old(Slot(dev, g))
      ensures ret == if old(state).Running? || old(state).Prepared? || old(state).Paused? || old(state).Suspended? then 0
                     else BADFD
      ensures ret == 0 ==> applPtr == hwPtr < g.buffer && Avail() == (if playback then g.buffer else 0)
      ensures ret == 0 ==> hwPtr == if state.Running? then Sanitized(Slot(dev, g), align, g) else 0
      ensures ret == 0 ==> hwPtrInterrupt % g.period == 0 && hwPtrInterrupt <= hwPtr < hwPtrInterrupt + g.period
      ensures ret == 0 ==> state == if old(state).Running? && old(Lost(p)) then Xrun else old(state)
      ensures ret == 0 && playback && silenceSize > 0 ==> quiet
      ensures ret != 0 ==> unchanged(this) && unchanged(area)
    {
      if !Resettable(state) {
        return BADFD;
      }
      ResetPointers(p);
      if playback && silenceSize > 0 {
        SilenceAtStart();
      }
      AvailExact();
      ret := 0;
    }

    /** The device has run dry, or has moved to where the stream stops. */
    predicate Lost(p: Position)
      reads this`hw, this`appl, this`dev
      requires ValidGeometry(g) && align > 0
    {
      var h := Reported(dev, align, g);
      p.RanDry? || (h != hw && (if playback then h + g.buffer else h) - appl >= stopThreshold)
    }

    /** The pointers after a reset, before the fill. */
    method ResetPointers(p: Position)
      requires Valid() && Settled() && (p.At? ==> p.raw == Slot(dev, g))
      modifies this, area
      ensures Pointers() && (started == old(started)) && (if playback then PlaybackRing() && Settled() else CaptureRing())
      ensures (state.Running? || state.Draining? ==> started) && (started ==> !state.Prepared?)
      ensures state == if old(state).Running? && old(Lost(p)) then Xrun else old(state)
      ensures applPtr == hwPtr < g.buffer && appl == hw && Slot(dev, g) == old(Slot(dev, g))
      ensures hwPtr == if state.Running? then Sanitized(Slot(dev, g), align, g) else 0
      ensures hwPtrInterrupt % g.period == 0 && hwPtrInterrupt <= hwPtr < hwPtrInterrupt + g.period
      ensures !armed && !quiet
    {
      var known := AskDevice(p);
      StartAfresh(known);
    }

    /** Whether the position of a running device could be had. */
    method AskDevice(p: Position) returns (known: bool)
      requires Valid() && (p.At? ==> p.raw == Slot(dev, g))
      modifies this`state, this`hwPtr, this`hwPtrBase, this`hwPtrInterrupt, this`hw, this`silenceFilled, this`silenceStart, area
      ensures Valid() && (known <==> state.Running?)
      ensures state == if old(state).Running? && old(Lost(p)) then Xrun else old(state)
      ensures known ==> Slot(hw, g) == Sanitized(Slot(dev, g), align, g)
    {
      known := false;
      if state.Running? {
        ReportedPosition(hw, dev, align, g);
        var err := UpdateHwPtr(p);
        known := err >= 0;
      }
    }

    predicate Resettable(s: State) {
      s.Running? || s.Prepared? || s.Paused? || s.Suspended?
    }

    /** The pointer part of `snd_pcm_do_reset` and of the post callbacks. */
    method StartAfresh(known: bool)
      requires Valid() && Settled()
      modifies this`hwPtr, this`hwPtrBase, this`hwPtrInterrupt, this`hw, this`applPtr, this`appl, this`dev
      modifies this`silenceStart, this`silenceFilled, this`armed, this`quiet, this`stream, this`buffered, this`hit
      ensures Pointers() && (if playback then PlaybackRing() && Settled() else CaptureRing())
      ensures appl == hw && Slot(dev, g) == old(Slot(dev, g))
      ensures hwPtr == (if known then old(Slot(hw, g)) else 0) && applPtr == hwPtr
      ensures hwPtrInterrupt % g.period == 0 && hwPtrInterrupt <= hwPtr < hwPtrInterrupt + g.period
      ensures silenceFilled == 0 && !armed && !quiet
    {
      AfreshCounts(hw, dev, known, align, g);
      BaseFits(hw, g);
      var s: nat := if known then hwPtr % g.buffer else 0;
      var d: nat := if known then dev - hw else dev % g.buffer;
      Restart(s, d);
    }

    /** Pointers at position `s` of the buffer, and the device `d` frames further on. */
    method Restart(s: nat, d: nat)
      requires ValidGeometry(g) && align > 0 && area.Length == g.buffer && (silenceSize == 0 || silenceSize >= g.boundary)
      requires s < g.buffer && d < g.buffer && s % align == 0
      requires Slot(g.boundary + s, g) == s && Wrap(g.boundary + s, g) == s && Base(g.boundary + s, g) == 0
      modifies this`hwPtr, this`hwPtrBase, this`hwPtrInterrupt, this`hw, this`applPtr, this`appl, this`dev
      modifies this`silenceStart, this`silenceFilled, this`armed, this`quiet, this`stream, this`buffered, this`hit
      ensures Pointers() && (if playback then PlaybackRing() && Settled() else CaptureRing())
      ensures appl == hw == g.boundary + s && dev == hw + d && hwPtr == applPtr == s
      ensures hwPtrInterrupt % g.period == 0 && hwPtrInterrupt <= hwPtr < hwPtrInterrupt + g.period
      ensures silenceFilled == 0 && !armed && !quiet
    {
      AlignDown(s, g.period);
      hwPtr, hwPtrBase := s, 0;
      hwPtrInterrupt := hwPtr - hwPtr % g.period;
      silenceStart, silenceFilled := hwPtr, 0;
      applPtr := hwPtr;
      hw, appl, dev := g.boundary + s, g.boundary + s, g.boundary + s + d;
      armed, quiet := false, false;
      Forget();
    }

    /** The history starts anew, with the buffer as it is. */
    ghost method Forget()
      requires Pointers() && appl == hw
      modifies this`stream, this`buffered, this`hit
      ensures Pointers() && if playback then PlaybackRing() && Settled() else CaptureRing()
    {
      hit := false;
      stream := Skipped(area[..], 0, if playback then appl else dev, g);
      buffered := stream;
      if playback {
        SkippedHolds(area[..], hw, appl, g);
      } else {
        SkippedHolds(area[..], dev - g.buffer, dev, g);
      }
    }

    /** `snd_pcm_prepare`. The driver's prepare callback may fail; else it leaves the device wherever it likes. */
    method Prepare(fails: bool) returns (ret: int)
      requires Valid() && Settled()
      modifies this
      ensures Valid() && Settled()
      ensures ret == if old(state).Open? || old(state).Disconnected? then BADFD
                     else if old(state).Running? || (playback && old(state).Draining?) then BUSY
                     else if fails then IO else 0
      ensures ret != 0 ==> unchanged(this)
      ensures ret == 0 ==> state == Prepared && !started && hwPtr == applPtr == hwPtrInterrupt == 0
      ensures ret == 0 ==> Avail() == (if playback then g.buffer else 0)
    {
      if state.Open? || state.Disconnected? {
        return BADFD;
      }
      if state.Running? || (playback && state.Draining?) {
        return BUSY;
      }
      if fails {
        return IO;
      }
      PrepareAnywhere();
      ret := 0;
    }

    /** The pointers at the start of the buffer, the device anywhere. */
    method PrepareAnywhere()
      requires Valid() && Settled()
      modifies this
      ensures Valid() && Settled() && state == Prepared && !started && hwPtr == applPtr == hwPtrInterrupt == 0
      ensures Avail() == if playback then g.buffer else 0
    {
      CountAfresh(0, 0, g);
      var d: nat :| d < g.buffer;
      Restart(0, d);
      state, started := Prepared, false;
      AvailExact();
    }
  }

  /** A start in the middle of a write, by another thread: a frame that is not silent has been stored, the fill of the
      start silences it, and the write commits silence. */
  method StartDuringWrite(r: Runtime, f: Frame)
    requires r.Valid() && r.playback && r.Settled() && r.silenceSize > 0 && r.state.Prepared?
    requires r.hw < r.appl || r.stopThreshold >= r.g.boundary
    requires r.hw <= r.appl < r.hw + r.g.buffer && f != r.silent
    modifies r, r.area
    ensures r.Valid() && r.stream == old(r.stream) + [r.silent] && r.spoilt == old(r.spoilt) + 1
  {
    StoreExposed(r, f);
    StartExposed(r);
    assert r.hit;
    r.Commit(1);
  }

  method StartExposed(r: Runtime)
    requires r.Valid() && r.playback && r.silenceSize > 0 && r.state.Prepared?
    requires r.hw < r.appl || r.stopThreshold >= r.g.boundary
    requires r.Exposed() && |r.buffered| == r.appl + 1
    modifies r`state, r`armed, r`started, r`silenceFilled, r`silenceStart, r.area
    modifies r`quiet, r`buffered, r`hit, r`drowned
    ensures r.Valid() && r.hit && r.buffered == r.stream + [r.silent]
  {
    var err := r.Start(true);
    SilenceOfOne(r.silent);
  }

  lemma SilenceOfOne(silent: Frame)
    ensures Silence(1, silent) == [silent]
  {
  }

  method StoreExposed(r: Runtime, f: Frame)
    requires r.Valid() && r.playback && r.Settled() && r.appl < r.hw + r.g.buffer && f != r.silent
    modifies r.area, r`buffered, r`quiet, r`late
    ensures r.Valid() && r.Exposed() && |r.buffered| == r.appl + 1
  {
    BaseFits(r.appl, r.g);
    r.Store(f, r.applPtr % r.g.buffer);
    assert r.buffered[r.appl] == f;
  }

  /** Such a runtime exists: a buffer of sixteen frames, just prepared. */
  method StartDuringWriteHappens() returns (r: Runtime)
    ensures r.Valid() && r.spoilt == 1 && |r.stream| == 65 && r.stream[64] == r.silent
  {
    var area := new Frame[16](_ => [0]);
    r := new Runtime(Geometry(64, 16, 4, 80), true, 1, [0], 64, 4, 1, 64, area);
    StartDuringWrite(r, [1]);
  }

  /** A copy that breaks off after a frame that is not silent, on any quiet stream: the frame stays in the buffer, outside
      the pending window, and will be heard. */
  method FaultDuringWrite(r: Runtime, f: Frame)
    requires r.Valid() && r.playback && r.Settled() && r.quiet && r.hw <= r.appl < r.hw + r.g.buffer && f != r.silent
    modifies r, r.area
    ensures r.Valid() && r.Settled() && r.stream == old(r.stream) && r.torn == old(r.torn) + 1
    ensures r.drowned == old(r.drowned) && r.late == old(r.late)
    ensures !Silenced(r.area[..], Max(r.hw, r.appl), r.hw + r.g.buffer, r.silent, r.g)
  {
    BaseFits(r.appl, r.g);
    r.Store(f, r.applPtr % r.g.buffer);
    assert r.buffered[r.appl] == f && r.Littered();
    r.Abandon();
  }

  /** Such a runtime exists. */
  method FaultDuringWriteHappens() returns (r: Runtime)
    ensures r.Valid() && r.torn == 1 && r.drowned == 0 && r.late == 0
  {
    var area := new Frame[16](_ => [0]);
    r := new Runtime(Geometry(64, 16, 4, 80), true, 1, [0], 64, 4, 1, 64, area);
    assert !r.Exposed();
    var err := r.Start(true);
    FaultDuringWrite(r, [1]);
  }

  /** Counting afresh, with pointer and device where they are in the buffer, or with the pointer at its start. */
  lemma AfreshCounts(h: nat, n: nat, known: bool, align: nat, g: Geometry)
    requires ValidGeometry(g) && align > 0 && h <= n < h + g.buffer && Slot(h, g) % align == 0
    ensures var s, d := if known then Slot(h, g) else 0, if known then n - h else Slot(n, g);
            && s < g.buffer && d < g.buffer && s % align == 0
            && Slot(g.boundary + s, g) == s && Wrap(g.boundary + s, g) == s && Base(g.boundary + s, g) == 0
            && Slot(g.boundary + s + d, g) == Slot(n, g)
  {
    var s, d := if known then Slot(h, g) else 0, if known then n - h else Slot(n, g);
    Euclid(n, g.buffer);
    CountAfresh(s, d, g);
    SlotSum(h, n - h, g);
    if !known {
      EuclidUnique(d, g.buffer, 0, d);
      EuclidUnique(0, align, 0, 0);
    }
  }

  lemma SpliceNext(s: seq<Frame>, t: seq<Frame>, a: nat, i: nat, chunk: seq<Frame>, f: Frame)
    requires s <= t && a + i < |s| && chunk == s[a..a + i] && f == t[a + i]
    ensures chunk + [f] == t[a..a + i + 1]
  {
  }

  lemma SplicePrefix(s: seq<Frame>, t: seq<Frame>, i: nat, j: nat, k: nat)
    requires s <= t && i <= j <= |s| && j <= k <= |t|
    ensures t[i..k] == s[i..j] + t[j..k]
  {
    assert t[i..j] == s[i..j];
  }

  /** Two streams of the same length that agree up to `h`, and whose last frames sit in the same slots. */
  lemma Restored(s: seq<Frame>, t: seq<Frame>, a: seq<Frame>, b: seq<Frame>, c: seq<Frame>, h0: nat, h: nat, n: nat, g: Geometry)
    requires |s| == |t| == n && h0 <= h <= n && s[..h] == t[..h]
    requires Holds(a, s, h0, n, g) && Holds(c, t, h, n, g) && SameSlots(a, b, h, n, g) && SameSlots(b, c, h, n, g)
    ensures s == t
  {
    forall k | h <= k < n ensures s[k] == t[k] {
      assert a[Slot(k, g)] == b[Slot(k, g)] == c[Slot(k, g)];
    }
    assert forall k :: 0 <= k < h ==> s[k] == s[..h][k] && t[k] == t[..h][k];
  }
}
