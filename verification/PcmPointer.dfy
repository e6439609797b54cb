/**
 Following the hardware: the two pointer updates of `pcm_lib.c` on wrapped values, against unbounded
 counts. `h` counts the frames the driver knows of, `next` those the hardware has reached, `mark` the last
 period interrupt.
 */
module PcmPointer {
  import opened Numbers
  import opened PcmGeometry

  /** Where the hardware says it is: a position in the buffer, or a report that it ran dry. */
  datatype Position = RanDry | At(raw: nat)

  /** `snd_pcm_update_hw_ptr_pos`: out-of-range positions count as 0, others are aligned down. */
  function Sanitized(raw: nat, align: nat, g: Geometry): (pos: nat)
    requires ValidGeometry(g) && align > 0
    ensures pos < g.buffer && pos % align == 0
    ensures if raw >= g.buffer then pos == 0 else pos <= raw < pos + align
  {
    var p := if raw >= g.buffer then 0 else raw;
    AlignDown(p, align);
    p - p % align
  }

  /** The frame count an aligned position stands for. */
  function Reported(n: nat, align: nat, g: Geometry): (h: nat)
    requires ValidGeometry(g) && align > 0
    ensures h <= n < h + align && Slot(h, g) % align == 0 && Slot(h, g) == Slot(n, g) - (n - h)
  {
    AlignDown(Slot(n, g), align);
    SlotDown(n, Slot(n, g) % align, g);
    n - Slot(n, g) % align
  }

  lemma ReportedPosition(h: nat, n: nat, align: nat, g: Geometry)
    requires ValidGeometry(g) && 0 < align && h <= n < h + g.buffer && Slot(h, g) % align == 0
    ensures h <= Reported(n, align, g) <= n
    ensures Slot(Reported(n, align, g), g) == Sanitized(Slot(n, g), align, g)
    ensures Slot(Reported(n, align, g), g) % align == 0
  {
    var s, t := Slot(n, g), Slot(h, g);
    AlignDown(s, align);
    SlotDown(n, s % align, g);
    ModStep(h, n - h, g.buffer);
    if t <= s {
      AlignedBelow(t, s, align);
    }
  }

  lemma SlotDown(n: nat, r: nat, g: Geometry)
    requires g.buffer > 0 && r <= Slot(n, g)
    ensures n >= r && Slot(n - r, g) == Slot(n, g) - r
  {
    Euclid(n, g.buffer);
    EuclidUnique(n - r, g.buffer, n / g.buffer, Slot(n, g) - r);
  }

  lemma AlignDown(s: nat, align: nat)
    requires align > 0
    ensures 0 <= s % align <= s && s % align < align && (s - s % align) % align == 0
  {
    Euclid(s, align);
    EuclidUnique(s - s % align, align, s / align, 0);
  }

  lemma AlignedBelow(t: nat, s: nat, align: nat)
    requires align > 0 && t <= s && t % align == 0
    ensures t <= s - s % align
  {
    Euclid(t, align);
    Euclid(s, align);
    Scale(s / align + 1, t / align, align);
    Scale(s / align, t / align, align);
    assert (s / align + 1) * align == (s / align) * align + align;
  }

  /** The pointer part of `snd_pcm_update_hw_ptr`. `ok` is false where the code reports an unexpected
      position and gives up; for a hardware less than one buffer ahead that never happens. */
  method Follow(hwPtr: nat, base: nat, pos: nat, g: Geometry, ghost h: nat, ghost next: nat)
    returns (ok: bool, newBase: nat, newPtr: nat)
    requires ValidGeometry(g) && hwPtr == Wrap(h, g) && base == Base(h, g)
    requires h <= next < h + g.buffer && pos == Slot(next, g)
    ensures ok && newPtr == Wrap(next, g) && newBase == Base(next, g)
  {
    BaseFits(h, g);
    Advance(h, next - h, g);
    newBase := base;
    newPtr := newBase + pos;
    var delta := Difference(newPtr, hwPtr, g);
    if delta < 0 {
      delta := delta + g.buffer;
      if delta < 0 {
        return false, base, hwPtr;
      }
      newBase := newBase + g.buffer;
      if newBase >= g.boundary {
        newBase := 0;
      }
      newPtr := newBase + pos;
    }
    ok := true;
  }

  // ---------------------------------------------------------------- period interrupts

  /** The code takes the period mark to be on another lap of the boundary than it is: the mark lies above the
      pointer, and adding a period does not bring it over the boundary or the block is in the upper half. */
  predicate Lapped(hwPtr: nat, base: int, mark: nat, g: Geometry) {
    hwPtr < mark && (mark + g.period < g.boundary || base >= g.boundary / 2)
  }

  /** How far the device, `d` frames past the pointer, is past the next period mark in the eyes of the code. */
  function Lateness(hwPtr: nat, base: int, mark: nat, d: nat, g: Geometry): int {
    (if hwPtr < mark then hwPtr - mark + g.boundary else hwPtr - mark)
    + d - g.period - (if Lapped(hwPtr, base, mark, g) then g.boundary else 0)
  }

  /** What an interrupt does to the pointer: it follows the device, is ignored, or lands a buffer off. */
  datatype Verdict = Follows | Skips | JumpsAhead | FallsBack

  /** The four cases, by how late the interrupt is, whether the device has entered a new block, and whether the
      buffer is a single period. */
  function Judge(late: int, changes: bool, periods: nat, g: Geometry): Verdict {
    if late >= 0 then
      if changes && late >= g.buffer then FallsBack else Follows
    else
      if !changes && periods == 1 && late + g.buffer >= 0 then JumpsAhead else Skips
  }

  function VerdictAt(hwPtr: nat, base: int, mark: nat, d: nat, g: Geometry, periods: nat): Verdict {
    Judge(Lateness(hwPtr, base, mark, d, g), hwPtr - base + d >= g.buffer, periods, g)
  }

  function Onwards(p: int, d: nat, g: Geometry): int {
    if p + d >= g.boundary then p + d - g.boundary else p + d
  }

  /** The next period mark, or a fresh one when at least half a period too much has passed. */
  function NextMark(mark: nat, newPtr: nat, late: int, g: Geometry): int
    requires g.period > 0
  {
    if late > g.period + g.period / 2 then newPtr - newPtr % g.period else Onwards(mark, g.period, g)
  }

  /** The arithmetic of `snd_pcm_update_hw_ptr_interrupt`, for a pointer `s` frames into its block and a device
      that has moved on by `d`, on all inputs. */
  method InterruptStep(hwPtr: nat, base: nat, mark: nat, pos: nat, g: Geometry, periods: nat, ghost s: nat, ghost d: nat)
    returns (ok: bool, newBase: nat, newPtr: nat, newMark: nat, delta: int)
    requires 0 < g.period <= g.buffer && 2 * g.buffer <= g.boundary <= g.longMax - g.buffer
    requires hwPtr == base + s && s < g.buffer && d < g.buffer && mark < g.boundary
    requires pos == if s + d < g.buffer then s + d else s + d - g.buffer
    requires base + g.buffer == g.boundary || base + 2 * g.buffer <= g.boundary
    requires base == 0 || base >= g.buffer
    ensures var v := VerdictAt(hwPtr, base, mark, d, g, periods);
            var late := Lateness(hwPtr, base, mark, d, g);
            && (ok <==> v != Skips)
            && (ok ==> newPtr == newBase + pos && newMark == Onwards(mark, g.period, g))
            && (v == Follows ==> delta == late && newBase == if s + d < g.buffer then base else Onwards(base, g.buffer, g))
            && (v == JumpsAhead ==> newBase == Onwards(base, g.buffer, g))
            && (v == FallsBack ==> newBase == base)
  {
    newBase := base;
    newPtr := newBase + pos;
    newMark := mark + g.period;
    delta := Difference(newPtr, newMark, g);
    if newMark >= g.boundary {
      newMark := newMark - g.boundary;
      if newBase < g.boundary / 2 {
        delta := Difference(newPtr, newMark, g);
      }
    }
    if delta < 0 {
      if periods == 1 || newPtr < hwPtr {
        delta := delta + g.buffer;
      }
      if delta < 0 {
        return false, base, hwPtr, mark, delta;
      }
      newBase := newBase + g.buffer;
      if newBase >= g.boundary {
        newBase := 0;
      }
      newPtr := newBase + pos;
    }
    ok := true;
  }

  /** The pointer part of `snd_pcm_update_hw_ptr_interrupt`, on all inputs: where the pointer ends up in each of the
      four cases. It is right if and only if the verdict is that it follows. */
  method FollowInterrupt(hwPtr: nat, base: nat, mark: nat, pos: nat, g: Geometry, periods: nat, ghost h: nat, ghost next: nat)
    returns (ok: bool, newBase: nat, newPtr: nat, newMark: nat)
    requires ValidGeometry(g) && hwPtr == Wrap(h, g) && base == Base(h, g) && mark < g.boundary
    requires h <= next < h + g.buffer && pos == Slot(next, g)
    ensures var v := VerdictAt(hwPtr, base, mark, next - h, g, periods);
            && (ok <==> v != Skips)
            && (ok && newPtr == Wrap(next, g) <==> v == Follows)
            && (v == Follows ==> newBase == Base(next, g))
            && (v == Follows ==> newMark == NextMark(mark, newPtr, Lateness(hwPtr, base, mark, next - h, g), g))
            && (v == JumpsAhead ==> newPtr == Wrap(next + g.buffer, g) && newBase == Base(next + g.buffer, g))
            && (v == FallsBack ==> next >= g.buffer && newPtr == Wrap(next - g.buffer, g) && newBase == Base(next - g.buffer, g))
            && (ok ==> newMark < g.boundary)
  {
    BaseFits(h, g);
    Landings(h, next, g);
    var delta;
    ok, newBase, newPtr, newMark, delta := InterruptStep(hwPtr, base, mark, pos, g, periods, Slot(h, g), next - h);
    if ok {
      newMark := Rebased(newPtr, newMark, delta, g);
    }
  }

  /** Too much has passed since the mark: start afresh at the last multiple of the period. */
  method Rebased(newPtr: nat, mark: nat, delta: int, g: Geometry) returns (newMark: nat)
    requires g.period > 0
    ensures newMark == (if delta > g.period + g.period / 2 then newPtr - newPtr % g.period else mark)
    ensures newMark <= newPtr || newMark == mark
  {
    Euclid(newPtr, g.period);
    newMark := mark;
    if delta > g.period + g.period / 2 {
      newMark := newPtr - newPtr % g.period;
    }
  }

  /** The places where the pointer can land: in the block of the device, or one block off to either side. */
  lemma Landings(h: nat, next: nat, g: Geometry)
    requires ValidGeometry(g) && h <= next < h + g.buffer
    ensures var b, n, s, d := Base(h, g), Onwards(Base(h, g), g.buffer, g), Slot(h, g), next - h;
            && Slot(next, g) == (if s + d < g.buffer then s + d else s + d - g.buffer)
            && Wrap(next, g) == Base(next, g) + Slot(next, g)
            && (if s + d < g.buffer then
                  Base(next, g) == b && Base(next + g.buffer, g) == n &&
                  Wrap(next + g.buffer, g) == n + Slot(next, g) != Wrap(next, g)
                else
                  Base(next, g) == n && next >= g.buffer && Base(next - g.buffer, g) == b &&
                  Wrap(next - g.buffer, g) == b + Slot(next, g) != Wrap(next, g))
  {
    BaseFits(h, g);
    Advance(h, next - h, g);
    BlockOff(h, next, g);
  }

  /** A whole buffer further on, and further back. */
  lemma BlockOff(h: nat, next: nat, g: Geometry)
    requires ValidGeometry(g) && h <= next < h + g.buffer
    ensures Base(next + g.buffer, g) == Onwards(Base(next, g), g.buffer, g)
    ensures Wrap(next + g.buffer, g) == Base(next + g.buffer, g) + Slot(next, g)
    ensures Wrap(next + g.buffer, g) != Wrap(next, g)
    ensures Slot(h, g) + (next - h) >= g.buffer ==>
              next >= g.buffer && Base(next - g.buffer, g) == Base(h, g) &&
              Wrap(next - g.buffer, g) == Base(h, g) + Slot(next, g) && Wrap(next - g.buffer, g) != Wrap(next, g)
  {
    OneBlock(next, g);
    Advance(h, next - h, g);
    BaseFits(h, g);
    Euclid(h, g.buffer);
    if Slot(h, g) + (next - h) >= g.buffer {
      Advance(h, next - h, g);
      ModBack(next, g.buffer, g.boundary);
      OneBlock(next - g.buffer, g);
    }
  }

  lemma OneBlock(n: nat, g: Geometry)
    requires ValidGeometry(g)
    ensures Slot(n + g.buffer, g) == Slot(n, g)
    ensures Wrap(n + g.buffer, g) == Onwards(Wrap(n, g), g.buffer, g) != Wrap(n, g)
    ensures Base(n + g.buffer, g) == Onwards(Base(n, g), g.buffer, g)
  {
    ModStep(n, g.buffer, g.boundary);
    Euclid(n, g.buffer);
    EuclidUnique(n + g.buffer, g.buffer, n / g.buffer + 1, n % g.buffer);
    BaseFits(n, g);
    BaseFits(n + g.buffer, g);
  }

  // ---------------------------------------------------------------- what that means for counts

  /** What the interrupt handler may rely on: the device is at or past the next mark, by less than a buffer. */
  predicate PeriodElapsed(h: nat, mark: nat, next: nat, g: Geometry) {
    && mark <= h < mark + g.boundary && h <= next < h + g.buffer
    && mark + g.period <= next < mark + g.period + g.buffer
  }

  /** Then the pointer follows the device if and only if the mark is not taken to be on another lap; otherwise the
      interrupt is ignored. */
  lemma ElapsedFollowsIff(h: nat, mark: nat, next: nat, g: Geometry, periods: nat)
    requires ValidGeometry(g) && PeriodElapsed(h, mark, next, g)
    ensures var v := VerdictAt(Wrap(h, g), Base(h, g), Wrap(mark, g), next - h, g, periods);
            v == if Lapped(Wrap(h, g), Base(h, g), Wrap(mark, g), g) then Skips else Follows
    ensures !Lapped(Wrap(h, g), Base(h, g), Wrap(mark, g), g) ==>
              Lateness(Wrap(h, g), Base(h, g), Wrap(mark, g), next - h, g) == next - (mark + g.period)
  {
    ModStep(mark, h - mark, g.boundary);
  }

  /** An interrupt before the next mark is ignored; on a buffer that is a single period, it takes the pointer a buffer
      ahead unless the device has entered a new block. */
  lemma EarlyIsIgnored(h: nat, mark: nat, next: nat, g: Geometry, periods: nat)
    requires ValidGeometry(g) && mark <= h <= next < mark + g.period && next < h + g.buffer
    requires periods == 1 ==> g.period == g.buffer
    ensures VerdictAt(Wrap(h, g), Base(h, g), Wrap(mark, g), next - h, g, periods) ==
            if periods == 1 && Slot(h, g) + (next - h) < g.buffer then JumpsAhead else Skips
  {
    TimelyIsNeverLapped(h, mark, g);
    ModStep(mark, h - mark, g.boundary);
    BaseFits(h, g);
  }

  /** One a buffer or more past the next mark, which takes a pointer that was polled meanwhile, falls back if the device
      has entered a new block. */
  lemma LateFallsBackIff(h: nat, mark: nat, next: nat, g: Geometry, periods: nat)
    requires ValidGeometry(g) && mark <= h < mark + g.boundary && h <= next < h + g.buffer
    requires next >= mark + g.period + g.buffer && !Lapped(Wrap(h, g), Base(h, g), Wrap(mark, g), g)
    ensures VerdictAt(Wrap(h, g), Base(h, g), Wrap(mark, g), next - h, g, periods) ==
            if Slot(h, g) + (next - h) >= g.buffer then FallsBack else Follows
  {
    ModStep(mark, h - mark, g.boundary);
    BaseFits(h, g);
  }

  /** A handler that runs before its next period ends never meets a lapped mark ... */
  lemma TimelyIsNeverLapped(h: nat, mark: nat, g: Geometry)
    requires ValidGeometry(g) && mark <= h <= mark + g.period
    ensures !Lapped(Wrap(h, g), Base(h, g), Wrap(mark, g), g)
  {
    ModStep(mark, h - mark, g.boundary);
    BaseFits(h, g);
  }

  /** The count behind the next mark. */
  function NextMarkCount(mark: nat, next: nat, g: Geometry): int
    requires ValidGeometry(g)
  {
    if next - (mark + g.period) > g.period + g.period / 2 then next - Wrap(next, g) % g.period else mark + g.period
  }

  lemma NextMarkWraps(mark: nat, next: nat, g: Geometry)
    requires ValidGeometry(g) && mark + g.period <= next
    ensures 0 <= NextMarkCount(mark, next, g) <= next
    ensures NextMark(Wrap(mark, g), Wrap(next, g), next - (mark + g.period), g) == Wrap(NextMarkCount(mark, next, g), g)
    ensures if 2 * (next - (mark + g.period)) > 3 * g.period
            then Wrap(NextMarkCount(mark, next, g), g) % g.period == 0 && next < NextMarkCount(mark, next, g) + g.period
            else NextMarkCount(mark, next, g) == mark + g.period
  {
    var p := Wrap(next, g);
    AlignDown(p, g.period);
    ModStep(mark, g.period, g.boundary);
    Euclid(p, g.period);
    Euclid(next, g.boundary);
    EuclidUnique(next - p % g.period, g.boundary, next / g.boundary, p - p % g.period);
  }

  /** ... and leaves the next one timely exactly when it ran within a period of the mark or so late that
      the mark was set afresh. */
  lemma StaysTimelyIff(mark: nat, next: nat, g: Geometry)
    requires ValidGeometry(g) && mark + g.period <= next
    ensures NextMarkCount(mark, next, g) <= next
    ensures next <= NextMarkCount(mark, next, g) + g.period <==>
            !(g.period < next - (mark + g.period) <= g.period + g.period / 2)
  {
    Euclid(Wrap(next, g), g.period);
  }

  /** The update at a period interrupt in time: for a driver's count at most a period past the mark, and a device that
      has reached the next mark, pointer, base and mark all end up where they should, across all wraps. */
  method TimelyInterrupt(hwPtr: nat, base: nat, mark': nat, pos: nat, g: Geometry, periods: nat, ghost h: nat, ghost mark: nat, ghost next: nat)
    returns (ok: bool, newBase: nat, newPtr: nat, newMark: nat)
    requires ValidGeometry(g) && mark <= h <= mark + g.period <= next < h + g.buffer
    requires hwPtr == Wrap(h, g) && base == Base(h, g) && mark' == Wrap(mark, g) && pos == Slot(next, g)
    ensures ok && newPtr == Wrap(next, g) && newBase == Base(next, g)
    ensures 0 <= NextMarkCount(mark, next, g) <= next && newMark == Wrap(NextMarkCount(mark, next, g), g)
  {
    TimelyIsNeverLapped(h, mark, g);
    ElapsedFollowsIff(h, mark, next, g, periods);
    NextMarkWraps(mark, next, g);
    ok, newBase, newPtr, newMark := FollowInterrupt(hwPtr, base, mark', pos, g, periods, h, next);
  }

  // ---------------------------------------------------------------- the cases in which it goes wrong

  /** An interrupt in time, ignored: the pointer has crossed the boundary, the mark is two periods below it. */
  lemma ElapsedButSkipped()
    ensures var g := Geometry(64, 16, 4, 80);
            ValidGeometry(g) && PeriodElapsed(65, 56, 66, g) && VerdictAt(1, 0, 56, 1, g, 4) == Skips &&
            Wrap(65, g) == 1 && Base(65, g) == 0 && Wrap(56, g) == 56
  {
  }

  /** An early interrupt on a buffer of one period: with the device at 6 the pointer goes to 22. */
  method SinglePeriodJumps() returns (newPtr: nat)
    ensures newPtr == 22
  {
    var g := Geometry(64, 16, 16, 80);
    var ok, newBase, newMark;
    ok, newBase, newPtr, newMark := FollowInterrupt(2, 0, 0, 6, g, 1, 2, 6);
  }

  /** A late interrupt, on a pointer that was polled meanwhile: with the device at 32 the pointer goes back to 16. */
  method LateFallsBack() returns (newPtr: nat)
    ensures newPtr == 16
  {
    var g := Geometry(64, 16, 4, 80);
    var ok, newBase, newMark;
    ok, newBase, newPtr, newMark := FollowInterrupt(17, 16, 0, 0, g, 4, 17, 32);
  }
}
