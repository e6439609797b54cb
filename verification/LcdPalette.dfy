/**
 The write-behind palette of the LCD driver. Colours are requested at any time, the hardware only takes
 palette writes now and then, and a frame interrupt retries until every entry reads back as requested.
 */
module LcdPalette {
  import opened Numbers

  const ENTRIES: nat := 256
  const CLEAR: nat := 0x8000_0000

  /** A palette register holds sixteen bits. */
  type Color = n: int | 0 <= n < 0x10000

  datatype Visual = TrueColor | PseudoColor | OtherVisual

  /** An interrupt of the controller: whether it is for a new frame, and which palette writes the hardware will take. */
  datatype Irq = Irq(frameSync: bool, takes: seq<bool>)

  /** RGB 5-6-5 from 16-bit channels: the top five, six and five bits of each. */
  function Rgb565(red: nat, green: nat, blue: nat): (val: Color)
    ensures val / 2048 == (red / 2048) % 32
    ensures (val / 32) % 64 == (green / 1024) % 64
    ensures val % 32 == (blue / 2048) % 32
  {
    var r, g, b := (red / 2048) % 32, (green / 1024) % 64, (blue / 2048) % 32;
    FieldsApart(r, g, b);
    r * 2048 + g * 32 + b
  }

  lemma FieldsApart(r: nat, g: nat, b: nat)
    requires r < 32 && g < 64 && b < 32
    ensures var v := r * 2048 + g * 32 + b; v < 0x10000 && v / 2048 == r && (v / 32) % 64 == g && v % 32 == b
  {
    var v := r * 2048 + g * 32 + b;
    EuclidUnique(v, 2048, r, g * 32 + b);
    EuclidUnique(v, 32, r * 64 + g, b);
    EuclidUnique(r * 64 + g, 64, r, g);
  }

  class Framebuffer {
    const buffer: array<nat>  // `palette_buffer`: requests still to be written, or CLEAR
    const regs: array<Color>  // the palette in the hardware
    var ready: bool           // `palette_ready`
    var irqEnabled: bool
    ghost var want: seq<int>  // the last colour requested for each entry, -1 for none
    ghost var busy: int       // the entry a request is in the middle of, -1 for none

    ghost predicate Valid()
      reads this, buffer, regs
    {
      && buffer.Length == ENTRIES && regs.Length == ENTRIES && |want| == ENTRIES
      && (ready <==> exists i :: 0 <= i < ENTRIES && buffer[i] != CLEAR)
      && (ready ==> irqEnabled)
      && forall i :: 0 <= i < ENTRIES ==> Kept(buffer[i], regs[i], want[i], i == busy)
    }

    /** The last colour requested for an entry is on its way or in the hardware; nothing else is on its way.
        An entry with a request in progress may already hold the new colour. */
    static ghost predicate Kept(pending: nat, shown: Color, wanted: int, inProgress: bool) {
      && -1 <= wanted < 0x10000
      && (pending == CLEAR || pending == wanted)
      && (wanted >= 0 && pending == CLEAR && !inProgress ==> shown == wanted)
    }

    constructor (regs: array<Color>)
      requires regs.Length == ENTRIES
      ensures Valid() && fresh(buffer) && this.regs == regs && busy == -1 && want == seq(ENTRIES, _ => -1)
    {
      buffer := new nat[ENTRIES](_ => CLEAR);
      this.regs := regs;
      ready, irqEnabled := false, false;
      want, busy := seq(ENTRIES, _ => -1), -1;
    }

    /** `writel` to a palette register, which takes or does not. */
    method WriteRegister(i: nat, val: Color, takes: bool)
      requires i < regs.Length
      modifies regs
      ensures regs[..] == if takes then old(regs[..])[i := val] else old(regs[..])
    {
      if takes {
        regs[i] := val;
      }
    }

    /** `s3c2410fb_write_palette`: write out what is pending, keep for later what does not read back. */
    method WritePalette(takes: seq<bool>)
      requires Valid() && |takes| == ENTRIES
      modifies buffer, regs, this`ready
      ensures Valid()
      ensures (forall i :: 0 <= i < ENTRIES ==> takes[i]) ==> !ready
      ensures forall i :: 0 <= i < ENTRIES ==>
                regs[i] == if old(buffer[i]) != CLEAR && takes[i] then old(buffer[i]) else old(regs[i])
      ensures forall i :: 0 <= i < ENTRIES ==> buffer[i] == if regs[i] == old(buffer[i]) then CLEAR else old(buffer[i])
    {
      ready := false;
      ghost var kept := -1;
      for i := 0 to ENTRIES
        invariant ready ==> 0 <= kept < i && buffer[kept] != CLEAR
        invariant !ready ==> forall j :: 0 <= j < i ==> buffer[j] == CLEAR
        invariant forall j :: 0 <= j < ENTRIES ==> Kept(buffer[j], regs[j], want[j], j == busy)
        invariant forall j :: i <= j < ENTRIES ==> buffer[j] == old(buffer[j]) && regs[j] == old(regs[j])
        invariant forall j :: 0 <= j < i ==>
                    regs[j] == if old(buffer[j]) != CLEAR && takes[j] then old(buffer[j]) else old(regs[j])
        invariant forall j :: 0 <= j < i ==> buffer[j] == if regs[j] == old(buffer[j]) then CLEAR else old(buffer[j])
      {
        var ent := buffer[i];
        if ent != CLEAR {
          WriteRegister(i, ent, takes[i]);
          if regs[i] == ent {
            buffer[i] := CLEAR;
          } else {
            ready := true;
            kept := i;
          }
        }
      }
    }

    /** `s3c2410fb_irq` */
    method Interrupt(frameSync: bool, takes: seq<bool>)
      requires Valid() && |takes| == ENTRIES
      modifies buffer, regs, this`ready
      ensures Valid()
      ensures frameSync && (forall i :: 0 <= i < ENTRIES ==> takes[i]) ==> !ready
      ensures frameSync && (forall i :: 0 <= i < ENTRIES ==> takes[i]) && busy == -1 ==> ShowsRequests()
      ensures !frameSync ==> regs[..] == old(regs[..]) && buffer[..] == old(buffer[..]) && ready == old(ready)
    {
      if frameSync {
        if ready {
          WritePalette(takes);
        }
        if !ready && busy == -1 {
          forall i | 0 <= i < ENTRIES && want[i] >= 0 ensures regs[i] == want[i] {
            assert buffer[i] == CLEAR && Kept(buffer[i], regs[i], want[i], false);
          }
        }
      }
    }

    /** The hardware palette is what was last asked for. */
    ghost predicate ShowsRequests()
      reads this, regs
    {
      regs.Length == |want| && forall i :: 0 <= i < |want| && want[i] >= 0 ==> regs[i] == want[i]
    }

    /** `schedule_palette_update`, which completes a request. */
    method SchedulePaletteUpdate(regno: nat, val: Color)
      requires Valid() && busy == regno < ENTRIES
      modifies this, buffer
      ensures Valid() && busy == -1 && want == old(want)[regno := val]
      ensures ready && buffer[..] == old(buffer[..])[regno := val]
    {
      buffer[regno] := val;
      if !ready {
        ready := true;
        irqEnabled := true;
      }
      want, busy := want[regno := val], -1;
    }

    /** `s3c2410fb_setcolreg`. Its direct write may not take, and interrupts may come between that and the scheduling. */
    method SetColReg(visual: Visual, regno: nat, red: nat, green: nat, blue: nat, takes: bool, irqs: seq<Irq>) returns (ret: int)
      requires Valid() && busy == -1 && forall irq :: irq in irqs ==> |irq.takes| == ENTRIES
      modifies this, buffer, regs
      ensures Valid() && busy == -1
      ensures ret == if visual.OtherVisual? then 1 else 0
      ensures visual.PseudoColor? && regno < 256 ==>
                want == old(want)[regno := Rgb565(red, green, blue)] && ready && buffer[regno] == want[regno]
      ensures visual.PseudoColor? && regno < 256 && irqs == [] ==>
                buffer[..] == old(buffer[..])[regno := Rgb565(red, green, blue)] &&
                regs[..] == if takes then old(regs[..])[regno := Rgb565(red, green, blue)] else old(regs[..])
      ensures !(visual.PseudoColor? && regno < 256) ==>
                want == old(want) && buffer[..] == old(buffer[..]) && regs[..] == old(regs[..]) && ready == old(ready)
    {
      match visual
      case TrueColor => ret := 0;
      case PseudoColor =>
        if regno < ENTRIES {
          var val := Rgb565(red, green, blue);
          busy := regno;
          WriteRegister(regno, val, takes);
          Interrupts(irqs);
          SchedulePaletteUpdate(regno, val);
        }
        ret := 0;
      case OtherVisual => ret := 1;
    }

    /** Interrupts one after the other. */
    method Interrupts(irqs: seq<Irq>)
      requires Valid() && forall irq :: irq in irqs ==> |irq.takes| == ENTRIES
      modifies buffer, regs, this`ready
      ensures Valid()
      ensures irqs == [] ==> regs[..] == old(regs[..]) && buffer[..] == old(buffer[..])
    {
      for i := 0 to |irqs|
        invariant Valid()
        invariant i == 0 ==> regs[..] == old(regs[..]) && buffer[..] == old(buffer[..])
      {
        Interrupt(irqs[i].frameSync, irqs[i].takes);
      }
    }
  }
}
