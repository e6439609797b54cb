/**
 The transmit ring of the serial port: `uart_put_char` and `uart_write` fill it, the transmit interrupt
 drains it. Head and tail run through a power of two of slots, one of which always stays free.
 */
module UartRing {
  type Byte = b: int | 0 <= b < 256

  const SIZE: nat := 4096  // UART_XMIT_SIZE, one page
  const NO_PORT := -46     // -EL3HLT
  const BURST: nat := 256  // most characters sent by one interrupt

  /** The code reduces indices with `& (SIZE - 1)`; on machine words that is the remainder. */
  lemma MaskIsRemainder(x: bv32)
    ensures x & 0xfff == x % 0x1000
  {
  }

  function Masked(x: int): (r: nat)
    ensures r < SIZE
  {
    x % SIZE
  }

  /** CIRC_CNT: characters in the ring. */
  function Count(head: nat, tail: nat): nat {
    Masked(head - tail)
  }

  /** CIRC_SPACE: characters that still fit. */
  function Space(head: nat, tail: nat): nat {
    Masked(tail - head - 1)
  }

  /** CIRC_SPACE_TO_END: how many of those fit without wrapping. */
  function SpaceToEnd(head: nat, tail: nat): int {
    var end := SIZE - 1 - head;
    var n := Masked(end + tail);
    if n <= end then n else end + 1
  }

  /** The characters from slot `tail` on. */
  ghost function Ring(buf: seq<Byte>, tail: nat, n: nat): (s: seq<Byte>)
    requires |buf| == SIZE && n <= SIZE
    ensures |s| == n && forall i :: 0 <= i < n ==> s[i] == buf[Masked(tail + i)]
  {
    seq(n, i requires 0 <= i < n => buf[Masked(tail + i)])
  }

  lemma CountAndSpace(head: nat, tail: nat)
    requires head < SIZE && tail < SIZE
    ensures Count(head, tail) + Space(head, tail) == SIZE - 1
    ensures Count(head, tail) == 0 <==> head == tail
    ensures 0 <= SpaceToEnd(head, tail) <= Space(head, tail)
    ensures SpaceToEnd(head, tail) == Space(head, tail) || SpaceToEnd(head, tail) == SIZE - head
    ensures head + SpaceToEnd(head, tail) <= SIZE
    ensures Masked(tail + Count(head, tail)) == head
  {
  }

  /** Writing `data` to consecutive slots from `head` appends it to the ring. */
  lemma RingAppend(buf: seq<Byte>, buf': seq<Byte>, head: nat, tail: nat, data: seq<Byte>)
    requires |buf| == |buf'| == SIZE && head < SIZE && tail < SIZE
    requires head + |data| <= SIZE && |data| <= Space(head, tail)
    requires forall j :: 0 <= j < SIZE ==> buf'[j] == if head <= j < head + |data| then data[j - head] else buf[j]
    ensures Count(Masked(head + |data|), tail) == Count(head, tail) + |data|
    ensures Ring(buf', tail, Count(head, tail) + |data|) == Ring(buf, tail, Count(head, tail)) + data
  {
    SlotOf(head, tail, |data|, |data|);
    CountAndSpace(head, tail);
    forall i | 0 <= i < Count(head, tail) + |data|
      ensures Ring(buf', tail, Count(head, tail) + |data|)[i] == (Ring(buf, tail, Count(head, tail)) + data)[i]
    {
      RingAppendAt(buf, buf', head, tail, data, i);
    }
  }

  lemma RingAppendAt(buf: seq<Byte>, buf': seq<Byte>, head: nat, tail: nat, data: seq<Byte>, i: nat)
    requires |buf| == |buf'| == SIZE && head < SIZE && tail < SIZE
    requires head + |data| <= SIZE && |data| <= Space(head, tail)
    requires forall j :: 0 <= j < SIZE ==> buf'[j] == if head <= j < head + |data| then data[j - head] else buf[j]
    requires i < Count(head, tail) + |data| <= SIZE
    ensures Ring(buf', tail, Count(head, tail) + |data|)[i] == (Ring(buf, tail, Count(head, tail)) + data)[i]
  {
    SlotOf(head, tail, |data|, i - Count(head, tail));
  }

  /** Where the `i`-th character from the head on, or before it, sits: outside the next `n` slots exactly if it is
      one of those in the ring. */
  lemma SlotOf(head: nat, tail: nat, n: nat, i: int)
    requires head < SIZE && tail < SIZE && head + n <= SIZE && n <= Space(head, tail)
    requires 0 <= Count(head, tail) + i && i <= n
    ensures 0 <= i < n ==> Masked(tail + Count(head, tail) + i) == head + i
    ensures i < 0 ==> !(head <= Masked(tail + Count(head, tail) + i) < head + n)
    ensures i == n ==> Count(Masked(head + n), tail) == Count(head, tail) + n
  {
    MaskedOnce(head - tail);
    MaskedOnce(tail - head - 1);
    MaskedOnce(tail + Count(head, tail) + i);
    if i == n {
      MaskedOnce(head + n);
      MaskedOnce(Masked(head + n) - tail);
    }
  }

  /** ... and keeps what was accepted equal to what was sent and what is in the ring. */
  lemma AcceptAppends(buf: seq<Byte>, buf': seq<Byte>, head: nat, tail: nat, data: seq<Byte>, sent: seq<Byte>, accepted: seq<Byte>)
    requires |buf| == |buf'| == SIZE && head < SIZE && tail < SIZE
    requires head + |data| <= SIZE && |data| <= Space(head, tail)
    requires forall j :: 0 <= j < SIZE ==> buf'[j] == if head <= j < head + |data| then data[j - head] else buf[j]
    requires accepted == sent + Ring(buf, tail, Count(head, tail))
    ensures accepted + data == sent + Ring(buf', tail, Count(Masked(head + |data|), tail))
  {
    RingAppend(buf, buf', head, tail, data);
    var p := Ring(buf, tail, Count(head, tail));
    assert sent + (p + data) == (sent + p) + data;
  }

  /** Taking the character at `tail`. */
  lemma RingTake(buf: seq<Byte>, head: nat, tail: nat)
    requires |buf| == SIZE && head < SIZE && tail < SIZE && head != tail
    ensures Count(head, Masked(tail + 1)) == Count(head, tail) - 1
    ensures Ring(buf, tail, Count(head, tail)) == [buf[tail]] + Ring(buf, Masked(tail + 1), Count(head, tail) - 1)
  {
    CountDrops(head, tail);
    RingSplits(buf, tail, Count(head, tail));
  }

  lemma CountDrops(head: nat, tail: nat)
    requires head < SIZE && tail < SIZE && head != tail
    ensures Count(head, Masked(tail + 1)) == Count(head, tail) - 1
  {
    MaskedOnce(head - tail);
    MaskedOnce(tail + 1);
    MaskedOnce(head - Masked(tail + 1));
  }

  lemma RingSplits(buf: seq<Byte>, tail: nat, n: nat)
    requires |buf| == SIZE && tail < SIZE && 0 < n <= SIZE
    ensures Ring(buf, tail, n) == [buf[tail]] + Ring(buf, Masked(tail + 1), n - 1)
  {
    forall i | 0 <= i < n ensures Ring(buf, tail, n)[i] == ([buf[tail]] + Ring(buf, Masked(tail + 1), n - 1))[i] {
      MaskedNext(tail, i);
    }
  }

  lemma MaskedNext(tail: nat, i: nat)
    requires tail < SIZE && i < SIZE
    ensures i == 0 ==> Masked(tail + i) == tail
    ensures i > 0 ==> Masked(Masked(tail + 1) + (i - 1)) == Masked(tail + i)
  {
    MaskedOnce(tail + i);
    MaskedOnce(tail + 1);
    if i > 0 { MaskedOnce(Masked(tail + 1) + (i - 1)); }
  }

  /** One copy of `c` characters uses up that much space; a copy of all there is before the end leaves
      either no space or the head at slot 0. */
  lemma AfterCopy(head: nat, tail: nat, c: nat)
    requires head < SIZE && tail < SIZE && c <= SpaceToEnd(head, tail)
    ensures Space(Masked(head + c), tail) == Space(head, tail) - c
    ensures c == SpaceToEnd(head, tail) ==> Space(Masked(head + c), tail) == 0 || Masked(head + c) == 0
    ensures head == 0 ==> SpaceToEnd(head, tail) == Space(head, tail)
  {
    MaskedOnce(tail - head - 1);
    MaskedOnce(SIZE - 1 - head + tail);
    MaskedOnce(head + c);
    MaskedOnce(tail - Masked(head + c) - 1);
  }

  lemma MaskedOnce(x: int)
    requires 0 <= x + SIZE && x < 2 * SIZE
    ensures Masked(x) == if x < 0 then x + SIZE else if x < SIZE then x else x - SIZE
  {
  }

  class Port {
    const buf: array<Byte>
    const attached: bool      // whether the terminal still has a port
    const open: bool          // whether the ring has a buffer at all
    var head: nat
    var tail: nat
    var txEnabled: bool
    var stopped: bool         // `tty->stopped || tty->hw_stopped`
    var xChar: Byte           // a flow control character to send first, 0 for none
    ghost var accepted: seq<Byte>
    ghost var sent: seq<Byte>

    ghost predicate Valid()
      reads this, buf
    {
      && buf.Length == SIZE && head < SIZE && tail < SIZE
      && accepted == sent + Pending()
    }

    ghost function Pending(): seq<Byte>
      requires buf.Length == SIZE
      reads this, buf
    {
      Ring(buf[..], tail, Count(head, tail))
    }

    constructor (attached: bool, open: bool)
      ensures Valid() && fresh(buf) && this.attached == attached && this.open == open && accepted == [] && sent == [] && !txEnabled
    {
      buf := new Byte[SIZE];
      this.attached, this.open := attached, open;
      head, tail, txEnabled, stopped, xChar := 0, 0, false, false, 0;
      accepted, sent := [], [];
    }

    /** `__uart_put_char` */
    method PutChar(c: Byte) returns (ret: int)
      requires Valid()
      modifies this`head, this`accepted, buf
      ensures Valid()
      ensures ret == if open && old(Space(head, tail)) > 0 then 1 else 0
      ensures accepted == if ret == 1 then old(accepted) + [c] else old(accepted)
    {
      if !open {
        return 0;
      }
      ret := 0;
      if Space(head, tail) != 0 {
        CountAndSpace(head, tail);
        ghost var b := buf[..];
        buf[head] := c;
        AcceptAppends(b, buf[..], head, tail, [c], sent, accepted);
        head := Masked(head + 1);
        accepted := accepted + [c];
        ret := 1;
      }
    }

    method Fill(data: seq<Byte>)
      requires buf.Length == SIZE && head + |data| <= SIZE
      modifies buf
      ensures forall j :: 0 <= j < SIZE ==> buf[j] == if head <= j < head + |data| then data[j - head] else old(buf[j])
    {
      for i := 0 to |data|
        invariant forall j :: 0 <= j < SIZE ==> buf[j] == if head <= j < head + i then data[j - head] else old(buf[j])
      {
        buf[head + i] := data[i];
      }
    }

    /** `memcpy` into the ring. */
    method CopyIn(data: seq<Byte>)
      requires Valid() && |data| <= SpaceToEnd(head, tail)
      modifies this`head, this`accepted, buf
      ensures Valid() && accepted == old(accepted) + data && head == Masked(old(head) + |data|)
    {
      CountAndSpace(head, tail);
      ghost var b := buf[..];
      Fill(data);
      AcceptAppends(b, buf[..], head, tail, data, sent, accepted);
      head := Masked(head + |data|);
      accepted := accepted + data;
    }

    /** `uart_write`: as much of the data as fits, in at most two copies, and the transmitter is started. The port
        lock is released in between, so that transmit interrupts may come before the start. */
    method Write(data: seq<Byte>) returns (ret: int, ghost copies: nat)
      requires Valid()
      modifies this, buf
      ensures Valid()
      ensures ret == if !attached then NO_PORT else if !open then 0 else Least(|data|, old(Space(head, tail)))
      ensures accepted == old(accepted) + data[..if ret > 0 then ret else 0] && copies <= 2
      ensures old(sent) <= sent && stopped == old(stopped)
      ensures attached && open && head != tail && !stopped ==> txEnabled
    {
      copies := 0;
      if !attached {
        return NO_PORT, copies;
      }
      if !open {
        return 0, copies;
      }
      ret, copies := WriteLoop(data);
      Interrupts();
      StartIfNeeded();
    }

    /** Any number of transmit interrupts. */
    method Interrupts()
      requires Valid()
      modifies this`tail, this`txEnabled, this`xChar, this`sent
      ensures Valid() && old(sent) <= sent
    {
      var n: nat :| n >= 0;
      for i := 0 to n
        invariant Valid() && old(sent) <= sent
      {
        var room: nat :| room >= 0;
        var _ := TransmitInterrupt(room);
      }
    }

    method WriteLoop(data: seq<Byte>) returns (ret: nat, ghost copies: nat)
      requires Valid()
      modifies this`head, this`accepted, buf
      ensures Valid() && ret == Least(|data|, old(Space(head, tail)))
      ensures accepted == old(accepted) + data[..ret] && copies <= 2
    {
      ret, copies := 0, 0;
      CountAndSpace(head, tail);
      var more := true;
      while more
        invariant Valid() && ret <= |data| && accepted == old(accepted) + data[..ret]
        invariant Space(head, tail) == old(Space(head, tail)) - ret
        invariant !more ==> ret == |data| || Space(head, tail) == 0
        invariant copies <= 2 && (copies == 1 ==> ret == |data| || Space(head, tail) == 0 || head == 0)
        invariant copies == 2 ==> ret == |data| || Space(head, tail) == 0
        decreases |data| - ret, more
      {
        var c := WriteOnce(data[ret..]);
        TakeMore(old(accepted), data, ret, c);
        more := c > 0;
        ret := ret + c;
        copies := if more then copies + 1 else copies;
      }
    }

    lemma TakeMore(a: seq<Byte>, data: seq<Byte>, ret: nat, c: nat)
      requires ret + c <= |data|
      ensures (a + data[..ret]) + data[ret..][..c] == a + data[..ret + c]
    {
      assert data[..ret] + data[ret..][..c] == data[..ret + c];
    }

    /** One round of the write loop: fill up to the end of the buffer, of the space or of the data. */
    method WriteOnce(data: seq<Byte>) returns (c: nat)
      requires Valid()
      modifies this`head, this`accepted, buf
      ensures Valid() && c <= |data| && accepted == old(accepted) + data[..c]
      ensures Space(head, tail) == old(Space(head, tail)) - c
      ensures c == |data| || Space(head, tail) == 0 || (head == 0 && old(head) != 0)
      ensures c == 0 ==> data == [] || Space(head, tail) == 0
    {
      CountAndSpace(head, tail);
      var n := SpaceToEnd(head, tail);
      if |data| < n {
        n := |data|;
      }
      c := n;
      AfterCopy(head, tail, c);
      if c > 0 {
        CopyIn(data[..c]);
      }
    }

    /** `__uart_start` and `s3c24xx_serial_start_tx` */
    method StartIfNeeded()
      requires Valid()
      modifies this`txEnabled
      ensures Valid() && txEnabled == (old(txEnabled) || (head != tail && open && !stopped))
    {
      if head != tail && open && !stopped {
        if !txEnabled {
          txEnabled := true;
        }
      }
    }

    /** `s3c24xx_serial_tx_chars` with a transmit FIFO that takes `room` more characters. */
    method TransmitInterrupt(room: nat) returns (wire: seq<Byte>)
      requires Valid()
      modifies this`tail, this`txEnabled, this`xChar, this`sent
      ensures Valid() && accepted == old(accepted)
      ensures old(xChar) != 0 ==> wire == [old(xChar)] && xChar == 0 && sent == old(sent) && txEnabled == old(txEnabled)
      ensures old(xChar) == 0 ==> xChar == 0 && sent == old(sent) + wire && wire <= old(Pending())
      ensures old(xChar) == 0 ==> |wire| == if stopped then 0 else Least(|old(Pending())|, Least(256, room))
      ensures old(xChar) == 0 ==> txEnabled == (old(txEnabled) && head != tail && !stopped)
    {
      wire := [];
      if xChar != 0 {
        wire := [xChar];
        xChar := 0;
        return;
      }
      if head == tail || stopped {
        txEnabled := false;
        return;
      }
      wire := Drain(room);
      if head == tail {
        txEnabled := false;
      }
    }

    /** The draining loop. */
    method Drain(room: nat) returns (wire: seq<Byte>)
      requires Valid()
      modifies this`tail, this`sent
      ensures Valid() && sent == old(sent) + wire && old(Pending()) == wire + Pending()
      ensures |wire| == Least(|old(Pending())|, Least(BURST, room))
    {
      wire := [];
      var count := BURST;
      ghost var p := Pending();
      while head != tail && count > 0
        invariant Valid() && 0 <= count <= BURST
        invariant p == wire + Pending() && sent == old(sent) + wire
        invariant |wire| == BURST - count <= room
        decreases count
      {
        if |wire| == room {
          break;
        }
        count := count - 1;
        var c := Take();
        wire := wire + [c];
      }
      CountAndSpace(head, tail);
    }

    method Take() returns (c: Byte)
      requires Valid() && head != tail
      modifies this`tail, this`sent
      ensures Valid() && sent == old(sent) + [c] && old(Pending()) == [c] + Pending()
    {
      RingTake(buf[..], head, tail);
      c := buf[tail];
      SendFirst(sent, c, Ring(buf[..], Masked(tail + 1), Count(head, tail) - 1));
      sent := sent + [c];
      tail := Masked(tail + 1);
    }

    lemma SendFirst(sent: seq<Byte>, c: Byte, rest: seq<Byte>)
      ensures sent + ([c] + rest) == (sent + [c]) + rest
    {
    }
  }

  function Least(a: nat, b: nat): (c: nat)
    ensures c <= a && c <= b && (c == a || c == b)
  {
    if a < b then a else b
  }
}
