/**
 Transmit half of gmac_raw.c: a circular list of N descriptors between us_tx_tail (oldest frame
 not yet reported as sent) and us_tx_head (next descriptor to fill). The driver fills at the
 head, the controller marks descriptors used in list order, the interrupt handler advances the
 tail over the used ones.
 */
module GmacTx {
  import opened Bytes
  import opened Circular

  /** GMAC_TX_UNITSIZE */
  const UNIT: nat := 1518

  datatype RawDesc = RawDesc(used: bool, wrap: bool, last: bool, len: nat, buf: seq<Byte>)

  type TxDesc = d: RawDesc | |d.buf| == UNIT && d.len <= UNIT
    witness RawDesc(true, false, false, 0, seq(UNIT, _ => 0))

  type Frame = seq<Byte>

  datatype Status = Ok | Param | Busy

  /** `cb[i]` says that a transmit callback is registered for descriptor i. */
  datatype Ring = Ring(d: seq<TxDesc>, cb: seq<bool>, head: nat, tail: nat)

  // ---------------------------------------------------------------- circular arithmetic

  /** The C remainder, which truncates toward zero. */
  function CRem(a: int, n: int): int
    requires n > 0
  {
    if a >= 0 then a % n else -((-a) % n)
  }

  /** CIRC_CNT */
  function CircCnt(head: nat, tail: nat, n: nat): int
    requires n > 0
  {
    CRem(head - tail, n)
  }

  /** CIRC_SPACE */
  function CircSpace(head: nat, tail: nat, n: nat): int
    requires n > 0
  {
    CRem(tail - (head + 1), n)
  }

  /** The number of descriptors from tail up to head. */
  function InFlight(head: nat, tail: nat, n: nat): nat
    requires head < n && tail < n
  {
    if head >= tail then head - tail else head + n - tail
  }

  /** The signed remainders are zero exactly when they should be; their values otherwise are the
      counts only on one side of the wrap. */
  lemma CircTests(head: nat, tail: nat, n: nat)
    requires head < n && tail < n
    ensures CircCnt(head, tail, n) == 0 <==> InFlight(head, tail, n) == 0
    ensures CircSpace(head, tail, n) == 0 <==> InFlight(head, tail, n) == n - 1
    ensures CircCnt(head, tail, n) == InFlight(head, tail, n) <==> head >= tail
  {
    if head < tail { SmallRem(tail - head, n); } else { SmallRem(head - tail, n); }
    if head + 1 > tail {
      if head + 1 - tail == n { assert n % n == 0; } else { SmallRem(head + 1 - tail, n); }
    } else { SmallRem(tail - head - 1, n); }
  }

  lemma SmallRem(a: nat, n: nat)
    requires a < n
    ensures a % n == a
  {
  }

  /** circ_inc */
  function Inc(i: nat, n: nat): nat {
    if i + 1 >= n then 0 else i + 1
  }

  // ---------------------------------------------------------------- the ring as a queue

  ghost predicate Shape(r: Ring) {
    r.head < |r.d| && r.tail < |r.d| && |r.cb| == |r.d|
  }

  function Count(r: Ring): nat
    requires Shape(r)
  {
    InFlight(r.head, r.tail, |r.d|)
  }

  /** The descriptor k steps after the tail. */
  function Nth(r: Ring, k: nat): TxDesc
    requires Shape(r) && k < |r.d|
  {
    r.d[At(r.tail, k, |r.d|)]
  }

  /** In every reachable state: exactly the last descriptor carries WRAP, everything outside
      tail..head is marked used, completed frames come first in tail..head, every frame there has
      its callback, and those not yet sent end in their own descriptor. */
  ghost predicate RingInv(r: Ring) {
    && Shape(r)
    && (forall i :: 0 <= i < |r.d| ==> (r.d[i].wrap <==> i == |r.d| - 1))
    && (forall k :: Count(r) <= k < |r.d| ==> Nth(r, k).used)
    && (forall j, k :: 0 <= j < k < Count(r) && Nth(r, k).used ==> Nth(r, j).used)
    && (forall k :: 0 <= k < Count(r) ==> r.cb[At(r.tail, k, |r.d|)])
    && (forall k :: 0 <= k < Count(r) && !Nth(r, k).used ==> Nth(r, k).last)
  }

  function FrameOf(d: TxDesc): Frame {
    d.buf[..d.len]
  }

  /** Frames from step k on that the controller has still to send, oldest first. */
  function UnsentFrom(r: Ring, k: nat): seq<Frame>
    requires Shape(r) && k <= Count(r)
    decreases Count(r) - k
  {
    if k == Count(r) then []
    else (if Nth(r, k).used then [] else [FrameOf(Nth(r, k))]) + UnsentFrom(r, k + 1)
  }

  function Unsent(r: Ring): seq<Frame>
    requires Shape(r)
  {
    UnsentFrom(r, 0)
  }

  lemma {:induction false} UnsentIgnores(r: Ring, r': Ring, k: nat)
    requires Shape(r) && Shape(r') && |r.d| == |r'.d| && Count(r) == Count(r') && k <= Count(r)
    requires forall i :: k <= i < Count(r) ==> Nth(r', i) == Nth(r, i)
    ensures UnsentFrom(r', k) == UnsentFrom(r, k)
    decreases Count(r) - k
  {
    if k < Count(r) { UnsentIgnores(r, r', k + 1); }
  }

  // ---------------------------------------------------------------- gmac_reset_tx_mem

  function Reset(bufs: seq<seq<Byte>>): Ring
    requires |bufs| > 0 && forall i :: 0 <= i < |bufs| ==> |bufs[i]| == UNIT
  {
    Ring(seq(|bufs|, i requires 0 <= i < |bufs| => RawDesc(true, i == |bufs| - 1, false, 0, bufs[i])),
         seq(|bufs|, _ => false), 0, 0)
  }

  lemma ResetIsEmpty(bufs: seq<seq<Byte>>)
    requires |bufs| > 0 && forall i :: 0 <= i < |bufs| ==> |bufs[i]| == UNIT
    ensures RingInv(Reset(bufs)) && Count(Reset(bufs)) == 0 && Unsent(Reset(bufs)) == []
    ensures var r := Reset(bufs);
            && r.head == r.tail == 0 && |r.d| == |bufs|
            && forall i :: 0 <= i < |r.d| ==>
                 r.d[i].used && !r.d[i].last && r.d[i].len == 0 && r.d[i].buf == bufs[i] && !r.cb[i]
  {
  }

  // ---------------------------------------------------------------- gmac_dev_write

  /** What the full-ring test reads: the descriptor pointer already stands on the head when the
      head is added again. Beyond the list it reads memory that is not the list's: `stray`. */
  function LooksUsed(r: Ring, stray: bool): bool
    requires Shape(r)
  {
    if 2 * r.head < |r.d| then r.d[2 * r.head].used else stray
  }

  function Fill(d: TxDesc, wrap: bool, frame: Frame): TxDesc
    requires |frame| <= UNIT
  {
    RawDesc(false, wrap, true, |frame|, frame + d.buf[|frame|..])
  }

  function Write(r: Ring, frame: Frame, cb: bool, stray: bool): (Ring, Status)
    requires Shape(r)
  {
    if |frame| > UNIT then (r, Param)
    else if CircSpace(r.head, r.tail, |r.d|) == 0 && LooksUsed(r, stray) then (r, Busy)
    else
      (Ring(r.d[r.head := Fill(r.d[r.head], r.head == |r.d| - 1, frame)],
            r.cb[r.head := cb], Inc(r.head, |r.d|), r.tail), Ok)
  }

  /** The caller-side condition under which a full ring is noticed. */
  ghost predicate FullIsNoticed(r: Ring, frame: Frame, stray: bool)
    requires Shape(r)
  {
    CircSpace(r.head, r.tail, |r.d|) != 0 || |frame| > UNIT || LooksUsed(r, stray)
  }

  /** An accepted frame joins the unsent ones at the end and a refused one changes nothing: this
      is so exactly when a full ring is noticed. */
  lemma WriteQueuesIffFullIsNoticed(r: Ring, frame: Frame, stray: bool)
    requires RingInv(r)
    ensures var (r', st) := Write(r, frame, true, stray);
            FullIsNoticed(r, frame, stray) <==>
            && RingInv(r')
            && Count(r') == Count(r) + (if st == Ok then 1 else 0)
            && Unsent(r') == Unsent(r) + (if st == Ok then [frame] else [])
    ensures var (r', st) := Write(r, frame, true, stray);
            && (st == Param <==> |frame| > UNIT)
            && (st != Ok ==> r' == r)
            && (st == Busy ==> Count(r) == |r.d| - 1)
  {
    CircTests(r.head, r.tail, |r.d|);
    var (r', st) := Write(r, frame, true, stray);
    if st == Ok && Count(r) < |r.d| - 1 {
      WriteKeepsInv(r, frame, stray);
      WriteAppends(r, r', frame, 0);
    }
  }

  lemma WriteKeepsInv(r: Ring, frame: Frame, stray: bool)
    requires RingInv(r) && |frame| <= UNIT && Count(r) < |r.d| - 1 && Write(r, frame, true, stray).1 == Ok
    ensures var r' := Write(r, frame, true, stray).0;
            && RingInv(r') && Count(r') == Count(r) + 1
            && FrameOf(Nth(r', Count(r))) == frame && !Nth(r', Count(r)).used && Nth(r', Count(r)).last
            && forall k :: 0 <= k < |r.d| && k != Count(r) ==> Nth(r', k) == Nth(r, k)
  {
    var r', c := Write(r, frame, true, stray).0, Count(r);
    assert At(r.tail, c, |r.d|) == r.head;
    assert FrameOf(Nth(r', c)) == frame;
    forall k | 0 <= k < |r.d| && k != c
      ensures Nth(r', k) == Nth(r, k) && r'.cb[At(r.tail, k, |r.d|)] == r.cb[At(r.tail, k, |r.d|)]
    {
      assert At(r.tail, k, |r.d|) != r.head;
    }
    forall k | c + 1 <= k < |r.d| ensures Nth(r', k).used {
      assert Nth(r', k) == Nth(r, k);
    }
    forall j, k | 0 <= j < k < c + 1 && Nth(r', k).used ensures Nth(r', j).used {
      assert k < c;
      assert Nth(r', k) == Nth(r, k) && Nth(r', j) == Nth(r, j);
    }
  }

  lemma {:induction false} WriteAppends(r: Ring, r': Ring, frame: Frame, k: nat)
    requires Shape(r) && Shape(r') && |r.d| == |r'.d| && k <= Count(r) < |r.d| && Count(r') == Count(r) + 1 
    requires FrameOf(Nth(r', Count(r))) == frame && !Nth(r', Count(r)).used
    requires forall i :: 0 <= i < Count(r) ==> Nth(r', i) == Nth(r, i)
    ensures UnsentFrom(r', k) == UnsentFrom(r, k) + [frame]
    decreases Count(r) - k
  {
    if k < Count(r) { WriteAppends(r, r', frame, k + 1); }
    else { assert UnsentFrom(r', k + 1) == []; }
  }

  // ---------------------------------------------------------------- the controller

  /** The controller takes the oldest descriptor it has not sent and those behind it up to the first
      one marked LAST: their contents go out as one frame, and it sets their used bits. Without
      such a descriptor nothing is sent. */
  function Transmit(r: Ring): (Ring, seq<Frame>)
    requires Shape(r)
  {
    var k := FirstUnused(r, 0);
    var e := LastFrom(r, k);
    if e == Count(r) then (r, []) else (Used(r, k, e), [Joined(r, k, e)])
  }

  /** The first descriptor from step k on that ends a frame. */
  function LastFrom(r: Ring, k: nat): (j: nat)
    requires Shape(r) && k <= Count(r)
    ensures k <= j <= Count(r)
    decreases Count(r) - k
  {
    if k == Count(r) || Nth(r, k).last then k else LastFrom(r, k + 1)
  }

  /** The contents of steps k to e, in one piece. */
  function Joined(r: Ring, k: nat, e: nat): Frame
    requires Shape(r) && k <= e < Count(r)
    decreases e - k
  {
    FrameOf(Nth(r, k)) + if k == e then [] else Joined(r, k + 1, e)
  }

  /** Steps k to e marked used. */
  function Used(r: Ring, k: nat, e: nat): (r': Ring)
    requires Shape(r) && k <= e < Count(r)
    ensures Shape(r') && Count(r') == Count(r)
    decreases e - k
  {
    var i := At(r.tail, k, |r.d|);
    var r' := r.(d := r.d[i := r.d[i].(used := true)]);
    if k == e then r' else Used(r', k + 1, e)
  }

  function FirstUnused(r: Ring, k: nat): (j: nat)
    requires Shape(r) && k <= Count(r)
    ensures k <= j <= Count(r)
    ensures forall i :: k <= i < j ==> Nth(r, i).used
    ensures j < Count(r) ==> !Nth(r, j).used
    decreases Count(r) - k
  {
    if k == Count(r) || !Nth(r, k).used then k else FirstUnused(r, k + 1)
  }

  lemma {:induction false} UnsentSkipsUsed(r: Ring, k: nat, j: nat)
    requires Shape(r) && k <= j <= Count(r) && forall i :: k <= i < j ==> Nth(r, i).used
    ensures UnsentFrom(r, k) == UnsentFrom(r, j)
    decreases j - k
  {
    if k < j { UnsentSkipsUsed(r, k + 1, j); }
  }

  lemma TransmitSendsOldest(r: Ring)
    requires RingInv(r)
    ensures var (r', sent) := Transmit(r);
            && RingInv(r') && Count(r') == Count(r) && r'.head == r.head && r'.tail == r.tail
            && Unsent(r) == sent + Unsent(r') && |sent| == if Unsent(r) == [] then 0 else 1
  {
    var k := FirstUnused(r, 0);
    UnsentSkipsUsed(r, 0, k);
    if k < Count(r) {
      var r' := Used(r, k, k);
      SentStays(r, k, r');
      UnsentSkipsUsed(r', 0, k + 1);
      UnsentIgnores(r, r', k + 1);
      assert Joined(r, k, k) == FrameOf(Nth(r, k)) && Unsent(r) == [FrameOf(Nth(r, k))] + UnsentFrom(r, k + 1);
    }
  }

  /** The descriptor at step k, the first one unused, is marked used. */
  lemma SentStays(r: Ring, k: nat, r': Ring)
    requires RingInv(r) && k < Count(r) && (forall i :: 0 <= i < k ==> Nth(r, i).used)
    requires r' == r.(d := r.d[At(r.tail, k, |r.d|) := Nth(r, k).(used := true)])
    ensures RingInv(r') && Count(r') == Count(r) && Nth(r', k).used
    ensures forall i :: 0 <= i < |r.d| && i != k ==> Nth(r', i) == Nth(r, i)
  {
    assert forall i :: 0 <= i < |r.d| && i != k ==> Nth(r', i) == Nth(r, i);
  }

  // ---------------------------------------------------------------- the C object

  class TxDevice {
    const dscr: array<TxDesc>
    const cbs: array<bool>
    var head: nat
    var tail: nat

    ghost function View(): Ring
      reads this, dscr, cbs
    {
      Ring(dscr[..], cbs[..], head, tail)
    }

    /** gmac_reset_tx_mem on lists of n descriptors. */
    constructor (d: array<TxDesc>, c: array<bool>)
      requires d.Length == c.Length > 0
      requires forall i :: 0 <= i < c.Length ==> !c[i]
      modifies d
      ensures dscr == d && cbs == c
      ensures View() == Reset(old(Buffers(d[..])))
    {
      dscr, cbs := d, c;
      head, tail := 0, 0;
      new;
      ghost var bufs := Buffers(d[..]);
      var i := 0;
      while i < d.Length
        invariant 0 <= i <= d.Length && head == tail == 0
        invariant forall k :: 0 <= k < i ==> d[k] == RawDesc(true, false, false, 0, bufs[k])
        invariant forall k :: i <= k < d.Length ==> d[k].buf == bufs[k]
      {
        d[i] := RawDesc(true, false, false, 0, d[i].buf);
        i := i + 1;
      }
      d[d.Length - 1] := d[d.Length - 1].(used := true, wrap := true);
      assert d[..] == Reset(bufs).d;
      assert c[..] == Reset(bufs).cb;
    }

    /** gmac_dev_write. `stray` is the used bit found when the full-ring test reads past the
        list. */
    method DevWrite(frame: Frame, cb: bool, stray: bool) returns (status: Status)
      requires Shape(View())
      modifies this`head, dscr, cbs
      ensures (View(), status) == Write(old(View()), frame, cb, stray)
    {
      if |frame| > UNIT {
        return Param;
      }
      var n := dscr.Length;
      if CircSpace(head, tail, n) == 0 {
        if (if 2 * head < n then dscr[2 * head].used else stray) {
          return Busy;
        }
      }
      ghost var d := dscr[..];
      var buf := dscr[head].buf;
      if |frame| > 0 {
        buf := frame + buf[|frame|..];
      }
      assert buf == frame + dscr[head].buf[|frame|..];
      cbs[head] := cb;
      if head == n - 1 {
        dscr[head] := RawDesc(false, true, true, |frame|, buf);
      } else {
        dscr[head] := RawDesc(false, false, true, |frame|, buf);
      }
      assert dscr[..] == d[head := Fill(d[head], head == n - 1, frame)];
      CircInc();
      return Ok;
    }

    method CircInc()
      requires dscr.Length > 0
      modifies this`head
      ensures head == Inc(old(head), dscr.Length)
    {
      head := head + 1;
      if head >= dscr.Length {
        head := 0;
      }
    }
  }

  function Buffers(d: seq<TxDesc>): (b: seq<seq<Byte>>)
    ensures |b| == |d| && forall i :: 0 <= i < |d| ==> b[i] == d[i].buf && |b[i]| == UNIT
  {
    seq(|d|, i requires 0 <= i < |d| => d[i].buf)
  }
}
