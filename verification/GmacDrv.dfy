/**
 Transmit side of gmac-drv.c above the descriptor ring: a pool of pending elements, the list of
 frames handed to the ring and not yet reported to the network stack, and the three activities
 that move a frame along it: the tx call, the interrupt and the poll handler. Each is atomic, and
 the controller's sending of a frame is a fourth step.
 */
module GmacDrv {
  import opened Bytes
  import opened Circular
  import opened GmacTx
  import Pools

  /** gmac_drv_tx_pending_element_t: its pool slot, the tx call it stands for, and is_acked. */
  datatype Elem = Elem(slot: nat, id: nat, acked: bool)

  /** MAC_TX_OK, MAC_TX_ERR, MAC_TX_ERR_FATAL */
  datatype Result = TxOk | TxErr | TxFatal

  datatype Sent = Sent(id: nat, result: Result)

  datatype Drv = Drv(ring: Ring, pending: seq<Elem>, used: set<nat>, cap: nat, pendingTx: bool)

  /** What has happened so far: tx calls made, sent callbacks delivered, calls and frames accepted
      by the ring, frames on the wire. */
  datatype Hist = Hist(calls: nat, log: seq<Sent>, accepted: seq<nat>, frames: seq<Frame>, wire: seq<Frame>)

  datatype Sys = Sys(drv: Drv, hist: Hist)

  // ---------------------------------------------------------------- the steps

  /** gmac_driver_tx. `slot` is the free slot the pool hands out, if it has one. */
  function Tx(s: Sys, frame: Frame, slot: nat, stray: bool): Sys
    requires Shape(s.drv.ring)
  {
    var d, h := s.drv, s.hist.(calls := s.hist.calls + 1);
    var id := s.hist.calls;
    if |d.used| >= d.cap then Sys(d, h.(log := h.log + [Sent(id, TxFatal)]))
    else TxWith(d, h, id, frame, slot, stray)
  }

  /** The rest of gmac_driver_tx, with the element the pool handed out. */
  function TxWith(d: Drv, h: Hist, id: nat, frame: Frame, slot: nat, stray: bool): Sys
    requires Shape(d.ring)
  {
    match Write(d.ring, frame, true, stray)
    case (r, Ok) =>
      Sys(d.(ring := r, pending := d.pending + [Elem(slot, id, false)], used := d.used + {slot}),
          h.(accepted := h.accepted + [id], frames := h.frames + [frame]))
    case (r, Busy) => Sys(d.(ring := r), h.(log := h.log + [Sent(id, TxErr)]))
    case (r, Param) => Sys(d.(ring := r), h.(log := h.log + [Sent(id, TxFatal)]))
  }

  /** The controller sends one frame, if it has one to send. */
  function Sends(s: Sys): Sys
    requires Shape(s.drv.ring)
  {
    var (r, sent) := Transmit(s.drv.ring);
    Sys(s.drv.(ring := r), s.hist.(wire := s.hist.wire + sent))
  }

  /** The loop of gmac_dev_tx_callback: acknowledge the first element not yet acknowledged. */
  function Ack(p: seq<Elem>): seq<Elem> {
    if p == [] then []
    else if !p[0].acked then [p[0].(acked := true)] + p[1..]
    else [p[0]] + Ack(p[1..])
  }

  function TxCallback(d: Drv): Drv {
    d.(pending := Ack(d.pending), pendingTx := true)
  }

  /** The do-while loop of gmac_handler, at a tail that is not the head. */
  function HandlerLoop(d: Drv): Drv
    requires Shape(d.ring) && d.ring.head != d.ring.tail
    decreases Count(d.ring)
  {
    var r := d.ring;
    if !r.d[r.tail].used then d
    else
      var d1 := if r.cb[r.tail] then TxCallback(d) else d;
      var d2 := d1.(ring := r.(tail := Inc(r.tail, |r.d|)));
      CircTests(r.head, d2.ring.tail, |r.d|);
      if CircCnt(r.head, d2.ring.tail, |r.d|) != 0 then HandlerLoop(d2) else d2
  }

  /** gmac_handler on TXCOMP */
  function Handler(d: Drv): Drv
    requires Shape(d.ring)
  {
    if d.ring.head == d.ring.tail then d else HandlerLoop(d)
  }

  function Interrupt(s: Sys): Sys
    requires Shape(s.drv.ring)
  {
    s.(drv := Handler(s.drv))
  }

  /** The loop of the poll handler: report and free the acknowledged elements at the front. */
  function PollLoop(p: seq<Elem>, used: set<nat>, log: seq<Sent>): (seq<Elem>, set<nat>, seq<Sent>) {
    if p == [] || !p[0].acked then (p, used, log)
    else PollLoop(p[1..], used - {p[0].slot}, log + [Sent(p[0].id, TxOk)])
  }

  /** The TX half of gmac_driver_pollhandler */
  function Poll(s: Sys): Sys {
    if !s.drv.pendingTx then s
    else
      var (p, used, log) := PollLoop(s.drv.pending, s.drv.used, s.hist.log);
      Sys(s.drv.(pending := p, used := used, pendingTx := false), s.hist.(log := log))
  }

  // ---------------------------------------------------------------- what holds between steps

  function Ids(p: seq<Elem>): seq<nat> {
    seq(|p|, i requires 0 <= i < |p| => p[i].id)
  }

  function LogIds(log: seq<Sent>): seq<nat> {
    seq(|log|, i requires 0 <= i < |log| => log[i].id)
  }

  /** The calls reported as sent, in the order of their callbacks. */
  function OkIds(log: seq<Sent>): seq<nat> {
    if log == [] then []
    else
      var n := |log| - 1;
      OkIds(log[..n]) + if log[n].result == TxOk then [log[n].id] else []
  }

  function Upto(n: nat): (r: seq<nat>)
    ensures |r| == n && forall i :: 0 <= i < n ==> r[i] == i
  {
    seq(n, i => i)
  }

  function Slots(p: seq<Elem>): set<nat> {
    set e | e in p :: e.slot
  }

  /** An acknowledged prefix, then `unacked` elements that are not. */
  ghost predicate Split(p: seq<Elem>, unacked: nat) {
    unacked <= |p| && forall i :: 0 <= i < |p| ==> (p[i].acked <==> i < |p| - unacked)
  }

  ghost predicate DistinctSlots(p: seq<Elem>) {
    forall i, j :: 0 <= i < j < |p| ==> p[i].slot != p[j].slot
  }

  ghost predicate CallbacksSet(r: Ring)
    requires Shape(r)
  {
    forall k :: 0 <= k < Count(r) ==> r.cb[At(r.tail, k, |r.d|)]
  }

  /** The list ends in as many unacknowledged elements as the ring has frames, and `lost` more. */
  ghost predicate Tracks(d: Drv, lost: nat) {
    && Shape(d.ring) && CallbacksSet(d.ring)
    && Split(d.pending, Count(d.ring) + lost)
    && DistinctSlots(d.pending)
    && d.used == Slots(d.pending)
    && (forall k :: k in d.used ==> k < d.cap)
    && (d.pendingTx <==> Count(d.ring) + lost < |d.pending|)
  }

  ghost predicate DrvInv(d: Drv) {
    RingInv(d.ring) && Tracks(d, 0)
  }

  /** Every call is in the log or pending once, and callbacks come in the order of the calls. */
  ghost predicate CallsAccounted(h: Hist, pending: seq<nat>) {
    && multiset(LogIds(h.log)) + multiset(pending) == multiset(Upto(h.calls))
    && OkIds(h.log) + pending == h.accepted
    && Ascending(h.accepted, h.calls)
  }

  /** The history against the ids still pending and the frames still unsent. */
  ghost predicate HistInv(h: Hist, pending: seq<nat>, unsent: seq<Frame>) {
    && CallsAccounted(h, pending)
    && |h.frames| == |h.accepted|
    && h.wire + unsent == h.frames
  }

  ghost predicate Ascending(ids: seq<nat>, bound: nat) {
    && (forall i, j :: 0 <= i < j < |ids| ==> ids[i] < ids[j])
    && (forall i :: 0 <= i < |ids| ==> ids[i] < bound)
  }

  ghost predicate Inv(s: Sys) {
    DrvInv(s.drv) && HistInv(s.hist, Ids(s.drv.pending), Unsent(s.drv.ring))
  }

  /** The pool's contract: a slot handed out is one of its own and not in use. */
  ghost predicate SlotFree(d: Drv, slot: nat) {
    |d.used| < d.cap ==> slot < d.cap && slot !in d.used
  }

  // ---------------------------------------------------------------- tx

  lemma LogAppend(log: seq<Sent>, x: Sent)
    ensures LogIds(log + [x]) == LogIds(log) + [x.id]
    ensures OkIds(log + [x]) == OkIds(log) + if x.result == TxOk then [x.id] else []
  {
    assert (log + [x])[..|log|] == log;
  }

  lemma UptoAppend(n: nat)
    ensures Upto(n + 1) == Upto(n) + [n]
    ensures multiset(Upto(n + 1)) == multiset(Upto(n)) + multiset{n}
  {
    assert Upto(n + 1) == Upto(n) + [n];
  }

  lemma PendingAppend(p: seq<Elem>, e: Elem)
    ensures Ids(p + [e]) == Ids(p) + [e.id]
    ensures Slots(p + [e]) == Slots(p) + {e.slot}
  {
    assert forall x :: x in p + [e] <==> x in p || x == e;
  }

  /** A tx call keeps everything exactly when it does not reach a full ring, or reaches one that
      is noticed. */
  lemma TxKeepsInvIffFullIsNoticed(s: Sys, frame: Frame, slot: nat, stray: bool)
    requires Inv(s) && SlotFree(s.drv, slot)
    ensures Inv(Tx(s, frame, slot, stray)) <==>
            |s.drv.used| >= s.drv.cap || FullIsNoticed(s.drv.ring, frame, stray)
  {
    var st := Write(s.drv.ring, frame, true, stray).1;
    if |s.drv.used| < s.drv.cap && !FullIsNoticed(s.drv.ring, frame, stray) {
      Overrun(s, frame, slot, stray);
    } else if |s.drv.used| < s.drv.cap && st == Ok {
      TxQueued(s, frame, slot, stray);
    } else {
      TxDeclined(s, frame, slot, stray);
    }
  }

  lemma TxQueued(s: Sys, frame: Frame, slot: nat, stray: bool)
    requires Inv(s) && SlotFree(s.drv, slot) && |s.drv.used| < s.drv.cap
    requires FullIsNoticed(s.drv.ring, frame, stray) && Write(s.drv.ring, frame, true, stray).1 == Ok
    ensures Inv(Tx(s, frame, slot, stray))
  {
    var r, e := Write(s.drv.ring, frame, true, stray).0, Elem(slot, s.hist.calls, false);
    var d := s.drv.(ring := r, pending := s.drv.pending + [e], used := s.drv.used + {slot});
    var h := s.hist.(calls := s.hist.calls + 1, accepted := s.hist.accepted + [s.hist.calls],
                    frames := s.hist.frames + [frame]);
    assert Tx(s, frame, slot, stray) == Sys(d, h);
    assert Unsent(r) == Unsent(s.drv.ring) + [frame] && DrvInv(d) && Ids(d.pending) == Ids(s.drv.pending) + [e.id] by {
      WriteQueuesIffFullIsNoticed(s.drv.ring, frame, stray);
      PendingGrows(s.drv, 0, r, 0, e);
    }
    TxAccepted(s.hist, Ids(s.drv.pending), frame);
    var u := Unsent(s.drv.ring);
    assert s.hist.wire + (u + [frame]) == (s.hist.wire + u) + [frame];
  }

  lemma TxDeclined(s: Sys, frame: Frame, slot: nat, stray: bool)
    requires Inv(s) && (|s.drv.used| >= s.drv.cap || Write(s.drv.ring, frame, true, stray).1 != Ok)
    ensures Inv(Tx(s, frame, slot, stray))
  {
    var st := Write(s.drv.ring, frame, true, stray).1;
    TxRefused(s.hist, Ids(s.drv.pending), if st == Busy && |s.drv.used| < s.drv.cap then TxErr else TxFatal);
  }

  /** A full ring that goes unnoticed has its spare descriptor filled and is then taken for an empty
      one, while the pending list waits for as many frames as the list has descriptors. */
  lemma Overrun(s: Sys, frame: Frame, slot: nat, stray: bool)
    requires Inv(s) && |s.drv.used| < s.drv.cap && !FullIsNoticed(s.drv.ring, frame, stray)
    ensures var s' := Tx(s, frame, slot, stray);
            && Count(s'.drv.ring) == 0 && Unsent(s'.drv.ring) == [] && !Inv(s')
            && Split(s'.drv.pending, |s.drv.ring.d|)
  {
    CircTests(s.drv.ring.head, s.drv.ring.tail, |s.drv.ring.d|);
    var p := Tx(s, frame, slot, stray).drv.pending;
    assert !p[|p| - 1].acked;
  }

  lemma TxRefused(h: Hist, ids: seq<nat>, result: Result)
    requires CallsAccounted(h, ids) && result != TxOk
    ensures CallsAccounted(h.(calls := h.calls + 1, log := h.log + [Sent(h.calls, result)]), ids)
  {
    LogAppend(h.log, Sent(h.calls, result));
    UptoAppend(h.calls);
    assert OkIds(h.log) + [] == OkIds(h.log);
  }

  lemma TxAccepted(h: Hist, ids: seq<nat>, frame: Frame)
    requires CallsAccounted(h, ids)
    ensures CallsAccounted(h.(calls := h.calls + 1, accepted := h.accepted + [h.calls], frames := h.frames + [frame]),
                           ids + [h.calls])
  {
    UptoAppend(h.calls);
    assert multiset(ids + [h.calls]) == multiset(ids) + multiset{h.calls};
    assert OkIds(h.log) + (ids + [h.calls]) == (OkIds(h.log) + ids) + [h.calls];
    AscendingAppend(h.accepted, h.calls);
  }

  lemma AscendingAppend(ids: seq<nat>, n: nat)
    requires Ascending(ids, n)
    ensures Ascending(ids + [n], n + 1)
  {
  }

  lemma PendingGrows(d: Drv, lost: nat, r: Ring, lost': nat, e: Elem)
    requires Tracks(d, lost) && Shape(r) && CallbacksSet(r) && Count(r) + lost' == Count(d.ring) + lost + 1
    requires e.slot < d.cap && e.slot !in d.used && !e.acked
    ensures Tracks(d.(ring := r, pending := d.pending + [e], used := d.used + {e.slot}), lost')
    ensures Ids(d.pending + [e]) == Ids(d.pending) + [e.id]
  {
    PendingAppend(d.pending, e);
    forall i | 0 <= i < |d.pending| ensures d.pending[i].slot != e.slot {
      assert d.pending[i] in d.pending;
    }
  }

  // ---------------------------------------------------------------- controller and interrupt

  lemma SendsKeepsInv(s: Sys)
    requires Inv(s)
    ensures Inv(Sends(s))
  {
    TransmitSendsOldest(s.drv.ring);
    var (r, sent) := Transmit(s.drv.ring);
    WireGrows(s.hist, Ids(s.drv.pending), sent, Unsent(r));
  }

  lemma WireGrows(h: Hist, ids: seq<nat>, sent: seq<Frame>, rest: seq<Frame>)
    requires HistInv(h, ids, sent + rest)
    ensures HistInv(h.(wire := h.wire + sent), ids, rest)
  {
    assert (h.wire + sent) + rest == h.wire + (sent + rest);
  }

  lemma {:induction false} AckMarksFirst(p: seq<Elem>, unacked: nat)
    requires Split(p, unacked) && unacked > 0
    ensures Split(Ack(p), unacked - 1) && |Ack(p)| == |p|
    ensures forall i :: 0 <= i < |p| ==> Ack(p)[i].slot == p[i].slot && Ack(p)[i].id == p[i].id
  {
    if p[0].acked {
      AckMarksFirst(p[1..], unacked);
    }
  }

  /** Popping the oldest completed descriptor. */
  lemma PopKeepsRing(r: Ring)
    requires RingInv(r) && Count(r) > 0 && r.d[r.tail].used
    ensures var r' := r.(tail := Inc(r.tail, |r.d|));
            RingInv(r') && Count(r') == Count(r) - 1 && Unsent(r') == Unsent(r)
  {
    var n := |r.d|;
    var r' := r.(tail := Inc(r.tail, n));
    assert Nth(r, 0) == r.d[r.tail];
    forall k | 0 <= k < n - 1
      ensures Nth(r', k) == Nth(r, k + 1) && r'.cb[At(r'.tail, k, n)] == r.cb[At(r.tail, k + 1, n)]
    {
    }
    assert Nth(r', n - 1) == r.d[r.tail];
    ShiftUnsent(r, r', 0);
  }

  lemma {:induction false} ShiftUnsent(r: Ring, r': Ring, k: nat)
    requires Shape(r) && Shape(r') && |r'.d| == |r.d| && Count(r) > 0 && Count(r') == Count(r) - 1 && k <= Count(r')
    requires forall i :: 0 <= i < |r.d| - 1 ==> Nth(r', i) == Nth(r, i + 1)
    ensures UnsentFrom(r', k) == UnsentFrom(r, k + 1)
    decreases Count(r) - k
  {
    if k < Count(r') { ShiftUnsent(r, r', k + 1); }
  }

  lemma SameSlots(p: seq<Elem>, q: seq<Elem>)
    requires |p| == |q| && forall i :: 0 <= i < |p| ==> p[i].slot == q[i].slot && p[i].id == q[i].id
    ensures Ids(p) == Ids(q) && Slots(p) == Slots(q)
  {
    forall x ensures x in Slots(p) <==> x in Slots(q) {
      if x in Slots(p) {
        var i :| 0 <= i < |p| && p[i].slot == x;
        assert q[i] in q;
      }
      if x in Slots(q) {
        var i :| 0 <= i < |q| && q[i].slot == x;
        assert p[i] in p;
      }
    }
  }

  /** One descriptor marked used: its callback finds an element to acknowledge. */
  lemma CallbackTracks(d: Drv, lost: nat)
    requires Tracks(d, lost) && Count(d.ring) > 0
    ensures d.ring.cb[d.ring.tail] && exists i :: 0 <= i < |d.pending| && !d.pending[i].acked
    ensures var d' := TxCallback(d).(ring := d.ring.(tail := Inc(d.ring.tail, |d.ring.d|)));
            && Tracks(d', lost) && Count(d'.ring) == Count(d.ring) - 1 && Ids(d'.pending) == Ids(d.pending)
  {
    var r, n := d.ring, |d.ring.d|;
    var r' := r.(tail := Inc(r.tail, n));
    assert At(r.tail, 0, n) == r.tail;
    forall k | 0 <= k < Count(r') ensures r'.cb[At(r'.tail, k, n)] {
      assert At(r'.tail, k, n) == At(r.tail, k + 1, n);
    }
    AckMarksFirst(d.pending, Count(r) + lost);
    SameSlots(d.pending, Ack(d.pending));
    assert !d.pending[|d.pending| - 1].acked;
  }

  /** One completed frame: the pieces stay in step. */
  lemma CallbackKeepsStep(d: Drv)
    requires DrvInv(d) && Count(d.ring) > 0 && d.ring.d[d.ring.tail].used
    ensures d.ring.cb[d.ring.tail]
    ensures var d' := TxCallback(d).(ring := d.ring.(tail := Inc(d.ring.tail, |d.ring.d|)));
            && DrvInv(d') && Count(d'.ring) == Count(d.ring) - 1
            && Ids(d'.pending) == Ids(d.pending) && Unsent(d'.ring) == Unsent(d.ring)
  {
    PopKeepsRing(d.ring);
    CallbackTracks(d, 0);
  }

  /** The handler acknowledges exactly the completed frames at the front of the ring. */
  lemma {:induction false} HandlerLoopKeepsInv(d: Drv)
    requires DrvInv(d) && d.ring.head != d.ring.tail
    ensures var d' := HandlerLoop(d);
            && DrvInv(d') && Ids(d'.pending) == Ids(d.pending) && Unsent(d'.ring) == Unsent(d.ring)
            && Count(d'.ring) == |Unsent(d'.ring)|
    decreases Count(d.ring)
  {
    var r := d.ring;
    if r.d[r.tail].used {
      CallbackKeepsStep(d);
      var d2 := TxCallback(d).(ring := r.(tail := Inc(r.tail, |r.d|)));
      CircTests(r.head, d2.ring.tail, |r.d|);
      if CircCnt(r.head, d2.ring.tail, |r.d|) != 0 { HandlerLoopKeepsInv(d2); }
    } else {
      assert Nth(r, 0) == r.d[r.tail];
      AllUnsent(r, 0);
    }
  }

  lemma {:induction false} AllUnsent(r: Ring, k: nat)
    requires Shape(r) && k <= Count(r) && forall i :: k <= i < Count(r) ==> !Nth(r, i).used
    ensures |UnsentFrom(r, k)| == Count(r) - k
    decreases Count(r) - k
  {
    if k < Count(r) { AllUnsent(r, k + 1); }
  }

  lemma InterruptKeepsInv(s: Sys)
    requires Inv(s)
    ensures Inv(Interrupt(s)) && Unsent(Interrupt(s).drv.ring) == Unsent(s.drv.ring)
    ensures Count(Interrupt(s).drv.ring) == |Unsent(s.drv.ring)|
  {
    if s.drv.ring.head != s.drv.ring.tail { HandlerLoopKeepsInv(s.drv); }
  }

  // ---------------------------------------------------------------- poll

  lemma {:induction false} PollLoopReports(p: seq<Elem>, unacked: nat, used: set<nat>, log: seq<Sent>)
    requires Split(p, unacked) && DistinctSlots(p) && used == Slots(p)
    ensures var (p', used', log') := PollLoop(p, used, log);
            && p' == p[|p| - unacked..] && used' == Slots(p')
            && OkIds(log') + Ids(p') == OkIds(log) + Ids(p)
            && multiset(LogIds(log')) + multiset(Ids(p')) == multiset(LogIds(log)) + multiset(Ids(p))
  {
    if p != [] && p[0].acked {
      var log1 := log + [Sent(p[0].id, TxOk)];
      IdMoves(p, log);
      PopSlot(p);
      PollLoopReports(p[1..], unacked, used - {p[0].slot}, log1);
      assert p[1..][|p| - 1 - unacked..] == p[|p| - unacked..];
    } else {
      assert p[|p| - unacked..] == p;
    }
  }

  /** Reporting the first element moves its id from the pending ids to the log. */
  lemma IdMoves(p: seq<Elem>, log: seq<Sent>)
    requires p != []
    ensures var log1 := log + [Sent(p[0].id, TxOk)];
            && OkIds(log1) + Ids(p[1..]) == OkIds(log) + Ids(p)
            && multiset(LogIds(log1)) + multiset(Ids(p[1..])) == multiset(LogIds(log)) + multiset(Ids(p))
  {
    LogAppend(log, Sent(p[0].id, TxOk));
    assert Ids(p) == [p[0].id] + Ids(p[1..]);
  }

  lemma PopSlot(p: seq<Elem>)
    requires p != [] && DistinctSlots(p)
    ensures Slots(p) - {p[0].slot} == Slots(p[1..]) && DistinctSlots(p[1..])
  {
    forall x ensures x in Slots(p) - {p[0].slot} <==> x in Slots(p[1..]) {
      if x in Slots(p) && x != p[0].slot {
        var i :| 0 <= i < |p| && p[i].slot == x;
        assert p[1..][i - 1] == p[i];
      }
      if x in Slots(p[1..]) {
        var i :| 0 <= i < |p[1..]| && p[1..][i].slot == x;
        assert p[i + 1] in p && p[i + 1].slot == x;
      }
    }
  }

  lemma PrefixGone(d: Drv, lost: nat, k: nat)
    requires Tracks(d, lost) && k == |d.pending| - Count(d.ring) - lost
    ensures Tracks(d.(pending := d.pending[k..], used := Slots(d.pending[k..]), pendingTx := false), lost)
  {
    assert forall e :: e in d.pending[k..] ==> e in d.pending && e.slot in d.used;
  }

  /** The poll handler empties the acknowledged prefix, one callback and one freed slot each. */
  lemma PollKeepsInv(s: Sys)
    requires Inv(s)
    ensures Inv(Poll(s))
    ensures var k := |s.drv.pending| - Count(s.drv.ring);
            && Poll(s).drv.pending == s.drv.pending[k..]
            && (forall i :: 0 <= i < |Poll(s).drv.pending| ==> !Poll(s).drv.pending[i].acked)
  {
    hide PollLoop, CallsAccounted, RingInv, DistinctSlots, Slots, Ids, Count, CallbacksSet, UnsentFrom;
    PollTracks(s, 0);
  }

  lemma PollTracks(s: Sys, lost: nat)
    requires Tracks(s.drv, lost) && CallsAccounted(s.hist, Ids(s.drv.pending))
    ensures Tracks(Poll(s).drv, lost) && CallsAccounted(Poll(s).hist, Ids(Poll(s).drv.pending))
    ensures var k := |s.drv.pending| - Count(s.drv.ring) - lost; Poll(s).drv.pending == s.drv.pending[k..]
  {
    var k := |s.drv.pending| - Count(s.drv.ring) - lost;
    if s.drv.pendingTx {
      PollLoopReports(s.drv.pending, Count(s.drv.ring) + lost, s.drv.used, s.hist.log);
      PrefixGone(s.drv, lost, k);
    } else {
      assert s.drv.pending[k..] == s.drv.pending;
    }
  }

  // ---------------------------------------------------------------- whole runs

  datatype Event = TxCall(frame: Frame, slot: nat, stray: bool) | ControllerSends | TxInterrupt | PollEvent

  function Step(s: Sys, e: Event): Sys
    requires Shape(s.drv.ring)
  {
    match e
    case TxCall(frame, slot, stray) => Tx(s, frame, slot, stray)
    case ControllerSends => Sends(s)
    case TxInterrupt => Interrupt(s)
    case PollEvent => Poll(s)
  }

  /** The pool keeps its contract and no tx call meets a full ring it does not notice. */
  ghost predicate Fair(s: Sys, e: Event)
    requires Shape(s.drv.ring)
  {
    e.TxCall? ==>
      && SlotFree(s.drv, e.slot)
      && (|s.drv.used| >= s.drv.cap || FullIsNoticed(s.drv.ring, e.frame, e.stray))
  }

  lemma StepKeepsInv(s: Sys, e: Event)
    requires Inv(s) && Fair(s, e)
    ensures Inv(Step(s, e))
  {
    match e
    case TxCall(frame, slot, stray) => TxKeepsInvIffFullIsNoticed(s, frame, slot, stray);
    case ControllerSends => SendsKeepsInv(s);
    case TxInterrupt => InterruptKeepsInv(s);
    case PollEvent => PollKeepsInv(s);
  }

  ghost predicate Reaches(s: Sys, es: seq<Event>, s': Sys)
    decreases |es|
  {
    if es == [] then s == s'
    else Shape(s.drv.ring) && Fair(s, es[0]) && Reaches(Step(s, es[0]), es[1..], s')
  }

  lemma {:induction false} RunKeepsInv(s: Sys, es: seq<Event>, s': Sys)
    requires Inv(s) && Reaches(s, es, s')
    ensures Inv(s')
    decreases |es|
  {
    if es != [] {
      StepKeepsInv(s, es[0]);
      RunKeepsInv(Step(s, es[0]), es[1..], s');
    }
  }

  /** gmac_reset_tx_mem, list_init and memb_init */
  function Start(bufs: seq<seq<Byte>>, cap: nat): Sys
    requires |bufs| > 0 && forall i :: 0 <= i < |bufs| ==> |bufs[i]| == UNIT
  {
    Sys(Drv(Reset(bufs), [], {}, cap, false), Hist(0, [], [], [], []))
  }

  /** Over every run: the pending list is an acknowledged prefix and an unacknowledged suffix as
      long as the ring's tail..head; every tx call has had exactly one callback or is pending
      once; callbacks of accepted frames come in send order; the wire carries the accepted
      frames, unchanged and in order; the pool's slots in use are those of the pending list. */
  lemma TransmitConservation(bufs: seq<seq<Byte>>, cap: nat, es: seq<Event>, s: Sys)
    requires |bufs| > 0 && forall i :: 0 <= i < |bufs| ==> |bufs[i]| == UNIT
    requires Reaches(Start(bufs, cap), es, s)
    ensures RingInv(s.drv.ring) && Split(s.drv.pending, Count(s.drv.ring))
    ensures multiset(LogIds(s.hist.log)) + multiset(Ids(s.drv.pending)) == multiset(Upto(s.hist.calls))
    ensures OkIds(s.hist.log) + Ids(s.drv.pending) == s.hist.accepted
    ensures forall i, j :: 0 <= i < j < |s.hist.accepted| ==> s.hist.accepted[i] < s.hist.accepted[j]
    ensures s.hist.wire + Unsent(s.drv.ring) == s.hist.frames && |s.hist.frames| == |s.hist.accepted|
    ensures s.drv.used == Slots(s.drv.pending) && |s.drv.used| == |s.drv.pending| <= cap
  {
    ResetIsEmpty(bufs);
    var s0 := Start(bufs, cap);
    assert LogIds([]) == [] && Ids([]) == [] && Upto(0) == [];
    assert Inv(s0);
    RunKeepsInv(s0, es, s);
    CapUnchanged(s0, es, s);
    SlotCount(s.drv.pending);
    Pools.AtMost(s.drv.used, cap);
  }

  /** Frames longer than a transmit buffer are never accepted. */
  lemma {:induction false} AcceptedFit(s: Sys, es: seq<Event>, s': Sys)
    requires Reaches(s, es, s') && forall f :: f in s.hist.frames ==> |f| <= UNIT
    ensures forall f :: f in s'.hist.frames ==> |f| <= UNIT
    decreases |es|
  {
    if es != [] { AcceptedFit(Step(s, es[0]), es[1..], s'); }
  }

  /** What the ring takes in one call: the frame, exactly when the pool has an element, the frame
      fits a transmit buffer and the full-ring test does not stop it. */
  lemma TxTakesFrameIff(s: Sys, frame: Frame, slot: nat, stray: bool)
    requires Inv(s) && SlotFree(s.drv, slot)
    ensures Tx(s, frame, slot, stray).hist.frames == s.hist.frames + [frame] <==>
            |s.drv.used| < s.drv.cap && |frame| <= UNIT
            && !(Count(s.drv.ring) == |s.drv.ring.d| - 1 && LooksUsed(s.drv.ring, stray))
  {
    CircTests(s.drv.ring.head, s.drv.ring.tail, |s.drv.ring.d|);
    assert |s.hist.frames + [frame]| == |s.hist.frames| + 1;
  }

  /** What a tx call is answered at once, for every state: MAC_TX_ERR on a busy ring, MAC_TX_ERR_FATAL
      without a pool element or for a frame too long, and otherwise nothing, exactly when the
      ring takes the frame. */
  lemma TxAnswers(s: Sys, frame: Frame, slot: nat, stray: bool)
    requires Inv(s) && SlotFree(s.drv, slot)
    ensures var s', r := Tx(s, frame, slot, stray), s.drv.ring;
            var room, fits, id := |s.drv.used| < s.drv.cap, |frame| <= 1518, s.hist.calls;
            var busy := Count(r) == |r.d| - 1 && if 2 * r.head < |r.d| then r.d[2 * r.head].used else stray;
            && (s'.hist.log == s.hist.log + [Sent(id, TxErr)] <==> room && fits && busy)
            && (s'.hist.log == s.hist.log + [Sent(id, TxFatal)] <==> !room || !fits)
            && (s'.hist.log == s.hist.log <==> room && fits && !busy)
            && (s'.hist.log == s.hist.log <==> s'.hist.frames == s.hist.frames + [frame])
            && (s'.hist.frames == s.hist.frames || s'.hist.frames == s.hist.frames + [frame])
            && s'.hist.calls == id + 1
  {
    CircTests(s.drv.ring.head, s.drv.ring.tail, |s.drv.ring.d|);
    var log := s.hist.log;
    assert (log + [Sent(s.hist.calls, TxErr)])[|log|] != (log + [Sent(s.hist.calls, TxFatal)])[|log|];
    assert |log + [Sent(s.hist.calls, TxErr)]| == |log + [Sent(s.hist.calls, TxFatal)]| == |log| + 1;
    assert |s.hist.frames + [frame]| == |s.hist.frames| + 1;
  }

  lemma {:induction false} CapUnchanged(s: Sys, es: seq<Event>, s': Sys)
    requires Inv(s) && Reaches(s, es, s')
    ensures s'.drv.cap == s.drv.cap
    decreases |es|
  {
    if es != [] {
      StepKeepsInv(s, es[0]);
      if es[0].TxInterrupt? && s.drv.ring.head != s.drv.ring.tail { HandlerKeepsCap(s.drv); }
      CapUnchanged(Step(s, es[0]), es[1..], s');
    }
  }

  lemma {:induction false} HandlerKeepsCap(d: Drv)
    requires Shape(d.ring) && d.ring.head != d.ring.tail
    ensures HandlerLoop(d).cap == d.cap && HandlerLoop(d).used == d.used
    decreases Count(d.ring)
  {
    var r := d.ring;
    if r.d[r.tail].used {
      var d1 := if r.cb[r.tail] then TxCallback(d) else d;
      var d2 := d1.(ring := r.(tail := Inc(r.tail, |r.d|)));
      CircTests(r.head, d2.ring.tail, |r.d|);
      if CircCnt(r.head, d2.ring.tail, |r.d|) != 0 { HandlerKeepsCap(d2); }
    }
  }

  lemma {:induction false} SlotCount(p: seq<Elem>)
    requires DistinctSlots(p)
    ensures |Slots(p)| == |p|
  {
    if p != [] {
      PopSlot(p);
      assert p[0] in p && p[0].slot in Slots(p);
      SlotCount(p[1..]);
    } 
  }

  // ---------------------------------------------------------------- every call is answered

  /** The controller sends n frames. */
  function SendsMany(s: Sys, n: nat): Sys
    requires Inv(s)
    decreases n
  {
    SendsKeepsInv(s);
    if n == 0 then s else SendsMany(Sends(s), n - 1)
  }

  /** The controller sends everything the ring holds, then an interrupt and a poll. */
  function Settle(s: Sys): Sys
    requires Inv(s)
  {
    var n := |Unsent(s.drv.ring)|;
    SendsManyEmpties(s, n);
    Poll(Interrupt(SendsMany(s, n)))
  }

  lemma SendsShrinks(s: Sys)
    requires Inv(s)
    ensures Inv(Sends(s)) && Sends(s).hist.calls == s.hist.calls
    ensures |Unsent(Sends(s).drv.ring)| == if Unsent(s.drv.ring) == [] then 0 else |Unsent(s.drv.ring)| - 1
  {
    SendsKeepsInv(s);
    TransmitSendsOldest(s.drv.ring);
  }

  lemma {:induction false} SendsManyEmpties(s: Sys, n: nat)
    requires Inv(s)
    ensures Inv(SendsMany(s, n)) && SendsMany(s, n).hist.calls == s.hist.calls
    ensures n >= |Unsent(s.drv.ring)| ==> |Unsent(SendsMany(s, n).drv.ring)| == 0
    decreases n
  {
    if n > 0 {
      SendsShrinks(s);
      SendsManyEmpties(Sends(s), n - 1);
    }
  }

  /** Nothing is pending: every tx call so far has had exactly one callback, every accepted frame
      is on the wire, unchanged and in order, and the pool is empty. */
  ghost predicate Answered(s: Sys) {
    && Inv(s) && s.drv.pending == [] && s.drv.used == {}
    && multiset(LogIds(s.hist.log)) == multiset(Upto(s.hist.calls))
    && s.hist.wire == s.hist.frames && OkIds(s.hist.log) == s.hist.accepted
  }

  /** Once the controller has sent what the ring holds, one interrupt and one poll answer every
      call. */
  lemma EveryCallIsAnswered(s: Sys)
    requires Inv(s)
    ensures Answered(Settle(s)) && Settle(s).hist.calls == s.hist.calls
  {
    var n := |Unsent(s.drv.ring)|;
    SendsManyEmpties(s, n);
    SettlesWhenSent(SendsMany(s, n));
  }

  lemma SettlesWhenSent(s: Sys)
    requires Inv(s) && |Unsent(s.drv.ring)| == 0
    ensures Answered(Poll(Interrupt(s))) && Poll(Interrupt(s)).hist.calls == s.hist.calls
  {
    InterruptKeepsInv(s);
    PollKeepsInv(Interrupt(s));
    var s' := Poll(Interrupt(s));
    assert Ids(s'.drv.pending) == [] && Slots(s'.drv.pending) == {};
    NothingLeft(s'.hist);
  }

  lemma NothingLeft(h: Hist)
    requires HistInv(h, [], [])
    ensures multiset(LogIds(h.log)) == multiset(Upto(h.calls)) && h.wire == h.frames && OkIds(h.log) == h.accepted
  {
    assert OkIds(h.log) + [] == OkIds(h.log) && h.wire + [] == h.wire;
  }

  // ---------------------------------------------------------------- the list as configured

  /** With GMAC_TX_BUFFERS == 3 a run of ordinary steps leads to a full ring that the next tx call
      does not notice. */
  lemma ThreeDescriptorsOverrun(bufs: seq<seq<Byte>>, cap: nat, a: Frame, b: Frame, c: Frame,
                              d: Frame, e: Frame, stray: bool)
    returns (es: seq<Event>, s: Sys)
    requires |bufs| == 3 && forall i :: 0 <= i < 3 ==> |bufs[i]| == UNIT
    requires cap >= 3 && |a| <= UNIT && |b| <= UNIT && |c| <= UNIT && |d| <= UNIT && |e| <= UNIT
    ensures Reaches(Start(bufs, cap), es, s) && Inv(s)
    ensures Count(s.drv.ring) == 2 && |s.drv.used| < cap && !FullIsNoticed(s.drv.ring, e, stray)
  {
    ResetIsEmpty(bufs);
    assert LogIds([]) == [] && Ids([]) == [] && Upto(0) == [];
    var s0 := Start(bufs, cap);
    assert s0.drv.used == {};
    es, s := Queues(s0, [], s0, a, stray);
    es, s := Queues(s0, es, s, b, stray);
    es, s := OneGoesOut(s0, es, s);
    es, s := Queues(s0, es, s, c, stray);
    es, s := OneGoesOut(s0, es, s);
    es, s := Queues(s0, es, s, d, stray);
    assert s.drv.ring.head == 1 && s.drv.ring.tail == 2 && !s.drv.ring.d[2].used;
    CircTests(1, 2, 3);
  }

  lemma {:induction false} ReachesMore(s0: Sys, es: seq<Event>, s: Sys, e: Event)
    requires Reaches(s0, es, s) && Shape(s.drv.ring) && Fair(s, e)
    ensures Reaches(s0, es + [e], Step(s, e))
    decreases |es|
  {
    if es != [] {
      ReachesMore(Step(s0, es[0]), es[1..], s, e);
      assert (es + [e])[1..] == es[1..] + [e];
    } else {
      assert es + [e] == [e] && [e][1..] == [];
    }
  }

  /** No frame is waiting to be reported: everything in the ring and the list is unsent. */
  ghost predicate AllWaiting(s: Sys) {
    Inv(s) && |s.drv.pending| == Count(s.drv.ring) && NoneUsed(s.drv.ring)
  }

  lemma Queues(s0: Sys, es: seq<Event>, s: Sys, frame: Frame, stray: bool)
    returns (es': seq<Event>, s': Sys)
    requires Reaches(s0, es, s) && AllWaiting(s) && |frame| <= UNIT
    requires Count(s.drv.ring) < |s.drv.ring.d| - 1 && Count(s.drv.ring) < s.drv.cap
    ensures Reaches(s0, es', s') && AllWaiting(s') && s'.drv.cap == s.drv.cap && |s'.drv.used| == |s'.drv.pending|
    ensures var r, r' := s.drv.ring, s'.drv.ring;
            |r'.d| == |r.d| && r'.head == Inc(r.head, |r.d|) && r'.tail == r.tail
  {
    var r := s.drv.ring;
    CircTests(r.head, r.tail, |r.d|);
    SlotCount(s.drv.pending);
    var slot := Pools.FreeElement(s.drv.used, s.drv.cap);
    var e := TxCall(frame, slot, stray);
    es', s' := es + [e], Step(s, e);
    StepKeepsInv(s, e);
    ReachesMore(s0, es, s, e);
    WriteKeepsInv(r, frame, stray);
    SlotCount(s'.drv.pending);
  }

  /** The oldest frame is sent, reported by the interrupt and by the poll. */
  lemma OneGoesOut(s0: Sys, es: seq<Event>, s: Sys)
    returns (es': seq<Event>, s': Sys)
    requires Reaches(s0, es, s) && AllWaiting(s) && Count(s.drv.ring) > 0
    ensures Reaches(s0, es', s') && AllWaiting(s') && s'.drv.cap == s.drv.cap && |s'.drv.used| == |s'.drv.pending|
    ensures var r, r' := s.drv.ring, s'.drv.ring;
            |r'.d| == |r.d| && r'.head == r.head && r'.tail == Inc(r.tail, |r.d|)
  {
    s' := Poll(Interrupt(Sends(s)));
    GoesOut(s);
    var e1, e2, e3 := ControllerSends, TxInterrupt, PollEvent;
    ReachesMore(s0, es, s, e1);
    ReachesMore(s0, es + [e1], Sends(s), e2);
    ReachesMore(s0, es + [e1] + [e2], Interrupt(Sends(s)), e3);
    es' := es + [e1] + [e2] + [e3];
    SlotCount(s'.drv.pending);
  }

  lemma GoesOut(s: Sys)
    requires AllWaiting(s) && Count(s.drv.ring) > 0
    ensures Inv(Sends(s)) && Inv(Interrupt(Sends(s)))
    ensures var s' := Poll(Interrupt(Sends(s)));
            var r, r' := s.drv.ring, s'.drv.ring;
            && AllWaiting(s') && s'.drv.cap == s.drv.cap
            && |r'.d| == |r.d| && r'.head == r.head && r'.tail == Inc(r.tail, |r.d|)
  {
    SendsKeepsInv(s);
    InterruptKeepsInv(Sends(s));
    PollKeepsInv(Interrupt(Sends(s)));
    SentOneHandled(s.drv, Sends(s).drv);
  }

  ghost predicate NoneUsed(r: Ring)
    requires Shape(r)
  {
    forall k :: 0 <= k < Count(r) ==> !Nth(r, k).used
  }

  lemma SentOneHandled(d: Drv, d1: Drv)
    requires DrvInv(d) && Count(d.ring) > 0 && NoneUsed(d.ring)
    requires d1 == d.(ring := Transmit(d.ring).0) && DrvInv(d1)
    ensures var r, r' := d.ring, Handler(d1).ring;
            && Shape(r') && |r'.d| == |r.d| && r'.head == r.head && r'.tail == Inc(r.tail, |r.d|)
            && Count(r') == Count(r) - 1 && NoneUsed(r')
    ensures Handler(d1).cap == d.cap
  {
    var r := d1.ring;
    SendsAtTail(d.ring);
    CallbackKeepsStep(d1);
    var d2 := TxCallback(d1).(ring := r.(tail := Inc(r.tail, |r.d|)));
    RestUnused(d.ring, d2.ring);
    CircTests(r.head, d2.ring.tail, |r.d|);
    if Count(d2.ring) > 0 {
      assert Nth(d2.ring, 0) == d2.ring.d[d2.ring.tail];
      assert HandlerLoop(d2) == d2;
    }
    assert Handler(d1) == d2;
  }

  lemma SendsAtTail(r: Ring)
    requires RingInv(r) && Count(r) > 0 && NoneUsed(r)
    ensures Transmit(r).0.d == r.d[r.tail := r.d[r.tail].(used := true)]
  {
    assert At(r.tail, 0, |r.d|) == r.tail;
    assert FirstUnused(r, 0) == 0;
  }

  lemma RestUnused(r: Ring, r': Ring)
    requires Shape(r) && Count(r) > 0 && NoneUsed(r) && r'.head == r.head && r'.cb == r.cb
    requires r'.tail == Inc(r.tail, |r.d|) && r'.d == r.d[r.tail := r.d[r.tail].(used := true)]
    ensures Count(r') == Count(r) - 1 && NoneUsed(r')
  {
    forall k | 0 <= k < Count(r') ensures !Nth(r', k).used {
      assert Nth(r', k) == Nth(r, k + 1);
    }
  }

  // ---------------------------------------------------------------- runs with overruns

  /** What the calls and the pool keep whatever happens: `lost` elements, beyond those of the frames
      that the ring counts, wait for an acknowledgement. */
  ghost predicate Accounted(s: Sys, lost: nat) {
    Tracks(s.drv, lost) && CallsAccounted(s.hist, Ids(s.drv.pending))
  }

  /** The controller may mark any descriptor at any time: once the ring has been taken for empty it
      still owns descriptors that the driver does not count. */
  datatype AnyEvent = AnyCall(frame: Frame, slot: nat, stray: bool) | Marks(i: nat) | AnyInterrupt | AnyPoll

  function AnyStep(s: Sys, e: AnyEvent): Sys
    requires Shape(s.drv.ring)
  {
    match e
    case AnyCall(frame, slot, stray) => Tx(s, frame, slot, stray)
    case Marks(i) =>
      var r := s.drv.ring;
      if i < |r.d| then s.(drv := s.drv.(ring := r.(d := r.d[i := r.d[i].(used := true)]))) else s
    case AnyInterrupt => Interrupt(s)
    case AnyPoll => Poll(s)
  }

  /** The call fills the spare descriptor of a full ring. */
  ghost predicate Overruns(s: Sys, e: AnyEvent)
    requires Shape(s.drv.ring)
  {
    e.AnyCall? && |s.drv.used| < s.drv.cap && !FullIsNoticed(s.drv.ring, e.frame, e.stray)
  }

  /** The pool keeps its contract; nothing else is asked for. */
  ghost predicate AnyReaches(s: Sys, es: seq<AnyEvent>, s': Sys, overruns: nat)
    decreases |es|
  {
    if es == [] then s == s' && overruns == 0
    else
      && Shape(s.drv.ring) && (es[0].AnyCall? ==> SlotFree(s.drv, es[0].slot))
      && if Overruns(s, es[0]) then overruns > 0 && AnyReaches(AnyStep(s, es[0]), es[1..], s', overruns - 1)
         else AnyReaches(AnyStep(s, es[0]), es[1..], s', overruns)
  }

  lemma AnyCallAccounted(s: Sys, lost: nat, frame: Frame, slot: nat, stray: bool)
    requires Accounted(s, lost) && SlotFree(s.drv, slot)
    ensures var e := AnyCall(frame, slot, stray);
            Accounted(AnyStep(s, e), if Overruns(s, e) then lost + |s.drv.ring.d| else lost)
  {
    hide CallsAccounted, Tracks;
    TracksShape(s.drv, lost);
    var st := Write(s.drv.ring, frame, true, stray).1;
    if |s.drv.used| < s.drv.cap && st == Ok {
      AnyCallQueued(s, lost, frame, slot, stray);
    } else {
      TxRefused(s.hist, Ids(s.drv.pending), if st == Busy && |s.drv.used| < s.drv.cap then TxErr else TxFatal);
    }
  }

  lemma TracksShape(d: Drv, lost: nat)
    requires Tracks(d, lost)
    ensures Shape(d.ring)
  {
  }

  lemma AnyCallQueued(s: Sys, lost: nat, frame: Frame, slot: nat, stray: bool)
    requires Accounted(s, lost) && SlotFree(s.drv, slot)
    requires |s.drv.used| < s.drv.cap && Write(s.drv.ring, frame, true, stray).1 == Ok
    ensures Accounted(Tx(s, frame, slot, stray),
                      if FullIsNoticed(s.drv.ring, frame, stray) then lost else lost + |s.drv.ring.d|)
  {
    hide CallsAccounted, Split, DistinctSlots, Slots;
    var r, r' := s.drv.ring, Write(s.drv.ring, frame, true, stray).0;
    var lost' := if FullIsNoticed(r, frame, stray) then lost else lost + |r.d|;
    CircTests(r.head, r.tail, |r.d|);
    WriteSetsCallback(r, frame, stray);
    PendingGrows(s.drv, lost, r', lost', Elem(slot, s.hist.calls, false));
    TxAccepted(s.hist, Ids(s.drv.pending), frame);
  }

  lemma WriteSetsCallback(r: Ring, frame: Frame, stray: bool)
    requires Shape(r) && CallbacksSet(r) && Write(r, frame, true, stray).1 == Ok
    ensures var r' := Write(r, frame, true, stray).0;
            CallbacksSet(r') && Count(r') == if Count(r) == |r.d| - 1 then 0 else Count(r) + 1
  {
    var r' := Write(r, frame, true, stray).0;
    forall k | 0 <= k < Count(r') ensures r'.cb[At(r'.tail, k, |r'.d|)] {
      assert k < Count(r) || At(r.tail, k, |r.d|) == r.head;
    }
  }

  lemma {:induction false} HandlerLoopTracks(d: Drv, lost: nat)
    requires Tracks(d, lost) && d.ring.head != d.ring.tail
    ensures var d' := HandlerLoop(d);
            Tracks(d', lost) && Ids(d'.pending) == Ids(d.pending) && |d'.ring.d| == |d.ring.d| && d'.cap == d.cap
    decreases Count(d.ring)
  {
    var r := d.ring;
    if r.d[r.tail].used {
      CallbackTracks(d, lost);
      var d2 := TxCallback(d).(ring := r.(tail := Inc(r.tail, |r.d|)));
      CircTests(r.head, d2.ring.tail, |r.d|);
      if CircCnt(r.head, d2.ring.tail, |r.d|) != 0 { HandlerLoopTracks(d2, lost); }
    }
  }

  lemma AnyStepAccounted(s: Sys, lost: nat, e: AnyEvent)
    requires Accounted(s, lost) && (e.AnyCall? ==> SlotFree(s.drv, e.slot))
    ensures var s' := AnyStep(s, e);
            && Accounted(s', if Overruns(s, e) then lost + |s.drv.ring.d| else lost)
            && |s'.drv.ring.d| == |s.drv.ring.d| && s'.drv.cap == s.drv.cap
  {
    hide PollLoop, HandlerLoop, CallsAccounted, DistinctSlots, Slots, Split, Ids;
    match e
    case AnyCall(frame, slot, stray) => AnyCallAccounted(s, lost, frame, slot, stray);
    case Marks(i) =>
    case AnyInterrupt => if s.drv.ring.head != s.drv.ring.tail { HandlerLoopTracks(s.drv, lost); }
    case AnyPoll => PollTracks(s, lost);
  }

  lemma {:induction false} AnyRunAccounted(s: Sys, lost: nat, es: seq<AnyEvent>, s': Sys, overruns: nat)
    requires Accounted(s, lost) && AnyReaches(s, es, s', overruns)
    ensures Accounted(s', lost + overruns * |s.drv.ring.d|)
    ensures |s'.drv.ring.d| == |s.drv.ring.d| && s'.drv.cap == s.drv.cap
    decreases |es|
  {
    hide AnyStep, Overruns, Accounted, SlotFree;
    if es != [] {
      var s1, n := AnyStep(s, es[0]), |s.drv.ring.d|;
      AnyStepAccounted(s, lost, es[0]);
      if Overruns(s, es[0]) {
        AnyRunAccounted(s1, lost + n, es[1..], s', overruns - 1);
        assert lost + n + (overruns - 1) * n == lost + overruns * n;
      } else {
        AnyRunAccounted(s1, lost, es[1..], s', overruns);
      }
    }
  }

  lemma StartAccounted(bufs: seq<seq<Byte>>, cap: nat)
    requires |bufs| > 0 && forall i :: 0 <= i < |bufs| ==> |bufs[i]| == UNIT
    ensures var s := Start(bufs, cap); Accounted(s, 0) && |s.drv.ring.d| == |bufs| && s.drv.cap == cap
  {
    ResetIsEmpty(bufs);
    assert LogIds([]) == [] && Ids([]) == [] && Upto(0) == [];
  }

  /** Over every run, overruns included and whatever the controller marks: every call has had exactly
      one callback or is pending once, the callbacks of accepted frames come in the order of the
      calls, the pool's slots in use are those of the pending list, and the driver's assertions
      hold: a callback finds an element to acknowledge, a poll one to report. But each overrun
      takes as many elements as the ring has descriptors out of the pool for good. */
  lemma OverrunsKeepAccounts(bufs: seq<seq<Byte>>, cap: nat, es: seq<AnyEvent>, s: Sys, overruns: nat)
    requires |bufs| > 0 && forall i :: 0 <= i < |bufs| ==> |bufs[i]| == UNIT
    requires AnyReaches(Start(bufs, cap), es, s, overruns)
    ensures multiset(LogIds(s.hist.log)) + multiset(Ids(s.drv.pending)) == multiset(Upto(s.hist.calls))
    ensures OkIds(s.hist.log) + Ids(s.drv.pending) == s.hist.accepted
    ensures forall i, j :: 0 <= i < j < |s.hist.accepted| ==> s.hist.accepted[i] < s.hist.accepted[j]
    ensures s.drv.used == Slots(s.drv.pending) && |s.drv.used| == |s.drv.pending|
    ensures Shape(s.drv.ring) && Split(s.drv.pending, Count(s.drv.ring) + overruns * |bufs|)
    ensures Count(s.drv.ring) + overruns * |bufs| <= |s.drv.pending| <= cap
    ensures Count(s.drv.ring) > 0 ==> exists i :: 0 <= i < |s.drv.pending| && !s.drv.pending[i].acked
    ensures s.drv.pendingTx ==> s.drv.pending != [] && s.drv.pending[0].acked
  {
    hide AnyReaches, Start, Count, At, CallbacksSet, DistinctSlots, Slots, OkIds, LogIds, Ids, Upto;
    StartAccounted(bufs, cap);
    AnyRunAccounted(Start(bufs, cap), 0, es, s, overruns);
    SlotCount(s.drv.pending);
    Pools.AtMost(s.drv.used, cap);
    if Count(s.drv.ring) > 0 { assert !s.drv.pending[|s.drv.pending| - 1].acked; }
  }

  // ---------------------------------------------------------------- the C object

  class Driver {
    const dev: TxDevice
    const cap: nat
    var pending: seq<Elem>
    var used: set<nat>
    var pendingTx: bool
    /** The calls of mac_call_sent_callback. */
    var log: seq<Sent>
    var calls: nat
    ghost var accepted: seq<nat>
    ghost var frames: seq<Frame>
    ghost var wire: seq<Frame>

    ghost function View(): Sys
      reads this, dev, dev.dscr, dev.cbs
    {
      Sys(Drv(dev.View(), pending, used, cap, pendingTx), Hist(calls, log, accepted, frames, wire))
    }

    constructor (d: TxDevice, queueLen: nat)
      requires Shape(d.View())
      ensures dev == d && cap == queueLen
      ensures View() == Sys(Drv(d.View(), [], {}, queueLen, false), Hist(0, [], [], [], []))
    {
      dev, cap := d, queueLen;
      pending, used, pendingTx, log, calls := [], {}, false, [], 0;
      accepted, frames, wire := [], [], [];
    }

    /** gmac_driver_tx */
    method DriverTx(frame: Frame, stray: bool) returns (ghost slot: nat)
      requires Shape(dev.View()) && forall k :: k in used ==> k < cap
      modifies this, dev`head, dev.dscr, dev.cbs
      ensures SlotFree(old(View()).drv, slot)
      ensures View() == Tx(old(View()), frame, slot, stray)
    {
      var id := calls;
      calls := calls + 1;
      slot := 0;
      var p := Pools.MembAlloc(used, cap);
      if p == None {
        log := log + [Sent(id, TxFatal)];
        return;
      }
      slot := p.value;
      WriteAndQueue(frame, id, p.value, stray);
    }

    method WriteAndQueue(frame: Frame, id: nat, slot: nat, stray: bool)
      requires Shape(dev.View()) && slot !in used
      modifies this, dev`head, dev.dscr, dev.cbs
      ensures View() == TxWith(old(View()).drv, old(View()).hist, id, frame, slot, stray)
    {
      used := used + {slot};
      assert used - {slot} == old(used);
      var st := dev.DevWrite(frame, true, stray);
      match st
      case Ok =>
        pending := pending + [Elem(slot, id, false)];
        accepted, frames := accepted + [id], frames + [frame];
      case Busy =>
        used := used - {slot};
        log := log + [Sent(id, TxErr)];
      case Param =>
        used := used - {slot};
        log := log + [Sent(id, TxFatal)];
    }

    /** The search of gmac_dev_tx_callback for the first element without an acknowledgement, with
        its assertion that there is one. */
    method AckFirst()
      requires exists i :: 0 <= i < |pending| && !pending[i].acked
      modifies this`pending
      ensures pending == Ack(old(pending))
    {
      ghost var p := pending;
      var i := 0;
      var notFound := true;
      while i < |pending|
        invariant 0 <= i <= |p| && pending == p && notFound
        invariant forall k :: 0 <= k < i ==> p[k].acked
        invariant Ack(p) == p[..i] + Ack(p[i..])
      {
        if !pending[i].acked {
          AckAt(p, i);
          pending := pending[i := pending[i].(acked := true)];
          notFound := false;
          break;
        }
        AckAt(p, i);
        i := i + 1;
      }
      assert !notFound;
    }

    /** gmac_dev_tx_callback on TXCOMP. */
    method TxComplete()
      requires exists i :: 0 <= i < |pending| && !pending[i].acked
      modifies this`pending, this`pendingTx
      ensures View().drv == TxCallback(old(View()).drv)
    {
      AckFirst();
      pendingTx := true;
    }

    /** gmac_handler on TXCOMP, its callbacks resolved to gmac_dev_tx_callback. */
    method DevHandler(ghost lost: nat)
      requires Tracks(View().drv, lost)
      modifies this`pending, this`pendingTx, dev`tail
      ensures View() == Interrupt(old(View())) && Tracks(View().drv, lost)
    {
      ghost var d0 := View().drv;
      if dev.head != dev.tail {
        var go := true;
        while go
          invariant Tracks(View().drv, lost)
          invariant go ==> dev.head != dev.tail && HandlerLoop(View().drv) == Handler(d0)
          invariant !go ==> View().drv == Handler(d0)
          decreases Count(dev.View()), go
        {
          if !dev.dscr[dev.tail].used {
            break;
          }
          HandlerLoopTurn(View().drv, lost);
          ReportOne(lost);
          go := CircCnt(dev.head, dev.tail, dev.dscr.Length) != 0;
        }
      }
    }

    /** The oldest frame in the ring has been sent: its callback, then the tail moves on. */
    method ReportOne(ghost lost: nat)
      requires Tracks(View().drv, lost) && dev.head != dev.tail && dev.dscr[dev.tail].used
      modifies this`pending, this`pendingTx, dev`tail
      ensures Tracks(View().drv, lost) && Count(dev.View()) == old(Count(dev.View())) - 1
      ensures View().drv ==
              TxCallback(old(View().drv)).(ring := old(dev.View()).(tail := Inc(old(dev.tail), dev.dscr.Length)))
    {
      CallbackTracks(View().drv, lost);
      if dev.cbs[dev.tail] {
        TxComplete();
      }
      dev.tail := dev.tail + 1;
      if dev.tail >= dev.dscr.Length {
        dev.tail := 0;
      }
    }

    /** The loop over the acknowledged elements at the head of the list, with its assertion that
        there is one. */
    method ReportAcked()
      requires pending != [] && pending[0].acked
      modifies this`pending, this`used, this`log
      ensures (pending, used, log) == PollLoop(old(pending), old(used), old(log))
    {
      ghost var result := PollLoop(pending, used, log);
      var notFound := true;
      while pending != []
        invariant PollLoop(pending, used, log) == result
        invariant notFound ==> pending != [] && pending[0].acked
        decreases |pending|
      {
        if !pending[0].acked {
          break;
        }
        notFound := false;
        log := log + [Sent(pending[0].id, TxOk)];
        used := used - {pending[0].slot};
        pending := pending[1..];
      }
      assert !notFound;
    }

    /** The TX half of gmac_driver_pollhandler. */
    method PollHandler(ghost lost: nat)
      requires Tracks(View().drv, lost) && CallsAccounted(View().hist, Ids(pending))
      modifies this`pending, this`used, this`pendingTx, this`log
      ensures View() == Poll(old(View()))
      ensures Tracks(View().drv, lost) && CallsAccounted(View().hist, Ids(pending))
    {
      PollTracks(View(), lost);
      if pendingTx {
        pendingTx := false;
        ReportAcked();
      }
    }
  }

  lemma AckAt(p: seq<Elem>, i: nat)
    requires i < |p|
    ensures p[..i] + Ack(p[i..]) == if p[i].acked then p[..i + 1] + Ack(p[i + 1..]) else p[i := p[i].(acked := true)]
  {
    assert p[..i + 1] == p[..i] + [p[i]] && p[i..][1..] == p[i + 1..];
  }

  lemma HandlerLoopTurn(d: Drv, lost: nat)
    requires Tracks(d, lost) && d.ring.head != d.ring.tail && d.ring.d[d.ring.tail].used
    ensures var d2 := TxCallback(d).(ring := d.ring.(tail := Inc(d.ring.tail, |d.ring.d|)));
            && (CircCnt(d2.ring.head, d2.ring.tail, |d.ring.d|) != 0 <==> d2.ring.head != d2.ring.tail)
            && HandlerLoop(d) == (if d2.ring.head != d2.ring.tail then HandlerLoop(d2) else d2)
  {
    CallbackTracks(d, lost);
    CircTests(d.ring.head, Inc(d.ring.tail, |d.ring.d|), |d.ring.d|);
  }
}
