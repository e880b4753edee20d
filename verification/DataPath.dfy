/**
 The modules together: a packet through the queue buffers, and an IPv6 packet from one node's
 uip_buf through the Ethernet frame and the other node's receive descriptors to its uip_buf.
 */
module DataPath {
  import opened Bytes
  import opened PacketBuf
  import Queue = QueueBuf
  import Rx = GmacRx
  import Eth = Ethernet
  import RxRun = GmacRxRun
  import Drv = GmacDrv
  import Tx = GmacTx

  // ---------------------------------------------------------------- packet buffer and queue

  /** What queuebuf_new_from_packetbuf and queuebuf_update_from_packetbuf store. */
  function Queued(p: Pkt): Queue.Content
    requires Shape(p)
  {
    Queue.Content(CopyTo(p), p.attrs)
  }

  /** queuebuf_to_packetbuf, given what the loaded buffer shows. */
  function Unqueued(q: Pkt, c: Queue.Content): Pkt
    requires |q.buf| == HDR + SIZE
  {
    CopyFrom(q, c.bytes).0.(attrs := c.attrs)
  }

  /** A packet that an event of a run has stored in a queue buffer comes back with the same bytes and
      attributes after any further events that neither store in that buffer nor free it. */
  lemma PacketSurvivesQueue(p: Pkt, q: Pkt, s0: Queue.State, before: seq<Queue.Event>, e: Queue.Event,
                            after: seq<Queue.Event>, h: nat, junk: Queue.Content)
    requires Inv(p) && |q.buf| == HDR + SIZE
    requires Queue.Initial(s0) && Queue.Possible(s0, before)
    requires var s := Queue.Run(s0, before);
             && Queue.Allowed(s, e) && Queue.StoresIn(s, e, h, Queued(p))
             && Queue.Possible(Queue.Step(s, e).0, after) && Queue.Spares(after, h)
    ensures var s' := Queue.Run(Queue.Step(Queue.Run(s0, before), e).0, after);
            && Queue.Usable(s', h)
            && var q' := Unqueued(q, Queue.Loaded(s', h, junk));
               Inv(q') && Flat(q') == Flat(p) && q'.attrs == p.attrs
  {
    hide Queue.Step, Queue.Allowed, Queue.StoresIn;
    Queue.ReadsLastStored(s0, before);
    var s := Queue.Run(s0, before);
    Queue.StoredStays(s, Queue.Stored(s0, map[], before), e, h, Queued(p));
    assert Queue.Shows(Queue.Run(Queue.Step(s, e).0, after), h, Queued(p));
    CopyOutAndIn(p, q);
  }

  /** queuebuf_to_packetbuf */
  method ToPacketbuf(qb: Queue.QueueBuffers, pb: PacketBuffer, h: nat, junk: Queue.Content)
    requires qb.Valid() && (h in qb.live || h >= qb.bufs.Length) && pb.buf.Length == HDR + SIZE
    requires pb as object != qb
    modifies qb`tmp, qb`tmpBuf, pb, pb.buf
    ensures qb.Valid() && qb.store == old(qb.store)
    ensures h in qb.store ==> pb.View() == Unqueued(old(pb.View()), qb.store[h])
    ensures h !in qb.live ==> pb.View() == old(pb.View())
  {
    var c := qb.ReadBack(h, junk);
    if c.Some? {
      var l := pb.CopyIn(c.value.bytes);
      pb.attrs := c.value.attrs;
    }
  }

  // ---------------------------------------------------------------- uip_buf to uip_buf

  /** The frame of the controller's k buffers at offset j: its length is in the last status word
      and its bytes lead the buffers. */
  ghost predicate Arrived(t: seq<Rx.RxDesc>, j: nat, k: nat, frame: seq<Byte>) {
    && Rx.Owned(t, 0, j) && Rx.NoSof(t, 0, j) && Rx.WholeFrame(t, j, j + k) && k < |t|
    && t[j + k - 1].len == |frame| <= Rx.UNIT * k
    && Rx.Cat(t, j, j + k)[..|frame|] == frame
  }

  /** One round of the receive loop of gmac_driver_pollhandler: read at the data pointer of the
      cleared packet buffer, set the length, parse. */
  function ReceiveOne(p: Pkt, t: seq<Rx.RxDesc>, node: LinkAddr): (Pkt, bool)
    requires |p.buf| == HDR + SIZE
  {
    var p0 := Clear(p);
    var o := Rx.Read(t, p0.buf[HDR..]);
    if o.status != Rx.Ok || o.rcvSize > SIZE then (p0, false)
    else Eth.Parse(p0.(buf := p0.buf[..HDR] + o.frame, len := o.rcvSize), node)
  }

  /** What the driver finds in the packet buffer after reading an arrived frame. */
  lemma ReadsFrame(p: Pkt, t: seq<Rx.RxDesc>, j: nat, k: nat, frame: seq<Byte>)
    requires |p.buf| == HDR + SIZE && Arrived(t, j, k, frame) && |frame| <= SIZE
    ensures var o := Rx.Read(t, p.buf[HDR..]);
            && o.status == Rx.Ok && o.rcvSize == |frame| && o.released == j + k
            && o.frame[..|frame|] == frame && |o.frame| == SIZE
  {
    Rx.DeliversFrame(t, p.buf[HDR..], j, k);
  }

  /** The bytes beyond the frame do not matter to parse. */
  lemma ParseSeesFrame(p: Pkt, tail: seq<Byte>, dest: LinkAddr, src: LinkAddr, payload: seq<Byte>, node: LinkAddr)
    requires |p.buf| == HDR + SIZE && Eth.HEADER + |payload| <= SIZE
    requires |tail| == SIZE && tail[..Eth.HEADER + |payload|] == Eth.HeaderBytes(dest, src, Eth.PROT_IPV6) + payload
    ensures var r := Clear(p).(buf := p.buf[..HDR] + tail, len := Eth.HEADER + |payload|);
            Shape(r) &&
            var (q, ok) := Eth.Parse(r, node);
            && Inv(q) && q.attrs.sender == src && (ok <==> Eth.Accepts(dest, node))
            && (ok ==> Data(q) == payload)
  {
    var h := Eth.HeaderBytes(dest, src, Eth.PROT_IPV6);
    var n := Eth.HEADER + |payload|;
    var r := Clear(p).(buf := p.buf[..HDR] + tail, len := n);
    var base := p.(buf := p.buf[..HDR] + tail);
    assert tail == (h + payload) + tail[n..];
    assert r == Eth.Receive(base, h + payload);
    Eth.ParseUndoesCreate(base, dest, src, payload, node);
  }

  /** From the sender's uip_buf to the receiver's: whatever fragments lie in front of it and
      however the controller splits it over its buffers, the packet arrives byte for byte with
      the sender's address. */
  lemma PacketArrives(p: Pkt, uip: seq<Byte>, uipLen: U16, localdest: Option<LinkAddr>, node: LinkAddr,
                      t: seq<Rx.RxDesc>, j: nat, k: nat, p2: Pkt, node2: LinkAddr, uip2: seq<Byte>)
    requires |p.buf| == HDR + SIZE && |p2.buf| == HDR + SIZE && |uip| >= Eth.DEST_AT + 16
    requires 0 < uipLen <= SIZE - Eth.HEADER && uipLen <= |uip| && uipLen <= |uip2|
    requires localdest.Some? ==> localdest.value == node2
    requires var q := Eth.Output(p, uip, uipLen, localdest, node).0;
             q.hdr <= HDR && Shape(q) && q.hdr + TotLen(q) <= |q.buf| && Arrived(t, j, k, Wire(q))
    ensures var (q2, taken) := ReceiveOne(p2, t, node2);
            && taken && Inv(q2) && q2.attrs.sender == node && q2.len <= |uip2|
            && var (u, n) := Eth.Input(q2, uip2, 0);
               n == uipLen && u[..n] == uip[..uipLen]
  {
    Eth.FrameIffFits(p, uip, uipLen, localdest, node);
    var frame := Wire(Eth.Output(p, uip, uipLen, localdest, node).0);
    ReadsFrame(Clear(p2), t, j, k, frame);
    var o := Rx.Read(t, Clear(p2).buf[HDR..]);
    ParseSeesFrame(p2, o.frame, Eth.ReceiverOf(uip, localdest), node, uip[..uipLen], node2);
  }

  // ---------------------------------------------------------------- two nodes and the wire

  /** One node's driver and another's receive ring, with a wire in between on which the receiver has
      seen the first frames so far: what the receiver's calls report are the frames the sender's
      ring accepted, each once, whole and in order. */
  lemma FramesCross(bufs: seq<seq<Byte>>, cap: nat, txs: seq<Drv.Event>, s: Drv.Sys,
                    t: seq<Rx.RxDesc>, rxs: seq<RxRun.Event>, outs: seq<RxRun.Out>, r: RxRun.Ring)
    requires |bufs| > 0 && forall i :: 0 <= i < |bufs| ==> |bufs[i]| == Tx.UNIT
    requires Drv.Reaches(Drv.Start(bufs, cap), txs, s)
    requires t != [] && forall i :: 0 <= i < |t| ==> !t[i].owned
    requires RxRun.Reaches(RxRun.Ring(t, 0, 0), rxs, outs, r) && RxRun.BuffersHold(rxs, SIZE)
    requires RxRun.Arrived(rxs, []) <= s.hist.wire
    ensures RxRun.Reported(outs) <= s.hist.frames && RxRun.AllWhole(outs)
    ensures forall i :: 0 <= i < |s.hist.frames| ==> |s.hist.frames[i]| <= Tx.UNIT
  {
    hide Drv.Reaches, RxRun.Reaches, Drv.Start, RxRun.Arrived, RxRun.Reported, RxRun.QueueOuts;
    Drv.TransmitConservation(bufs, cap, txs, s);
    NoFramesYet(bufs, cap);
    Drv.AcceptedFit(Drv.Start(bufs, cap), txs, s);
    var arrived := RxRun.Arrived(rxs, []);
    forall i | 0 <= i < |arrived| ensures |arrived[i]| <= SIZE {
      assert arrived[i] == s.hist.frames[i] && s.hist.frames[i] in s.hist.frames;
    }
    RxRun.ReportsArrivals(t, rxs, outs, r, SIZE);
  }

  lemma NoFramesYet(bufs: seq<seq<Byte>>, cap: nat)
    requires |bufs| > 0 && forall i :: 0 <= i < |bufs| ==> |bufs[i]| == Tx.UNIT
    ensures Drv.Start(bufs, cap).hist.frames == []
  {
  }

  /** Of two nodes that have run so far, the next call of the receiver's loop that finds a frame finds
      the one accepted next after those reported. If that is a packet's, the packet reaches the
      other node's uip_buf unchanged, with the sender's address, whatever else is sent. */
  lemma PacketReachesNode(bufs: seq<seq<Byte>>, cap: nat, txs: seq<Drv.Event>, s: Drv.Sys,
                          t: seq<Rx.RxDesc>, rxs: seq<RxRun.Event>, outs: seq<RxRun.Out>, r: RxRun.Ring,
                          p: Pkt, uip: seq<Byte>, uipLen: U16, localdest: Option<LinkAddr>, node: LinkAddr,
                          p2: Pkt, node2: LinkAddr, uip2: seq<Byte>)
    requires |bufs| > 0 && forall i :: 0 <= i < |bufs| ==> |bufs[i]| == Tx.UNIT
    requires Drv.Reaches(Drv.Start(bufs, cap), txs, s)
    requires t != [] && forall i :: 0 <= i < |t| ==> !t[i].owned
    requires RxRun.Reaches(RxRun.Ring(t, 0, 0), rxs, outs, r) && RxRun.BuffersHold(rxs, SIZE)
    requires RxRun.Arrived(rxs, []) <= s.hist.wire
    requires |p.buf| == HDR + SIZE && |p2.buf| == HDR + SIZE && |uip| >= Eth.DEST_AT + 16
    requires uipLen <= |uip| && uipLen <= |uip2| && (localdest.Some? ==> localdest.value == node2)
    requires Rx.Read(r.t, Clear(p2).buf[HDR..]).status != Rx.NoData
    requires var i := |RxRun.Reported(outs)|;
             i < |s.hist.frames| ==> Sends(p, uip, uipLen, localdest, node, s.hist.frames[i])
    ensures |RxRun.Reported(outs)| < |s.hist.frames|
    ensures var (q2, taken) := ReceiveOne(p2, r.t, node2);
            && taken && Inv(q2) && q2.attrs.sender == node && q2.len <= |uip2|
            && var (u, n) := Eth.Input(q2, uip2, 0);
               n == uipLen && u[..n] == uip[..uipLen]
  {
    hide Drv.Reaches, RxRun.Reaches, Drv.Start, RxRun.Arrived, RxRun.Reported, Eth.Output, Eth.Input, Eth.Parse;
    NextFrame(bufs, cap, txs, s, t, rxs, outs, r, Clear(p2).buf[HDR..]);
    var o := Rx.Read(r.t, Clear(p2).buf[HDR..]);
    Eth.FrameIffFits(p, uip, uipLen, localdest, node);
    var payload := uip[..uipLen];
    var dest := Eth.ReceiverOf(uip, localdest);
    assert o.frame[..Eth.HEADER + |payload|] == Eth.HeaderBytes(dest, node, Eth.PROT_IPV6) + payload;
    ParseSeesFrame(p2, o.frame, dest, node, payload, node2);
    Taken(p2, r.t, node2, uip2, payload);
  }

  /** What a receiver's next call finds is the frame accepted next after those reported. */
  lemma NextFrame(bufs: seq<seq<Byte>>, cap: nat, txs: seq<Drv.Event>, s: Drv.Sys,
                  t: seq<Rx.RxDesc>, rxs: seq<RxRun.Event>, outs: seq<RxRun.Out>, r: RxRun.Ring, buf: seq<Byte>)
    requires |bufs| > 0 && forall i :: 0 <= i < |bufs| ==> |bufs[i]| == Tx.UNIT
    requires Drv.Reaches(Drv.Start(bufs, cap), txs, s)
    requires t != [] && forall i :: 0 <= i < |t| ==> !t[i].owned
    requires RxRun.Reaches(RxRun.Ring(t, 0, 0), rxs, outs, r) && RxRun.BuffersHold(rxs, SIZE)
    requires RxRun.Arrived(rxs, []) <= s.hist.wire && |buf| == SIZE && Rx.Read(r.t, buf).status != Rx.NoData
    ensures var o, i := Rx.Read(r.t, buf), |RxRun.Reported(outs)|;
            && i < |s.hist.frames| && o.status == Rx.Ok && o.rcvSize == |s.hist.frames[i]| <= SIZE == |o.frame|
            && o.frame[..o.rcvSize] == s.hist.frames[i]
  {
    hide Drv.Reaches, RxRun.Reaches, Drv.Start, RxRun.Arrived, Rx.Read, Rx.MovedOn;
    var e := RxRun.ReadCall(buf);
    RxRun.ReachedShape(RxRun.Ring(t, 0, 0), rxs, outs, r);
    var (r', out) := RxRun.Step(r, e);
    RxRun.ReachesMore(RxRun.Ring(t, 0, 0), rxs, outs, r, e);
    RxRun.ReadsBringNothing(rxs, [], e);
    FramesCross(bufs, cap, txs, s, t, rxs + [e], outs + [out], r');
    RxRun.ReportedSnoc(outs, out);
    assert (outs + [out])[|outs|] == out && out.status == Rx.Ok && out.size == |out.bytes|;
    assert [out][1..] == [] && RxRun.Reported([out]) == [out.bytes];
    assert (RxRun.Reported(outs) + [out.bytes])[|RxRun.Reported(outs)|] == out.bytes;
  }

  lemma Taken(p2: Pkt, t: seq<Rx.RxDesc>, node2: LinkAddr, uip2: seq<Byte>, payload: seq<Byte>)
    requires |p2.buf| == HDR + SIZE && 0 < |payload| <= |uip2|
    requires Shape(Clear(p2))
    requires var o := Rx.Read(t, Clear(p2).buf[HDR..]);
             && o.status == Rx.Ok && o.rcvSize == Eth.HEADER + |payload| <= SIZE
             && var (q, ok) := Eth.Parse(Clear(p2).(buf := p2.buf[..HDR] + o.frame, len := o.rcvSize), node2);
                ok && Inv(q) && Data(q) == payload
    ensures var (q2, taken) := ReceiveOne(p2, t, node2);
            && taken && Inv(q2) && q2.len <= |uip2|
            && var (u, n) := Eth.Input(q2, uip2, 0);
               n == |payload| && u[..n] == payload
  {
  }

  /** Output and create make this frame of the packet. */
  ghost predicate Sends(p: Pkt, uip: seq<Byte>, uipLen: U16, localdest: Option<LinkAddr>, node: LinkAddr,
                        frame: seq<Byte>)
    requires |p.buf| == HDR + SIZE && uipLen <= |uip| && |uip| >= Eth.DEST_AT + 16
  {
    var (q, ok) := Eth.Output(p, uip, uipLen, localdest, node);
    ok && q.hdr <= HDR && Shape(q) && q.hdr + TotLen(q) <= |q.buf| && frame == Wire(q)
  }

  /** The driver takes the frame of a packet exactly when its pool has an element, the full-ring test
      does not stop it, and the packet has at most 1504 bytes: one with more is made into a frame,
      but is refused by gmac_dev_write. */
  lemma PacketTakenIff(s: Drv.Sys, slot: nat, stray: bool, p: Pkt, uip: seq<Byte>, uipLen: U16,
                       localdest: Option<LinkAddr>, node: LinkAddr, frame: seq<Byte>)
    requires Drv.Inv(s) && Drv.SlotFree(s.drv, slot)
    requires |p.buf| == HDR + SIZE && uipLen <= |uip| && |uip| >= Eth.DEST_AT + 16
    requires Sends(p, uip, uipLen, localdest, node, frame)
    ensures Drv.Tx(s, frame, slot, stray).hist.frames == s.hist.frames + [frame] <==>
            |s.drv.used| < s.drv.cap && uipLen <= 1504
            && !(Tx.Count(s.drv.ring) == |s.drv.ring.d| - 1 && Tx.LooksUsed(s.drv.ring, stray))
  {
    Eth.FrameIffFits(p, uip, uipLen, localdest, node);
    Drv.TxTakesFrameIff(s, frame, slot, stray);
  }
}
