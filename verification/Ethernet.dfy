/**
 ieee8023_framer.c and ieee8023_net.c: an IPv6 packet leaves through output and create as an
 Ethernet frame at the packet buffer's header pointer, and comes back through the driver's
 copy-in, parse and input.
 */
module Ethernet {
  import opened Bytes
  import opened PacketBuf

  /** ETH_PROT_IPV6, ETH_PROT_IP, ETH_PROT_ARP */
  const PROT_IPV6: U16 := 0x86DD
  const PROT_IP: U16 := 0x0800
  const PROT_ARP: U16 := 0x0806

  /** sizeof(ethernet_header_t) */
  const HEADER: nat := 14

  /** The IPv6 destination address inside the packet. */
  const DEST_AT: nat := 24

  /** SWAP16 */
  function Swap16(x: U16): U16 {
    (x % 256) * 256 + x / 256
  }

  /** The 14 header bytes create writes; the type word is stored little-endian after the swap. */
  function HeaderBytes(dest: LinkAddr, src: LinkAddr, proto: U16): (h: seq<Byte>)
    ensures |h| == HEADER && h[..6] == dest && h[6..12] == src
  {
    dest + src + Le16(Swap16(proto))
  }

  /** Section 3 of RFC 2464: the type field is sent high byte first. */
  lemma TypeInNetworkOrder(dest: LinkAddr, src: LinkAddr, proto: U16)
    ensures HeaderBytes(dest, src, proto)[12..] == [proto / 256, proto % 256]
    ensures Swap16(Load16(HeaderBytes(dest, src, proto), 12)) == proto
  {
    var w: U16 := Swap16(proto);
    assert w % 256 == proto / 256 && w / 256 == proto % 256;
    assert HeaderBytes(dest, src, proto)[12..] == Le16(w);
  }

  // ---------------------------------------------------------------- the framer

  /** create of ieee8023_framer: the header, then the receiver back to null if it was a multicast
      address. */
  function Create(p: Pkt): (Pkt, bool)
    requires |p.buf| == HDR + SIZE && p.hdr <= HDR
  {
    var (q, ok) := HdrAlloc(p, HEADER);
    var a := p.attrs;
    var q1 := if ok then q.(buf := Put(q.buf, q.hdr, HeaderBytes(a.receiver, a.sender, a.ethProto))) else q;
    var r := p.attrs.receiver;
    (if r[0] == 0x33 && r[1] == 0x33 then q1.(attrs := q1.attrs.(receiver := NULL_ADDR)) else q1, ok)
  }

  /** linkaddr6_copy out of a header. */
  function AddrAt(h: seq<Byte>, at: nat): LinkAddr
    requires at + 6 <= |h|
  {
    h[at..at + 6]
  }

  /** What parse looks at in the receiver address: its first byte, twice. */
  predicate Accepts(dest: LinkAddr, node: LinkAddr) {
    dest[0] == 0x33 || dest == node
  }

  /** parse of ieee8023_framer on the node with address `node`. */
  function Parse(p: Pkt, node: LinkAddr): (Pkt, bool)
    requires Shape(p)
  {
    if p.len < HEADER then (p, false)
    else
      var h := p.buf[p.hdr..p.hdr + HEADER];
      var dest := AddrAt(h, 0);
      var p1 := p.(attrs := p.attrs.(sender := AddrAt(h, 6)));
      if !Accepts(dest, node) then (p1, false)
      else
        var p2 := p1.(attrs := p1.attrs.(receiver := if dest[0] == 0x33 then NULL_ADDR else node));
        if Swap16(Load16(h, 12)) != PROT_IPV6 then (p2, false) else HdrReduce(p2, HEADER)
  }

  /** Create puts the 14 bytes in front of any packet that has room for them, and otherwise leaves
      header and data alone; in both cases only a 33-33 receiver becomes null. */
  lemma CreatePrepends(p: Pkt)
    requires Inv(p)
    ensures var (q, ok) := Create(p);
            var a, b := p.attrs, q.attrs;
            && Inv(q) && (ok <==> 14 <= p.hdr && |Flat(p)| + Miscounted(p) + 14 <= 1536)
            && (!ok ==> Header(q) == Header(p) && Data(q) == Data(p))
            && (ok ==> && Flat(q) == HeaderBytes(a.receiver, a.sender, a.ethProto) + Flat(p) && Flat(q)[14..] == Flat(p)
                       && Flat(q)[..6] == a.receiver && Flat(q)[6..12] == a.sender
                       && Flat(q)[12..14] == [a.ethProto / 256, a.ethProto % 256])
            && b == a.(receiver := b.receiver)
            && b.receiver == if a.receiver[..2] == [0x33, 0x33] then [0, 0, 0, 0, 0, 0] else a.receiver
  {
    hide Create, HeaderBytes, Flat, Header, Data;
    CreateIs(p);
    var (q, ok) := Create(p);
    var a := p.attrs;
    if ok {
      TypeInNetworkOrder(a.receiver, a.sender, a.ethProto);
      HeaderPut(p, HeaderBytes(a.receiver, a.sender, a.ethProto), q);
    } else {
      SameBytes(p, q);
    }
  }

  lemma SameBytes(p: Pkt, q: Pkt)
    requires Shape(p) && q == p.(attrs := q.attrs)
    ensures Shape(q) && Header(q) == Header(p) && Data(q) == Data(p)
  {
  }

  lemma CreateIs(p: Pkt)
    requires Inv(p)
    ensures var (q, ok) := Create(p);
            var a, b := p.attrs, q.attrs;
            && Inv(q) && (ok <==> 14 <= p.hdr && |Flat(p)| + Miscounted(p) + 14 <= 1536)
            && q == (if ok then p.(hdr := p.hdr - HEADER, attrs := b,
                                   buf := Put(p.buf, p.hdr - HEADER, HeaderBytes(a.receiver, a.sender, a.ethProto)))
                     else p.(attrs := b))
            && b == a.(receiver := b.receiver)
            && b.receiver == if a.receiver[..2] == [0x33, 0x33] then [0, 0, 0, 0, 0, 0] else a.receiver
  {
    hide HeaderBytes, Put;
    HeaderGrows(p, HEADER);
  }

  /** A header written in front of header and data. */
  lemma HeaderPut(p: Pkt, h: seq<Byte>, q: Pkt)
    requires Shape(p) && |h| == HEADER <= p.hdr
    requires q == p.(hdr := p.hdr - HEADER, buf := Put(p.buf, p.hdr - HEADER, h), attrs := q.attrs)
    ensures Shape(q) && Flat(q) == h + Flat(p)
    ensures var f := Flat(q); f[14..] == Flat(p) && f[..6] == h[..6] && f[6..12] == h[6..12] && f[12..14] == h[12..]
  {
    PutBehind(p.buf, p.hdr - HEADER, h, p.hdr, HDR);
    PutBehind(p.buf, p.hdr - HEADER, h, HDR + p.ptr, HDR + p.ptr + p.len);
    assert Header(q) == q.buf[q.hdr..p.hdr] + q.buf[p.hdr..HDR];
    CreatedFlat(h, Header(p), Data(p));
    assert Flat(q) == (h + Header(p)) + Data(p) == h + Flat(p);
  }

  /** What lies behind the bytes put in is as it was. */
  lemma PutBehind(buf: seq<Byte>, at: nat, bytes: seq<Byte>, lo: nat, hi: nat)
    requires at + |bytes| <= lo <= hi <= |buf|
    ensures Put(buf, at, bytes)[lo..hi] == buf[lo..hi]
  {
    var n := at + |bytes|;
    var b := Put(buf, at, bytes);
    assert b[lo..hi] == b[n..][lo - n..hi - n] && buf[lo..hi] == buf[n..][lo - n..hi - n];
  }

  lemma CreatedFlat(h: seq<Byte>, header: seq<Byte>, data: seq<Byte>)
    requires |h| == 14
    ensures var f := (h + header) + data;
            f[14..] == header + data && f[..6] == h[..6] && f[6..12] == h[6..12] && f[12..14] == h[12..]
  {
  }

  // ---------------------------------------------------------------- the network layer

  /** Section 7 of RFC 2464: 33-33 and the last four bytes of the IPv6 destination. */
  function MulticastAddr(packet: seq<Byte>): LinkAddr
    requires |packet| >= DEST_AT + 16
  {
    [0x33, 0x33] + packet[DEST_AT + 12..DEST_AT + 16]
  }

  function ReceiverOf(packet: seq<Byte>, localdest: Option<LinkAddr>): LinkAddr
    requires |packet| >= DEST_AT + 16
  {
    if localdest.Some? then localdest.value else MulticastAddr(packet)
  }

  /** output of ieee8023_net up to the MAC's send, then create: whether output started to send, the
      packet buffer, and whether there is a frame. `uip` is uip_buf, `uipLen` uip_len. The size
      test compares the negated return value, so it never stops a packet. */
  function Output(p: Pkt, uip: seq<Byte>, uipLen: U16, localdest: Option<LinkAddr>, node: LinkAddr): (Pkt, bool)
    requires |p.buf| == HDR + SIZE && uipLen <= |uip| && |uip| >= DEST_AT + 16
  {
    if uipLen == 0 then (p, false)
    else
      var (p1, l) := CopyFrom(Clear(p), uip[..uipLen]);
      if (if l == 0 then 1 else 0) == uipLen then (p1, false)
      else
        var a := p1.attrs.(sender := node, receiver := ReceiverOf(uip, localdest),
                              packetType := 0, ethProto := PROT_IPV6);
        Create(p1.(len := uipLen, attrs := a))
  }

  /** The driver's copy-in of a received frame: clear, read at the data pointer, set the length. */
  function Receive(p: Pkt, frame: seq<Byte>): Pkt
    requires |p.buf| == HDR + SIZE && |frame| <= SIZE
  {
    Clear(p).(buf := Put(p.buf, HDR, frame), len := |frame|)
  }

  /** input of ieee8023_net: uip_buf and uip_len afterwards. */
  function Input(p: Pkt, uip: seq<Byte>, uipLen: U16): (seq<Byte>, nat)
    requires Shape(p) && p.len <= |uip|
  {
    if uipLen != 0 then (uip, uipLen) else (Put(uip, 0, Data(p)), p.len)
  }

  // ---------------------------------------------------------------- round trip

  /** A frame is made exactly when there is a packet and it leaves room for the header; it is the
      header and the packet in one piece. */
  lemma FrameIffFits(p: Pkt, uip: seq<Byte>, uipLen: U16, localdest: Option<LinkAddr>, node: LinkAddr)
    requires |p.buf| == HDR + SIZE && uipLen <= |uip| && |uip| >= DEST_AT + 16
    ensures var (q, ok) := Output(p, uip, uipLen, localdest, node);
            && (ok <==> 0 < uipLen <= SIZE - HEADER) && (uipLen > 0 ==> q.len == uipLen)
            && (ok ==> Inv(q) && q.hdr + TotLen(q) <= |q.buf| &&
                       Wire(q) == HeaderBytes(ReceiverOf(uip, localdest), node, PROT_IPV6) + uip[..uipLen])
  {
    hide HeaderBytes, ReceiverOf, ClearedAttrs, Create, Flat;
    if uipLen > 0 {
      var (p1, l) := CopyFrom(Clear(p), uip[..uipLen]);
      var a := p1.attrs.(sender := node, receiver := ReceiverOf(uip, localdest),
                         packetType := 0, ethProto := PROT_IPV6);
      var p2 := p1.(len := uipLen, attrs := a);
      assert Output(p, uip, uipLen, localdest, node) == Create(p2);
      if uipLen <= SIZE {
        PacketIn(p, uip[..uipLen], p2);
        CreatePrepends(p2);
        CreateIs(p2);
        if Create(p2).1 { WireIsPacket(Create(p2).0); }
      } else {
        TooLong(p2);
      }
    }
  }

  lemma PacketIn(p: Pkt, packet: seq<Byte>, p2: Pkt)
    requires |p.buf| == HDR + SIZE && |packet| <= SIZE
    requires p2 == CopyFrom(Clear(p), packet).0.(len := |packet|, attrs := p2.attrs)
    ensures Inv(p2) && p2.hdr == HDR && p2.ptr == 0 && Flat(p2) == packet
  {
    CopyFromHolds(Clear(p), packet);
    assert packet[..|packet|] == packet;
  }

  lemma TooLong(p: Pkt)
    requires |p.buf| == HDR + SIZE && p.hdr == HDR && p.ptr == 0 && SIZE < p.len < 0x1_0000
    ensures !Create(p).1 && Create(p).0.len == p.len
  {
  }

  /** The frame of a packet, byte for byte: the destination, or without one 33-33 and the last four
      bytes of the IPv6 destination; the node's address; 86-DD; the packet. */
  lemma FrameBytes(p: Pkt, uip: seq<Byte>, uipLen: U16, localdest: Option<LinkAddr>, node: LinkAddr)
    requires |p.buf| == HDR + SIZE && |uip| >= 40 && 0 < uipLen <= SIZE - 14 && uipLen <= |uip|
    ensures var q := Output(p, uip, uipLen, localdest, node).0;
            && q.hdr <= HDR && Shape(q) && q.hdr + TotLen(q) <= |q.buf| && |Wire(q)| == 14 + uipLen
            && Wire(q)[..6] == (if localdest.Some? then localdest.value
                                else [0x33, 0x33, uip[36], uip[37], uip[38], uip[39]])
            && Wire(q)[6..12] == node && Wire(q)[12..14] == [0x86, 0xDD] && Wire(q)[14..] == uip[..uipLen]
  {
    hide Output, Wire;
    FrameIffFits(p, uip, uipLen, localdest, node);
    var dest := ReceiverOf(uip, localdest);
    var h := HeaderBytes(dest, node, PROT_IPV6);
    TypeInNetworkOrder(dest, node, PROT_IPV6);
    var w := h + uip[..uipLen];
    assert w[..6] == h[..6] && w[6..12] == h[6..12] && w[12..14] == h[12..];
  }

  /** What is sent depends on nothing the packet buffer held before. */
  lemma OutputStartsFresh(p: Pkt, p2: Pkt, uip: seq<Byte>, uipLen: U16, localdest: Option<LinkAddr>, node: LinkAddr)
    requires |p.buf| == |p2.buf| == HDR + SIZE && 0 < uipLen <= |uip| && |uip| >= DEST_AT + 16
    requires |p.attrs.others| == |p2.attrs.others| && |p.attrs.otherAddrs| == |p2.attrs.otherAddrs|
    ensures var (q, ok), (q2, ok2) := Output(p, uip, uipLen, localdest, node), Output(p2, uip, uipLen, localdest, node);
            && ok == ok2 && q.attrs == q2.attrs && q.attrs.sender == node
            && q.attrs.packetType == 0 && q.attrs.ethProto == 0x86DD
            && (forall i :: 0 <= i < |q.attrs.others| ==> q.attrs.others[i] == 0)
            && (ok ==> && q.hdr == q2.hdr <= HDR && Shape(q) && Shape(q2)
                       && q.hdr + TotLen(q) <= |q.buf| && q2.hdr + TotLen(q2) <= |q2.buf| && Wire(q) == Wire(q2))
  {
    hide Wire;
    FrameIffFits(p, uip, uipLen, localdest, node);
    FrameIffFits(p2, uip, uipLen, localdest, node);
  }

  /** Every frame, on every node: it is taken exactly when it has a header with type 86-DD and its
      first byte is 33 or it is addressed to the node. Payload, sender and receiver are then those
      of the frame, whatever the packet buffer held before. */
  lemma ParseTakesIff(p: Pkt, frame: seq<Byte>, node: LinkAddr)
    requires |p.buf| == HDR + SIZE && |frame| <= SIZE
    ensures var (q, ok) := Parse(Receive(p, frame), node);
            && (ok <==> && |frame| >= 14 && (frame[0] == 0x33 || frame[..6] == node)
                        && frame[12] == 0x86 && frame[13] == 0xDD)
            && (|frame| < 14 ==> q == Receive(p, frame))
            && (ok ==> && Inv(q) && Data(q) == frame[14..] && q.attrs.sender == frame[6..12]
                       && q.attrs.receiver == (if frame[0] == 0x33 then NULL_ADDR else node)
                       && q.attrs.packetType == q.attrs.ethProto == 0)
  {
    var r := Receive(p, frame);
    assert r.buf[HDR..HDR + |frame|] == frame;
    if |frame| >= 14 {
      var h := r.buf[HDR..HDR + 14];
      assert h == frame[..14] by { assert h == r.buf[HDR..HDR + |frame|][..14]; }
      assert h[0..6] == frame[..6] && h[6..12] == frame[6..12];
      assert Swap16(Load16(h, 12)) == PROT_IPV6 <==> h[12] == 0x86 && h[13] == 0xDD;
      assert r.buf[HDR + 14..HDR + |frame|] == frame[14..] by {
        assert r.buf[HDR + 14..HDR + |frame|] == r.buf[HDR..HDR + |frame|][14..];
      }
    }
  }

  /** A packet still in uip_buf is not overwritten; otherwise the data goes to its start. */
  lemma InputSparesPacketInUse(p: Pkt, uip: seq<Byte>, uipLen: U16)
    requires Shape(p) && p.len <= |uip|
    ensures var (u, n) := Input(p, uip, uipLen);
            && |u| == |uip| && (uipLen > 0 ==> u == uip && n == uipLen)
            && (uipLen == 0 ==> n == |Data(p)| && u[..n] == Data(p) && u[n..] == uip[n..])
  {
  }

  /** Parsing a frame with the header create writes, on any node: it is taken exactly when its
      first byte is 33 or it is addressed to the node, and then sender and payload are back. */
  lemma ParseUndoesCreate(p: Pkt, dest: LinkAddr, src: LinkAddr, payload: seq<Byte>, node: LinkAddr)
    requires |p.buf| == HDR + SIZE && HEADER + |payload| <= SIZE
    ensures var (q, ok) := Parse(Receive(p, HeaderBytes(dest, src, PROT_IPV6) + payload), node);
            && Inv(q) && q.attrs.sender == src
            && (ok <==> Accepts(dest, node))
            && (ok ==> Data(q) == payload && q.attrs.receiver == if dest[0] == 0x33 then NULL_ADDR else node)
  {
    var h := HeaderBytes(dest, src, PROT_IPV6);
    var r := Receive(p, h + payload);
    TypeInNetworkOrder(dest, src, PROT_IPV6);
    assert r.buf[HDR..HDR + |h + payload|] == h + payload;
    assert r.buf[HDR..HDR + HEADER] == h by {
      assert r.buf[HDR..HDR + HEADER] == r.buf[HDR..HDR + |h + payload|][..HEADER];
    }
    assert r.buf[HDR + HEADER..HDR + HEADER + |payload|] == payload by {
      assert r.buf[HDR + HEADER..HDR + HEADER + |payload|] == r.buf[HDR..HDR + |h + payload|][HEADER..];
    }
  }

  /** From uip_buf to uip_buf: what one node outputs, another inputs, byte for byte and with the
      sender's address, when the frame is addressed to it or sent without a destination. */
  lemma PacketCrosses(p: Pkt, uip: seq<Byte>, uipLen: U16, localdest: Option<LinkAddr>, node: LinkAddr,
                      p2: Pkt, node2: LinkAddr, uip2: seq<Byte>)
    requires |p.buf| == HDR + SIZE && |p2.buf| == HDR + SIZE && |uip| >= DEST_AT + 16
    requires 0 < uipLen <= SIZE - HEADER && uipLen <= |uip| && uipLen <= |uip2|
    requires localdest.Some? ==> localdest.value == node2
    ensures var (q, sent) := Output(p, uip, uipLen, localdest, node);
            && sent && Inv(q) && q.hdr + TotLen(q) <= |q.buf| && |Wire(q)| <= SIZE
            && var (q2, taken) := Parse(Receive(p2, Wire(q)), node2);
               && taken && Inv(q2) && q2.attrs.sender == node
               && (localdest.None? ==> q2.attrs.receiver == NULL_ADDR)
               && q2.len <= |uip2|
               && var (u, n) := Input(q2, uip2, 0);
                  n == uipLen && u[..n] == uip[..uipLen] && u[n..] == uip2[n..]
  {
    FrameIffFits(p, uip, uipLen, localdest, node);
    ParseUndoesCreate(p2, ReceiverOf(uip, localdest), node, uip[..uipLen], node2);
  }

  /** Create leaves no multicast address behind: the receiver attribute after output is null. */
  lemma MulticastReceiverIsNull(p: Pkt, uip: seq<Byte>, uipLen: U16, node: LinkAddr)
    requires |p.buf| == HDR + SIZE && 0 < uipLen <= |uip| && |uip| >= DEST_AT + 16
    ensures Output(p, uip, uipLen, None, node).0.attrs.receiver == NULL_ADDR
  {
  }

  // ---------------------------------------------------------------- the receiver filter

  /** The rule the framer documents: IPv6 multicast frames start with 33-33. */
  predicate IsMulticast(dest: LinkAddr) {
    dest[0] == 0x33 && dest[1] == 0x33
  }

  /** The filter and the receiver it records follow that rule exactly for addresses that do not
      begin with 33 alone. */
  lemma FilterFollowsRuleIff(dest: LinkAddr, node: LinkAddr)
    ensures (Accepts(dest, node) <==> IsMulticast(dest) || dest == node) <==>
            !(dest[0] == 0x33 && dest[1] != 0x33 && dest != node)
    ensures (forall n: LinkAddr :: (Accepts(dest, n) <==> IsMulticast(dest) || dest == n)) <==>
            (dest[0] == 0x33 ==> dest[1] == 0x33)
  {
    if dest[0] == 0x33 && dest[1] != 0x33 {
      assert Accepts(dest, NULL_ADDR) && !IsMulticast(dest) && dest != NULL_ADDR;
    }
  }

  // ---------------------------------------------------------------- the C functions

  lemma HeaderWrittenFieldwise(buf: seq<Byte>, at: nat, dest: LinkAddr, src: LinkAddr, proto: U16)
    requires at + HEADER <= |buf|
    ensures var b0 := Put(buf, at, seq(HEADER, _ => 0));
            var b1 := Put(b0, at + 6, src);
            var b2 := Put(b1, at, dest);
            Put(b2, at + 12, Le16(Swap16(proto))) == Put(buf, at, HeaderBytes(dest, src, proto))
  {
    var b0 := Put(buf, at, seq(HEADER, _ => 0));
    var b1 := Put(b0, at + 6, src);
    var b2 := Put(b1, at, dest);
    assert b1 == buf[..at] + seq(6, _ => 0) + src + [0, 0] + buf[at + HEADER..];
    assert b2 == buf[..at] + dest + src + [0, 0] + buf[at + HEADER..];
  }

  /** create */
  method CreateFrame(pb: PacketBuffer) returns (ok: bool)
    requires pb.buf.Length == HDR + SIZE && pb.hdr <= HDR
    modifies pb`hdr, pb`attrs, pb.buf
    ensures (pb.View(), ok) == Create(old(pb.View()))
  {
    ok := pb.AllocHeader(HEADER);
    if ok {
      HeaderWrittenFieldwise(pb.buf[..], pb.hdr, pb.attrs.receiver, pb.attrs.sender, pb.attrs.ethProto);
      pb.Fill(pb.hdr, seq(HEADER, _ => 0));
      pb.Fill(pb.hdr + 6, pb.attrs.sender);
      pb.Fill(pb.hdr, pb.attrs.receiver);
      pb.Fill(pb.hdr + 12, Le16(Swap16(pb.attrs.ethProto)));
    }
    if pb.attrs.receiver[0] == 0x33 && pb.attrs.receiver[1] == 0x33 {
      pb.attrs := pb.attrs.(receiver := NULL_ADDR);
    }
  }

  /** parse */
  method ParseFrame(pb: PacketBuffer, node: LinkAddr) returns (ok: bool)
    requires Shape(pb.View())
    modifies pb`len, pb`ptr, pb`attrs
    ensures (pb.View(), ok) == Parse(old(pb.View()), node)
  {
    if pb.len < HEADER {
      return false;
    }
    var h: seq<Byte> := pb.buf[pb.hdr..pb.hdr + HEADER];
    var dest := AddrAt(h, 0);
    pb.attrs := pb.attrs.(sender := AddrAt(h, 6));
    if (dest[0] != 0x33 || dest[0] != 0x33) && dest != node {
      return false;
    }
    if dest[0] == 0x33 && dest[0] == 0x33 {
      pb.attrs := pb.attrs.(receiver := NULL_ADDR);
    } else {
      pb.attrs := pb.attrs.(receiver := node);
    }
    var format := Swap16(Load16(h, 12));
    if format == PROT_ARP || format == PROT_IP || format != PROT_IPV6 {
      return false;
    }
    ok := pb.ReduceHeader(HEADER);
  }

  /** output, with the MAC's create in place of its send. */
  method OutputPacket(pb: PacketBuffer, uip: seq<Byte>, uipLen: U16, localdest: Option<LinkAddr>, node: LinkAddr)
    returns (sent: bool)
    requires pb.buf.Length == HDR + SIZE && uipLen <= |uip| && |uip| >= DEST_AT + 16
    modifies pb, pb.buf
    ensures (pb.View(), sent) == Output(old(pb.View()), uip, uipLen, localdest, node)
  {
    if uipLen == 0 {
      return false;
    }
    pb.ClearAll();
    var l := pb.CopyIn(uip[..uipLen]);
    if (if l == 0 then 1 else 0) == uipLen {
      return false;
    }
    pb.len := uipLen;
    pb.attrs := pb.attrs.(sender := node);
    if localdest.Some? {
      pb.attrs := pb.attrs.(receiver := localdest.value);
    } else {
      pb.attrs := pb.attrs.(receiver := [0x33, 0x33, uip[36], uip[37], uip[38], uip[39]]);
      assert pb.attrs.receiver == MulticastAddr(uip);
    }
    pb.attrs := pb.attrs.(packetType := 0);
    pb.attrs := pb.attrs.(ethProto := PROT_IPV6);
    sent := CreateFrame(pb);
  }

  /** input */
  method InputPacket(pb: PacketBuffer, uip: array<Byte>, uipLen: U16) returns (n: nat)
    requires Shape(pb.View()) && pb.len <= uip.Length && uip != pb.buf
    modifies uip
    ensures (uip[..], n) == Input(pb.View(), old(uip[..]), uipLen)
  {
    if uipLen != 0 {
      return uipLen;
    }
    n := pb.len;
    var i := 0;
    while i < n
      invariant 0 <= i <= n == pb.len && HDR + pb.ptr + n <= pb.buf.Length
      invariant forall k :: 0 <= k < i ==> uip[k] == pb.buf[HDR + pb.ptr + k]
      invariant forall k :: i <= k < uip.Length ==> uip[k] == old(uip[k])
    {
      uip[i] := pb.buf[HDR + pb.ptr + i];
      i := i + 1;
    }
    assert uip[..n] == Data(pb.View());
    assert uip[n..] == old(uip[..])[n..];
    assert uip[..] == uip[..n] + uip[n..];
  }
}
