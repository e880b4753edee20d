/**
 packetbuf.c: one packet buffer in which the header grows down from offset 48 and the data lies
 behind it. Reading a header off the front of the data moves bufptr; compaction moves the data
 back.
 */
module PacketBuf {
  import opened Bytes

  /** PACKETBUF_SIZE as configured for Ethernet frames, PACKETBUF_HDR_SIZE */
  const SIZE: nat := 1536
  const HDR: nat := 48

  /** The attributes and addresses the Ethernet code uses, and all the others. */
  datatype Attrs = Attrs(packetType: U16, ethProto: U16, sender: LinkAddr, receiver: LinkAddr,
                         others: seq<U16>, otherAddrs: seq<LinkAddr>)

  /** The byte array with buflen, bufptr and hdrptr. */
  datatype Pkt = Pkt(buf: seq<Byte>, len: nat, ptr: nat, hdr: nat, attrs: Attrs)

  ghost predicate Shape(p: Pkt) {
    |p.buf| == HDR + SIZE && p.hdr <= HDR && p.ptr + p.len <= SIZE
  }

  /** Header and data stay within PACKETBUF_SIZE, the data within the array. */
  ghost predicate Inv(p: Pkt) {
    Shape(p) && HDR - p.hdr + p.len <= SIZE
  }

  function Header(p: Pkt): seq<Byte>
    requires Shape(p)
  {
    p.buf[p.hdr..HDR]
  }

  function Data(p: Pkt): seq<Byte>
    requires Shape(p)
  {
    p.buf[HDR + p.ptr..HDR + p.ptr + p.len]
  }

  /** The logical packet: header, then data. */
  function Flat(p: Pkt): seq<Byte>
    requires Shape(p)
  {
    Header(p) + Data(p)
  }

  lemma FlatAt(p: Pkt, i: nat)
    requires Shape(p) && i < |Flat(p)|
    ensures Flat(p)[i] == p.buf[if i < HDR - p.hdr then p.hdr + i else HDR + p.ptr + i - (HDR - p.hdr)]
  {
  }

  // ---------------------------------------------------------------- the operations

  /** packetbuf_attr_clear */
  function ClearedAttrs(a: Attrs): Attrs {
    Attrs(0, 0, NULL_ADDR, NULL_ADDR, seq(|a.others|, _ => 0), seq(|a.otherAddrs|, _ => NULL_ADDR))
  }

  function Clear(p: Pkt): Pkt {
    Pkt(p.buf, 0, 0, HDR, ClearedAttrs(p.attrs))
  }

  /** Bytes overwritten from offset `at` on. */
  function Put(buf: seq<Byte>, at: nat, bytes: seq<Byte>): (r: seq<Byte>)
    requires at + |bytes| <= |buf|
    ensures |r| == |buf| && r[at..at + |bytes|] == bytes
    ensures r[..at] == buf[..at] && r[at + |bytes|..] == buf[at + |bytes|..]
  {
    buf[..at] + bytes + buf[at + |bytes|..]
  }

  function CopyFrom(p: Pkt, from: seq<Byte>): (Pkt, nat)
    requires |p.buf| == HDR + SIZE
  {
    var l := if |from| > SIZE then SIZE else |from|;
    (Clear(p).(buf := Put(p.buf, HDR, from[..l]), len := l), l)
  }

  /** The array after the shifting loop of packetbuf_compact. */
  function Shifted(p: Pkt): seq<Byte>
    requires Shape(p)
  {
    Put(p.buf, HDR, Data(p))
  }

  lemma ShiftedAt(p: Pkt, b: seq<Byte>)
    requires Shape(p) && |b| == |p.buf|
    requires forall k :: 0 <= k < |b| && !(HDR <= k < HDR + p.len) ==> b[k] == p.buf[k]
    requires forall k :: HDR <= k < HDR + p.len ==> b[k] == p.buf[p.ptr + k]
    ensures b == Shifted(p)
  {
    assert b[HDR..HDR + p.len] == Data(p);
    assert b[..HDR] == p.buf[..HDR] && b[HDR + p.len..] == p.buf[HDR + p.len..];
    assert b == b[..HDR] + b[HDR..HDR + p.len] + b[HDR + p.len..];
  }

  function Compact(p: Pkt): Pkt
    requires Shape(p)
  {
    if p.ptr > 0 then p.(buf := Shifted(p), ptr := 0) else p
  }

  /** The bytes packetbuf_copyto writes and counts; none when the packet is too large. */
  function CopyTo(p: Pkt): seq<Byte>
    requires Shape(p)
  {
    if HDR - p.hdr + p.len > SIZE then [] else Flat(p)
  }

  /** packetbuf_hdrlen, a uint8_t */
  function HdrLen(p: Pkt): nat
    requires p.hdr <= HDR
  {
    if HDR - p.hdr != 0 then HDR - p.hdr else p.ptr % 256
  }

  /** packetbuf_totlen, a uint16_t */
  function TotLen(p: Pkt): nat
    requires p.hdr <= HDR
  {
    (HdrLen(p) + p.len) % 0x1_0000
  }

  function HdrAlloc(p: Pkt, size: nat): (Pkt, bool)
    requires p.hdr <= HDR
  {
    if p.hdr >= size && TotLen(p) + size <= SIZE then (p.(hdr := p.hdr - size), true) else (p, false)
  }

  function HdrReduce(p: Pkt, size: nat): (Pkt, bool) {
    if p.len < size then (p, false) else (p.(ptr := p.ptr + size, len := p.len - size), true)
  }

  /** What lies at packetbuf_hdrptr for packetbuf_totlen bytes. */
  function Wire(p: Pkt): seq<Byte>
    requires Shape(p) && p.hdr + TotLen(p) <= |p.buf|
  {
    p.buf[p.hdr..p.hdr + TotLen(p)]
  }

  // ---------------------------------------------------------------- what they keep and mean

  lemma CopyFromHolds(p: Pkt, from: seq<Byte>)
    requires |p.buf| == HDR + SIZE
    ensures var (p', l) := CopyFrom(p, from);
            Inv(p') && Flat(p') == from[..l] && (l == |from| <==> |from| <= SIZE)
  {
    var (p', l) := CopyFrom(p, from);
    assert Header(p') == [];
  }

  /** A cleared buffer holds an empty packet without header, and no attribute or address. */
  lemma ClearForgets(p: Pkt)
    requires |p.buf| == HDR + SIZE
    ensures var q := Clear(p);
            && Inv(q) && Flat(q) == [] && q.ptr == 0 && q.attrs.packetType == q.attrs.ethProto == 0
            && q.attrs.sender == q.attrs.receiver == [0, 0, 0, 0, 0, 0]
            && (forall i :: 0 <= i < |q.attrs.others| ==> q.attrs.others[i] == 0)
            && (forall i :: 0 <= i < |q.attrs.otherAddrs| ==> q.attrs.otherAddrs[i] == [0, 0, 0, 0, 0, 0])
  {
  }

  /** packetbuf_copyto writes the packet if it has at most PACKETBUF_SIZE bytes, and nothing of a
      longer one. */
  lemma CopyToFits(p: Pkt)
    requires Shape(p)
    ensures CopyTo(p) == if |Flat(p)| <= 1536 then Flat(p) else []
  {
  }

  /** What packetbuf_totlen counts beside the packet: before a header has been allocated, the
      bytes in front of the data, modulo 256. */
  function Miscounted(p: Pkt): nat {
    if p.hdr < HDR then 0 else p.ptr % 256
  }

  /** Allocating a header leaves the packet behind the new room, reducing takes bytes off the front
      of the data, and both refuse without a change. */
  lemma HeaderMoves(p: Pkt, size: nat)
    requires Inv(p)
    ensures var (q, ok) := HdrAlloc(p, size);
            Inv(q) && (!ok ==> q == p) &&
            (ok <==> size <= p.hdr && |Flat(p)| + Miscounted(p) + size <= SIZE) &&
            (ok ==> |Flat(q)| == |Flat(p)| + size && Flat(q)[size..] == Flat(p))
    ensures var (q, ok) := HdrReduce(p, size);
            Inv(q) && (ok <==> size <= |Data(p)|) && (!ok ==> q == p) &&
            (ok ==> Header(q) == Header(p) && Data(q) == Data(p)[size..])
  {
    HeaderGrows(p, size);
    HeaderComesOff(p, size);
  }

  lemma HeaderGrows(p: Pkt, size: nat)
    requires Inv(p)
    ensures var (q, ok) := HdrAlloc(p, size);
            && Inv(q) && (!ok ==> q == p)
            && (ok <==> size <= p.hdr && |Flat(p)| + Miscounted(p) + size <= SIZE)
            && (ok ==> |Flat(q)| == |Flat(p)| + size && Flat(q)[size..] == Flat(p))
  {
    var (q, ok) := HdrAlloc(p, size);
    if ok { HeaderGrown(p, q, size); }
  }

  lemma HeaderComesOff(p: Pkt, size: nat)
    requires Inv(p)
    ensures var (q, ok) := HdrReduce(p, size);
            && Inv(q) && (ok <==> size <= |Data(p)|) && (!ok ==> q == p)
            && (ok ==> Header(q) == Header(p) && Data(q) == Data(p)[size..])
  {
    if size <= p.len { DataCut(p, size); }
  }

  lemma DataCut(p: Pkt, size: nat)
    requires Shape(p) && size <= p.len
    ensures Data(p.(ptr := p.ptr + size, len := p.len - size)) == Data(p)[size..]
  {
  }

  lemma HeaderGrown(p: Pkt, q: Pkt, size: nat)
    requires Shape(p) && size <= p.hdr && q == p.(hdr := p.hdr - size)
    ensures |Flat(q)| == |Flat(p)| + size && Flat(q)[size..] == Flat(p)
  {
    assert Header(q)[size..] == Header(p);
    assert Flat(q)[size..] == Header(q)[size..] + Data(q);
  }

  /** The in-place compaction keeps header and data. */
  lemma CompactKeepsPacket(p: Pkt)
    requires Inv(p)
    ensures Inv(Compact(p)) && Compact(p).ptr == 0
    ensures Header(Compact(p)) == Header(p) && Data(Compact(p)) == Data(p) && Compact(p).attrs == p.attrs
  {
    var q := Compact(p);
    assert q.buf[..HDR] == p.buf[..HDR];
    assert Header(q) == q.buf[..HDR][p.hdr..];
    assert Header(p) == p.buf[..HDR][p.hdr..];
  }

  /** packetbuf_totlen is the length of the packet exactly when a header has been allocated, or
      the low byte of bufptr is zero. */
  lemma TotLenIsLengthIff(p: Pkt)
    requires Inv(p)
    ensures TotLen(p) == |Flat(p)| <==> p.hdr < HDR || p.ptr % 256 == 0
  {
  }

  /** Of an inbound packet bufptr is the header's length: packetbuf_totlen counts the bytes from the
      start of the frame exactly when that length fits in one byte. */
  lemma InboundLengthIff(p: Pkt)
    requires Inv(p) && p.hdr == HDR
    ensures TotLen(p) == |p.buf[HDR..HDR + p.ptr + p.len]| <==> p.ptr < 256
  {
  }

  /** With the data not moved, the packet lies in one piece at hdrptr. */
  lemma WireIsPacket(p: Pkt)
    requires Inv(p) && p.ptr == 0
    ensures p.hdr + TotLen(p) <= |p.buf| && Wire(p) == Flat(p)
  {
    assert TotLen(p) == HDR - p.hdr + p.len;
    assert p.buf[p.hdr..HDR + p.len] == p.buf[p.hdr..HDR] + p.buf[HDR..HDR + p.len];
  }

  /** Copying a packet out and in again gives the same bytes, as data behind an empty header. */
  lemma CopyOutAndIn(p: Pkt, q: Pkt)
    requires Inv(p) && |q.buf| == HDR + SIZE
    ensures CopyTo(p) == Flat(p)
    ensures var q' := CopyFrom(q, CopyTo(p)).0.(attrs := p.attrs);
            Inv(q') && Flat(q') == Flat(p) && q'.attrs == p.attrs && Header(q') == []
  {
    CopyFromHolds(q, CopyTo(p));
    assert Flat(p)[..|Flat(p)|] == Flat(p);
  }

  // ---------------------------------------------------------------- the C object

  class PacketBuffer {
    const buf: array<Byte>
    var len: nat
    var ptr: nat
    var hdr: nat
    var attrs: Attrs

    ghost function View(): Pkt
      reads this, buf
    {
      Pkt(buf[..], len, ptr, hdr, attrs)
    }

    constructor (b: array<Byte>, a: Attrs)
      requires b.Length == HDR + SIZE
      ensures buf == b && View() == Clear(Pkt(b[..], 0, 0, HDR, a))
      ensures Inv(View())
    {
      buf, len, ptr, hdr := b, 0, 0, HDR;
      attrs := ClearedAttrs(a);
    }

    /** packetbuf_clear */
    method ClearAll()
      modifies this
      ensures View() == Clear(old(View()))
    {
      len, ptr, hdr := 0, 0, HDR;
      attrs := ClearedAttrs(attrs);
    }

    /** memcpy into the buffer. */
    method Fill(at: nat, bytes: seq<Byte>)
      requires at + |bytes| <= buf.Length
      modifies buf
      ensures buf[..] == Put(old(buf[..]), at, bytes)
    {
      var i := 0;
      while i < |bytes|
        invariant 0 <= i <= |bytes|
        invariant forall k :: 0 <= k < buf.Length && !(at <= k < at + i) ==> buf[k] == old(buf[k])
        invariant forall k :: at <= k < at + i ==> buf[k] == bytes[k - at]
      {
        buf[at + i] := bytes[i];
        i := i + 1;
      }
      assert buf[at..at + |bytes|] == bytes;
      assert buf[..] == buf[..at] + buf[at..at + |bytes|] + buf[at + |bytes|..];
    }

    /** packetbuf_copyfrom */
    method CopyIn(from: seq<Byte>) returns (l: nat)
      requires buf.Length == HDR + SIZE
      modifies this, buf
      ensures (View(), l) == CopyFrom(old(View()), from)
      ensures Inv(View())
    {
      CopyFromHolds(View(), from);
      ClearAll();
      l := if |from| > SIZE then SIZE else |from|;
      Fill(HDR, from[..l]);
      len := l;
    }

    /** The shifting loop of packetbuf_compact, in place: source and target overlap. */
    method ShiftData()
      requires Shape(View())
      modifies buf
      ensures buf[..] == Shifted(old(View()))
    {
      ghost var p := View();
      var end := len + HDR;
      var i := HDR;
      while i < end
        invariant HDR <= i <= end
        invariant forall k :: 0 <= k < buf.Length && !(HDR <= k < i) ==> buf[k] == p.buf[k]
        invariant forall k :: HDR <= k < i ==> buf[k] == p.buf[ptr + k]
      {
        buf[i] := buf[ptr + i];
        i := i + 1;
      }
      ShiftedAt(p, buf[..]);
    }

    /** packetbuf_compact */
    method CompactInPlace()
      requires Inv(View())
      modifies this`ptr, buf
      ensures View() == Compact(old(View()))
      ensures Inv(View()) && Flat(View()) == old(Flat(View()))
    {
      CompactKeepsPacket(View());
      if ptr > 0 {
        ShiftData();
        ptr := 0;
      }
    }

    /** packetbuf_copyto */
    method CopyOut(to: array<Byte>) returns (n: nat)
      requires Shape(View()) && to != buf && to.Length >= SIZE
      modifies to
      ensures n == |CopyTo(View())| && to[..n] == CopyTo(View())
      ensures to[n..] == old(to[n..])
    {
      if HDR - hdr + len > SIZE {
        return 0;
      }
      n := HDR - hdr + len;
      ghost var f := Flat(View());
      var i := 0;
      while i < n
        invariant 0 <= i <= n == |f| && n <= SIZE
        invariant forall k :: 0 <= k < i ==> to[k] == f[k]
        invariant forall k :: i <= k < to.Length ==> to[k] == old(to[k])
      {
        FlatAt(View(), i);
        to[i] := if i < HDR - hdr then buf[hdr + i] else buf[HDR + ptr + i - (HDR - hdr)];
        i := i + 1;
      }
    }

    /** packetbuf_hdralloc */
    method AllocHeader(size: nat) returns (ok: bool)
      requires hdr <= HDR
      modifies this`hdr
      ensures (View(), ok) == HdrAlloc(old(View()), size)
    {
      var h := if HDR - hdr != 0 then HDR - hdr else ptr % 256;
      var total := (h + len) % 0x1_0000;
      if hdr >= size && total + size <= SIZE {
        hdr := hdr - size;
        return true;
      }
      return false;
    }

    /** packetbuf_hdrreduce */
    method ReduceHeader(size: nat) returns (ok: bool)
      modifies this`len, this`ptr
      ensures (View(), ok) == HdrReduce(old(View()), size)
    {
      if len < size {
        return false;
      }
      ptr := ptr + size;
      len := len - size;
      return true;
    }
  }
}
