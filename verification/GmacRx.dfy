/**
 Receive half of gmac_raw.c. The controller fills a circular list of N descriptors, each with a
 128-byte buffer, and sets the ownership bit of the ones it has filled; gmac_dev_read gathers
 the buffers of one frame and gives the descriptors back.
 */
module GmacRx {
  import opened Bytes
  import opened Circular

  /** GMAC_RX_UNITSIZE */
  const UNIT: nat := 128

  /** The two descriptor words taken apart, and the buffer the address field points to.
      `len` is status & GMAC_RXD_LEN_MASK. */
  datatype RawDesc = RawDesc(owned: bool, wrap: bool, sof: bool, eof: bool, len: nat, buf: seq<Byte>)

  type RxDesc = d: RawDesc | |d.buf| == UNIT && d.len < 0x1000
    witness RawDesc(false, false, false, false, 0, seq(UNIT, _ => 0))

  datatype Status = Ok | Param | RxError | NoData | SizeTooSmall

  /** What one call does, in offsets from us_rx_idx: `released` descriptors are given back,
      `start` is where the last started frame begins and `srcs` are the descriptors whose
      buffers were copied for it, in order. */
  datatype Outcome = Outcome(status: Status, rcvSize: nat, released: nat, frame: seq<Byte>, start: nat, srcs: seq<nat>)

  // ---------------------------------------------------------------- circular indices

  /** The list read once around from `base`. */
  function Turn<T>(d: seq<T>, base: nat): (t: seq<T>)
    requires base < |d|
    ensures |t| == |d|
  {
    d[base..] + d[..base]
  }

  lemma TurnAt<T>(d: seq<T>, base: nat)
    requires base < |d|
    ensures forall k :: 0 <= k < |d| ==> Turn(d, base)[k] == d[At(base, k, |d|)]
  {
  }

  lemma TurnUpdate<T>(d: seq<T>, base: nat, k: nat, v: T)
    requires base < |d| && k < |d|
    ensures Turn(d[At(base, k, |d|) := v], base) == Turn(d, base)[k := v]
  {
    TurnAt(d, base);
    TurnAt(d[At(base, k, |d|) := v], base);
  }

  /** The descriptor with its ownership bit cleared. */
  function Freed(d: RxDesc): RxDesc {
    d.(owned := false)
  }

  /** The first n descriptors given back to the controller, the others untouched. */
  function Release(t: seq<RxDesc>, n: nat): (r: seq<RxDesc>)
    requires n <= |t|
    ensures |r| == |t|
    decreases n
  {
    if n == 0 then t else Release(t, n - 1)[n - 1 := Freed(t[n - 1])]
  }

  lemma {:induction false} ReleaseAt(t: seq<RxDesc>, n: nat)
    requires n <= |t|
    ensures forall i :: 0 <= i < n ==> Release(t, n)[i] == Freed(t[i])
    ensures forall i :: n <= i < |t| ==> Release(t, n)[i] == t[i]
    decreases n
  {
    if n > 0 { ReleaseAt(t, n - 1); }
  }

  /** The list as read after n descriptors have been given back. */
  function MovedOn(t: seq<RxDesc>, n: nat): (r: seq<RxDesc>)
    requires n <= |t| && t != []
    ensures |r| == |t|
  {
    Turn(Release(t, n), At(0, n, |t|))
  }

  /** Reading on from a place k further along. */
  lemma TurnTwice<T>(d: seq<T>, base: nat, k: nat)
    requires base < |d| && k < |d|
    ensures Turn(Turn(d, base), k) == Turn(d, At(base, k, |d|))
  {
    var t, m := Turn(d, base), |d| - base;
    if k < m {
      assert t[k..] == d[base + k..] + d[..base] && t[..k] == d[base..base + k];
      assert d[..base + k] == d[..base] + d[base..base + k];
    } else {
      assert t[k..] == d[k - m..base] && t[..k] == d[base..] + d[..k - m];
      assert d[k - m..] == d[k - m..base] + d[base..];
    }
  }

  function Range(lo: nat, hi: nat): (r: seq<nat>)
    requires lo <= hi
    ensures |r| == hi - lo
    ensures forall i :: 0 <= i < |r| ==> r[i] == lo + i
  {
    seq(hi - lo, i requires 0 <= i < hi - lo => lo + i)
  }

  // ---------------------------------------------------------------- the gathering loop

  /** memcpy into the frame buffer at `at`, clipped to the room that is left. */
  function CopyChunk(frame: seq<Byte>, at: nat, buf: seq<Byte>): (r: (seq<Byte>, nat))
    requires at <= |frame|
    ensures |r.0| == |frame| && at <= r.1 <= |frame|
    ensures r.1 == if at + |buf| > |frame| then |frame| else at + |buf|
  {
    var n := if at + |buf| > |frame| then |frame| - at else |buf|;
    (frame[..at] + buf[..n] + frame[at + n..], at + n)
  }

  /** What one turn of the outer loop decides: to return, or to go on with descriptor `k`.
      `s` descriptors have been given back; `open` is c_is_frame and `copied` tmp_ul_frame_size. */
  datatype Look =
    | Stop(o: Outcome)
    | Go(frame: seq<Byte>, s: nat, k: nat, open: bool, srcs: seq<nat>, copied: nat)

  /** One turn at the owned descriptor `k` of the list read once around from us_rx_idx. After the
      discard loop the descriptor pointer is left on the last one discarded, k - 1. */
  function LookAt(t: seq<RxDesc>, frame: seq<Byte>, s: nat, k: nat, open: bool, srcs: seq<nat>, copied: nat): (r: Look)
    requires s <= k < |t| && copied <= |frame|
    ensures r.Stop? ==> |r.o.frame| == |frame|
    ensures r.Go? ==> r.s <= r.k == k + 1 && r.copied <= |r.frame| == |frame|
  {
    if !open && !t[k].sof then Go(frame, k + 1, k + 1, false, [], 0)
    else
      var td := if t[k].sof && s < k then k - 1 else k;
      var (s', srcs', copied') := if t[k].sof then (k, [], 0) else (s, srcs, copied);
      if s' == 0 && k + 1 == |t| then Stop(Outcome(RxError, 0, |t|, frame, 0, srcs'))
      else
        var (f, c) := CopyChunk(frame, copied', t[td].buf);
        if t[td].eof then
          Stop(Outcome(if c < t[td].len then SizeTooSmall else Ok, t[td].len, k + 1, f, s', srcs' + [td]))
        else Go(f, s', k + 1, true, srcs' + [td], c)
  }

  /** The outer loop of gmac_dev_read from descriptor `k` on. */
  function Gather(t: seq<RxDesc>, frame: seq<Byte>, s: nat, k: nat, open: bool, srcs: seq<nat>,
                  copied: nat): (o: Outcome)
    requires s <= k <= |t| && copied <= |frame|
    ensures |o.frame| == |frame|
    decreases |t| - k
  {
    if k == |t| || !t[k].owned then Outcome(NoData, 0, s, frame, s, srcs)
    else
      match LookAt(t, frame, s, k, open, srcs, copied)
      case Stop(o) => o
      case Go(f, s', k', open', srcs', c) => Gather(t, f, s', k', open', srcs', c)
  }

  function Read(t: seq<RxDesc>, frame: seq<Byte>): (o: Outcome)
    ensures |o.frame| == |frame|
  {
    Gather(t, frame, 0, 0, false, [], 0)
  }

  // ---------------------------------------------------------------- shapes of the list

  ghost predicate Owned(t: seq<RxDesc>, lo: nat, hi: nat) {
    hi <= |t| && forall i :: lo <= i < hi ==> t[i].owned
  }

  ghost predicate NoSof(t: seq<RxDesc>, lo: nat, hi: nat) {
    hi <= |t| && forall i :: lo <= i < hi ==> !t[i].sof
  }

  ghost predicate NoEof(t: seq<RxDesc>, lo: nat, hi: nat) {
    hi <= |t| && forall i :: lo <= i < hi ==> !t[i].eof
  }

  /** Descriptors lo..hi hold the beginning of one frame. */
  ghost predicate Beginning(t: seq<RxDesc>, lo: nat, hi: nat) {
    lo < hi && Owned(t, lo, hi) && t[lo].sof && NoSof(t, lo + 1, hi) && NoEof(t, lo, hi)
  }

  /** Descriptors lo..hi hold exactly one whole frame. */
  ghost predicate WholeFrame(t: seq<RxDesc>, lo: nat, hi: nat) {
    && lo < hi && Owned(t, lo, hi) && t[lo].sof && NoSof(t, lo + 1, hi)
    && NoEof(t, lo, hi - 1) && t[hi - 1].eof
  }

  /** Descriptors lo..hi complete a frame that has begun. */
  ghost predicate Ending(t: seq<RxDesc>, lo: nat, hi: nat) {
    lo < hi && Owned(t, lo, hi) && NoSof(t, lo, hi) && NoEof(t, lo, hi - 1) && t[hi - 1].eof
  }

  /** t2 is what the driver finds later, after giving n descriptors of t back: the controller writes
      only descriptors it owns. */
  ghost predicate Refilled(t: seq<RxDesc>, n: nat, t2: seq<RxDesc>)
    requires n <= |t| && t != []
  {
    |t2| == |t| && forall i :: 0 <= i < |t| && MovedOn(t, n)[i].owned ==> t2[i] == MovedOn(t, n)[i]
  }

  /** A new frame starts before the open one has ended: the guard of the discard loop. */
  ghost predicate Cut(t: seq<RxDesc>) {
    exists j, c :: CutAt(t, j, c)
  }

  ghost predicate CutAt(t: seq<RxDesc>, j: int, c: int) {
    && 0 <= j < c < |t| && Owned(t, 0, c + 1)
    && NoSof(t, 0, j) && t[j].sof && t[c].sof && NoEof(t, j, c)
  }

  /** The buffers of descriptors lo..hi end to end. */
  function Cat(t: seq<RxDesc>, lo: nat, hi: nat): (b: seq<Byte>)
    requires lo <= hi <= |t|
    ensures |b| == UNIT * (hi - lo)
    decreases hi - lo
  {
    if lo == hi then [] else Cat(t, lo, hi - 1) + t[hi - 1].buf
  }

  function Min(a: nat, b: nat): nat { if a < b then a else b }

  // ---------------------------------------------------------------- how the loop advances

  lemma {:induction false} SkipsFragments(t: seq<RxDesc>, frame: seq<Byte>, k: nat, j: nat)
    requires k <= j <= |t| && Owned(t, k, j) && NoSof(t, k, j)
    ensures Gather(t, frame, k, k, false, [], 0) == Gather(t, frame, j, j, false, [], 0)
    decreases j - k
  {
    if k < j { SkipsFragments(t, frame, k + 1, j); }
  }

  /** The frame buffer holds the first bytes of the gathered descriptors over `old` contents. */
  ghost predicate Laid(frame0: seq<Byte>, frame: seq<Byte>, bytes: seq<Byte>, copied: nat) {
    && |frame| == |frame0|
    && copied == Min(|bytes|, |frame0|)
    && frame == bytes[..copied] + frame0[copied..]
  }

  lemma LaysNextChunk(frame0: seq<Byte>, frame: seq<Byte>, bytes: seq<Byte>, copied: nat, buf: seq<Byte>)
    requires Laid(frame0, frame, bytes, copied)
    ensures var (f, c) := CopyChunk(frame, copied, buf); Laid(frame0, f, bytes + buf, c)
  {
    var (f, c) := CopyChunk(frame, copied, buf);
    if |frame0| <= |bytes| {
      assert f == frame && (bytes + buf)[..c] == bytes[..copied];
    } else {
      var n := c - copied;
      assert frame[..copied] == bytes && frame[copied + n..] == frame0[c..];
      assert (bytes + buf)[..c] == bytes + buf[..n];
    }
  }

  /** Inside a frame the loop copies descriptor after descriptor. */
  lemma {:induction false} Gathers(t: seq<RxDesc>, frame0: seq<Byte>, frame: seq<Byte>, s: nat, k: nat,
                                  srcs: seq<nat>, copied: nat, e: nat)
    returns (f: seq<Byte>, c: nat)
    requires s < k <= e <= |t| && copied <= |frame|
    requires Owned(t, k, e) && NoSof(t, k, e) && NoEof(t, k, e) && (s == 0 ==> e < |t|)
    requires Laid(frame0, frame, Cat(t, s, k), copied) && srcs == Range(s, k)
    ensures c <= |f| && Laid(frame0, f, Cat(t, s, e), c)
    ensures Gather(t, frame, s, k, true, srcs, copied) == Gather(t, f, s, e, true, Range(s, e), c)
    decreases e - k
  {
    hide Gather, Laid, CopyChunk, Range;
    if k == e {
      f, c := frame, copied;
    } else {
      LaysNextChunk(frame0, frame, Cat(t, s, k), copied, t[k].buf);
      var (f1, c1) := CopyChunk(frame, copied, t[k].buf);
      GathersOne(t, frame, s, k, srcs, copied);
      f, c := Gathers(t, frame0, f1, s, k + 1, Range(s, k + 1), c1, e);
    }
  }

  lemma GathersOne(t: seq<RxDesc>, frame: seq<Byte>, s: nat, k: nat, srcs: seq<nat>, copied: nat)
    requires s < k < |t| && copied <= |frame| && t[k].owned && !t[k].sof && !t[k].eof
    requires (s == 0 ==> k + 1 < |t|) && srcs == Range(s, k)
    ensures var (f, c) := CopyChunk(frame, copied, t[k].buf);
            && LookAt(t, frame, s, k, true, srcs, copied) == Go(f, s, k + 1, true, Range(s, k + 1), c)
            && Gather(t, frame, s, k, true, srcs, copied) == Gather(t, f, s, k + 1, true, Range(s, k + 1), c)
  {
    assert Range(s, k) + [k] == Range(s, k + 1);
  }

  /** Reaching the end of a beginning that starts at j: the loop stands at e with everything in
      between gathered once. */
  lemma OpensFrame(t: seq<RxDesc>, frame: seq<Byte>, j: nat, e: nat)
    returns (f: seq<Byte>, c: nat)
    requires Owned(t, 0, j) && NoSof(t, 0, j) && Beginning(t, j, e) && (j == 0 ==> e < |t|)
    ensures c <= |f| && Laid(frame, f, Cat(t, j, e), c)
    ensures Read(t, frame) == Gather(t, f, j, e, true, Range(j, e), c)
  {
    SkipsFragments(t, frame, 0, j);
    assert Laid(frame, frame, [], 0);
    LaysNextChunk(frame, frame, [], 0, t[j].buf);
    var (f1, c1) := CopyChunk(frame, 0, t[j].buf);
    assert Cat(t, j, j) == [] && Cat(t, j, j + 1) == [] + t[j].buf;
    OpensOne(t, frame, j);
    f, c := Gathers(t, frame, f1, j, j + 1, Range(j, j + 1), c1, e);
  }

  // ---------------------------------------------------------------- what a call delivers

  /** The outcome of a call that reports the frame of k descriptors at offset j: its length, its
      bytes and nothing else in the frame buffer, and exactly j + k descriptors given back. */
  ghost predicate Delivered(o: Outcome, t: seq<RxDesc>, frame: seq<Byte>, j: nat, k: nat)
    requires 0 < k && j + k <= |t|
  {
    var L := t[j + k - 1].len;
    var room := Min(UNIT * k, |frame|);
    && o.rcvSize == L && o.released == j + k && o.start == j && o.srcs == Range(j, j + k)
    && o.status == (if L <= room then Ok else SizeTooSmall)
    && o.frame == Cat(t, j, j + k)[..room] + frame[room..]
    && (L <= room ==> o.frame[..L] == Cat(t, j, j + k)[..L])
  }

  /** j stray fragments are skipped and the whole frame behind them is delivered. */
  lemma DeliversFrame(t: seq<RxDesc>, frame: seq<Byte>, j: nat, k: nat)
    requires Owned(t, 0, j) && NoSof(t, 0, j) && WholeFrame(t, j, j + k) && k < |t|
    ensures Delivered(Read(t, frame), t, frame, j, k)
  {
    var e := j + k - 1;
    if k == 1 {
      SkipsFragments(t, frame, 0, j);
      assert Laid(frame, frame, [], 0);
      assert Cat(t, j, j) == [] && Range(j, j) == [];
      EndsFrame(t, frame, frame, j, e, false, 0);
    } else {
      var f, c := OpensFrame(t, frame, j, e);
      EndsFrame(t, frame, f, j, e, true, c);
    }
  }

  /** The last descriptor of a frame, once the loop stands on it. */
  lemma EndsFrame(t: seq<RxDesc>, frame: seq<Byte>, f: seq<Byte>, j: nat, e: nat, open: bool, c: nat)
    requires j <= e < |t| && c <= |f| && Laid(frame, f, Cat(t, j, e), c)
    requires t[e].owned && t[e].eof && (if open then j < e && !t[e].sof else j == e && t[e].sof && c == 0)
    requires j > 0 || e + 1 < |t|
    ensures Delivered(Gather(t, f, j, e, open, Range(j, e), c), t, frame, j, e + 1 - j)
  {
    LaysNextChunk(frame, f, Cat(t, j, e), c, t[e].buf);
    assert Range(j, e) + [e] == Range(j, e + 1);
  }

  /** Only the beginning of a frame has arrived: no data, its descriptors are still owned by the
      driver and us_rx_idx now stands on its first one. */
  lemma KeepsBeginning(t: seq<RxDesc>, frame: seq<Byte>, j: nat, e: nat)
    requires Owned(t, 0, j) && NoSof(t, 0, j) && Beginning(t, j, e)
    requires if e == |t| then j > 0 else !t[e].owned
    ensures var o := Read(t, frame);
            && o.status == NoData && o.rcvSize == 0 && o.released == j && o.srcs == Range(j, e)
            && MovedOn(t, j)[..e - j] == t[j..e]
  {
    var f, c := OpensFrame(t, frame, j, e);
    LeftOver(t, j, e);
  }

  /** Reading on from where the index has moved to, the first descriptors are those kept. */
  lemma LeftOver(t: seq<RxDesc>, j: nat, e: nat)
    requires j < e <= |t|
    ensures MovedOn(t, j)[..e - j] == t[j..e]
  {
    hide Release;
    ReleaseAt(t, j);
    var r := Release(t, j);
    assert Turn(r, j)[..e - j] == r[j..e];
    assert r[j..e] == t[j..e];
  }

  /** The call after that delivers the frame whole, once the controller has added the rest. */
  lemma LaterCallDelivers(t: seq<RxDesc>, frame: seq<Byte>, j: nat, e: nat, t2: seq<RxDesc>, k: nat, frame2: seq<Byte>)
    requires Owned(t, 0, j) && NoSof(t, 0, j) && Beginning(t, j, e)
    requires if e == |t| then j > 0 else !t[e].owned
    requires var o := Read(t, frame); o.released <= |t| && Refilled(t, o.released, t2)
    requires e - j < k < |t| && Ending(t2, e - j, k)
    ensures Delivered(Read(t2, frame2), t2, frame2, 0, k)
    ensures Cat(t2, 0, e - j) == Cat(t, j, e)
  {
    hide Read, Delivered, MovedOn;
    KeepsBeginning(t, frame, j, e);
    KeptPart(t, t2, j, e);
    CatShift(t, t2, j, e - j);
    BecomesWhole(t, t2, j, e, k);
    DeliversFromStart(t2, frame2, k);
  }

  lemma DeliversFromStart(t: seq<RxDesc>, frame: seq<Byte>, k: nat)
    requires WholeFrame(t, 0, k) && k < |t|
    ensures Delivered(Read(t, frame), t, frame, 0, k)
  {
    DeliversFrame(t, frame, 0, k);
  }

  lemma KeptPart(t: seq<RxDesc>, t2: seq<RxDesc>, j: nat, e: nat)
    requires j < e <= |t| && Owned(t, j, e) && Refilled(t, j, t2)
    ensures forall i :: 0 <= i < e - j ==> t2[i] == t[j + i]
  {
    var left := MovedOn(t, j);
    LeftOver(t, j, e);
    forall i | 0 <= i < e - j ensures t2[i] == t[j + i] {
      assert left[..e - j][i] == t[j..e][i];
    }
  }

  lemma BecomesWhole(t: seq<RxDesc>, t2: seq<RxDesc>, j: nat, e: nat, k: nat)
    requires Beginning(t, j, e) && e - j < k <= |t2| && Ending(t2, e - j, k)
    requires forall i :: 0 <= i < e - j ==> t2[i] == t[j + i]
    ensures WholeFrame(t2, 0, k)
  {
    assert t2[0] == t[j + 0];
    forall i | 0 <= i < e - j ensures t2[i].owned && !t2[i].eof && (i > 0 ==> !t2[i].sof) {
      assert t2[i] == t[j + i];
    }
  }

  lemma {:induction false} CatShift(t: seq<RxDesc>, t2: seq<RxDesc>, j: nat, n: nat)
    requires j + n <= |t| && n <= |t2|
    requires forall i :: 0 <= i < n ==> t2[i] == t[j + i]
    ensures Cat(t2, 0, n) == Cat(t, j, j + n)
  {
    if n > 0 { CatShift(t, t2, j, n - 1); }
  }

  /** No frame has started: every owned descriptor is given back. */
  lemma DropsFragments(t: seq<RxDesc>, frame: seq<Byte>, m: nat)
    requires Owned(t, 0, m) && NoSof(t, 0, m) && (m < |t| ==> !t[m].owned)
    ensures Read(t, frame) == Outcome(NoData, 0, m, frame, m, [])
  {
    SkipsFragments(t, frame, 0, m);
  }

  /** The whole list in use by one frame that has not ended before its last descriptor. */
  ghost predicate FullTurn(t: seq<RxDesc>) {
    && 1 <= |t| && Owned(t, 0, |t|) && t[0].sof && NoSof(t, 1, |t|) && NoEof(t, 0, |t| - 1)
  }

  lemma FullTurnIsError(t: seq<RxDesc>, frame: seq<Byte>)
    requires FullTurn(t)
    ensures Read(t, frame).status == RxError && Read(t, frame).released == |t| && Read(t, frame).rcvSize == 0
  {
    if |t| > 1 {
      var f, c := OpensFrame(t, frame, 0, |t| - 1);
    }
  }

  /** What is given back is a prefix of owned descriptors, a frame that is reported starts inside
      it, and without a report it ends where the open frame, if any, starts. */
  ghost predicate GivenBack(t: seq<RxDesc>, o: Outcome, s: nat) {
    && s <= o.released <= |t| && Owned(t, 0, o.released)
    && match o.status
       case NoData => o.start == o.released
       case Ok | SizeTooSmall => o.start < o.released && t[o.start].sof
       case RxError => o.released == |t|
       case Param => false
  }

  /** For every list. */
  lemma GivesBackAPrefix(t: seq<RxDesc>, frame: seq<Byte>)
    ensures GivenBack(t, Read(t, frame), 0)
  {
    GivesBackFrom(t, frame, 0, 0, false, [], 0);
  }

  lemma {:induction false} GivesBackFrom(t: seq<RxDesc>, frame: seq<Byte>, s: nat, k: nat, open: bool,
                                        srcs: seq<nat>, copied: nat)
    requires s <= k <= |t| && copied <= |frame| && Owned(t, 0, k)
    requires open ==> s < k && t[s].sof
    ensures GivenBack(t, Gather(t, frame, s, k, open, srcs, copied), s)
    decreases |t| - k
  {
    if k < |t| && t[k].owned {
      LooksAhead(t, frame, s, k, open, srcs, copied);
      match LookAt(t, frame, s, k, open, srcs, copied)
      case Stop(o) =>
      case Go(f, s', k', open', srcs', c) => GivesBackFrom(t, f, s', k', open', srcs', c);
    }
  }

  lemma LooksAhead(t: seq<RxDesc>, frame: seq<Byte>, s: nat, k: nat, open: bool, srcs: seq<nat>, copied: nat)
    requires s <= k < |t| && copied <= |frame| && Owned(t, 0, k) && t[k].owned
    requires open ==> s < k && t[s].sof
    ensures match LookAt(t, frame, s, k, open, srcs, copied)
            case Stop(o) => GivenBack(t, o, s)
            case Go(f, s', k', open', srcs', c) =>
              s <= s' <= k' == k + 1 && Owned(t, 0, k') && (open' ==> s' < k' && t[s'].sof)
  {
  }

  // ---------------------------------------------------------------- what is copied, for every list

  ghost predicate Within(srcs: seq<nat>, n: nat) {
    forall i :: 0 <= i < |srcs| ==> srcs[i] < n
  }

  /** The buffers of these descriptors end to end. */
  function Bufs(t: seq<RxDesc>, srcs: seq<nat>): (b: seq<Byte>)
    requires Within(srcs, |t|)
    ensures |b| == UNIT * |srcs|
  {
    if srcs == [] then [] else Bufs(t, srcs[..|srcs| - 1]) + t[srcs[|srcs| - 1]].buf
  }

  /** The frame buffer begins with the buffers copied, as far as they fit. */
  ghost predicate CopiedSoFar(t: seq<RxDesc>, frame: seq<Byte>, srcs: seq<nat>, copied: nat) {
    && Within(srcs, |t|) && copied == Min(|Bufs(t, srcs)|, |frame|)
    && frame[..copied] == Bufs(t, srcs)[..copied]
  }

  /** A frame is reported with the length and at the end mark of the last buffer copied. */
  ghost predicate ReportsCopied(t: seq<RxDesc>, o: Outcome) {
    var c := Min(UNIT * |o.srcs|, |o.frame|);
    && CopiedSoFar(t, o.frame, o.srcs, c)
    && (o.status in {Ok, SizeTooSmall} ==>
          && o.srcs != []
          && var last := t[o.srcs[|o.srcs| - 1]];
             last.eof && o.rcvSize == last.len && (o.status == Ok <==> last.len <= c))
    && (o.status in {NoData, RxError} ==> o.rcvSize == 0)
    && o.status != Param
  }

  /** For every list, cut frames included. */
  lemma ReportsWhatItCopied(t: seq<RxDesc>, frame: seq<Byte>)
    ensures ReportsCopied(t, Read(t, frame))
  {
    NothingCopied(t, frame);
    GathersCopied(t, frame, 0, 0, false, [], 0);
  }

  lemma {:induction false} GathersCopied(t: seq<RxDesc>, frame: seq<Byte>, s: nat, k: nat, open: bool,
                                         srcs: seq<nat>, copied: nat)
    requires s <= k <= |t| && copied <= |frame| && CopiedSoFar(t, frame, srcs, copied)
    ensures ReportsCopied(t, Gather(t, frame, s, k, open, srcs, copied))
    decreases |t| - k
  {
    hide CopiedSoFar, ReportsCopied, Gather;
    if k == |t| || !t[k].owned {
      WaitsCopied(t, frame, s, k, open, srcs, copied);
    } else {
      LooksCopied(t, frame, s, k, open, srcs, copied);
      GatherTurn(t, frame, s, k, open, srcs, copied);
      match LookAt(t, frame, s, k, open, srcs, copied)
      case Stop(o) =>
      case Go(f, s', k', open', srcs', c) => GathersCopied(t, f, s', k', open', srcs', c);
    }
  }

  lemma GatherTurn(t: seq<RxDesc>, frame: seq<Byte>, s: nat, k: nat, open: bool, srcs: seq<nat>, copied: nat)
    requires s <= k < |t| && copied <= |frame| && t[k].owned
    ensures Gather(t, frame, s, k, open, srcs, copied) ==
            match LookAt(t, frame, s, k, open, srcs, copied)
            case Stop(o) => o
            case Go(f, s', k', open', srcs', c) => Gather(t, f, s', k', open', srcs', c)
  {
  }

  lemma WaitsCopied(t: seq<RxDesc>, frame: seq<Byte>, s: nat, k: nat, open: bool, srcs: seq<nat>, copied: nat)
    requires s <= k <= |t| && copied <= |frame| && CopiedSoFar(t, frame, srcs, copied) && (k == |t| || !t[k].owned)
    ensures ReportsCopied(t, Gather(t, frame, s, k, open, srcs, copied))
  {
  }

  lemma CopiesNext(t: seq<RxDesc>, frame: seq<Byte>, srcs: seq<nat>, copied: nat, d: nat)
    requires copied <= |frame| && CopiedSoFar(t, frame, srcs, copied) && d < |t|
    ensures var (f, c) := CopyChunk(frame, copied, t[d].buf); CopiedSoFar(t, f, srcs + [d], c)
  {
    var b := Bufs(t, srcs);
    assert (srcs + [d])[..|srcs|] == srcs;
    assert Bufs(t, srcs + [d]) == b + t[d].buf;
    var (f, c) := CopyChunk(frame, copied, t[d].buf);
    var n := c - copied;
    assert f[..c] == frame[..copied] + t[d].buf[..n];
    if |b| >= |frame| { assert (b + t[d].buf)[..c] == b[..c]; }
    else { assert (b + t[d].buf)[..c] == b + t[d].buf[..n]; }
  }

  lemma LooksCopied(t: seq<RxDesc>, frame: seq<Byte>, s: nat, k: nat, open: bool, srcs: seq<nat>, copied: nat)
    requires s <= k < |t| && copied <= |frame| && CopiedSoFar(t, frame, srcs, copied)
    ensures match LookAt(t, frame, s, k, open, srcs, copied)
            case Stop(o) => ReportsCopied(t, o)
            case Go(f, s', k', open', srcs', c) => CopiedSoFar(t, f, srcs', c)
  {
    hide CopyChunk, Bufs;
    assert CopiedSoFar(t, frame, [], 0) by { NothingCopied(t, frame); }
    var td := if t[k].sof && s < k then k - 1 else k;
    if t[k].sof { CopiesNext(t, frame, [], 0, td); } else { CopiesNext(t, frame, srcs, copied, td); }
  }

  lemma NothingCopied(t: seq<RxDesc>, frame: seq<Byte>)
    ensures CopiedSoFar(t, frame, [], 0)
  {
  }

  // ---------------------------------------------------------------- frames cut short

  /** The first buffer copied is one before the frame's start. */
  ghost predicate OneEarly(start: nat, srcs: seq<nat>) {
    srcs != [] && start > 0 && srcs[0] == start - 1
  }

  /** Once the discard loop has run, the copying stays off. */
  lemma {:induction false} StaysOff(t: seq<RxDesc>, frame: seq<Byte>, s: nat, k: nat, srcs: seq<nat>, copied: nat)
    requires s < k <= |t| && copied <= |frame| && OneEarly(s, srcs)
    ensures var o := Gather(t, frame, s, k, true, srcs, copied);
            OneEarly(o.start, o.srcs) && s <= o.start <= o.released
    decreases |t| - k
  {
    if k < |t| && t[k].owned {
      LooksOff(t, frame, s, k, srcs, copied);
      match LookAt(t, frame, s, k, true, srcs, copied)
      case Stop(o) =>
      case Go(f, s', k', open', srcs', c) => StaysOff(t, f, s', k', srcs', c);
    }
  }

  lemma LooksOff(t: seq<RxDesc>, frame: seq<Byte>, s: nat, k: nat, srcs: seq<nat>, copied: nat)
    requires s < k < |t| && copied <= |frame| && OneEarly(s, srcs)
    ensures match LookAt(t, frame, s, k, true, srcs, copied)
            case Stop(o) => OneEarly(o.start, o.srcs) && s <= o.start <= o.released
            case Go(f, s', k', open', srcs', c) => s <= s' < k' && open' && OneEarly(s', srcs')
  {
  }

  lemma GoesOff(t: seq<RxDesc>, frame: seq<Byte>, s: nat, k: nat, srcs: seq<nat>, copied: nat)
    requires s < k < |t| && copied <= |frame| && t[k].owned && t[k].sof && !t[k - 1].eof
    ensures var o := Gather(t, frame, s, k, true, srcs, copied);
            OneEarly(o.start, o.srcs) && !OwnBuffers(o)
  {
    var o := Gather(t, frame, s, k, true, srcs, copied);
    var (f, c) := CopyChunk(frame, 0, t[k - 1].buf);
    assert [] + [k - 1] == [k - 1];
    StaysOff(t, f, k, k + 1, [k - 1], c);
    assert Range(o.start, o.start + |o.srcs|)[0] == o.start;
  }

  /** The buffers copied are the reported frame's own, one after another from its start. */
  ghost predicate OwnBuffers(o: Outcome) {
    o.srcs == Range(o.start, o.start + |o.srcs|)
  }

  /** Descriptors 0..k hold fragments, then the beginning of a frame from s on. */
  ghost predicate InFrame(t: seq<RxDesc>, s: nat, k: nat) {
    && s < k <= |t| && Owned(t, 0, k) && NoSof(t, 0, s) && t[s].sof && NoSof(t, s + 1, k) && NoEof(t, s, k)
  }

  /** A later start before the end of a frame takes the copying off the frame, and nothing else
      does. */
  lemma {:induction false} OffIffCut(t: seq<RxDesc>, frame: seq<Byte>, s: nat, k: nat, copied: nat)
    requires InFrame(t, s, k) && copied <= |frame| && (s == 0 ==> k < |t|)
    ensures Cut(t) <==> !OwnBuffers(Gather(t, frame, s, k, true, Range(s, k), copied))
    decreases |t| - k
  {
    hide Cut, Gather, OwnBuffers;
    if k == |t| || !t[k].owned {
      NotCut(t, s, k);
      WaitsInFrame(t, frame, s, k, copied);
    } else if t[k].sof {
      IsCut(t, s, k);
      GoesOff(t, frame, s, k, Range(s, k), copied);
    } else if t[k].eof || (s == 0 && k + 1 == |t|) {
      NotCut(t, s, k + 1);
      StopsOnFrame(t, frame, s, k, copied);
    } else {
      var (f, c) := CopyChunk(frame, copied, t[k].buf);
      GathersOne(t, frame, s, k, Range(s, k), copied);
      OffIffCut(t, f, s, k + 1, c);
    }
  }

  lemma WaitsInFrame(t: seq<RxDesc>, frame: seq<Byte>, s: nat, k: nat, copied: nat)
    requires s < k <= |t| && copied <= |frame| && (k == |t| || !t[k].owned)
    ensures OwnBuffers(Gather(t, frame, s, k, true, Range(s, k), copied))
  {
  }

  lemma StopsOnFrame(t: seq<RxDesc>, frame: seq<Byte>, s: nat, k: nat, copied: nat)
    requires s < k < |t| && copied <= |frame| && t[k].owned && !t[k].sof && (t[k].eof || (s == 0 && k + 1 == |t|))
    ensures OwnBuffers(Gather(t, frame, s, k, true, Range(s, k), copied))
  {
    assert Range(s, k) + [k] == Range(s, k + 1);
  }

  lemma IsCut(t: seq<RxDesc>, s: nat, k: nat)
    requires InFrame(t, s, k) && k < |t| && t[k].owned && t[k].sof
    ensures Cut(t)
  {
    assert CutAt(t, s, k);
  }

  /** A frame followed through to e without a new start, where it ends or nothing follows. */
  lemma NotCut(t: seq<RxDesc>, s: nat, e: nat)
    requires s < e <= |t| && NoSof(t, 0, s) && t[s].sof && NoSof(t, s + 1, e)
    requires e == |t| || !t[e].owned || t[e - 1].eof
    ensures !Cut(t)
  {
  }

  /** For every list, the buffers copied are the frame's own exactly when no new frame starts
      while one is open. */
  lemma CopiesOwnBuffersIffUncut(t: seq<RxDesc>, frame: seq<Byte>)
    ensures !Cut(t) <==> OwnBuffers(Read(t, frame))
  {
    hide Cut, Gather, OwnBuffers;
    var j := FirstStart(t, 0);
    SkipsFragments(t, frame, 0, j);
    if j == |t| || !t[j].owned {
      NothingStarts(t, j);
      CopiesNothing(t, frame, j);
    } else {
      if t[j].eof || (j == 0 && |t| == 1) {
        NotCut(t, j, j + 1);
        StopsAtOnce(t, frame, j);
      } else {
        OpensOne(t, frame, j);
        var (f, c) := CopyChunk(frame, 0, t[j].buf);
        OffIffCut(t, f, j, j + 1, c);
      }
    }
  }

  lemma CopiesNothing(t: seq<RxDesc>, frame: seq<Byte>, j: nat)
    requires j <= |t| && (j < |t| ==> !t[j].owned)
    ensures OwnBuffers(Gather(t, frame, j, j, false, [], 0))
  {
  }

  lemma NothingStarts(t: seq<RxDesc>, j: nat)
    requires NoSof(t, 0, j) && (j < |t| ==> !t[j].owned)
    ensures !Cut(t)
  {
  }

  lemma StopsAtOnce(t: seq<RxDesc>, frame: seq<Byte>, j: nat)
    requires j < |t| && t[j].owned && t[j].sof && (t[j].eof || (j == 0 && |t| == 1))
    ensures OwnBuffers(Gather(t, frame, j, j, false, [], 0))
  {
    assert [] + [j] == Range(j, j + 1);
  }

  lemma OpensOne(t: seq<RxDesc>, frame: seq<Byte>, j: nat)
    requires j < |t| && t[j].owned && t[j].sof && !t[j].eof && (j == 0 ==> |t| > 1)
    ensures var (f, c) := CopyChunk(frame, 0, t[j].buf);
            Gather(t, frame, j, j, false, [], 0) == Gather(t, f, j, j + 1, true, Range(j, j + 1), c)
  {
    assert [] + [j] == Range(j, j + 1);
  }

  /** The first descriptor that is not a stray fragment. */
  ghost function FirstStart(t: seq<RxDesc>, k: nat): (j: nat)
    requires k <= |t| && Owned(t, 0, k) && NoSof(t, 0, k)
    ensures k <= j <= |t| && Owned(t, 0, j) && NoSof(t, 0, j)
    ensures j < |t| && t[j].owned ==> t[j].sof
    decreases |t| - k
  {
    if k == |t| || !t[k].owned || t[k].sof then k else FirstStart(t, k + 1)
  }

  /** Two readings of one descriptor that differ at most in who owns it. */
  ghost predicate Alike(a: RxDesc, b: RxDesc) {
    a.buf == b.buf && a.sof == b.sof && a.eof == b.eof && a.len == b.len
  }

  /** What the driver finds k steps on after giving s descriptors back. */
  lemma Sees(d: seq<RxDesc>, base: nat, t: seq<RxDesc>, s: nat, k: nat)
    requires base < |d| == |t| && s <= |t| && k <= |t| && Turn(d, base) == Release(t, s)
    ensures var x := d[At(base, k, |t|)];
            && (s <= k < |t| ==> x == t[k])
            && (k < |t| ==> Alike(x, t[k]))
            && (k == |t| && s > 0 ==> !x.owned)
  {
    TurnAt(d, base);
    ReleaseAt(t, s);
    assert d[At(base, if k == |t| then 0 else k, |t|)] == Turn(d, base)[if k == |t| then 0 else k];
  }

  /** From d to d2 the n descriptors from index base on have lost their ownership bit, and nothing
      else has changed in any descriptor. */
  ghost predicate OnlyGivenBack(d: seq<RxDesc>, d2: seq<RxDesc>, base: nat, n: nat)
    requires base < |d|
  {
    && |d2| == |d|
    && (forall i :: 0 <= i < |d| ==>
          && d2[i].wrap == d[i].wrap && d2[i].sof == d[i].sof && d2[i].eof == d[i].eof
          && d2[i].len == d[i].len && d2[i].buf == d[i].buf)
    && (forall k :: 0 <= k < |d| ==> (d2[At(base, k, |d|)].owned <==> n <= k && d[At(base, k, |d|)].owned))
  }

  lemma ReleaseGivesBack(d: seq<RxDesc>, d2: seq<RxDesc>, base: nat, n: nat)
    requires base < |d| == |d2| && n <= |d| && Turn(d2, base) == Release(Turn(d, base), n)
    ensures OnlyGivenBack(d, d2, base, n)
  {
    hide Release, Turn;
    TurnAt(d, base);
    TurnAt(d2, base);
    ReleaseAt(Turn(d, base), n);
    forall i | 0 <= i < |d|
      ensures && d2[i].wrap == d[i].wrap && d2[i].sof == d[i].sof && d2[i].eof == d[i].eof
              && d2[i].len == d[i].len && d2[i].buf == d[i].buf
    {
      var k := if i >= base then i - base else i + |d| - base;
      assert At(base, k, |d|) == i;
    }
  }

  // ---------------------------------------------------------------- the C object

  class RxRing {
    const dscr: array<RxDesc>
    var idx: nat

    ghost predicate Valid()
      reads this
    {
      idx < dscr.Length < 0x1_0000
    }

    /** The list as gmac_dev_read meets it, from us_rx_idx once around. */
    ghost function View(): seq<RxDesc>
      requires Valid()
      reads this, dscr
    {
      Turn(dscr[..], idx)
    }

    constructor (d: array<RxDesc>)
      requires 0 < d.Length < 0x1_0000
      ensures Valid() && dscr == d && idx == 0
    {
      dscr := d;
      idx := 0;
    }

    /** gmac_reset_rx_mem: every descriptor goes to the controller, the last one wraps. */
    method ResetRxMem()
      requires Valid()
      modifies this, dscr
      ensures Valid() && idx == 0
      ensures forall i :: 0 <= i < dscr.Length ==>
                dscr[i] == RawDesc(false, i == dscr.Length - 1, false, false, 0, old(dscr[i].buf))
    {
      idx := 0;
      var i := 0;
      while i < dscr.Length
        invariant 0 <= i <= dscr.Length && idx == 0
        invariant forall k :: 0 <= k < i ==> dscr[k] == RawDesc(false, false, false, false, 0, old(dscr[k].buf))
        invariant forall k :: i <= k < dscr.Length ==> dscr[k] == old(dscr[k])
      {
        dscr[i] := RawDesc(false, false, false, false, 0, dscr[i].buf);
        i := i + 1;
      }
      dscr[dscr.Length - 1] := dscr[dscr.Length - 1].(wrap := true);
    }

    /** circ_inc on a 16-bit index. */
    static method CircInc(i: nat, size: nat) returns (r: nat)
      requires i < size
      ensures r == At(i, 1, size)
    {
      r := i + 1;
      if r >= size {
        r := 0;
      }
    }

    /** s descriptors of the list t, read from index `base`, have been given back. */
    ghost predicate Stands(base: nat, t: seq<RxDesc>, s: nat)
      reads this, dscr
    {
      && base < dscr.Length < 0x1_0000 && s <= |t| == dscr.Length
      && Turn(dscr[..], base) == Release(t, s)
      && idx == At(base, s, |t|)
    }

    /** One turn of a release loop. */
    method ReleaseOne(ghost base: nat, ghost t: seq<RxDesc>, ghost s: nat)
      requires Stands(base, t, s) && s < |t|
      modifies this`idx, dscr
      ensures Stands(base, t, s + 1)
    {
      TurnUpdate(dscr[..], base, s, Freed(t[s]));
      ReleaseAt(t, s);
      ghost var before := dscr[..];
      assert before[idx] == Turn(before, base)[s] == t[s];
      dscr[idx] := Freed(dscr[idx]);
      assert dscr[..] == before[idx := Freed(t[s])];
      idx := CircInc(idx, dscr.Length);
    }

    /** The release loops: clear the ownership bit from us_rx_idx up to `target`, leaving the
        descriptor pointer on the last one cleared. */
    method ReleaseUpTo(target: nat, td: nat, ghost base: nat, ghost t: seq<RxDesc>, ghost s: nat, ghost e: nat)
      returns (last: nat)
      requires Stands(base, t, s) && s <= e <= |t| && (s == 0 ==> e < |t|)
      requires target == At(base, e, |t|)
      modifies this`idx, dscr
      ensures Stands(base, t, e)
      ensures last == if s == e then td else At(base, e - 1, |t|)
    {
      last := td;
      ghost var k := s;
      while idx != target
        invariant s <= k <= e && Stands(base, t, k)
        invariant last == if s == k then td else At(base, k - 1, |t|)
        decreases e - k
      {
        last := idx;
        ReleaseOne(base, t, k);
        k := k + 1;
      }
    }

    /** The do-while loop for a turn made without an end of frame. */
    method ReleaseWholeTurn(target: nat, ghost base: nat, ghost t: seq<RxDesc>)
      requires Stands(base, t, 0) && target == idx
      modifies this`idx, dscr
      ensures Stands(base, t, |t|)
    {
      ghost var k := 0;
      var again := true;
      while again
        invariant 0 <= k <= |t| && again == (k < |t|) && Stands(base, t, k)
        invariant target == base
        decreases |t| - k
      {
        ReleaseOne(base, t, k);
        k := k + 1;
        again := target != idx;
      }
    }

    /** memcpy of one buffer, clipped; the new value of tmp_ul_frame_size is returned. */
    method CopyBuffer(frame: array<Byte>, at: nat, buf: seq<Byte>) returns (copied: nat)
      requires at <= frame.Length
      modifies frame
      ensures (frame[..], copied) == CopyChunk(old(frame[..]), at, buf)
    {
      var n := |buf|;
      if at + n > frame.Length {
        n := frame.Length - at;
      }
      var i := 0;
      while i < n
        invariant 0 <= i <= n
        invariant frame[..] == old(frame[..at]) + buf[..i] + old(frame[at + i..])
      {
        frame[at + i] := buf[i];
        i := i + 1;
      }
      copied := at + n;
    }

    /** gmac_dev_read */
    method DevRead(frame: array?<Byte>) returns (status: Status, rcvSize: nat)
      requires Valid()
      modifies this`idx, dscr, frame
      ensures Valid()
      ensures frame == null ==> status == Param && idx == old(idx) && dscr[..] == old(dscr[..])
      ensures frame != null ==>
                var n := Read(old(View()), old(frame[..])).released;
                OnlyGivenBack(old(dscr[..]), dscr[..], old(idx), n)
      ensures frame != null ==>
                var t := old(View());
                var o := Read(t, old(frame[..]));
                && (status, rcvSize, frame[..]) == (o.status, o.rcvSize, o.frame)
                && o.released <= |t|
                && Turn(dscr[..], old(idx)) == Release(t, o.released)
                && idx == At(old(idx), o.released, |t|)
                && View() == MovedOn(t, o.released)
    {
      if frame == null {
        return Param, 0;
      }
      ghost var base, t, o := idx, View(), Read(View(), frame[..]);
      ghost var before := dscr[..];
      status, rcvSize := GatherFrame(frame, base, t);
      ReleaseGivesBack(before, dscr[..], base, o.released);
      TurnTwice(dscr[..], base, At(0, o.released, |t|));
    }

    /** Its outer loop, for a frame buffer that is there. */
    method GatherFrame(frame: array<Byte>, ghost base: nat, ghost t: seq<RxDesc>) returns (status: Status, rcvSize: nat)
      requires Stands(base, t, 0)
      modifies this`idx, dscr, frame
      ensures var o := Read(t, old(frame[..]));
              && o.released <= |t| && Stands(base, t, o.released)
              && (status, rcvSize, frame[..]) == (o.status, o.rcvSize, o.frame)
    {
      var td := idx;
      var open := false;
      var copied: nat := 0;
      ghost var o := Read(t, frame[..]);
      ghost var s: nat, k: nat, srcs: seq<nat> := 0, 0, [];
      while dscr[td].owned
        invariant s <= k <= |t| && copied <= frame.Length && Stands(base, t, s)
        invariant td == At(base, k, |t|)
        invariant open ==> s < k
        invariant !open ==> s == k && copied == 0
        invariant s == 0 ==> k < |t|
        invariant o == Gather(t, frame[..], s, k, open, srcs, copied)
        decreases |t| - k
      {
        Sees(dscr[..], base, t, s, k);
        ghost var look := LookAt(t, frame[..], s, k, open, srcs, copied);
        var done;
        done, status, rcvSize, td, open, copied := Examine(frame, td, open, copied, base, t, s, k, srcs);
        if done {
          return;
        }
        s, k, srcs := look.s, look.k, look.srcs;
      }
      Sees(dscr[..], base, t, s, k);
      return NoData, 0;
    }

    /** One turn of it: `tmp` is us_tmp_idx, which on entry is where the descriptor pointer is. */
    method Examine(frame: array<Byte>, tmp0: nat, open0: bool, copied0: nat,
                   ghost base: nat, ghost t: seq<RxDesc>, ghost s: nat, ghost k: nat, ghost srcs: seq<nat>)
      returns (done: bool, status: Status, rcvSize: nat, tmp: nat, open: bool, copied: nat)
      requires Stands(base, t, s) && s <= k < |t| && tmp0 == At(base, k, |t|) && t[k].owned && copied0 <= frame.Length
      requires if open0 then s < k else s == k && copied0 == 0
      modifies this`idx, dscr, frame
      ensures var look := LookAt(t, old(frame[..]), s, k, open0, srcs, copied0);
              && done == look.Stop?
              && (done ==> look.o.released <= |t| && Stands(base, t, look.o.released) &&
                           (status, rcvSize, frame[..]) == (look.o.status, look.o.rcvSize, look.o.frame))
              && (!done ==> look.s <= |t| && Stands(base, t, look.s) && tmp == At(base, k + 1, |t|) &&
                            (frame[..], open, copied) == (look.frame, look.open, look.copied) &&
                            (if open then look.s < look.k else look.s == look.k && copied == 0) &&
                            (look.s == 0 ==> look.k < |t|))
    {
      done, status, rcvSize, open, copied := false, NoData, 0, open0, copied0;
      var td := tmp0;
      Sees(dscr[..], base, t, s, k);
      ghost var d := if t[k].sof && s < k then k - 1 else k;
      ghost var s' := s;
      if dscr[td].sof {
        td := DiscardFragment(tmp0, td, base, t, s, k);
        s' := k;
        copied := 0;
        open := true;
      }
      assert Alike(dscr[td], t[d]);
      tmp := CircInc(tmp0, dscr.Length);
      if open {
        if tmp == idx {
          ReleaseWholeTurn(tmp, base, t);
          done, status := true, RxError;
          return;
        }
        done, status, rcvSize, copied := TakeBuffer(frame, tmp, td, copied, base, t, s', k, d);
      } else {
        SkipOne(td, tmp, base, t, k);
      }
    }

    /** A start of frame was found at `target`: what was gathered before it is given back. */
    method DiscardFragment(target: nat, td: nat, ghost base: nat, ghost t: seq<RxDesc>, ghost s: nat, ghost k: nat)
      returns (last: nat)
      requires Stands(base, t, s) && s <= k < |t| && td == target == At(base, k, |t|)
      modifies this`idx, dscr
      ensures Stands(base, t, k)
      ensures last < dscr.Length && Alike(dscr[last], t[if s < k then k - 1 else k])
    {
      last := ReleaseUpTo(target, td, base, t, s, k);
      Sees(dscr[..], base, t, k, if s < k then k - 1 else k);
    }

    /** Copy the buffer of the current descriptor and, at an end of frame, give everything up to
        `tmp` back. */
    method TakeBuffer(frame: array<Byte>, tmp: nat, td: nat, copied0: nat,
                      ghost base: nat, ghost t: seq<RxDesc>, ghost s: nat, ghost k: nat, ghost d: nat)
      returns (done: bool, status: Status, rcvSize: nat, copied: nat)
      requires Stands(base, t, s) && s <= k < |t| && (s == 0 ==> k + 1 < |t|) && copied0 <= frame.Length
      requires tmp == At(base, k + 1, |t|) && td < dscr.Length && d < |t| && Alike(dscr[td], t[d])
      modifies this`idx, dscr, frame
      ensures (frame[..], copied) == CopyChunk(old(frame[..]), copied0, t[d].buf)
      ensures done == t[d].eof && Stands(base, t, if done then k + 1 else s)
      ensures done ==> rcvSize == t[d].len && status == if copied < rcvSize then SizeTooSmall else Ok
    {
      done, status, rcvSize := false, NoData, 0;
      copied := CopyBuffer(frame, copied0, dscr[td].buf);
      if dscr[td].eof {
        done := true;
        rcvSize := dscr[td].len;
        var last := ReleaseUpTo(tmp, td, base, t, s, k + 1);
        status := if copied < rcvSize then SizeTooSmall else Ok;
      }
    }

    /** A fragment with no start in sight is given back at once. */
    method SkipOne(td: nat, next: nat, ghost base: nat, ghost t: seq<RxDesc>, ghost k: nat)
      requires Stands(base, t, k) && k < |t| && td == idx && next == At(base, k + 1, |t|)
      modifies this`idx, dscr
      ensures Stands(base, t, k + 1)
    {
      TurnUpdate(dscr[..], base, k, Freed(t[k]));
      ReleaseAt(t, k);
      ghost var before := dscr[..];
      assert before[td] == Turn(before, base)[k] == t[k];
      dscr[td] := Freed(dscr[td]);
      assert dscr[..] == before[td := Freed(t[k])];
      idx := next;
    }
  }
}
