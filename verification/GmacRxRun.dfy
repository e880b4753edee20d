/**
 Whole runs of the receive ring of gmac_raw.c: the controller fills descriptor after descriptor
 with the buffers of one frame after another, gmac_dev_read is called in between at any time. The
 callers see a queue of frames.
 */
module GmacRxRun {
  import opened Bytes
  import opened Circular
  import opened GmacRx

  // ---------------------------------------------------------------- the reference

  /** A queue of frames, and the buffers of the frame that is arriving. */
  datatype Queue = Queue(frames: seq<seq<Byte>>, open: seq<Byte>)

  datatype Event = Arrival(d: RxDesc) | ReadCall(frame: seq<Byte>)

  /** What a read reports: status, size and the bytes of the frame that fit. */
  datatype Out = Quiet | Report(status: Status, size: nat, bytes: seq<Byte>)

  function QueueStep(q: Queue, e: Event): (Queue, Out) {
    match e
    case Arrival(d) =>
      var open := q.open + d.buf;
      (if d.eof then Queue(q.frames + [open[..Min(d.len, |open|)]], []) else q.(open := open), Quiet)
    case ReadCall(buf) =>
      if q.frames == [] then (q, Report(NoData, 0, []))
      else
        var f := q.frames[0];
        (q.(frames := q.frames[1..]),
         Report(if |f| <= |buf| then Ok else SizeTooSmall, |f|, f[..Min(|f|, |buf|)]))
  }

  function QueueOuts(q: Queue, es: seq<Event>): seq<Out>
    decreases |es|
  {
    if es == [] then [] else [QueueStep(q, es[0]).1] + QueueOuts(QueueStep(q, es[0]).0, es[1..])
  }

  // ---------------------------------------------------------------- the ring

  /** The list read from us_rx_idx, how many descriptors the controller has filled and not got
      back, and how many of them belong to the frame that is arriving. */
  datatype Ring = Ring(t: seq<RxDesc>, filled: nat, part: nat)

  /** The controller fills the next descriptor it owns; a frame starts with SOF, has no other, ends
      with EOF, fills fewer buffers than the list has, and its length is that of its bytes. */
  ghost predicate Allowed(r: Ring, e: Event) {
    match e
    case Arrival(d) =>
      && r.filled < |r.t| && d.owned && (d.sof <==> r.part == 0)
      && r.part + (if d.eof then 1 else 2) < |r.t|
      && (d.eof ==> d.len <= UNIT * (r.part + 1))
    case ReadCall(buf) => true
  }

  ghost function Step(r: Ring, e: Event): (Ring, Out)
    requires Allowed(r, e) && 0 < |r.t| && r.filled <= |r.t|
  {
    match e
    case Arrival(d) => (Ring(r.t[r.filled := d], r.filled + 1, if d.eof then 0 else r.part + 1), Quiet)
    case ReadCall(buf) =>
      var o := Read(r.t, buf);
      GivesBackAPrefix(r.t, buf);
      (Ring(MovedOn(r.t, o.released), if o.released <= r.filled then r.filled - o.released else 0, r.part),
       Report(o.status, o.rcvSize, if o.status == NoData then [] else o.frame[..Min(o.rcvSize, |o.frame|)]))
  }

  // ---------------------------------------------------------------- the frames in the ring

  function Total(sizes: seq<nat>): nat {
    if sizes == [] then 0 else sizes[0] + Total(sizes[1..])
  }

  /** Whole frames of these sizes, in descriptors, lie one after another from lo on. */
  ghost predicate Lined(t: seq<RxDesc>, lo: nat, sizes: seq<nat>)
    decreases |sizes|
  {
    sizes == [] ||
    (var hi := lo + sizes[0];
     && sizes[0] < |t| && WholeFrame(t, lo, hi) && t[hi - 1].len <= UNIT * sizes[0]
     && Lined(t, hi, sizes[1..]))
  }

  function FrameAt(t: seq<RxDesc>, lo: nat, k: nat): seq<Byte>
    requires 0 < k && lo + k <= |t| && t[lo + k - 1].len <= UNIT * k
  {
    Cat(t, lo, lo + k)[..t[lo + k - 1].len]
  }

  ghost function FramesOf(t: seq<RxDesc>, lo: nat, sizes: seq<nat>): seq<seq<Byte>>
    requires Lined(t, lo, sizes)
    decreases |sizes|
  {
    if sizes == [] then [] else [FrameAt(t, lo, sizes[0])] + FramesOf(t, lo + sizes[0], sizes[1..])
  }

  /** The ring holds exactly the queue. */
  ghost predicate Inv(r: Ring, sizes: seq<nat>, q: Queue) {
    && 0 < |r.t| && r.filled == Total(sizes) + r.part <= |r.t|
    && Lined(r.t, 0, sizes) && q.frames == FramesOf(r.t, 0, sizes)
    && (r.part > 0 ==> r.part + 1 < |r.t| && Beginning(r.t, Total(sizes), r.filled))
    && q.open == Cat(r.t, Total(sizes), r.filled)
    && forall i :: r.filled <= i < |r.t| ==> !r.t[i].owned
  }

  /** n descriptors from lo2 on in t2 are those from lo on in t. */
  ghost predicate Same(t: seq<RxDesc>, lo: nat, t2: seq<RxDesc>, lo2: nat, n: nat) {
    lo + n <= |t| && lo2 + n <= |t2| && t2[lo2..lo2 + n] == t[lo..lo + n]
  }

  lemma SameAt(t: seq<RxDesc>, lo: nat, t2: seq<RxDesc>, lo2: nat, n: nat, i: nat)
    requires Same(t, lo, t2, lo2, n) && i < n
    ensures t2[lo2 + i] == t[lo + i]
  {
    assert t2[lo2..lo2 + n][i] == t[lo..lo + n][i];
  }

  lemma SamePart(t: seq<RxDesc>, lo: nat, t2: seq<RxDesc>, lo2: nat, n: nat, a: nat, m: nat)
    requires Same(t, lo, t2, lo2, n) && a + m <= n
    ensures Same(t, lo + a, t2, lo2 + a, m)
  {
    var x, y := t[lo + a..lo + a + m], t2[lo2 + a..lo2 + a + m];
    forall i | 0 <= i < m ensures x[i] == y[i] {
      SameAt(t, lo, t2, lo2, n, a + i);
    }
  }

  /** The same descriptors at another place are the same frames. */
  lemma {:induction false} FramesShift(t: seq<RxDesc>, lo: nat, t2: seq<RxDesc>, lo2: nat, sizes: seq<nat>, n: nat)
    requires Lined(t, lo, sizes) && |t2| == |t| && n == Total(sizes) && Same(t, lo, t2, lo2, n)
    ensures Lined(t2, lo2, sizes) && FramesOf(t2, lo2, sizes) == FramesOf(t, lo, sizes)
    decreases |sizes|
  {
    hide Same, Cat, WholeFrame, FrameAt, Lined, FramesOf, Total;
    FramesNil(t, lo);
    FramesNil(t2, lo2);
    if sizes != [] {
      var k := sizes[0];
      TotalCons(sizes);
      FramesCons(t, lo, sizes);
      SamePart(t, lo, t2, lo2, n, 0, k);
      SameFrame(t, lo, t2, lo2, k);
      SamePart(t, lo, t2, lo2, n, k, n - k);
      FramesShift(t, lo + k, t2, lo2 + k, sizes[1..], n - k);
      FramesCons(t2, lo2, sizes);
    }
  }

  lemma FramesNil(t: seq<RxDesc>, lo: nat)
    ensures Lined(t, lo, []) && FramesOf(t, lo, []) == []
  {
  }

  lemma TotalCons(sizes: seq<nat>)
    requires sizes != []
    ensures Total(sizes) == sizes[0] + Total(sizes[1..])
  {
  }

  lemma FramesCons(t: seq<RxDesc>, lo: nat, sizes: seq<nat>)
    requires sizes != []
    ensures var k := sizes[0];
            && (Lined(t, lo, sizes) <==>
                  && k < |t| && WholeFrame(t, lo, lo + k) && t[lo + k - 1].len <= UNIT * k
                  && Lined(t, lo + k, sizes[1..]))
            && (Lined(t, lo, sizes) ==>
                  FramesOf(t, lo, sizes) == [FrameAt(t, lo, k)] + FramesOf(t, lo + k, sizes[1..]))
  {
  }

  lemma SameFrame(t: seq<RxDesc>, lo: nat, t2: seq<RxDesc>, lo2: nat, k: nat)
    requires WholeFrame(t, lo, lo + k) && t[lo + k - 1].len <= UNIT * k && Same(t, lo, t2, lo2, k)
    ensures WholeFrame(t2, lo2, lo2 + k) && t2[lo2 + k - 1].len <= UNIT * k
    ensures FrameAt(t2, lo2, k) == FrameAt(t, lo, k)
  {
    hide Cat, WholeFrame;
    SameWhole(t, lo, t2, lo2, k);
    SameCat(t, lo, t2, lo2, k);
    SameAt(t, lo, t2, lo2, k, k - 1);
  }

  lemma SameWhole(t: seq<RxDesc>, lo: nat, t2: seq<RxDesc>, lo2: nat, k: nat)
    requires WholeFrame(t, lo, lo + k) && Same(t, lo, t2, lo2, k)
    ensures 0 < k && WholeFrame(t2, lo2, lo2 + k)
  {
    SameAt(t, lo, t2, lo2, k, 0);
    SameAt(t, lo, t2, lo2, k, k - 1);
    forall i | lo2 <= i < lo2 + k
      ensures t2[i].owned && (lo2 < i ==> !t2[i].sof) && (i < lo2 + k - 1 ==> !t2[i].eof)
    {
      SameAt(t, lo, t2, lo2, k, i - lo2);
    }
  }

  lemma SameBeginning(t: seq<RxDesc>, lo: nat, t2: seq<RxDesc>, lo2: nat, n: nat)
    requires Beginning(t, lo, lo + n) && Same(t, lo, t2, lo2, n)
    ensures Beginning(t2, lo2, lo2 + n)
  {
    SameAt(t, lo, t2, lo2, n, 0);
    forall i | lo2 <= i < lo2 + n ensures t2[i].owned && !t2[i].eof && (lo2 < i ==> !t2[i].sof) {
      SameAt(t, lo, t2, lo2, n, i - lo2);
    }
  }

  lemma {:induction false} SameCat(t: seq<RxDesc>, lo: nat, t2: seq<RxDesc>, lo2: nat, n: nat)
    requires Same(t, lo, t2, lo2, n)
    ensures Cat(t2, lo2, lo2 + n) == Cat(t, lo, lo + n)
  {
    if n > 0 {
      SamePart(t, lo, t2, lo2, n, 0, n - 1);
      SameCat(t, lo, t2, lo2, n - 1);
      SameAt(t, lo, t2, lo2, n, n - 1);
    }
  }

  /** One more whole frame, at p, behind the others. */
  lemma {:induction false} FramesAppend(t: seq<RxDesc>, lo: nat, sizes: seq<nat>, p: nat, k: nat)
    requires Lined(t, lo, sizes) && p == lo + Total(sizes)
    requires k < |t| && WholeFrame(t, p, p + k) && t[p + k - 1].len <= UNIT * k
    ensures Lined(t, lo, sizes + [k]) && Total(sizes + [k]) == Total(sizes) + k
    ensures FramesOf(t, lo, sizes + [k]) == FramesOf(t, lo, sizes) + [FrameAt(t, p, k)]
    decreases |sizes|
  {
    hide Cat, WholeFrame, FrameAt, Lined, FramesOf;
    FramesCons(t, lo, sizes + [k]);
    if sizes == [] {
      assert [] + [k] == [k] && [k][1..] == [];
      FramesNil(t, lo);
      FramesNil(t, lo + k);
    } else {
      FramesCons(t, lo, sizes);
      FramesAppend(t, lo + sizes[0], sizes[1..], p, k);
      assert (sizes + [k])[1..] == sizes[1..] + [k];
    }
  }

  // ---------------------------------------------------------------- arrivals

  lemma ArrivalKeepsInv(r: Ring, sizes: seq<nat>, q: Queue, d: RxDesc) returns (sizes': seq<nat>)
    requires Inv(r, sizes, q) && Allowed(r, Arrival(d))
    ensures Inv(Step(r, Arrival(d)).0, sizes', QueueStep(q, Arrival(d)).0) && Step(r, Arrival(d)).1 == Quiet
  {
    hide Lined, FramesOf, Cat, WholeFrame, Beginning;
    var t', p := r.t[r.filled := d], Total(sizes);
    FramesStay(r, sizes, q, d);
    Grows(r, p, d);
    sizes' := sizes;
    if d.eof {
      sizes' := sizes + [r.part + 1];
      FramesAppend(t', 0, sizes, p, r.part + 1);
    }
  }

  lemma FramesStay(r: Ring, sizes: seq<nat>, q: Queue, d: RxDesc)
    requires Inv(r, sizes, q) && r.filled < |r.t|
    ensures var t', p := r.t[r.filled := d], Total(sizes);
            && Lined(t', 0, sizes) && FramesOf(t', 0, sizes) == q.frames
            && Cat(t', p, r.filled + 1) == q.open + d.buf
            && Cat(t', r.filled + 1, r.filled + 1) == []
  {
    hide Cat, Lined, FramesOf, WholeFrame, Beginning;
    var t', p := r.t[r.filled := d], Total(sizes);
    assert Same(r.t, 0, t', 0, r.filled);
    SamePart(r.t, 0, t', 0, r.filled, 0, p);
    FramesShift(r.t, 0, t', 0, sizes, p);
    SamePart(r.t, 0, t', 0, r.filled, p, r.part);
    SameCat(r.t, p, t', p, r.part);
    CatNext(t', p, r.filled);
  }

  lemma CatNext(t: seq<RxDesc>, lo: nat, hi: nat)
    requires lo <= hi < |t|
    ensures Cat(t, lo, hi + 1) == Cat(t, lo, hi) + t[hi].buf && Cat(t, hi + 1, hi + 1) == []
  {
  }

  lemma Grows(r: Ring, p: nat, d: RxDesc)
    requires r.filled == p + r.part < |r.t| && d.owned && (d.sof <==> r.part == 0)
    requires r.part > 0 ==> Beginning(r.t, p, r.filled)
    ensures var t' := r.t[r.filled := d];
            if d.eof then WholeFrame(t', p, r.filled + 1) else Beginning(t', p, r.filled + 1)
  {
  }

  // ---------------------------------------------------------------- reads

  lemma MovedOnIs(t: seq<RxDesc>, n: nat)
    requires n < |t|
    ensures |MovedOn(t, n)| == |t| && Same(t, n, MovedOn(t, n), 0, |t| - n)
    ensures forall i :: |t| - n <= i < |t| ==> !MovedOn(t, n)[i].owned
  {
    hide Release;
    ReleaseAt(t, n);
    var r := Release(t, n);
    assert MovedOn(t, n) == r[n..] + r[..n];
    assert r[n..] == t[n..];
  }

  lemma ReadKeepsInv(r: Ring, sizes: seq<nat>, q: Queue, buf: seq<Byte>) returns (sizes': seq<nat>)
    requires Inv(r, sizes, q)
    ensures var (r', out) := Step(r, ReadCall(buf));
            Inv(r', sizes', QueueStep(q, ReadCall(buf)).0) && out == QueueStep(q, ReadCall(buf)).1
  {
    if sizes == [] {
      ReadsNothing(r, q, buf);
      sizes' := [];
    } else {
      ReadsFirst(r, sizes, q, buf);
      FirstGone(r, sizes, q);
      sizes' := sizes[1..];
    }
  }

  lemma ReadsNothing(r: Ring, q: Queue, buf: seq<Byte>)
    requires Inv(r, [], q)
    ensures Step(r, ReadCall(buf)) == (r, Report(NoData, 0, []))
  {
    if r.part == 0 { DropsFragments(r.t, buf, 0); } else { KeepsBeginning(r.t, buf, 0, r.part); }
    assert MovedOn(r.t, 0) == r.t;
  }

  lemma ReadsFirst(r: Ring, sizes: seq<nat>, q: Queue, buf: seq<Byte>)
    requires Inv(r, sizes, q) && sizes != []
    ensures var (r', out) := Step(r, ReadCall(buf));
            && r' == Ring(MovedOn(r.t, sizes[0]), r.filled - sizes[0], r.part)
            && out == QueueStep(q, ReadCall(buf)).1
  {
    var k := sizes[0];
    DeliversFrame(r.t, buf, 0, k);
    var o := Read(r.t, buf);
    var c := Cat(r.t, 0, k);
    var n := Min(o.rcvSize, |buf|);
    assert o.frame[..n] == c[..n] == c[..o.rcvSize][..n];
  }

  lemma FirstGone(r: Ring, sizes: seq<nat>, q: Queue)
    requires Inv(r, sizes, q) && sizes != []
    ensures Inv(Ring(MovedOn(r.t, sizes[0]), r.filled - sizes[0], r.part), sizes[1..], q.(frames := q.frames[1..]))
  {
    hide Same, Cat, WholeFrame, Beginning, MovedOn;
    var k, p, t' := sizes[0], Total(sizes[1..]), MovedOn(r.t, sizes[0]);
    MovedOnIs(r.t, k);
    OthersStay(r.t, k, t', sizes[1..], r.part);
    assert q.frames[1..] == FramesOf(r.t, k, sizes[1..]);
    forall i | p + r.part <= i < |t'| ensures !t'[i].owned {
      if i < |t'| - k { SameAt(r.t, k, t', 0, |t'| - k, i); }
    }
  }

  lemma OthersStay(t: seq<RxDesc>, k: nat, t': seq<RxDesc>, sizes: seq<nat>, part: nat)
    requires k + Total(sizes) + part <= |t| == |t'| && Same(t, k, t', 0, |t| - k) && Lined(t, k, sizes)
    ensures var p := Total(sizes);
            && Lined(t', 0, sizes) && FramesOf(t', 0, sizes) == FramesOf(t, k, sizes)
            && Cat(t', p, p + part) == Cat(t, k + p, k + p + part)
            && (part > 0 && Beginning(t, k + p, k + p + part) ==> Beginning(t', p, p + part))
  {
    hide Same, Cat, WholeFrame, Beginning, Lined, FramesOf;
    var n, p := |t| - k, Total(sizes);
    SamePart(t, k, t', 0, n, 0, p);
    FramesShift(t, k, t', 0, sizes, p);
    SamePart(t, k, t', 0, n, p, part);
    SameCat(t, k + p, t', p, part);
    if part > 0 && Beginning(t, k + p, k + p + part) { SameBeginning(t, k + p, t', p, part); }
  }

  // ---------------------------------------------------------------- whole runs

  ghost predicate Reaches(r: Ring, es: seq<Event>, outs: seq<Out>, r': Ring)
    decreases |es|
  {
    0 < |r.t| && r.filled <= |r.t| && |outs| == |es| &&
    if es == [] then r == r'
    else
      && Allowed(r, es[0]) && outs[0] == Step(r, es[0]).1
      && Reaches(Step(r, es[0]).0, es[1..], outs[1..], r')
  }

  /** From every state that holds a queue of frames, every run of arrivals and calls reports what
      the queue reports. */
  lemma {:induction false} RunIsQueue(r: Ring, sizes: seq<nat>, q: Queue, es: seq<Event>, outs: seq<Out>, r': Ring)
    requires Inv(r, sizes, q) && Reaches(r, es, outs, r')
    ensures outs == QueueOuts(q, es)
    decreases |es|
  {
    hide Inv, Step;
    if es == [] {
    } else {
      var sizes';
      match es[0] {
        case Arrival(d) => sizes' := ArrivalKeepsInv(r, sizes, q, d);
        case ReadCall(buf) => sizes' := ReadKeepsInv(r, sizes, q, buf);
      }
      RunIsQueue(Step(r, es[0]).0, sizes', QueueStep(q, es[0]).0, es[1..], outs[1..], r');
      assert outs == [outs[0]] + outs[1..];
    }
  }

  /** The frames that arrive in a run, of which the first has `open` behind it already. */
  function Arrived(es: seq<Event>, open: seq<Byte>): seq<seq<Byte>>
    decreases |es|
  {
    if es == [] then []
    else
      match es[0]
      case Arrival(d) =>
        var all := open + d.buf;
        if d.eof then [all[..Min(d.len, |all|)]] + Arrived(es[1..], []) else Arrived(es[1..], all)
      case ReadCall(buf) => Arrived(es[1..], open)
  }

  /** The frames reported. */
  function Reported(outs: seq<Out>): seq<seq<Byte>> {
    if outs == [] then []
    else (if outs[0].Quiet? || outs[0].status == NoData then [] else [outs[0].bytes]) + Reported(outs[1..])
  }

  ghost predicate BuffersHold(es: seq<Event>, n: nat) {
    forall i :: 0 <= i < |es| && es[i].ReadCall? ==> n <= |es[i].frame|
  }

  lemma OneArrival(q: Queue, es: seq<Event>)
    requires es != [] && es[0].Arrival?
    ensures var (q', out) := QueueStep(q, es[0]);
            && q.frames + Arrived(es, q.open) == q'.frames + Arrived(es[1..], q'.open)
            && out == Quiet && AllWhole([out])
  {
    var open := q.open + es[0].d.buf;
    if es[0].d.eof {
      var f := open[..Min(es[0].d.len, |open|)];
      assert Arrived(es, q.open) == [f] + Arrived(es[1..], []);
      assert (q.frames + [f]) + Arrived(es[1..], []) == q.frames + ([f] + Arrived(es[1..], []));
    }
  }

  lemma OneRead(q: Queue, es: seq<Event>, n: nat)
    requires es != [] && es[0].ReadCall? && n <= |es[0].frame|
    requires q.frames != [] ==> |q.frames[0]| <= n
    ensures var (q', out) := QueueStep(q, es[0]);
            && q.frames == Reported([out]) + q'.frames && q'.open == q.open
            && Arrived(es, q.open) == Arrived(es[1..], q'.open) && AllWhole([out])
  {
    var (q', out) := QueueStep(q, es[0]);
    assert [out][1..] == [] && Reported([]) == [];
    if q.frames != [] { assert out.bytes == q.frames[0]; }
  }

  lemma ReportedCons(out: Out, outs: seq<Out>)
    ensures Reported([out] + outs) == Reported([out]) + Reported(outs)
    ensures out == Quiet ==> Reported([out]) == []
  {
    assert ([out] + outs)[1..] == outs && [out][1..] == [];
  }

  ghost predicate Fit(fs: seq<seq<Byte>>, n: nat) {
    forall i :: 0 <= i < |fs| ==> |fs[i]| <= n
  }

  lemma FitSplits(a: seq<seq<Byte>>, b: seq<seq<Byte>>, c: seq<seq<Byte>>, n: nat)
    requires Fit((a + b) + c, n)
    ensures (a + b) + c == a + (b + c) && Fit(b + c, n)
  {
    var all := (a + b) + c;
    assert all == a + (b + c);
    forall i | 0 <= i < |b + c| ensures |(b + c)[i]| <= n {
      assert (b + c)[i] == all[|a| + i];
    }
  }

  lemma FirstFits(a: seq<seq<Byte>>, b: seq<seq<Byte>>, n: nat)
    requires Fit(a + b, n)
    ensures a != [] ==> |a[0]| <= n
  {
    if a != [] { assert (a + b)[0] == a[0]; }
  }

  /** Every report is of a whole frame. */
  ghost predicate AllWhole(outs: seq<Out>) {
    forall i :: 0 <= i < |outs| && outs[i].Report? && outs[i].status != NoData ==>
      outs[i].status == Ok && outs[i].size == |outs[i].bytes|
  }

  lemma AllWholeCons(out: Out, outs: seq<Out>)
    requires AllWhole([out]) && AllWhole(outs)
    ensures AllWhole([out] + outs)
  {
    assert [out][0] == out;
  }

  lemma {:induction false} ReportedSnoc(outs: seq<Out>, out: Out)
    ensures Reported(outs + [out]) == Reported(outs) + Reported([out])
  {
    if outs == [] {
      assert [] + [out] == [out];
    } else {
      ReportedSnoc(outs[1..], out);
      assert (outs + [out])[1..] == outs[1..] + [out];
    }
  }

  lemma {:induction false} ReachedShape(r: Ring, es: seq<Event>, outs: seq<Out>, r1: Ring)
    requires Reaches(r, es, outs, r1)
    ensures 0 < |r1.t| && r1.filled <= |r1.t| && |outs| == |es|
    decreases |es|
  {
    hide Step, Allowed;
    if es != [] { ReachedShape(Step(r, es[0]).0, es[1..], outs[1..], r1); }
  }

  lemma StepShape(r: Ring, e: Event)
    requires Allowed(r, e) && 0 < |r.t| && r.filled <= |r.t|
    ensures var r' := Step(r, e).0; 0 < |r'.t| && r'.filled <= |r'.t|
  {
  }

  lemma {:induction false} ReachesMore(r: Ring, es: seq<Event>, outs: seq<Out>, r1: Ring, e: Event)
    requires Reaches(r, es, outs, r1) && Allowed(r1, e) && 0 < |r1.t| && r1.filled <= |r1.t|
    ensures Reaches(r, es + [e], outs + [Step(r1, e).1], Step(r1, e).0)
    decreases |es|
  {
    hide Step, Allowed;
    StepShape(r1, e);
    if es == [] {
      assert es + [e] == [e] && outs + [Step(r1, e).1] == [Step(r1, e).1];
    } else {
      ReachesMore(Step(r, es[0]).0, es[1..], outs[1..], r1, e);
      assert (es + [e])[1..] == es[1..] + [e] && (outs + [Step(r1, e).1])[1..] == outs[1..] + [Step(r1, e).1];
    }
  }

  lemma {:induction false} ReadsBringNothing(es: seq<Event>, open: seq<Byte>, e: Event)
    requires e.ReadCall?
    ensures Arrived(es + [e], open) == Arrived(es, open)
    decreases |es|
  {
    if es == [] {
      assert es + [e] == [e] && [e][1..] == [];
    } else {
      assert (es + [e])[0] == es[0] && (es + [e])[1..] == es[1..] + [e];
      var more := if es[0].ReadCall? then open else if es[0].d.eof then [] else open + es[0].d.buf;
      ReadsBringNothing(es[1..], more, e);
    }
  }

  /** With buffers that hold every frame, what is reported is the first part of what arrives. */
  lemma {:induction false} ReportsInOrder(q: Queue, es: seq<Event>, n: nat)
    requires BuffersHold(es, n) && Fit(q.frames + Arrived(es, q.open), n)
    ensures Reported(QueueOuts(q, es)) <= q.frames + Arrived(es, q.open) && AllWhole(QueueOuts(q, es))
    decreases |es|
  {
    if es != [] {
      hide Arrived, QueueStep, Reported, Fit, AllWhole;
      var (q', out) := QueueStep(q, es[0]);
      var rest := QueueOuts(q', es[1..]);
      ReportedCons(out, rest);
      if es[0].Arrival? {
        OneArrival(q, es);
      } else {
        FirstFits(q.frames, Arrived(es, q.open), n);
        OneRead(q, es, n);
        FitSplits(Reported([out]), q'.frames, Arrived(es[1..], q'.open), n);
      }
      assert forall i :: 0 <= i < |es[1..]| ==> es[1..][i] == es[i + 1];
      ReportsInOrder(q', es[1..], n);
      AllWholeCons(out, rest);
    } else {
      assert AllWhole([]);
    }
  }

  /** From the reset list on, the calls of gmac_dev_read report the frames that arrived, each once,
      whole and in order, and no data exactly when none is complete. */
  lemma ReceiveIsFifo(t: seq<RxDesc>, es: seq<Event>, outs: seq<Out>, r': Ring)
    requires t != [] && (forall i :: 0 <= i < |t| ==> !t[i].owned)
    requires Reaches(Ring(t, 0, 0), es, outs, r')
    ensures outs == QueueOuts(Queue([], []), es)
  {
    assert Inv(Ring(t, 0, 0), [], Queue([], []));
    RunIsQueue(Ring(t, 0, 0), [], Queue([], []), es, outs, r');
  }

  /** With buffers that hold every frame, the bytes reported from the reset list on are the first
      frames of those that arrived, and every report is of a whole frame. */
  lemma ReportsArrivals(t: seq<RxDesc>, es: seq<Event>, outs: seq<Out>, r': Ring, n: nat)
    requires t != [] && (forall i :: 0 <= i < |t| ==> !t[i].owned)
    requires Reaches(Ring(t, 0, 0), es, outs, r') && BuffersHold(es, n) && Fit(Arrived(es, []), n)
    ensures Reported(outs) <= Arrived(es, []) && AllWhole(outs)
  {
    hide Reaches, Arrived, Reported, QueueOuts;
    ReceiveIsFifo(t, es, outs, r');
    assert [] + Arrived(es, []) == Arrived(es, []);
    ReportsInOrder(Queue([], []), es, n);
  }

  // ---------------------------------------------------------------- whatever arrives

  /** The list read from us_rx_idx, that index, and how many descriptors the controller has filled
      and not got back; so far `arrived` have been filled, `released` given back and `reports`
      calls have returned something other than no data. */
  datatype AnyRing = AnyRing(t: seq<RxDesc>, idx: nat, filled: nat, arrived: nat, released: nat, reports: nat)

  /** The controller fills the next descriptor it owns, with whatever marks and length; it does not
      write WRAP. */
  ghost predicate AnyAllowed(r: AnyRing, e: Event) {
    e.Arrival? ==> r.filled < |r.t| && e.d.owned && e.d.wrap == r.t[r.filled].wrap
  }

  ghost function AnyStep(r: AnyRing, e: Event): AnyRing
    requires AnyAllowed(r, e) && r.idx < |r.t|
  {
    match e
    case Arrival(d) => r.(t := r.t[r.filled := d], filled := r.filled + 1, arrived := r.arrived + 1)
    case ReadCall(buf) =>
      var o := Read(r.t, buf);
      GivesBackAPrefix(r.t, buf);
      AnyRing(MovedOn(r.t, o.released), At(r.idx, o.released, |r.t|),
              if o.released <= r.filled then r.filled - o.released else 0,
              r.arrived, r.released + o.released, r.reports + if o.status == NoData then 0 else 1)
  }

  ghost predicate AnyReaches(r: AnyRing, es: seq<Event>, r': AnyRing)
    decreases |es|
  {
    if es == [] then r == r'
    else r.idx < |r.t| && AnyAllowed(r, es[0]) && AnyReaches(AnyStep(r, es[0]), es[1..], r')
  }

  /** The driver owns exactly the first n descriptors. */
  ghost predicate OwnsFirst(t: seq<RxDesc>, n: nat) {
    n <= |t| && forall i :: 0 <= i < |t| ==> (t[i].owned <==> i < n)
  }

  /** A list without a descriptor for the controller never stays so. */
  lemma {:induction false} FullGivesBack(t: seq<RxDesc>, frame: seq<Byte>, s: nat, k: nat, open: bool,
                                         srcs: seq<nat>, copied: nat)
    requires s <= k <= |t| && copied <= |frame| && Owned(t, 0, |t|) && (s == 0 ==> k < |t|)
    ensures Gather(t, frame, s, k, open, srcs, copied).released > 0
    decreases |t| - k
  {
    if k < |t| {
      match LookAt(t, frame, s, k, open, srcs, copied)
      case Stop(o) =>
      case Go(f, s', k', open', srcs', c) => FullGivesBack(t, f, s', k', open', srcs', c);
    }
  }

  /** One call on any list: the driver goes on owning exactly what it has not given back, a report
      uses up descriptors, and a full list gets some back. */
  lemma ReadKeepsOwnership(t: seq<RxDesc>, n: nat, frame: seq<Byte>)
    requires t != [] && OwnsFirst(t, n)
    ensures var o := Read(t, frame);
            && o.released <= n && OwnsFirst(MovedOn(t, o.released), n - o.released)
            && (o.status != NoData || n == |t| ==> o.released > 0)
  {
    var o := Read(t, frame);
    GivesBackAPrefix(t, frame);
    if n == |t| { FullGivesBack(t, frame, 0, 0, false, [], 0); }
    if o.released > 0 { assert t[o.released - 1].owned; }
    PrefixMovedOn(t, n, o.released);
  }

  lemma PrefixMovedOn(t: seq<RxDesc>, n: nat, k: nat)
    requires t != [] && OwnsFirst(t, n) && k <= n
    ensures OwnsFirst(MovedOn(t, k), n - k)
  {
    ReleaseAt(t, k);
    TurnAt(Release(t, k), At(0, k, |t|));
  }

  /** Exactly the physically last descriptor, of the list read from index idx on, carries WRAP. */
  ghost predicate WrapsLast(t: seq<RxDesc>, idx: nat) {
    idx < |t| && forall k :: 0 <= k < |t| ==> (t[k].wrap <==> At(idx, k, |t|) == |t| - 1)
  }

  lemma MovedOnWraps(t: seq<RxDesc>, idx: nat, n: nat)
    requires n <= |t| && WrapsLast(t, idx)
    ensures WrapsLast(MovedOn(t, n), At(idx, n, |t|))
  {
    hide Release, Turn;
    ReleaseAt(t, n);
    var m, r := At(0, n, |t|), MovedOn(t, n);
    TurnAt(Release(t, n), m);
    forall k | 0 <= k < |t| ensures r[k].wrap <==> At(At(idx, n, |t|), k, |t|) == |t| - 1 {
      assert r[k].wrap == t[At(m, k, |t|)].wrap;
    }
  }

  ghost predicate Tallied(r: AnyRing) {
    && r.t != [] && OwnsFirst(r.t, r.filled) && r.filled + r.released == r.arrived && r.reports <= r.released
    && WrapsLast(r.t, r.idx)
  }

  lemma {:induction false} AnyRunTallied(r: AnyRing, es: seq<Event>, r': AnyRing)
    requires Tallied(r) && AnyReaches(r, es, r')
    ensures Tallied(r') && |r'.t| == |r.t|
    decreases |es|
  {
    hide Read;
    if es != [] {
      if es[0].ReadCall? {
        ReadKeepsOwnership(r.t, r.filled, es[0].frame);
        MovedOnWraps(r.t, r.idx, Read(r.t, es[0].frame).released);
      }
      AnyRunTallied(AnyStep(r, es[0]), es[1..], r');
    }
  }

  /** From the reset list on, whatever the descriptors that arrive say: the driver owns exactly the
      descriptors filled and not yet given back, each report uses up at least one of them,
      reception cannot jam, because a call on a full list always gives some back, and exactly the
      physically last descriptor goes on carrying WRAP. */
  lemma ReceptionNeverJams(t: seq<RxDesc>, es: seq<Event>, r: AnyRing, frame: seq<Byte>)
    requires t != [] && (forall i :: 0 <= i < |t| ==> !t[i].owned && (t[i].wrap <==> i == |t| - 1))
    requires AnyReaches(AnyRing(t, 0, 0, 0, 0, 0), es, r)
    ensures |r.t| == |t| && forall i :: 0 <= i < |t| ==> (r.t[i].owned <==> i < r.filled)
    ensures r.filled + r.released == r.arrived && r.reports <= r.released
    ensures r.filled == |t| ==> Read(r.t, frame).released > 0
    ensures r.idx < |t| && forall k :: 0 <= k < |t| ==> (r.t[k].wrap <==> r.idx + k == |t| - 1)
  {
    AnyRunTallied(AnyRing(t, 0, 0, 0, 0, 0), es, r);
    ReadKeepsOwnership(r.t, r.filled, frame);
  }
}
