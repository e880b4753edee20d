/**
 Complete frames that gmac_dev_read gives back to the controller without having reported them,
 because a frame that was cut short took the copying off.
 */
module GmacRxLoss {
  import opened Bytes
  import opened Circular
  import opened GmacRx

  /** The buffers copied are those of the frame lo..hi, and a frame is reported. */
  ghost predicate Reports(o: Outcome, lo: nat, hi: nat) {
    lo <= hi && (o.status == Ok || o.status == SizeTooSmall) && o.srcs == Range(lo, hi)
  }

  /** A frame that lies complete in the list is not reported, and its start is given back. */
  ghost predicate LostIn(t: seq<RxDesc>, o: Outcome, lo: nat, hi: nat) {
    WholeFrame(t, lo, hi) && lo < o.released && !Reports(o, lo, hi)
  }

  ghost predicate Loses(t: seq<RxDesc>, o: Outcome) {
    exists lo: nat, hi: nat :: LostIn(t, o, lo, hi)
  }

  // ---------------------------------------------------------------- the condition on the list

  ghost predicate Complete(t: seq<RxDesc>, lo: nat) {
    exists hi: nat :: WholeFrame(t, lo, hi)
  }

  /** k is the first start or end behind lo, and has arrived. */
  ghost predicate NextMark(t: seq<RxDesc>, lo: nat, k: nat) {
    lo < k < |t| && Owned(t, lo, k + 1) && NoSof(t, lo + 1, k) && NoEof(t, lo + 1, k) && (t[k].sof || t[k].eof)
  }

  /** lo..hi is the first complete frame from s on. It is lost if it fills more than one buffer;
      a frame of one buffer is reported when a start follows it at once, and then the frame that
      starts there is the one lost, if it is complete. */
  ghost predicate Doomed(t: seq<RxDesc>, s: nat, lo: nat, hi: nat) {
    && s <= lo && Owned(t, s, hi) && WholeFrame(t, lo, hi) && NoEof(t, s, lo)
    && (hi > lo + 1 || exists k: nat :: NextMark(t, lo, k) && (t[lo + 1].sof ==> Complete(t, lo + 1)))
  }

  ghost predicate DoomedFrom(t: seq<RxDesc>, s: nat) {
    exists lo: nat, hi: nat :: Doomed(t, s, lo, hi)
  }

  /** One frame fills the whole list, or a complete frame behind a cut is doomed. */
  ghost predicate LossAhead(t: seq<RxDesc>) {
    WholeFrame(t, 0, |t|) || exists j, c: nat :: CutAt(t, j, c) && DoomedFrom(t, c)
  }

  // ---------------------------------------------------------------- the loop, once it is off

  ghost function Mark(t: seq<RxDesc>, k: nat): (m: nat)
    requires k <= |t|
    ensures k <= m <= |t| && Owned(t, k, m) && NoSof(t, k, m) && NoEof(t, k, m)
    ensures m < |t| && t[m].owned ==> t[m].sof || t[m].eof
    decreases |t| - k
  {
    if k == |t| || !t[k].owned || t[k].sof || t[k].eof then k else Mark(t, k + 1)
  }

  /** Between marks the loop only copies. */
  lemma {:induction false} RunsOn(t: seq<RxDesc>, f: seq<Byte>, s: nat, k: nat, srcs: seq<nat>, copied: nat, e: nat)
    returns (f': seq<Byte>, srcs': seq<nat>, copied': nat)
    requires 0 < s < k <= e <= |t| && copied <= |f| && srcs != []
    requires Owned(t, k, e) && NoSof(t, k, e) && NoEof(t, k, e)
    ensures copied' <= |f'| && srcs' != [] && srcs'[0] == srcs[0]
    ensures Gather(t, f, s, k, true, srcs, copied) == Gather(t, f', s, e, true, srcs', copied')
    decreases e - k
  {
    f', srcs', copied' := f, srcs, copied;
    if k < e {
      var (f1, c1) := CopyChunk(f, copied, t[k].buf);
      f', srcs', copied' := RunsOn(t, f1, s, k + 1, srcs + [k], c1, e);
    }
  }

  ghost predicate NoneBefore(t: seq<RxDesc>, s: nat) {
    forall lo: nat, hi: nat :: WholeFrame(t, lo, hi) ==> s <= lo
  }

  /** From the descriptor behind a start found while a frame was open. */
  lemma {:induction false} OffLoses(t: seq<RxDesc>, f: seq<Byte>, s: nat, srcs: seq<nat>, copied: nat)
    requires 0 < s < |t| && copied <= |f| && OneEarly(s, srcs)
    requires t[s].owned && t[s].sof && NoneBefore(t, s)
    ensures Loses(t, Gather(t, f, s, s + 1, true, srcs, copied)) <==> DoomedFrom(t, s)
    decreases |t| - s
  {
    hide Gather, Loses, DoomedFrom, NoneBefore;
    var m := Mark(t, s + 1);
    var f1, srcs1, c1 := RunsOn(t, f, s, s + 1, srcs, copied, m);
    if m == |t| || !t[m].owned {
      NothingDoomed(t, s, m);
      NothingLost(t, f1, s, m, srcs1, c1);
    } else if !t[m].sof {
      EndsOff(t, f1, s, m, srcs1, c1);
    } else if m == s + 1 && t[s].eof {
      ReportsBefore(t, f1, s, srcs1, c1);
    } else {
      var f2, c2 := StartsOver(t, f1, s, m, srcs1, c1);
      if t[s].eof {
        PassesOver(t, f2, s, m, c2);
      } else {
        NoneUntil(t, s, m);
        OffLoses(t, f2, m, [m - 1], c2);
        DoomedLater(t, s, m);
      }
    }
  }

  lemma NothingLost(t: seq<RxDesc>, f: seq<Byte>, s: nat, m: nat, srcs: seq<nat>, copied: nat)
    requires s < m <= |t| && copied <= |f| && NoneBefore(t, s) && (m == |t| || !t[m].owned)
    ensures !Loses(t, Gather(t, f, s, m, true, srcs, copied))
  {
  }

  lemma StartsOver(t: seq<RxDesc>, f: seq<Byte>, s: nat, m: nat, srcs: seq<nat>, copied: nat)
    returns (f': seq<Byte>, copied': nat)
    requires s < m < |t| && copied <= |f| && t[m].owned && t[m].sof && !t[m - 1].eof
    ensures copied' <= |f'|
    ensures Gather(t, f, s, m, true, srcs, copied) == Gather(t, f', m, m + 1, true, [m - 1], copied')
  {
    var (f1, c1) := CopyChunk(f, 0, t[m - 1].buf);
    f', copied' := f1, c1;
    assert [] + [m - 1] == [m - 1];
  }

  lemma NothingDoomed(t: seq<RxDesc>, s: nat, m: nat)
    requires s < m <= |t| && t[s].sof && NoSof(t, s + 1, m) && NoEof(t, s + 1, m) && (m == |t| || !t[m].owned)
    ensures !DoomedFrom(t, s)
  {
    forall lo: nat, hi: nat ensures !Doomed(t, s, lo, hi) {
    }
  }

  /** An end of frame: reported with a first buffer that is not the frame's. */
  lemma EndsOff(t: seq<RxDesc>, f: seq<Byte>, s: nat, m: nat, srcs: seq<nat>, copied: nat)
    requires 0 < s < m < |t| && copied <= |f| && OneEarly(s, srcs) && Owned(t, s, m + 1)
    requires t[s].sof && NoSof(t, s + 1, m + 1) && NoEof(t, s + 1, m) && t[m].eof
    ensures Loses(t, Gather(t, f, s, m, true, srcs, copied)) && DoomedFrom(t, s)
  {
    var o := Gather(t, f, s, m, true, srcs, copied);
    var hi := if t[s].eof then s + 1 else m + 1;
    assert WholeFrame(t, s, hi);
    assert o.released == m + 1 && o.srcs[0] == s - 1;
    assert !Reports(o, s, hi) by { assert Range(s, hi)[0] == s; }
    assert LostIn(t, o, s, hi);
    assert NextMark(t, s, m);
    assert Doomed(t, s, s, hi);
  }

  /** A start right behind a frame of one buffer: that frame is reported, the new start is given
      back. */
  lemma ReportsBefore(t: seq<RxDesc>, f: seq<Byte>, s: nat, srcs: seq<nat>, copied: nat)
    requires 0 < s && s + 1 < |t| && copied <= |f| && Owned(t, s, s + 2) && NoneBefore(t, s)
    requires t[s].sof && t[s].eof && t[s + 1].sof
    ensures Loses(t, Gather(t, f, s, s + 1, true, srcs, copied)) <==> DoomedFrom(t, s)
  {
    var o := Gather(t, f, s, s + 1, true, srcs, copied);
    assert [] + [s] == Range(s, s + 1);
    assert o.released == s + 2 && o.srcs == Range(s, s + 1);
    assert NextMark(t, s, s + 1) && WholeFrame(t, s, s + 1);
    forall lo: nat, hi: nat ensures LostIn(t, o, lo, hi) <==> lo == s + 1 && WholeFrame(t, lo, hi) {
      if lo == s + 1 && WholeFrame(t, lo, hi) { assert Range(lo, hi)[0] == lo; }
    }
    assert Complete(t, s + 1) <==> Loses(t, o);
    assert Complete(t, s + 1) ==> Doomed(t, s, s, s + 1);
    forall lo: nat, hi: nat | Doomed(t, s, lo, hi) ensures Complete(t, s + 1) {
      assert lo == s;
    }
  }

  /** A frame of one buffer whose end was not looked at. */
  lemma PassesOver(t: seq<RxDesc>, f: seq<Byte>, s: nat, m: nat, copied: nat)
    requires 0 < s && s + 1 < m < |t| && copied <= |f| && Owned(t, s, m + 1)
    requires t[s].sof && t[s].eof && NoSof(t, s + 1, m) && NoEof(t, s + 1, m) && t[m].sof
    ensures Loses(t, Gather(t, f, m, m + 1, true, [m - 1], copied)) && DoomedFrom(t, s)
  {
    var o := Gather(t, f, m, m + 1, true, [m - 1], copied);
    StaysOff(t, f, m, m + 1, [m - 1], copied);
    assert !Reports(o, s, s + 1) by { assert Range(s, s + 1)[0] == s; }
    assert LostIn(t, o, s, s + 1);
    assert NextMark(t, s, m);
    assert Doomed(t, s, s, s + 1);
  }

  lemma NoneUntil(t: seq<RxDesc>, s: nat, m: nat)
    requires s < m < |t| && NoneBefore(t, s) && NoSof(t, s + 1, m) && NoEof(t, s, m) && t[m].sof
    ensures NoneBefore(t, m)
  {
    forall lo: nat, hi: nat | WholeFrame(t, lo, hi) ensures m <= lo {
    }
  }

  lemma DoomedLater(t: seq<RxDesc>, s: nat, m: nat)
    requires s <= m < |t| && Owned(t, s, m) && NoEof(t, s, m) && t[m].sof
    ensures DoomedFrom(t, m) ==> DoomedFrom(t, s)
    ensures s < m && NoSof(t, s + 1, m) ==> (DoomedFrom(t, s) ==> DoomedFrom(t, m))
  {
    forall lo: nat, hi: nat | Doomed(t, m, lo, hi) ensures DoomedFrom(t, s) {
      assert Doomed(t, s, lo, hi);
    }
    if s < m && NoSof(t, s + 1, m) {
      forall lo: nat, hi: nat | Doomed(t, s, lo, hi) ensures DoomedFrom(t, m) {
        assert Doomed(t, m, lo, hi);
      }
    }
  }

  // ---------------------------------------------------------------- exactly when

  /** For every list: a call gives a complete frame back unreported exactly when one frame fills
      the whole list, or the first complete frame behind one cut short has several buffers, or it
      has one buffer and is followed by another complete frame, or by a descriptor that is no
      start and then a start or an end. */
  lemma LosesIff(t: seq<RxDesc>, frame: seq<Byte>)
    ensures Loses(t, Read(t, frame)) <==> LossAhead(t)
  {
    var j := FirstStart(t, 0);
    if j == |t| || !t[j].owned {
      DropsFragments(t, frame, j);
      NothingStarts(t, j);
      NoLossBefore(t, Read(t, frame), j);
    } else if t[j].eof {
      OneFrame(t, frame, j, j);
    } else {
      var m := Mark(t, j + 1);
      if m == |t| || !t[m].owned {
        NotEnded(t, frame, j, m);
      } else if t[m].sof {
        IsCutShort(t, frame, j, m);
      } else {
        OneFrame(t, frame, j, m);
      }
    }
  }

  lemma NoLossBefore(t: seq<RxDesc>, o: Outcome, j: nat)
    requires j <= |t| && NoSof(t, 0, j) && o.released <= j && (j == |t| || !t[j].owned)
    ensures !Loses(t, o) && !WholeFrame(t, 0, |t|)
  {
  }

  /** The first frame ends at e. */
  lemma OneFrame(t: seq<RxDesc>, frame: seq<Byte>, j: nat, e: nat)
    requires j <= e < |t| && Owned(t, 0, j) && NoSof(t, 0, j) && WholeFrame(t, j, e + 1)
    ensures Loses(t, Read(t, frame)) <==> LossAhead(t)
  {
    var o := Read(t, frame);
    NotCut(t, j, e + 1);
    if j == 0 && e + 1 == |t| {
      FullTurnIsError(t, frame);
      assert LostIn(t, o, 0, |t|);
    } else {
      DeliversFrame(t, frame, j, e + 1 - j);
      forall lo: nat, hi: nat ensures !LostIn(t, o, lo, hi) {
        if WholeFrame(t, lo, hi) && lo < o.released { assert lo == j && hi == e + 1; }
      }
    }
  }

  lemma NotEnded(t: seq<RxDesc>, frame: seq<Byte>, j: nat, m: nat)
    requires Owned(t, 0, j) && NoSof(t, 0, j) && Beginning(t, j, m) && (m == |t| || !t[m].owned)
    ensures !Loses(t, Read(t, frame)) && !LossAhead(t)
  {
    NotCut(t, j, m);
    if j == 0 && m == |t| {
      FullTurnIsError(t, frame);
    } else {
      KeepsBeginning(t, frame, j, m);
    }
  }

  lemma IsCutShort(t: seq<RxDesc>, frame: seq<Byte>, j: nat, m: nat)
    requires Owned(t, 0, j) && NoSof(t, 0, j) && Beginning(t, j, m) && m < |t| && t[m].owned && t[m].sof
    ensures Loses(t, Read(t, frame)) <==> LossAhead(t)
  {
    hide Gather, Loses, DoomedFrom, NoneBefore;
    var f, c := OpensFrame(t, frame, j, m);
    var f2, c2 := StartsOver(t, f, j, m, Range(j, m), c);
    NoneInFragments(t, j);
    NoneUntil(t, j, m);
    OffLoses(t, f2, m, [m - 1], c2);
    assert CutAt(t, j, m);
    forall j', c': nat | CutAt(t, j', c') && DoomedFrom(t, c') ensures DoomedFrom(t, m) {
      assert j' == j && m <= c';
      DoomedLater(t, m, c');
    }
  }

  lemma NoneInFragments(t: seq<RxDesc>, j: nat)
    requires NoSof(t, 0, j)
    ensures NoneBefore(t, j)
  {
  }

  // ---------------------------------------------------------------- two lists

  /** A start, a frame of one buffer, another one: the first frame is reported, the second is given
      back without having been copied. */
  lemma CutFrameIsLost(a: seq<Byte>, b: seq<Byte>, c: seq<Byte>, frame: seq<Byte>)
    requires |a| == UNIT && |b| == UNIT && |c| == UNIT && |frame| >= UNIT
    ensures var t := [RawDesc(true, false, true, false, 0, a), RawDesc(true, false, true, true, 60, b),
                      RawDesc(true, false, true, true, 60, c), RawDesc(false, true, false, false, 0, a)];
            var o := Read(t, frame);
            && o.status == Ok && o.rcvSize == 60 && o.srcs == [1] && o.released == 3 && o.frame[..60] == b[..60]
            && LostIn(t, o, 2, 3)
  {
    var t: seq<RxDesc> := [RawDesc(true, false, true, false, 0, a), RawDesc(true, false, true, true, 60, b),
                           RawDesc(true, false, true, true, 60, c), RawDesc(false, true, false, false, 0, a)];
    var (f1, c1) := CopyChunk(frame, 0, a);
    assert Read(t, frame) == Gather(t, f1, 0, 1, true, [] + [0], c1);
    var (f2, c2) := CopyChunk(f1, 0, a);
    assert Gather(t, f1, 0, 1, true, [] + [0], c1) == Gather(t, f2, 1, 2, true, [] + [0], c2);
    var (f3, c3) := CopyChunk(f2, 0, b);
    assert Gather(t, f2, 1, 2, true, [] + [0], c2) == Outcome(Ok, 60, 3, f3, 2, [] + [1]);
    assert f3[..60] == b[..60];
    assert [] + [1] == [1] && Range(2, 3)[0] == 2;
  }

  /** Without the second one the frame is only held up: this call reports nothing, the next one
      reports the frame. */
  lemma CutFrameIsDelayed(a: seq<Byte>, b: seq<Byte>, frame: seq<Byte>)
    requires |a| == UNIT && |b| == UNIT && |frame| >= UNIT
    ensures var t := [RawDesc(true, false, true, false, 0, a), RawDesc(true, false, true, true, 60, b),
                      RawDesc(false, true, false, false, 0, a)];
            var o := Read(t, frame);
            && o.status == NoData && o.released == 1 && !Loses(t, o)
            && Delivered(Read(MovedOn(t, 1), frame), MovedOn(t, 1), frame, 0, 1)
  {
    var t: seq<RxDesc> := [RawDesc(true, false, true, false, 0, a), RawDesc(true, false, true, true, 60, b),
                           RawDesc(false, true, false, false, 0, a)];
    var (f1, c1) := CopyChunk(frame, 0, a);
    assert Read(t, frame) == Gather(t, f1, 0, 1, true, [] + [0], c1);
    var (f2, c2) := CopyChunk(f1, 0, a);
    assert Gather(t, f1, 0, 1, true, [] + [0], c1) == Gather(t, f2, 1, 2, true, [] + [0], c2);
    LeftOver(t, 1, 2);
    assert MovedOn(t, 1)[..1][0] == t[1..2][0];
    DeliversFrame(MovedOn(t, 1), frame, 0, 1);
  }
}
