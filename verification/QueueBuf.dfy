/**
 queuebuf.c with swapping. A queue buffer lives in RAM while there is room and otherwise in one of
 four swap files of 256 slots, named by a swap id. One RAM copy, tmpdata, stands for the swapped
 buffer used last; every store writes it through to a fresh slot.
 */
module QueueBuf {
  import opened Bytes
  import PacketBuf
  import Pools

  /** Attributes and addresses of a packet, copied in one piece. */
  type Attrs = PacketBuf.Attrs

  /** NQBUF_FILES, NQBUF_PER_FILE, NQBUF_ID */
  const FILES: nat := 4
  const PER_FILE: nat := 256
  const IDS: nat := 1024

  /** struct queuebuf_data: the first `len` bytes and the attributes. */
  datatype Content = Content(bytes: seq<Byte>, attrs: Attrs)

  const BLANK: Content := Content([], PacketBuf.Attrs(0, 0, NULL_ADDR, NULL_ADDR, [], []))

  /** The union of ram_ptr and swap_id. A pointer never equals an id in use, nor -1. */
  datatype Word = RamPtr(i: nat) | SwapId(id: int)

  datatype Loc = InRam | InCfs

  datatype Buf = Buf(loc: Loc, word: Word)

  datatype File = File(usage: int, renewable: bool)

  /** `bufs` is all of bufmem, handed out or not; `live` and `ramUsed` are the elements handed out.
      `slots` is the contents of the four files, indexed by swap id. */
  datatype State = State(bufs: seq<Buf>, live: set<nat>, ram: seq<Content>, ramUsed: set<nat>,
                         files: seq<File>, slots: seq<Content>, next: nat,
                         tmp: Content, tmpBuf: Option<nat>)

  ghost predicate Shape(s: State) {
    && |s.files| == FILES && |s.slots| == IDS && s.next < IDS
    && (forall h :: h in s.live ==> h < |s.bufs|)
    && (s.tmpBuf.Some? ==> s.tmpBuf.value < |s.bufs|)
  }

  // ---------------------------------------------------------------- the swap files

  /** Slots of file f become unreadable when the file is removed. */
  function Erase(slots: seq<Content>, f: nat): (r: seq<Content>)
    ensures |r| == |slots|
    ensures forall i :: 0 <= i < |slots| ==> r[i] == if i / PER_FILE == f then BLANK else slots[i]
  {
    seq(|slots|, i requires 0 <= i < |slots| => if i / PER_FILE == f then BLANK else slots[i])
  }

  /** qbuf_renew_file */
  function RenewFile(s: State, f: nat): State
    requires f < |s.files|
  {
    s.(files := s.files[f := File(0, false)],
       slots := if s.files[f].renewable then Erase(s.slots, f) else s.slots)
  }

  /** qbuf_renew_all, from file f on. */
  function RenewFrom(s: State, f: nat): (r: State)
    requires Shape(s) && f <= FILES
    ensures Shape(r)
    decreases FILES - f
  {
    if f == FILES then s
    else RenewFrom(if s.files[f].renewable then RenewFile(s, f) else s, f + 1)
  }

  /** queuebuf_remove_from_file */
  function RemoveFromFile(s: State, id: int): State
    requires Shape(s) && -1 <= id < IDS
  {
    if id == -1 then s
    else
      var f := id / PER_FILE;
      var u := s.files[f].usage - 1;
      var r := s.files[f].renewable || (u == 0 && f != s.next / PER_FILE);
      var s1 := s.(files := s.files[f := File(u, r)]);
      if s.tmpBuf.Some? && s.bufs[s.tmpBuf.value].word == SwapId(id) then
        s1.(bufs := s.bufs[s.tmpBuf.value := s.bufs[s.tmpBuf.value].(word := SwapId(-1))])
      else s1
  }

  /** get_new_swap_id */
  function GetNewSwapId(s: State): (r: (State, int))
    requires Shape(s)
    ensures -1 <= r.1 < IDS && Shape(r.0)
  {
    var id: int := s.next;
    var f := id / PER_FILE;
    var s1 := if id % PER_FILE == 0 && s.files[f].renewable then RenewFile(s, f) else s;
    if id % PER_FILE == 0 && s1.files[f].usage > 0 then (s1, -1 as int)
    else
      (s1.(files := s1.files[f := s1.files[f].(usage := s1.files[f].usage + 1)], next := (id + 1) % IDS), id)
  }

  /** The buffer the cache stands for, as a swapped buffer. */
  ghost predicate CachesSwapped(s: State) {
    && Shape(s) && s.tmpBuf.Some?
    && s.bufs[s.tmpBuf.value].word.SwapId? && -1 <= s.bufs[s.tmpBuf.value].word.id < IDS
  }

  /** queuebuf_flush_tmpdata */
  function Flush(s: State): (r: (State, bool))
    requires CachesSwapped(s)
    ensures Shape(r.0) && |r.0.bufs| == |s.bufs|
  {
    var t := s.tmpBuf.value;
    var s1 := RemoveFromFile(s, s.bufs[t].word.id);
    var (s2, id) := GetNewSwapId(s1);
    var s3 := s2.(bufs := s2.bufs[t := s2.bufs[t].(word := SwapId(id))]);
    if id == -1 then (s3, false) else (s3.(slots := s3.slots[id := s3.tmp]), true)
  }

  // ---------------------------------------------------------------- the operations

  ghost predicate Usable(s: State, h: nat) {
    && Shape(s) && h in s.live
    && match s.bufs[h].loc
       case InRam => s.bufs[h].word.RamPtr? && s.bufs[h].word.i < |s.ram|
       case InCfs => s.bufs[h].word.SwapId? && -1 <= s.bufs[h].word.id < IDS
  }

  /** queuebuf_load_to_ram: the cache moves unless it already carries the buffer's id. The id -1
      names no slot: seeking to it fails, and the read that follows leaves `junk` in tmpdata. */
  function Load(s: State, h: nat, junk: Content): State
    requires Usable(s, h)
  {
    if s.bufs[h].loc == InRam then s
    else if s.tmpBuf.Some? && s.bufs[s.tmpBuf.value].word == s.bufs[h].word then s
    else
      var id := s.bufs[h].word.id;
      s.(tmpBuf := Some(h), tmp := if id == -1 then junk else s.slots[id])
  }

  /** What the pointer returned by queuebuf_load_to_ram shows. */
  function Loaded(s: State, h: nat, junk: Content): Content
    requires Usable(s, h)
  {
    if s.bufs[h].loc == InRam then s.ram[s.bufs[h].word.i] else Load(s, h, junk).tmp
  }

  /** queuebuf_new_from_packetbuf with the elements the two pools hand out. */
  function New(s: State, h: Option<nat>, r: Option<nat>, c: Content): (x: (State, bool))
    requires Shape(s) && (h.Some? ==> h.value < |s.bufs| && (r.Some? ==> r.value < |s.ram|))
    ensures Shape(x.0)
  {
    if h.None? then (s, false)
    else if r.Some? then
      (s.(bufs := s.bufs[h.value := Buf(InRam, RamPtr(r.value))], live := s.live + {h.value},
          ram := s.ram[r.value := c], ramUsed := s.ramUsed + {r.value}), true)
    else
      var s1 := s.(bufs := s.bufs[h.value := Buf(InCfs, SwapId(-1))], live := s.live + {h.value},
                   tmpBuf := h, tmp := c);
      var (s2, ok) := Flush(s1);
      (if ok then s2 else s2.(live := s2.live - {h.value}), ok)
  }

  /** queuebuf_update_from_packetbuf: store through the loaded pointer, whatever it showed, then
      flush if the buffer is swapped. */
  function Update(s: State, h: nat, c: Content): (r: (State, bool))
    requires Usable(s, h)
    ensures Shape(r.0)
  {
    var s1 := Load(s, h, c);
    if s.bufs[h].loc == InRam then (s1.(ram := s1.ram[s.bufs[h].word.i := c]), true)
    else Flush(s1.(tmp := c))
  }

  /** queuebuf_update_attr_from_packetbuf */
  function UpdateAttr(s: State, h: nat, attrs: Attrs, junk: Content): (State, bool)
    requires Usable(s, h)
  {
    Update(s, h, Loaded(s, h, junk).(attrs := attrs))
  }

  /** queuebuf_free */
  function Free(s: State, h: nat): (r: State)
    requires Usable(s, h)
    ensures Shape(r)
  {
    var s1 := if s.bufs[h].loc == InRam then s.(ramUsed := s.ramUsed - {s.bufs[h].word.i})
              else RemoveFromFile(s, s.bufs[h].word.id);
    s1.(live := s1.live - {h})
  }

  // ---------------------------------------------------------------- the invariant

  ghost predicate Owns(s: State, h: nat, id: int) {
    h in s.live && h < |s.bufs| && s.bufs[h] == Buf(InCfs, SwapId(id)) && 0 <= id < IDS
  }

  /** The cache stands for the record of a freed buffer, and an update has given that record an id. */
  ghost predicate Stray(s: State, t: nat, id: int) {
    && s.tmpBuf == Some(t) && t !in s.live && t < |s.bufs|
    && s.bufs[t].word == SwapId(id) && 0 <= id < IDS
  }

  ghost predicate Claims(s: State, h: nat, id: int) {
    Owns(s, h, id) || Stray(s, h, id)
  }

  /** The live buffers with an id in file f. */
  ghost function Owners(s: State, f: int): set<nat> {
    set h | h in s.live && h < |s.bufs| && s.bufs[h].loc == InCfs && s.bufs[h].word.SwapId?
            && 0 <= s.bufs[h].word.id < IDS && s.bufs[h].word.id / PER_FILE == f
  }

  /** How many slots of file f are in use on paper without a live buffer. */
  ghost function Charge(s: State, f: int): int
    requires |s.files| == FILES && 0 <= f < FILES
  {
    s.files[f].usage - |Owners(s, f)|
  }

  ghost predicate IdsUnique(s: State) {
    forall h, g, id :: Claims(s, h, id) && Claims(s, g, id) ==> h == g
  }

  ghost predicate UsageCovers(s: State) {
    && |s.files| == FILES
    && (forall f :: 0 <= f < FILES ==> Charge(s, f) >= 0)
    && (forall t, id :: Stray(s, t, id) ==> Charge(s, id / PER_FILE) > 0)
  }

  ghost predicate RenewableEmpty(s: State) {
    |s.files| == FILES &&
    forall f :: 0 <= f < FILES && s.files[f].renewable ==>
      s.files[f].usage == 0 && (f != s.next / PER_FILE || s.next % PER_FILE == 0)
  }

  ghost predicate AheadFree(s: State) {
    s.next % PER_FILE != 0 ==>
      forall h, id :: Claims(s, h, id) && id / PER_FILE == s.next / PER_FILE ==> id < s.next
  }

  /** No id is claimed twice, each file's usage is at least the number of claims, a renewable file
      has none, and the slots the allocator will hand out next in the current file are not in use. */
  ghost predicate IdsSafe(s: State) {
    && Shape(s)
    && (forall h :: h in s.live ==> Usable(s, h))
    && IdsUnique(s) && UsageCovers(s) && RenewableEmpty(s) && AheadFree(s)
  }

  /** Every usage is the number of live buffers with an id in the file. */
  ghost predicate UsageExact(s: State) {
    |s.files| == FILES && forall f :: 0 <= f < FILES ==> Charge(s, f) == 0
  }

  /** From s to s' the charges stay, except that `lost` charges one more slot of the current file. */
  ghost predicate Charged(s: State, s': State, lost: bool) {
    && |s.files| == |s'.files| == FILES
    && forall f :: 0 <= f < FILES ==>
         Charge(s', f) == Charge(s, f) + if lost && f == s.next / PER_FILE then 1 else 0
  }

  ghost predicate OnRam(s: State, h: nat, i: nat) {
    h in s.live && h < |s.bufs| && s.bufs[h] == Buf(InRam, RamPtr(i)) && i < |s.ram|
  }

  /** RAM buffers have a RAM element each, and those are the ones handed out. */
  ghost predicate RamSafe(s: State) {
    && (forall h, g, i :: OnRam(s, h, i) && OnRam(s, g, i) ==> h == g)
    && (forall i :: i in s.ramUsed ==> i < |s.ram| && exists h :: OnRam(s, h, i))
    && (forall h, i :: OnRam(s, h, i) ==> i in s.ramUsed)
  }

  /** The store `m` is what the live buffers hold; a swapped buffer whose last flush failed has
      no id and holds nothing. */
  ghost predicate Holds(s: State, m: map<nat, Content>) {
    && |s.slots| == IDS
    && (forall h :: h in m ==> h in s.live && h < |s.bufs| && s.bufs[h] != Buf(InCfs, SwapId(-1)))
    && (forall h, id :: Owns(s, h, id) ==> h in m && m[h] == s.slots[id])
    && (forall h, i: nat :: OnRam(s, h, i) ==> h in m && m[h] == s.ram[i])
  }

  /** Whenever the cache carries an id, tmpdata is that file slot; with a swapped buffer around, the
      cache stands for some buffer. */
  ghost predicate CacheOk(s: State) {
    && Shape(s)
    && (s.tmpBuf.Some? ==>
          var w := s.bufs[s.tmpBuf.value].word;
          && (w.SwapId? ==> -1 <= w.id < IDS)
          && (w.SwapId? && w.id != -1 ==> s.tmp == s.slots[w.id]))
    && (s.tmpBuf.None? ==> forall h :: h in s.live ==> s.bufs[h].loc == InRam)
  }

  ghost predicate Inv(s: State, m: map<nat, Content>) {
    IdsSafe(s) && RamSafe(s) && Holds(s, m) && CacheOk(s)
  }

  // ---------------------------------------------------------------- ids

  lemma OwnerInFile(s: State, h: nat, id: int)
    requires Owns(s, h, id)
    ensures h in Owners(s, id / PER_FILE)
  {
  }

  /** A file that counts no slot in use has no claim on it. */
  lemma UnusedFile(s: State, f: nat)
    requires IdsSafe(s) && f < FILES && s.files[f].usage <= 0
    ensures s.files[f].usage == 0 && Owners(s, f) == {}
    ensures forall h, id :: Claims(s, h, id) ==> id / PER_FILE != f
  {
    assert Charge(s, f) >= 0;
    forall h, id | Claims(s, h, id) ensures id / PER_FILE != f {
      if Owns(s, h, id) { OwnerInFile(s, h, id); }
    }
  }

  /** A renewable file holds no claimed id, so renewing it discards no live buffer. */
  lemma RenewalDiscardsNothing(s: State, f: nat)
    requires IdsSafe(s) && f < FILES && s.files[f].renewable
    ensures Charged(s, RenewFile(s, f), false) && IdsSafe(RenewFile(s, f))
    ensures forall h, id :: Claims(s, h, id) ==> id / PER_FILE != f && RenewFile(s, f).slots[id] == s.slots[id]
  {
    UnusedFile(s, f);
    SameOwners(s, RenewFile(s, f));
  }

  /** Ownership depends on the buffer records alone, stray ids on the cache as well. */
  lemma SameOwners(s: State, s': State)
    requires s'.bufs == s.bufs && s'.live == s.live
    ensures forall h, id :: Owns(s', h, id) <==> Owns(s, h, id)
    ensures forall f :: Owners(s', f) == Owners(s, f)
    ensures s'.tmpBuf == s.tmpBuf ==>
              && (forall h, id :: Stray(s', h, id) <==> Stray(s, h, id))
              && (forall h, id :: Claims(s', h, id) <==> Claims(s, h, id))
  {
  }

  /** The record of h with its id taken away. */
  function Disowned(s: State, h: nat): State
    requires h < |s.bufs|
  {
    s.(bufs := s.bufs[h := s.bufs[h].(word := SwapId(-1))])
  }

  lemma DisownedOwners(s: State, h: nat, id: int)
    requires Owns(s, h, id)
    ensures forall g, i :: Owns(Disowned(s, h), g, i) <==> Owns(s, g, i) && g != h
    ensures forall g, i :: Stray(Disowned(s, h), g, i) <==> Stray(s, g, i)
    ensures forall f :: Owners(Disowned(s, h), f) == if f == id / PER_FILE then Owners(s, f) - {h} else Owners(s, f)
  {
    forall f ensures Owners(Disowned(s, h), f) == if f == id / PER_FILE then Owners(s, f) - {h} else Owners(s, f) {
      assert Owners(Disowned(s, h), f) == Owners(s, f) - {h};
    }
  }

  /** Removing a live id from its file and its record. */
  function Removed(s: State, h: nat, id: int): State
    requires Shape(s) && h < |s.bufs| && 0 <= id < IDS
  {
    Disowned(s.(files := RemoveFromFile(s, id).files), h)
  }

  lemma RemovedOwners(s: State, h: nat, id: int)
    requires Shape(s) && Owns(s, h, id)
    ensures forall g, i :: Owns(Removed(s, h, id), g, i) <==> Owns(s, g, i) && g != h
    ensures forall g, i :: Stray(Removed(s, h, id), g, i) <==> Stray(s, g, i)
    ensures forall g, i :: Claims(Removed(s, h, id), g, i) ==> Claims(s, g, i)
    ensures forall f :: Owners(Removed(s, h, id), f) == if f == id / PER_FILE then Owners(s, f) - {h} else Owners(s, f)
  {
    var s1 := s.(files := RemoveFromFile(s, id).files);
    SameOwners(s, s1);
    DisownedOwners(s1, h, id);
  }

  lemma RemovedCharges(s: State, h: nat, id: int)
    requires Shape(s) && Owns(s, h, id)
    ensures Charged(s, Removed(s, h, id), false)
  {
    var s', f := Removed(s, h, id), id / PER_FILE;
    RemovedOwners(s, h, id);
    OwnerInFile(s, h, id);
    assert |Owners(s, f) - {h}| == |Owners(s, f)| - 1;
    assert s'.files == s.files[f := s'.files[f]];
  }

  /** Only the record of h shows its id, so only that record is changed. */
  lemma RemovalKeepsIdsSafe(s: State, h: nat, id: int)
    requires IdsSafe(s) && Owns(s, h, id)
    ensures Disowned(RemoveFromFile(s, id), h) == Removed(s, h, id)
    ensures IdsSafe(Removed(s, h, id)) && Charged(s, Removed(s, h, id), false)
  {
    RemovedOwners(s, h, id);
    RemovedCharges(s, h, id);
    RemovedRest(s, h, id);
    assert s.tmpBuf.Some? && s.bufs[s.tmpBuf.value].word == SwapId(id) ==> Claims(s, s.tmpBuf.value, id) by {
      if s.tmpBuf.Some? && s.tmpBuf.value in s.live { assert Usable(s, s.tmpBuf.value); }
    }
    assert Claims(s, h, id);
  }

  lemma RemovedRest(s: State, h: nat, id: int)
    requires IdsSafe(s) && Owns(s, h, id)
    ensures UsageCovers(Removed(s, h, id)) && RenewableEmpty(Removed(s, h, id))
  {
    var s', f := Removed(s, h, id), id / PER_FILE;
    RemovedOwners(s, h, id);
    RemovedCharges(s, h, id);
    assert forall i :: 0 <= i < FILES && i != f ==> s'.files[i] == s.files[i];
    OwnerInFile(s, h, id);
    assert Charge(s, f) >= 0 && s.files[f].usage > 0;
  }

  /** Record h may be given an id: it has none, and it is live or what the cache stands for. */
  ghost predicate Takes(s: State, h: nat) {
    && h < |s.bufs| && s.bufs[h].word == SwapId(-1)
    && (if h in s.live then s.bufs[h].loc == InCfs else s.tmpBuf == Some(h))
  }

  /** The id handed out is claimed by nobody, and handing it out to h keeps ids safe; when no id is
      free nothing is lost. A dead record takes its slot at the file's charge. */
  lemma AllocationKeepsIdsSafe(s: State, h: nat)
    requires IdsSafe(s) && Takes(s, h)
    ensures var (s1, id) := GetNewSwapId(s);
            var s' := s1.(bufs := s.bufs[h := s.bufs[h].(word := SwapId(id))]);
            && IdsSafe(s') && Charged(s, s', id != -1 && h !in s.live)
            && s1 == s.(files := s1.files, slots := s1.slots, next := s1.next)
            && (forall g, i :: Claims(s, g, i) ==> i != id && s1.slots[i] == s.slots[i])
  {
    hide UsageCovers, RenewableEmpty, AheadFree, IdsUnique;
    var f := s.next / PER_FILE;
    var (s1, id) := GetNewSwapId(s);
    var first := s.next % PER_FILE == 0;
    var s0 := if first && s.files[f].renewable then RenewFile(s, f) else s;
    if first && s.files[f].renewable { RenewalDiscardsNothing(s, f); }
    SameOwners(s, s0);
    if id == -1 {
      assert s1.(bufs := s.bufs[h := s.bufs[h].(word := SwapId(id))]) == s0;
    } else {
      NextIsFree(s0);
      CurrentNotRenewable(s0, s);
      TakesNext(s0, h);
    }
  }

  lemma CurrentNotRenewable(s0: State, s: State)
    requires IdsSafe(s)
    requires var f := s.next / PER_FILE;
             s0 == if s.next % PER_FILE == 0 && s.files[f].renewable then RenewFile(s, f) else s
    ensures !s0.files[s.next / PER_FILE].renewable
  {
  }

  /** The allocator is about to enter a file that counts slots in use. */
  ghost predicate Refused(s: State)
    requires Shape(s)
  {
    s.next % PER_FILE == 0 && s.files[s.next / PER_FILE].usage > 0
  }

  /** That is exactly when it hands out no id: some live buffer has an id in the file, or a slot of
      it is charged to nobody. */
  lemma AllocationRefusedIff(s: State)
    requires IdsSafe(s)
    ensures GetNewSwapId(s).1 == -1 <==> Refused(s)
    ensures Refused(s) ==> GetNewSwapId(s).0 == s
    ensures var f := s.next / PER_FILE;
            Refused(s) <==> s.next % PER_FILE == 0 && (Owners(s, f) != {} || Charge(s, f) > 0)
  {
    assert Charge(s, s.next / PER_FILE) >= 0;
    if Owners(s, s.next / PER_FILE) != {} { assert |Owners(s, s.next / PER_FILE)| > 0; }
  }

  /** The allocator refuses or its next id is free. */
  lemma NextIsFree(s: State)
    requires IdsSafe(s) && (s.next % PER_FILE == 0 ==> s.files[s.next / PER_FILE].usage <= 0)
    ensures forall g, i :: Claims(s, g, i) && i / PER_FILE == s.next / PER_FILE ==> i < s.next
  {
    if s.next % PER_FILE == 0 { UnusedFile(s, s.next / PER_FILE); }
  }

  function Taken(s: State, h: nat): State
    requires Shape(s) && h < |s.bufs|
  {
    var f := s.next / PER_FILE;
    s.(files := s.files[f := s.files[f].(usage := s.files[f].usage + 1)], next := (s.next + 1) % IDS,
       bufs := s.bufs[h := s.bufs[h].(word := SwapId(s.next))])
  }

  lemma TakenOwners(s: State, h: nat)
    requires Shape(s) && Takes(s, h)
    ensures forall g, i :: Owns(Taken(s, h), g, i) <==> Owns(s, g, i) || (g == h && i == s.next && h in s.live)
    ensures forall g, i :: Stray(Taken(s, h), g, i) <==> Stray(s, g, i) || (g == h && i == s.next && h !in s.live)
    ensures forall g, i :: Claims(Taken(s, h), g, i) ==> Claims(s, g, i) || (g == h && i == s.next)
    ensures forall f :: Owners(Taken(s, h), f) ==
                          if f == s.next / PER_FILE && h in s.live then Owners(s, f) + {h} else Owners(s, f)
    ensures forall f :: h !in Owners(s, f)
  {
    forall f ensures Owners(Taken(s, h), f) ==
                       if f == s.next / PER_FILE && h in s.live then Owners(s, f) + {h} else Owners(s, f)
    {
    }
  }

  lemma TakesNext(s: State, h: nat)
    requires IdsSafe(s) && Takes(s, h)
    requires !s.files[s.next / PER_FILE].renewable
    requires forall g, i :: Claims(s, g, i) && i / PER_FILE == s.next / PER_FILE ==> i < s.next
    ensures IdsSafe(Taken(s, h)) && Charged(s, Taken(s, h), h !in s.live)
    ensures forall g, i :: Claims(s, g, i) ==> i != s.next
  {
    TakenOwners(s, h);
    TakenCounts(s, h);
    TakenRenewable(s, h);
    TakenAhead(s, h);
    assert IdsUnique(Taken(s, h));
  }

  lemma TakenAhead(s: State, h: nat)
    requires Shape(s) && Takes(s, h)
    requires forall g, i :: Claims(s, g, i) && i / PER_FILE == s.next / PER_FILE ==> i < s.next
    ensures AheadFree(Taken(s, h))
  {
    var s' := Taken(s, h);
    TakenOwners(s, h);
    if s'.next % PER_FILE != 0 {
      NextIdStep(s.next);
    }
  }

  lemma TakenRenewable(s: State, h: nat)
    requires Shape(s) && RenewableEmpty(s) && h < |s.bufs| && !s.files[s.next / PER_FILE].renewable
    ensures RenewableEmpty(Taken(s, h))
  {
    var s' := Taken(s, h);
    forall f | 0 <= f < FILES && s'.files[f].renewable
      ensures s'.files[f].usage == 0 && (f != s'.next / PER_FILE || s'.next % PER_FILE == 0)
    {
      assert s'.files[f] == s.files[f];
      NextIdStep(s.next);
    }
  }

  /** The allocator stays in its file or moves to the start of another. */
  lemma NextIdStep(n: nat)
    requires n < IDS
    ensures var n' := (n + 1) % IDS; n' % PER_FILE == 0 || (n' / PER_FILE == n / PER_FILE && n' == n + 1)
  {
    if n + 1 < IDS { assert (n + 1) % IDS == n + 1; }
  }

  lemma TakenCounts(s: State, h: nat)
    requires IdsSafe(s) && Takes(s, h)
    ensures Charged(s, Taken(s, h), h !in s.live) && UsageCovers(Taken(s, h))
  {
    var s' := Taken(s, h);
    var f := s.next / PER_FILE;
    TakenOwners(s, h);
    assert h in s.live ==> |Owners(s, f) + {h}| == |Owners(s, f)| + 1;
    forall i | 0 <= i < FILES
      ensures Charge(s', i) == Charge(s, i) + if h !in s.live && i == f then 1 else 0
    {
      assert Owners(s', i) == if i == f && h in s.live then Owners(s, f) + {h} else Owners(s, i);
    }
  }

  // ---------------------------------------------------------------- flush and load

  /** The RAM buffers are the same in both states. */
  lemma RamFrame(s: State, s': State)
    requires RamSafe(s) && s'.live == s.live && s'.ram == s.ram && s'.ramUsed == s.ramUsed && |s'.bufs| == |s.bufs|
    requires forall h :: 0 <= h < |s.bufs| && h in s.live && s'.bufs[h] != s.bufs[h] ==>
               s.bufs[h].loc == InCfs && s'.bufs[h].loc == InCfs
    ensures RamSafe(s')
    ensures forall h, i: nat :: OnRam(s', h, i) <==> OnRam(s, h, i)
  {
    forall h, i: nat ensures OnRam(s', h, i) <==> OnRam(s, h, i) {
    }
  }

  /** What the store holds after tmpdata has been flushed for buffer t. */
  ghost function Kept(s: State, m: map<nat, Content>, t: nat, c: Content, ok: bool): map<nat, Content> {
    if t !in s.live then m else if ok then m[t := c] else m - {t}
  }

  /** The cache stands for t, a live swapped buffer or a dead record without an id. */
  ghost predicate Flushable(s: State, t: nat) {
    && Shape(s) && s.tmpBuf == Some(t)
    && (if t in s.live then s.bufs[t].loc == InCfs else s.bufs[t].word == SwapId(-1))
  }

  /** The buffer in the cache gives up its slot. */
  lemma FlushRemoves(s: State, t: nat, m: map<nat, Content>)
    requires IdsSafe(s) && RamSafe(s) && Holds(s, m) && Flushable(s, t)
    ensures CachesSwapped(s)
    ensures var s1 := RemoveFromFile(s, s.bufs[t].word.id);
            && IdsSafe(s1) && RamSafe(s1) && Holds(s1, m - {t}) && Takes(s1, t) && Charged(s, s1, false)
            && s1 == s.(files := s1.files, bufs := s.bufs[t := s.bufs[t].(word := SwapId(-1))])
  {
    assert t in s.live ==> Usable(s, t);
    var id := s.bufs[t].word.id;
    if id == -1 {
      assert s.bufs == s.bufs[t := s.bufs[t].(word := SwapId(-1))];
      assert t !in m;
      assert m - {t} == m;
    } else {
      var s1 := RemoveFromFile(s, id);
      assert s1 == Removed(s, t, id);
      RemovalKeepsIdsSafe(s, t, id);
      RamFrame(s, s1);
      RemovedOwners(s, t, id);
    }
  }

  /** The buffer in the cache gets the next slot, if there is one, and tmpdata goes into it. */
  lemma FlushPlaces(s: State, t: nat, m: map<nat, Content>)
    requires IdsSafe(s) && RamSafe(s) && Holds(s, m) && s.tmpBuf == Some(t) && Takes(s, t)
    ensures var (s2, id) := GetNewSwapId(s);
            var s3 := s2.(bufs := s2.bufs[t := s2.bufs[t].(word := SwapId(id))]);
            var s4 := if id == -1 then s3 else s3.(slots := s3.slots[id := s3.tmp]);
            && Inv(s4, if id == -1 then m else Kept(s, m, t, s.tmp, true))
            && Charged(s, s4, id != -1 && t !in s.live)
  {
    hide UsageCovers, RenewableEmpty, AheadFree;
    AllocationKeepsIdsSafe(s, t);
    var (s2, id) := GetNewSwapId(s);
    var s3 := s2.(bufs := s2.bufs[t := s2.bufs[t].(word := SwapId(id))]);
    RamFrame(s, s3);
    PlacedOwners(s, s3, t, id);
    forall g, i | Owns(s, g, i) ensures i != id && s2.slots[i] == s.slots[i] {
      assert Claims(s, g, i);
    }
    if id != -1 {
      var s4 := s3.(slots := s3.slots[id := s3.tmp]);
      RamFrame(s3, s4);
      SameOwners(s3, s4);
      SlotsApart(s3, s4);
    }
  }

  /** What the slots hold is of no consequence to ids. */
  lemma SlotsApart(s: State, s': State)
    requires IdsSafe(s) && |s'.slots| == IDS && s' == s.(slots := s'.slots)
    ensures Charged(s, s', false) && IdsSafe(s')
  {
    SameOwners(s, s');
  }

  lemma PlacedOwners(s: State, s': State, t: nat, id: int)
    requires Takes(s, t) && -1 <= id < IDS
    requires s'.live == s.live && s'.bufs == s.bufs[t := s.bufs[t].(word := SwapId(id))]
    ensures forall g, i :: Owns(s', g, i) <==> Owns(s, g, i) || (g == t && i == id && id != -1 && t in s.live)
  {
  }

  /** A flush writes tmpdata through: afterwards the buffer holds it, or has no id at all. */
  lemma FlushStores(s: State, t: nat, m: map<nat, Content>)
    requires IdsSafe(s) && RamSafe(s) && Holds(s, m) && Flushable(s, t)
    ensures CachesSwapped(s)
    ensures var (s', ok) := Flush(s);
            && Inv(s', Kept(s, m, t, s.tmp, ok)) && Charged(s, s', ok && t !in s.live)
            && s' == s.(files := s'.files, bufs := s'.bufs, slots := s'.slots, next := s'.next)
            && s'.bufs == s.bufs[t := s.bufs[t].(word := SwapId(if ok then s.next else -1))]
            && s'.next == if ok then (s.next + 1) % IDS else s.next
  {
    hide RamSafe, Holds, IdsUnique, UsageCovers, RenewableEmpty, AheadFree, CacheOk;
    FlushRemoves(s, t, m);
    var s1 := RemoveFromFile(s, s.bufs[t].word.id);
    FlushPlaces(s1, t, m - {t});
    assert t !in s.live ==> t !in m && m - {t} == m by { DeadHoldNothing(s, m); }
    assert (m - {t})[t := s.tmp] == m[t := s.tmp];
  }

  lemma DeadHoldNothing(s: State, m: map<nat, Content>)
    requires Holds(s, m)
    ensures forall t :: t !in s.live ==> t !in m
  {
  }

  /** The file that the allocator is in, or enters next, has room once buffer h has given up its
      own slot. */
  ghost predicate SlotAhead(s: State, h: nat)
    requires Shape(s)
  {
    var f := s.next / PER_FILE;
    s.next % PER_FILE != 0 || s.files[f].usage == if h in Owners(s, f) then 1 else 0
  }

  lemma FlushFindsSlotIff(s: State, t: nat, m: map<nat, Content>)
    requires IdsSafe(s) && RamSafe(s) && Holds(s, m) && Flushable(s, t)
    ensures CachesSwapped(s) && (Flush(s).1 <==> SlotAhead(s, t))
  {
    hide RamSafe, Holds, IdsUnique, RenewableEmpty, AheadFree;
    FlushRemoves(s, t, m);
    var s1 := RemoveFromFile(s, s.bufs[t].word.id);
    var f := s.next / PER_FILE;
    AllocationRefusedIff(s1);
    assert Owners(s1, f) == Owners(s, f) - {t};
    assert Charge(s1, f) == Charge(s, f) >= 0;
    assert t in Owners(s, f) ==> |Owners(s, f) - {t}| == |Owners(s, f)| - 1;
  }

  /** A swapped buffer that has no id is found by load unless the cache stands for another record
      without one. */
  ghost predicate Loadable(s: State, h: nat)
    requires Shape(s) && h in s.live
  {
    s.bufs[h].word == SwapId(-1) ==>
      (s.tmpBuf.Some? && s.bufs[s.tmpBuf.value].word == SwapId(-1) ==> s.tmpBuf.value == h)
  }

  /** Load changes nothing but the cache and shows what the buffer holds. */
  lemma LoadShowsContent(s: State, h: nat, m: map<nat, Content>, junk: Content)
    requires Inv(s, m) && h in s.live
    ensures var s1 := Load(s, h, junk);
            Charged(s, s1, false) && Inv(s1, m) && s1 == s.(tmp := s1.tmp, tmpBuf := s1.tmpBuf)
    ensures h in m ==> Loadable(s, h) && Loaded(s, h, junk) == m[h]
    ensures s.bufs[h].loc == InCfs ==>
              Load(s, h, junk).tmpBuf == if Loadable(s, h) then Some(h) else s.tmpBuf
  {
    var s1 := Load(s, h, junk);
    SameOwners(s, s1);
    RamFrame(s, s1);
    forall g, i | Claims(s1, g, i) ensures Claims(s, g, i) {
    }
    forall g, i | Stray(s1, g, i) ensures Stray(s, g, i) {
    }
    if s.bufs[h].loc == InCfs {
      var id := s.bufs[h].word.id;
      if id != -1 {
        assert Owns(s, h, id) && Claims(s, h, id);
        CacheClaims(s, m, id);
      }
    } else {
      assert OnRam(s, h, s.bufs[h].word.i);
    }
  }

  /** A cache that carries an id is its only claimant. */
  lemma CacheClaims(s: State, m: map<nat, Content>, id: int)
    requires Inv(s, m) && 0 <= id < IDS
    ensures s.tmpBuf.Some? && s.bufs[s.tmpBuf.value].word == SwapId(id) ==>
              Claims(s, s.tmpBuf.value, id) && forall h :: Claims(s, h, id) ==> h == s.tmpBuf.value
  {
    if s.tmpBuf.Some? && s.bufs[s.tmpBuf.value].word == SwapId(id) {
      if s.tmpBuf.value in s.live { assert Usable(s, s.tmpBuf.value); }
      assert Claims(s, s.tmpBuf.value, id);
    }
  }

  // ---------------------------------------------------------------- what each operation does

  /** The pools' contract: an element handed out was not handed out before, and there is one
      while not all have been. RAM is asked for only with a buffer in hand. */
  ghost predicate PoolsAgree(s: State, h: Option<nat>, r: Option<nat>) {
    match h
    case None => |s.live| >= |s.bufs|
    case Some(x) =>
      && x < |s.bufs| && x !in s.live
      && match r
         case None => |s.ramUsed| >= |s.ram|
         case Some(y) => y < |s.ram| && y !in s.ramUsed
  }

  /** New fails exactly when all buffers have been handed out, or RAM is full and the file to be
      entered counts a slot in use. */
  lemma NewStores(s: State, m: map<nat, Content>, h: Option<nat>, r: Option<nat>, c: Content)
    requires Inv(s, m) && PoolsAgree(s, h, r)
    ensures var (s', ok) := New(s, h, r, c);
            && Inv(s', if ok then m[h.value := c] else m) && Charged(s, s', false)
            && (ok <==> |s.live| < |s.bufs| && (|s.ramUsed| < |s.ram| || !Refused(s)))
            && s'.live == (if ok then s.live + {h.value} else s.live)
            && s'.ramUsed == (if ok && r.Some? then s.ramUsed + {r.value} else s.ramUsed)
            && s'.next == if ok && r.None? then (s.next + 1) % IDS else s.next
  {
    if h.Some? {
      Pools.HasRoom(s.live, |s.bufs|, h.value);
      if r.Some? {
        Pools.HasRoom(s.ramUsed, |s.ram|, r.value);
        NewInRam(s, m, h.value, r.value, c);
      } else {
        NewInCfs(s, m, h.value, c);
      }
    }
  }

  lemma NewInRam(s: State, m: map<nat, Content>, h: nat, r: nat, c: Content)
    requires Inv(s, m) && h < |s.bufs| && h !in s.live && r < |s.ram| && r !in s.ramUsed
    ensures var s' := New(s, Some(h), Some(r), c).0; Charged(s, s', false) && Inv(s', m[h := c])
  {
    var s' := New(s, Some(h), Some(r), c).0;
    ArrivesUnowned(s, s', h);
    forall g, i: nat ensures OnRam(s', g, i) <==> OnRam(s, g, i) || (g == h && i == r) {
    }
    forall i | i in s'.ramUsed ensures i < |s'.ram| && exists g :: OnRam(s', g, i) {
      if i == r { assert OnRam(s', h, r); }
      else {
        var g :| OnRam(s, g, i);
        assert OnRam(s', g, i);
      }
    }
  }

  /** A buffer that joins the live ones without an id leaves the ids as they are. */
  lemma ArrivesUnowned(s: State, s': State, h: nat)
    requires IdsSafe(s) && h < |s.bufs| && h !in s.live
    requires s'.live == s.live + {h} && s'.files == s.files && s'.next == s.next
    requires |s'.bufs| == |s.bufs| && |s'.slots| == IDS && (s'.tmpBuf == s.tmpBuf || s'.tmpBuf == Some(h))
    requires forall g :: 0 <= g < |s.bufs| && g != h ==> s'.bufs[g] == s.bufs[g]
    requires Shape(s') && Usable(s', h) && (s'.bufs[h].loc == InCfs ==> s'.bufs[h].word == SwapId(-1))
    requires |s'.ram| == |s.ram|
    ensures Charged(s, s', false) && IdsSafe(s')
    ensures forall g, i :: Owns(s', g, i) <==> Owns(s, g, i)
  {
    forall g, i ensures Owns(s', g, i) <==> Owns(s, g, i) {
    }
    forall g, i | Stray(s', g, i) ensures Stray(s, g, i) {
    }
    forall g, i | Claims(s', g, i) ensures Claims(s, g, i) {
    }
    forall f ensures Owners(s', f) == Owners(s, f) {
    }
  }

  lemma NewInCfs(s: State, m: map<nat, Content>, h: nat, c: Content)
    requires Inv(s, m) && h < |s.bufs| && h !in s.live
    ensures var (s', ok) := New(s, Some(h), None, c);
            && Inv(s', if ok then m[h := c] else m) && Charged(s, s', false) && (ok <==> !Refused(s))
            && s'.live == (if ok then s.live + {h} else s.live) && s'.ramUsed == s.ramUsed
            && s'.next == if ok then (s.next + 1) % IDS else s.next
  {
    hide UsageCovers, RenewableEmpty, AheadFree, IdsUnique, RamSafe, Holds, Flush, RemoveFromFile, GetNewSwapId;
    var s1 := s.(bufs := s.bufs[h := Buf(InCfs, SwapId(-1))], live := s.live + {h}, tmpBuf := Some(h), tmp := c);
    NewSwappedInv(s, m, h, s1);
    FlushStores(s1, h, m);
    FlushFindsSlotIff(s1, h, m);
    ChargeCovers(s1, s.next / PER_FILE);
    var (s2, ok) := Flush(s1);
    if !ok {
      DeadHoldNothing(s, m);
      assert m - {h} == m;
      LeavesUnowned(s2, m, h);
    }
  }

  lemma NewSwappedInv(s: State, m: map<nat, Content>, h: nat, s': State)
    requires Inv(s, m) && h < |s.bufs| && h !in s.live
    requires s' == s.(bufs := s.bufs[h := Buf(InCfs, SwapId(-1))], live := s.live + {h}, tmpBuf := Some(h),
                      tmp := s'.tmp)
    ensures Charged(s, s', false) && IdsSafe(s') && RamSafe(s') && Holds(s', m)
    ensures forall f :: h !in Owners(s', f)
  {
    ArrivesUnowned(s, s', h);
    JoinsOffRam(s, s', h);
  }

  lemma ChargeCovers(s: State, f: nat)
    requires UsageCovers(s) && f < FILES
    ensures Charge(s, f) >= 0
  {
  }

  lemma JoinsOffRam(s: State, s': State, h: nat)
    requires RamSafe(s) && h < |s.bufs| && h !in s.live && |s'.bufs| == |s.bufs|
    requires s'.live == s.live + {h} && s'.ram == s.ram && s'.ramUsed == s.ramUsed && s'.bufs[h].loc == InCfs
    requires forall g :: 0 <= g < |s.bufs| && g != h ==> s'.bufs[g] == s.bufs[g]
    ensures RamSafe(s') && forall g, i: nat :: OnRam(s', g, i) <==> OnRam(s, g, i)
  {
    forall g, i: nat ensures OnRam(s', g, i) <==> OnRam(s, g, i) {
    }
    forall i | i in s'.ramUsed ensures i < |s'.ram| && exists g :: OnRam(s', g, i) {
      var g :| OnRam(s, g, i);
      assert OnRam(s', g, i);
    }
  }

  /** Handing back a swapped buffer that has no id. */
  lemma LeavesUnowned(s: State, m: map<nat, Content>, h: nat)
    requires Inv(s, m) && h in s.live && s.bufs[h] == Buf(InCfs, SwapId(-1))
    ensures var s' := s.(live := s.live - {h}); Charged(s, s', false) && Inv(s', m)
  {
    var s' := s.(live := s.live - {h});
    forall g, i ensures Owns(s', g, i) <==> Owns(s, g, i) {
    }
    forall g, i | Claims(s', g, i) ensures Claims(s, g, i) {
    }
    forall g, i | Stray(s', g, i) ensures Stray(s, g, i) {
    }
    forall f ensures Owners(s', f) == Owners(s, f) {
    }
    forall g, i: nat ensures OnRam(s', g, i) <==> OnRam(s, g, i) {
    }
    forall i | i in s'.ramUsed ensures i < |s'.ram| && exists g :: OnRam(s', g, i) {
      var g :| OnRam(s, g, i);
      assert OnRam(s', g, i);
    }
  }

  /** The record an update of h really writes: another one when both have lost their id and the
      cache stands for that one. */
  ghost function Target(s: State, h: nat): nat
    requires Shape(s) && h in s.live
  {
    if Loadable(s, h) then h else s.tmpBuf.value
  }

  /** The update goes to a live buffer, or its flush is refused. */
  ghost predicate UpdateSafe(s: State, h: nat)
    requires Shape(s) && h in s.live
  {
    Target(s, h) in s.live || Refused(s)
  }

  /** An update stores its content in its target if that is live, or the target holds nothing; every
      other buffer keeps what it held. A dead target takes its slot at the file's charge. */
  lemma UpdateStores(s: State, m: map<nat, Content>, h: nat, c: Content)
    requires Inv(s, m) && h in s.live
    ensures var (s', ok) := Update(s, h, c);
            && Inv(s', Kept(s, m, Target(s, h), c, ok)) && Charged(s, s', !UpdateSafe(s, h))
            && (ok <==> s.bufs[h].loc == InRam || SlotAhead(s, Target(s, h)))
            && s'.next == if ok && s.bufs[h].loc == InCfs then (s.next + 1) % IDS else s.next
  {
    if s.bufs[h].loc == InRam {
      StoreInRam(s, m, h, s.bufs[h].word.i, c);
    } else {
      CacheWritten(s, m, h, c);
      ChargeCovers(s, s.next / PER_FILE);
    }
  }

  /** Storing through a loadable buffer: it then holds the content, or there was no slot ahead and
      it holds nothing. */
  lemma LoadableUpdate(s: State, m: map<nat, Content>, h: nat, c: Content)
    requires Inv(s, m) && h in s.live && Loadable(s, h)
    ensures var (s', ok) := Update(s, h, c);
            && Inv(s', if ok then m[h := c] else m - {h})
            && (ok <==> s.bufs[h].loc == InRam || SlotAhead(s, h))
  {
    UpdateStores(s, m, h, c);
  }

  /** tmpdata is overwritten and flushed for the record that load has left in the cache. */
  lemma CacheWritten(s: State, m: map<nat, Content>, h: nat, c: Content)
    requires Inv(s, m) && h in s.live && s.bufs[h].loc == InCfs
    ensures var (s', ok) := Update(s, h, c);
            var t := Target(s, h);
            && t < |s.bufs| && Inv(s', Kept(s, m, t, c, ok)) && Charged(s, s', ok && t !in s.live)
            && (ok <==> SlotAhead(s, t))
            && s' == s.(files := s'.files, bufs := s'.bufs, slots := s'.slots, next := s'.next,
                        tmp := c, tmpBuf := Some(t))
            && s'.bufs == s.bufs[t := s.bufs[t].(word := SwapId(if ok then s.next else -1))]
            && s'.next == if ok then (s.next + 1) % IDS else s.next
  {
    hide Flush, UsageCovers, RenewableEmpty, AheadFree, IdsUnique;
    LoadShowsContent(s, h, m, c);
    var s1 := Load(s, h, c);
    var s2 := s1.(tmp := c);
    var t := Target(s, h);
    SameOwners(s1, s2);
    RamFrame(s1, s2);
    TmpApart(s1, s2);
    assert Flushable(s2, t) by { if t in s.live { assert Usable(s, t); } }
    FlushStores(s2, t, m);
    FlushFindsSlotIff(s2, t, m);
    SameOwners(s, s2);
  }

  /** What tmpdata holds is of no consequence to ids. */
  lemma TmpApart(s: State, s': State)
    requires IdsSafe(s) && s' == s.(tmp := s'.tmp)
    ensures Charged(s, s', false) && IdsSafe(s')
  {
    SameOwners(s, s');
  }

  /** An update keeps every usage exact if and only if it is safe in this sense: otherwise a slot is
      charged to the record of a buffer that has been freed. */
  lemma UpdateKeepsUsageExactIff(s: State, m: map<nat, Content>, h: nat, c: Content)
    requires Inv(s, m) && h in s.live && UsageExact(s)
    ensures UsageExact(Update(s, h, c).0) <==> UpdateSafe(s, h)
    ensures !UpdateSafe(s, h) ==>
              var s', f := Update(s, h, c).0, s.next / PER_FILE;
              |s'.files| == FILES && s'.files[f].usage == |Owners(s', f)| + 1
  {
    UpdateStores(s, m, h, c);
    var s', f := Update(s, h, c).0, s.next / PER_FILE;
    assert Charge(s', f) == if UpdateSafe(s, h) then 0 else 1;
  }

  lemma StoreInRam(s: State, m: map<nat, Content>, h: nat, i: nat, c: Content)
    requires Inv(s, m) && OnRam(s, h, i)
    ensures var s' := s.(ram := s.ram[i := c]); Charged(s, s', false) && Inv(s', m[h := c])
  {
    var s' := s.(ram := s.ram[i := c]);
    SameOwners(s, s');
    forall g, j: nat ensures OnRam(s', g, j) <==> OnRam(s, g, j) {
    }
    forall j | j in s'.ramUsed ensures j < |s'.ram| && exists g :: OnRam(s', g, j) {
      var g :| OnRam(s, g, j);
      assert OnRam(s', g, j);
    }
  }

  lemma UpdateAttrStores(s: State, m: map<nat, Content>, h: nat, attrs: Attrs, junk: Content)
    requires Inv(s, m) && h in s.live
    ensures var (s', ok) := UpdateAttr(s, h, attrs, junk);
            var c := (if h in m then m[h] else Loaded(s, h, junk)).(attrs := attrs);
            Inv(s', Kept(s, m, Target(s, h), c, ok)) && Charged(s, s', !UpdateSafe(s, h))
  {
    LoadShowsContent(s, h, m, junk);
    UpdateStores(s, m, h, Loaded(s, h, junk).(attrs := attrs));
  }

  lemma FreeForgets(s: State, m: map<nat, Content>, h: nat)
    requires Inv(s, m) && h in s.live
    ensures Inv(Free(s, h), m - {h}) && Charged(s, Free(s, h), false)
  {
    if s.bufs[h].loc == InRam {
      FreeOnRam(s, m, h, s.bufs[h].word.i);
    } else if s.bufs[h].word.id == -1 {
      assert m - {h} == m;
      LeavesUnowned(s, m, h);
    } else {
      FreeOwner(s, m, h, s.bufs[h].word.id);
    }
  }

  lemma FreeOnRam(s: State, m: map<nat, Content>, h: nat, i: nat)
    requires Inv(s, m) && OnRam(s, h, i)
    ensures var s' := s.(live := s.live - {h}, ramUsed := s.ramUsed - {i}); Charged(s, s', false) && Inv(s', m - {h})
  {
    var s' := s.(live := s.live - {h}, ramUsed := s.ramUsed - {i});
    forall g, j ensures Owns(s', g, j) <==> Owns(s, g, j) {
    }
    forall g, j | Claims(s', g, j) ensures Claims(s, g, j) {
    }
    forall g, j | Stray(s', g, j) ensures Stray(s, g, j) {
    }
    forall f ensures Owners(s', f) == Owners(s, f) {
    }
    forall g, j: nat ensures OnRam(s', g, j) <==> OnRam(s, g, j) && g != h {
    }
    forall j | j in s'.ramUsed ensures j < |s'.ram| && exists g :: OnRam(s', g, j) {
      var g :| OnRam(s, g, j);
      assert OnRam(s', g, j);
    }
  }

  lemma FreeOwner(s: State, m: map<nat, Content>, h: nat, id: int)
    requires Inv(s, m) && Owns(s, h, id)
    ensures Inv(Free(s, h), m - {h}) && Charged(s, Free(s, h), false)
  {
    hide IdsSafe, RamSafe, Holds, Charge;
    OwnerDisowned(s, m, h, id);
    var s2 := Removed(s, h, id);
    LeavesUnowned(s2, m - {h}, h);
    var s3 := s2.(live := s2.live - {h});
    FreedRecord(s, m, h, id);
    DeadRecord(s3, m - {h}, h, Free(s, h));
  }

  /** Free leaves the id in the record unless the cache stands for it. */
  lemma FreedRecord(s: State, m: map<nat, Content>, h: nat, id: int)
    requires Inv(s, m) && Owns(s, h, id)
    ensures var s3 := Removed(s, h, id).(live := s.live - {h});
            && Free(s, h) == s3.(bufs := Free(s, h).bufs)
            && Free(s, h).bufs == if s.tmpBuf == Some(h) then s3.bufs else s.bufs
  {
    assert Claims(s, h, id);
    CacheClaims(s, m, id);
  }

  lemma OwnerDisowned(s: State, m: map<nat, Content>, h: nat, id: int)
    requires Inv(s, m) && Owns(s, h, id)
    ensures var s2 := Removed(s, h, id);
            Inv(s2, m - {h}) && Charged(s, s2, false) && h in s2.live && s2.bufs[h] == Buf(InCfs, SwapId(-1))
  {
    var s2 := Removed(s, h, id);
    RemovalKeepsIdsSafe(s, h, id);
    RamFrame(s, s2);
    RemovedOwners(s, h, id);
    assert CacheOk(s2);
  }

  /** What the record of a buffer that is not live shows is of no consequence, as long as the
      cache does not stand for it. */
  lemma DeadRecord(s: State, m: map<nat, Content>, h: nat, s': State)
    requires Inv(s, m) && h < |s.bufs| && h !in s.live
    requires s' == s.(bufs := s'.bufs) && |s'.bufs| == |s.bufs|
    requires forall g :: 0 <= g < |s.bufs| && g != h ==> s'.bufs[g] == s.bufs[g]
    requires s.tmpBuf == Some(h) ==> s'.bufs[h] == s.bufs[h]
    ensures Charged(s, s', false) && Inv(s', m)
  {
    forall g, j ensures Owns(s', g, j) <==> Owns(s, g, j) {
    }
    forall g, j ensures Stray(s', g, j) <==> Stray(s, g, j) {
    }
    forall g, j | Claims(s', g, j) ensures Claims(s, g, j) {
    }
    forall f ensures Owners(s', f) == Owners(s, f) {
    }
    forall g, j: nat ensures OnRam(s', g, j) <==> OnRam(s, g, j) {
    }
    forall j | j in s'.ramUsed ensures j < |s'.ram| && exists g :: OnRam(s', g, j) {
      var g :| OnRam(s, g, j);
      assert OnRam(s', g, j);
    }
  }

  lemma {:induction false} RenewalKeepsInv(s: State, m: map<nat, Content>, f: nat)
    requires Inv(s, m) && f <= FILES
    ensures var s' := RenewFrom(s, f);
            Inv(s', m) && Charged(s, s', false) && s' == s.(files := s'.files, slots := s'.slots)
    decreases FILES - f
  {
    if f < FILES {
      if s.files[f].renewable {
        var s1 := RenewFile(s, f);
        RenewalDiscardsNothing(s, f);
        SameOwners(s, s1);
        RamFrame(s, s1);
        CacheSpared(s, m, f);
        forall h, id | Owns(s, h, id) ensures s1.slots[id] == s.slots[id] {
          assert Claims(s, h, id);
        }
        RenewalKeepsInv(s1, m, f + 1);
      } else {
        RenewalKeepsInv(s, m, f + 1);
      }
    }
  }

  lemma CacheSpared(s: State, m: map<nat, Content>, f: nat)
    requires Inv(s, m) && f < FILES && s.files[f].renewable
    ensures CacheOk(RenewFile(s, f))
  {
    RenewalDiscardsNothing(s, f);
    if s.tmpBuf.Some? && s.bufs[s.tmpBuf.value].word.SwapId? && s.bufs[s.tmpBuf.value].word.id != -1 {
      CacheClaims(s, m, s.bufs[s.tmpBuf.value].word.id);
    }
  }

  // ---------------------------------------------------------------- whole runs

  /** `junk` is what a load that finds no slot leaves in tmpdata. */
  datatype Event =
    | NewBuf(h: Option<nat>, r: Option<nat>, c: Content)
    | UpdateBuf(b: nat, c: Content)
    | UpdateAttrs(b: nat, attrs: Attrs, junk: Content)
    | FreeBuf(b: nat)
    | ReadBuf(b: nat, junk: Content)
    | RenewTimer

  /** The pools keep their contract and callers name live buffers. */
  ghost predicate Allowed(s: State, e: Event) {
    match e
    case NewBuf(h, r, c) => PoolsAgree(s, h, r)
    case UpdateBuf(b, c) => b in s.live
    case UpdateAttrs(b, attrs, junk) => b in s.live
    case FreeBuf(b) => b in s.live
    case ReadBuf(b, junk) => b in s.live
    case RenewTimer => true
  }

  /** One operation. The record of a live buffer is always usable, which the invariant says. */
  ghost function Step(s: State, e: Event): (r: (State, bool))
    requires Shape(s) && Allowed(s, e)
    ensures Shape(r.0)
  {
    match e
    case NewBuf(h, r, c) => New(s, h, r, c)
    case UpdateBuf(b, c) => if Usable(s, b) then Update(s, b, c) else (s, false)
    case UpdateAttrs(b, attrs, junk) => if Usable(s, b) then UpdateAttr(s, b, attrs, junk) else (s, false)
    case FreeBuf(b) => if Usable(s, b) then (Free(s, b), true) else (s, false)
    case ReadBuf(b, junk) => if Usable(s, b) then (Load(s, b, junk), true) else (s, false)
    case RenewTimer => (RenewFrom(s, 0), true)
  }

  /** The simple store: a map from buffers to what was last stored in them. */
  ghost function Recorded(s: State, m: map<nat, Content>, e: Event): map<nat, Content>
    requires Shape(s) && Allowed(s, e)
  {
    var ok := Step(s, e).1;
    match e
    case NewBuf(h, r, c) => if ok && h.Some? then m[h.value := c] else m
    case UpdateBuf(b, c) => Kept(s, m, Target(s, b), c, ok)
    case UpdateAttrs(b, attrs, junk) =>
      if Usable(s, b) then
        Kept(s, m, Target(s, b), (if b in m then m[b] else Loaded(s, b, junk)).(attrs := attrs), ok)
      else m
    case FreeBuf(b) => m - {b}
    case ReadBuf(b, junk) => m
    case RenewTimer => m
  }

  /** The event charges a slot of the current file to a dead record. */
  ghost predicate LosesSlot(s: State, e: Event)
    requires Shape(s) && Allowed(s, e)
  {
    match e
    case UpdateBuf(b, c) => !UpdateSafe(s, b)
    case UpdateAttrs(b, attrs, junk) => !UpdateSafe(s, b)
    case _ => false
  }

  lemma StepKeepsInv(s: State, m: map<nat, Content>, e: Event)
    requires Inv(s, m) && Allowed(s, e)
    ensures Inv(Step(s, e).0, Recorded(s, m, e)) && Charged(s, Step(s, e).0, LosesSlot(s, e))
  {
    match e
    case NewBuf(h, r, c) => NewStores(s, m, h, r, c);
    case UpdateBuf(b, c) => UpdateStores(s, m, b, c);
    case UpdateAttrs(b, attrs, junk) => UpdateAttrStores(s, m, b, attrs, junk);
    case FreeBuf(b) => FreeForgets(s, m, b);
    case ReadBuf(b, junk) => LoadShowsContent(s, b, m, junk);
    case RenewTimer => RenewalKeepsInv(s, m, 0);
  }

  ghost predicate Possible(s: State, es: seq<Event>)
    requires Shape(s)
    decreases |es|
  {
    es == [] || (Allowed(s, es[0]) && Possible(Step(s, es[0]).0, es[1..]))
  }

  ghost function Run(s: State, es: seq<Event>): (s': State)
    requires Shape(s) && Possible(s, es)
    ensures Shape(s')
    decreases |es|
  {
    if es == [] then s else Run(Step(s, es[0]).0, es[1..])
  }

  /** What the simple store holds after the run. */
  ghost function Stored(s: State, m: map<nat, Content>, es: seq<Event>): map<nat, Content>
    requires Shape(s) && Possible(s, es)
    decreases |es|
  {
    if es == [] then m else Stored(Step(s, es[0]).0, Recorded(s, m, es[0]), es[1..])
  }

  /** How many slots of file f the run charges to dead records. */
  ghost function SlotsLost(s: State, es: seq<Event>, f: nat): nat
    requires Shape(s) && Possible(s, es)
    decreases |es|
  {
    if es == [] then 0
    else (if LosesSlot(s, es[0]) && f == s.next / PER_FILE then 1 else 0) + SlotsLost(Step(s, es[0]).0, es[1..], f)
  }

  /** A run keeps the invariant, and what it charges to a file stays charged. */
  lemma {:induction false} RunKeepsInv(s: State, m: map<nat, Content>, es: seq<Event>)
    requires Inv(s, m) && Possible(s, es)
    ensures Inv(Run(s, es), Stored(s, m, es))
    ensures forall f :: 0 <= f < FILES ==> Charge(Run(s, es), f) == Charge(s, f) + SlotsLost(s, es, f)
    decreases |es|
  {
    hide Step, Recorded, Allowed, LosesSlot, Charge;
    if es != [] {
      StepKeepsInv(s, m, es[0]);
      RunKeepsInv(Step(s, es[0]).0, Recorded(s, m, es[0]), es[1..]);
    }
  }

  /** The state queuebuf_init leaves. */
  ghost predicate Initial(s: State) {
    Shape(s) && s.live == {} && s.ramUsed == {} && s.next == 0 && s.tmpBuf == None &&
    forall f :: 0 <= f < FILES ==> s.files[f] == File(0, false)
  }

  lemma InitialHoldsNothing(s: State)
    requires Initial(s)
    ensures Inv(s, map[]) && UsageExact(s)
  {
    forall f | 0 <= f < FILES ensures |Owners(s, f)| == 0 {
      assert Owners(s, f) == {};
    }
  }

  /** Whatever a load without a slot would leave, reading h shows c. */
  ghost predicate Shows(s: State, h: nat, c: Content) {
    Usable(s, h) && forall junk :: Loaded(s, h, junk) == c
  }

  lemma HeldShows(s: State, m: map<nat, Content>, h: nat)
    requires Inv(s, m) && h in m
    ensures Shows(s, h, m[h])
  {
    forall junk ensures Loaded(s, h, junk) == m[h] {
      LoadShowsContent(s, h, m, junk);
    }
  }

  /** Over every run of new, update, free, read and the renew timer from queuebuf_init on: no two
      live buffers have the same id, a file that may be renewed has no live buffer, and reading a
      buffer returns what was last stored in it, however loads, frees, renewals and the reuse of
      slots and records interleave. A file's usage is the number of live buffers with an id in it
      and of the slots that updates have charged to freed buffers. */
  lemma ReadsLastStored(s: State, es: seq<Event>)
    requires Initial(s) && Possible(s, es)
    ensures var s', m := Run(s, es), Stored(s, map[], es);
            && Inv(s', m)
            && (forall h, g, id :: Owns(s', h, id) && Owns(s', g, id) ==> h == g)
            && (forall f :: 0 <= f < FILES && s'.files[f].renewable ==> Owners(s', f) == {})
            && (forall f :: 0 <= f < FILES ==> s'.files[f].usage == |Owners(s', f)| + SlotsLost(s, es, f))
            && forall h :: h in m ==> Shows(s', h, m[h])
  {
    var s', m := Run(s, es), Stored(s, map[], es);
    InitialHoldsNothing(s);
    RunKeepsInv(s, map[], es);
    forall h | h in m ensures Shows(s', h, m[h]) {
      HeldShows(s', m, h);
    }
    forall h, g, id | Owns(s', h, id) && Owns(s', g, id) ensures h == g {
      assert Claims(s', h, id) && Claims(s', g, id);
    }
    forall f | 0 <= f < FILES ensures s'.files[f].usage == |Owners(s', f)| + SlotsLost(s, es, f) {
      assert Charge(s', f) == SlotsLost(s, es, f);
    }
    forall f | 0 <= f < FILES && s'.files[f].renewable ensures Owners(s', f) == {} {
      UnusedFile(s', f);
    }
  }

  // ---------------------------------------------------------------- the pools

  /** The buffers that a successful new has returned and no free has given back, by the events and
      their outcomes alone. */
  ghost function HandedOut(s: State, es: seq<Event>, held: set<nat>): set<nat>
    requires Shape(s) && Possible(s, es)
    decreases |es|
  {
    if es == [] then held
    else
      var (s', ok) := Step(s, es[0]);
      var e := es[0];
      HandedOut(s', es[1..], if e.NewBuf? && ok then held + {e.h.value} else if e.FreeBuf? then held - {e.b} else held)
  }

  lemma StepHandsOut(s: State, m: map<nat, Content>, e: Event)
    requires Inv(s, m) && Allowed(s, e)
    ensures var (s', ok) := Step(s, e);
            && |s'.bufs| == |s.bufs| && |s'.ram| == |s.ram|
            && (e.NewBuf? && ok ==> e.h.Some?)
            && s'.live == (if e.NewBuf? && ok then s.live + {e.h.value}
                           else if e.FreeBuf? then s.live - {e.b} else s.live)
  {
    hide UsageCovers, RenewableEmpty, AheadFree, IdsUnique, RamSafe, Holds, Flush, RemoveFromFile, New, Update;
    match e
    case NewBuf(h, r, c) =>
      NewStores(s, m, h, r, c);
      if h.Some? { NewFrame(s, h.value, r, c); } else { NewNeedsBuffer(s, r, c); }
    case UpdateBuf(b, c) => UpdateHandsOut(s, m, b, c);
    case UpdateAttrs(b, attrs, junk) => UpdateHandsOut(s, m, b, Loaded(s, b, junk).(attrs := attrs));
    case FreeBuf(b) => FreeFrame(s, b);
    case ReadBuf(b, junk) => LoadShowsContent(s, b, m, junk);
    case RenewTimer => RenewalKeepsInv(s, m, 0);
  }

  lemma NewNeedsBuffer(s: State, r: Option<nat>, c: Content)
    requires Shape(s)
    ensures New(s, None, r, c) == (s, false)
  {
  }

  lemma UpdateHandsOut(s: State, m: map<nat, Content>, b: nat, c: Content)
    requires Inv(s, m) && b in s.live
    ensures var s' := Update(s, b, c).0; s'.live == s.live && |s'.bufs| == |s.bufs| && |s'.ram| == |s.ram|
  {
    hide UsageCovers, RenewableEmpty, AheadFree, IdsUnique, RamSafe, Holds, Flush;
    if s.bufs[b].loc == InCfs { CacheWritten(s, m, b, c); }
  }

  lemma {:induction false} RunHandsOut(s: State, m: map<nat, Content>, es: seq<Event>)
    requires Inv(s, m) && Possible(s, es)
    ensures var s' := Run(s, es); s'.live == HandedOut(s, es, s.live) && |s'.bufs| == |s.bufs| && |s'.ram| == |s.ram|
    decreases |es|
  {
    hide Step, Recorded, Allowed, RamSafe, Holds, CacheOk, IdsUnique, UsageCovers, RenewableEmpty, AheadFree;
    if es != [] {
      StepHandsOut(s, m, es[0]);
      StepKeepsInv(s, m, es[0]);
      RunHandsOut(Step(s, es[0]).0, Recorded(s, m, es[0]), es[1..]);
    }
  }

  /** Over every run from queuebuf_init on, the buffers handed out are those that a successful new has
      returned and no free has given back; RAM elements are in use for some of them, one each. Once
      all have been given back both pools are whole again, and the next new succeeds. */
  lemma NothingLeaks(s: State, es: seq<Event>, h: Option<nat>, r: Option<nat>, c: Content)
    requires Initial(s) && Possible(s, es)
    ensures var s', held := Run(s, es), HandedOut(s, es, {});
            && s'.live == held && |s'.bufs| == |s.bufs| && |s'.ram| == |s.ram|
            && (forall i: nat :: i in s'.ramUsed <==> i < |s.ram| && exists b :: b in held && OnRam(s', b, i))
            && (held == {} ==> s'.ramUsed == {})
            && (held == {} && |s.bufs| > 0 && |s.ram| > 0 && PoolsAgree(s', h, r) ==> New(s', h, r, c).1)
  {
    hide Run, Possible, HandedOut, Stored, New;
    var s', m := Run(s, es), Stored(s, map[], es);
    InitialHoldsNothing(s);
    RunKeepsInv(s, map[], es);
    RunHandsOut(s, map[], es);
    if PoolsAgree(s', h, r) { NewStores(s', m, h, r, c); }
    var held := HandedOut(s, es, {});
    forall i | i in s'.ramUsed ensures exists b :: b in held && OnRam(s', b, i) {
      var b :| OnRam(s', b, i);
      assert b in held;
    }
  }

  // ---------------------------------------------------------------- file renewal

  /** A free marks a file for renewal exactly when it gives back the last slot counted in it and the
      allocator is elsewhere. */
  lemma LastOutRenewsIff(s: State, m: map<nat, Content>, h: nat, f: nat)
    requires Inv(s, m) && h in s.live && f < FILES
    ensures var s' := Free(s, h);
            |s'.files| == FILES &&
            (s'.files[f].renewable <==>
              s.files[f].renewable || (Owners(s, f) == {h} && Charge(s, f) == 0 && f != s.next / PER_FILE))
  {
    hide IdsUnique, RamSafe, Holds, AheadFree, CacheOk, Owners, RenewableEmpty;
    FreedFile(s, h, f);
    ChargeCovers(s, f);
    if h in Owners(s, f) { Singleton(Owners(s, f), h); }
  }

  lemma Singleton(a: set<nat>, h: nat)
    requires h in a
    ensures |a| > 0 && (|a| == 1 <==> a == {h})
  {
    assert |a - {h}| == |a| - 1;
  }

  lemma FreedFile(s: State, h: nat, f: nat)
    requires Usable(s, h) && f < FILES
    ensures var s' := Free(s, h);
            |s'.files| == FILES &&
            s'.files[f].renewable == (s.files[f].renewable ||
              (h in Owners(s, f) && s.files[f].usage == 1 && f != s.next / PER_FILE))
  {
  }

  /** After the timer no file is marked, every file that was is as good as new, and the others, their
      slots and everything else are as they were. */
  lemma {:induction false} TimerRenews(s: State, f: nat)
    requires Shape(s) && f <= FILES
    ensures var s' := RenewFrom(s, f);
            && s' == s.(files := s'.files, slots := s'.slots)
            && (forall g :: f <= g < FILES ==>
                  s'.files[g] == if s.files[g].renewable then File(0, false) else s.files[g])
            && (forall g :: 0 <= g < f ==> s'.files[g] == s.files[g])
            && (forall i :: 0 <= i < IDS ==>
                  s'.slots[i] == if f <= i / PER_FILE && s.files[i / PER_FILE].renewable then BLANK else s.slots[i])
    decreases FILES - f
  {
    if f < FILES {
      TimerRenews(if s.files[f].renewable then RenewFile(s, f) else s, f + 1);
    }
  }

  // ---------------------------------------------------------------- a charged slot is lost

  /** The allocator stands in front of file f, and a slot of f is charged to nobody. */
  ghost predicate Stuck(s: State, f: nat) {
    Shape(s) && f < FILES && s.next == f * PER_FILE && Charge(s, f) > 0
  }

  lemma StuckIsRefused(s: State, m: map<nat, Content>, f: nat)
    requires Inv(s, m) && Stuck(s, f)
    ensures Refused(s) && GetNewSwapId(s).1 == -1
    ensures forall h :: !SlotAhead(s, h)
  {
    AllocationRefusedIff(s);
    forall h ensures !SlotAhead(s, h) {
      assert s.next / PER_FILE == f && s.next % PER_FILE == 0;
      if h in Owners(s, f) { assert |Owners(s, f)| > 0; }
    }
  }

  lemma StuckStays(s: State, m: map<nat, Content>, e: Event, f: nat)
    requires Inv(s, m) && Allowed(s, e) && Stuck(s, f)
    ensures Stuck(Step(s, e).0, f)
  {
    hide SlotAhead, Refused, New, Update, RemoveFromFile, Load;
    StuckIsRefused(s, m, f);
    StepKeepsInv(s, m, e);
    match e
    case NewBuf(h, r, c) => NewStores(s, m, h, r, c);
    case UpdateBuf(b, c) => UpdateStores(s, m, b, c);
    case UpdateAttrs(b, attrs, junk) => UpdateStores(s, m, b, Loaded(s, b, junk).(attrs := attrs));
    case FreeBuf(b) => NextStays(s, b);
    case ReadBuf(b, junk) => LoadShowsContent(s, b, m, junk);
    case RenewTimer => RenewalKeepsInv(s, m, 0);
  }

  lemma NextStays(s: State, b: nat)
    requires Usable(s, b)
    ensures Free(s, b).next == s.next
  {
  }

  /** A slot charged to a dead record is never given back: once the allocator has come to its file
      it stays there, and every flush from then on is refused. */
  lemma {:induction false} StuckForGood(s: State, m: map<nat, Content>, es: seq<Event>, f: nat)
    requires Inv(s, m) && Possible(s, es) && Stuck(s, f)
    ensures Stuck(Run(s, es), f) && GetNewSwapId(Run(s, es)).1 == -1
    decreases |es|
  {
    hide Step, Recorded, Allowed, GetNewSwapId;
    if es == [] {
      StuckIsRefused(s, m, f);
    } else {
      StuckStays(s, m, es[0], f);
      StepKeepsInv(s, m, es[0]);
      StuckForGood(Step(s, es[0]).0, Recorded(s, m, es[0]), es[1..], f);
    }
  }

  // ---------------------------------------------------------------- what stays stored

  /** No event stores in buffer h or frees it. */
  ghost predicate Spares(es: seq<Event>, h: nat) {
    forall i :: 0 <= i < |es| ==> SparesOne(es[i], h)
  }

  predicate SparesOne(e: Event, h: nat) {
    match e
    case UpdateBuf(b, c) => b != h
    case UpdateAttrs(b, attrs, junk) => b != h
    case FreeBuf(b) => b != h
    case _ => true
  }

  lemma StepSpares(s: State, m: map<nat, Content>, e: Event, h: nat)
    requires Inv(s, m) && Allowed(s, e) && SparesOne(e, h) && h in m
    ensures var m' := Recorded(s, m, e); h in m' && m'[h] == m[h]
  {
    hide IdsUnique, UsageCovers, RenewableEmpty, AheadFree, New, Update, RemoveFromFile;
    assert Usable(s, h) && s.bufs[h].word != SwapId(-1);
  }

  lemma {:induction false} RunSpares(s: State, m: map<nat, Content>, es: seq<Event>, h: nat)
    requires Inv(s, m) && Possible(s, es) && Spares(es, h) && h in m
    ensures var m' := Stored(s, m, es); h in m' && m'[h] == m[h]
    decreases |es|
  {
    hide Step, Recorded, Allowed, RamSafe, Holds, CacheOk, IdsUnique, UsageCovers, RenewableEmpty, AheadFree;
    if es != [] {
      StepSpares(s, m, es[0], h);
      StepKeepsInv(s, m, es[0]);
      RunSpares(Step(s, es[0]).0, Recorded(s, m, es[0]), es[1..], h);
    }
  }

  /** After every run that neither stores in h nor frees it, reading h shows c. */
  ghost predicate Stays(s: State, h: nat, c: Content)
    requires Shape(s)
  {
    forall es :: Possible(s, es) && Spares(es, h) ==> Shows(Run(s, es), h, c)
  }

  lemma HeldStays(s: State, m: map<nat, Content>, h: nat)
    requires Inv(s, m) && h in m
    ensures Stays(s, h, m[h])
  {
    hide Shows, Run, Step;
    forall es | Possible(s, es) && Spares(es, h) ensures Shows(Run(s, es), h, m[h]) {
      RunKeepsInv(s, m, es);
      RunSpares(s, m, es, h);
      HeldShows(Run(s, es), Stored(s, m, es), h);
    }
  }

  lemma FirstEvent(s: State, e: Event, es: seq<Event>)
    requires Shape(s) && Allowed(s, e) && Possible(Step(s, e).0, es)
    ensures Possible(s, [e] + es) && Run(s, [e] + es) == Run(Step(s, e).0, es)
  {
    hide Step, Allowed;
    assert ([e] + es)[0] == e && ([e] + es)[1..] == es;
  }

  lemma OneEvent(s: State, e: Event)
    requires Shape(s) && Allowed(s, e)
    ensures Possible(s, [e]) && Run(s, [e]) == Step(s, e).0
  {
    hide Step, Allowed;
    FirstEvent(s, e, []);
    assert [e] + [] == [e];
  }

  /** The buffer is in RAM, or load finds it and there is a slot ahead for it. */
  ghost predicate FindsPlace(s: State, h: nat)
    requires Shape(s) && h in s.live
  {
    s.bufs[h].loc == InRam || (Loadable(s, h) && SlotAhead(s, h))
  }

  /** The event stores c in h, and finds a place for it. An attribute update stores the bytes that
      load shows. */
  ghost predicate StoresIn(s: State, e: Event, h: nat, c: Content)
    requires Shape(s) && Allowed(s, e)
  {
    match e
    case NewBuf(b, r, x) => b == Some(h) && x == c && Step(s, e).1
    case UpdateBuf(b, x) => b == h && x == c && FindsPlace(s, h)
    case UpdateAttrs(b, attrs, junk) =>
      b == h && Usable(s, h) && c == Loaded(s, h, junk).(attrs := attrs) && FindsPlace(s, h)
    case _ => false
  }

  lemma StoredStays(s: State, m: map<nat, Content>, e: Event, h: nat, c: Content)
    requires Inv(s, m) && Allowed(s, e) && StoresIn(s, e, h, c)
    ensures Stays(Step(s, e).0, h, c)
  {
    hide Stays;
    match e {
      case NewBuf(b, r, x) =>
        NewStores(s, m, b, r, x);
        HeldStays(Step(s, e).0, m[h := c], h);
      case UpdateBuf(b, x) =>
        PlacedStays(s, m, h, c);
      case UpdateAttrs(b, attrs, junk) =>
        PlacedStays(s, m, h, c);
    }
  }

  lemma PlacedStays(s: State, m: map<nat, Content>, h: nat, c: Content)
    requires Inv(s, m) && h in s.live && FindsPlace(s, h)
    ensures Usable(s, h) && Stays(Update(s, h, c).0, h, c)
  {
    hide Stays;
    LoadableUpdate(s, m, h, c);
    HeldStays(Update(s, h, c).0, m[h := c], h);
  }

  /** An attribute update of a buffer that holds something keeps its bytes. */
  lemma OldBytesStay(s: State, m: map<nat, Content>, h: nat, attrs: Attrs, junk: Content)
    requires Inv(s, m) && h in m && (s.bufs[h].loc == InRam || SlotAhead(s, h))
    ensures Stays(Step(s, UpdateAttrs(h, attrs, junk)).0, h, m[h].(attrs := attrs))
  {
    hide Stays, SlotAhead;
    LoadShowsContent(s, h, m, junk);
    StoredStays(s, m, UpdateAttrs(h, attrs, junk), h, m[h].(attrs := attrs));
  }

  /** Over every run from queuebuf_init on, an update stays readable exactly when the buffer is in
      RAM, or load finds it and there is a slot ahead for it. Otherwise some further events on other
      buffers lose it: the id -1 matches the cache only as long as the cache stays as it is. */
  lemma UpdateStaysIff(s0: State, es: seq<Event>, h: nat, c: Content)
    requires Initial(s0) && Possible(s0, es) && h in Run(s0, es).live
    ensures var s := Run(s0, es);
            && Usable(s, h) && (Stays(Update(s, h, c).0, h, c) <==> FindsPlace(s, h))
  {
    hide Stays, Run, Stored, Possible;
    var s, m := Run(s0, es), Stored(s0, map[], es);
    InitialHoldsNothing(s0);
    RunKeepsInv(s0, map[], es);
    StartsRoomy(s0);
    RunKeepsRoomy(s0, map[], es);
    if FindsPlace(s, h) {
      PlacedStays(s, m, h, c);
    } else {
      UpdateIsLost(s, m, h, c);
    }
  }

  lemma UpdateIsLost(s: State, m: map<nat, Content>, h: nat, c: Content)
    requires Inv(s, m) && h in s.live && !FindsPlace(s, h) && Roomy(s)
    ensures !Stays(Update(s, h, c).0, h, c)
  {
    hide New, RemoveFromFile, GetNewSwapId, Flush;
    var (s', ok) := Update(s, h, c);
    var other := Content(c.bytes + [0], c.attrs);
    assert |other.bytes| != |c.bytes|;
    UpdateStores(s, m, h, c);
    CacheWritten(s, m, h, c);
    var m' := Kept(s, m, Target(s, h), c, ok);
    var es := [];
    if !ok {
      RefusalNeedsRoom(s, m, h);
      RefusedAfter(s, m, h, c);
      es := Disturbed(s', m', h, c, other);
    } else {
      assert Loaded(s', h, other) == other;
    }
    assert Possible(s', es) && Spares(es, h) && !Shows(Run(s', es), h, c);
  }

  lemma RefusedAfter(s: State, m: map<nat, Content>, h: nat, c: Content)
    requires Inv(s, m) && h in s.live && s.bufs[h].loc == InCfs && !Update(s, h, c).1
    ensures Refused(Update(s, h, c).0)
  {
    UpdateStores(s, m, h, c);
    var s', t, f := Update(s, h, c).0, Target(s, h), s.next / PER_FILE;
    CacheWritten(s, m, h, c);
    assert s.next % PER_FILE == 0 && Charge(s', f) == Charge(s, f);
    ChargeCovers(s, f);
    if t in Owners(s, f) {
      assert Owners(s', f) == Owners(s, f) - {t};
    } else {
      assert Owners(s', f) == Owners(s, f);
    }
  }

  // ---------------------------------------------------------------- losing what has no slot

  ghost predicate Swapped(s: State, h: nat) {
    h in s.live && h < |s.bufs| && s.bufs[h].loc == InCfs
  }

  /** There is at most one swapped buffer, and the cache stands for it. */
  ghost predicate Lone(s: State) {
    forall h: nat, g: nat :: Swapped(s, h) && (Swapped(s, g) || s.tmpBuf == Some(g)) ==> g == h
  }

  /** The pools have room for two swapped buffers, or there is never more than one. */
  ghost predicate Roomy(s: State) {
    |s.ram| + 2 <= |s.bufs| || (Lone(s) && UsageExact(s))
  }

  lemma StartsRoomy(s: State)
    requires Initial(s)
    ensures Roomy(s)
  {
    InitialHoldsNothing(s);
  }

  /** RAM elements in use have a buffer each. */
  lemma {:induction false} RamHolders(s: State, used: set<nat>, hs: set<nat>)
    requires RamSafe(s) && forall i :: i in used ==> exists h :: h in hs && OnRam(s, h, i)
    ensures |used| <= |hs|
    decreases |used|
  {
    if used != {} {
      var i :| i in used;
      var h :| h in hs && OnRam(s, h, i);
      RamHolders(s, used - {i}, hs - {h});
    }
  }

  /** RAM buffers have an element in use each. */
  lemma {:induction false} RamElements(s: State, hs: set<nat>, used: set<nat>)
    requires RamSafe(s) && forall h :: h in hs ==> exists i: nat :: i in used && OnRam(s, h, i)
    ensures |hs| <= |used|
    decreases |hs|
  {
    if hs != {} {
      var h :| h in hs;
      var i: nat :| i in used && OnRam(s, h, i);
      RamElements(s, hs - {h}, used - {i});
    }
  }

  /** With RAM full and a swapped buffer around, another one needs room for two. */
  lemma SecondNeedsRoom(s: State, m: map<nat, Content>, g: nat, h: nat)
    requires Inv(s, m) && Swapped(s, g) && |s.ramUsed| >= |s.ram| && h < |s.bufs| && h !in s.live
    ensures |s.ram| + 2 <= |s.bufs|
  {
    forall i | i in s.ramUsed ensures exists b :: b in s.live - {g} && OnRam(s, b, i) {
      var b :| OnRam(s, b, i);
    }
    RamHolders(s, s.ramUsed, s.live - {g});
    Pools.HasRoom(s.live, |s.bufs|, h);
  }

  /** If h is the only swapped buffer and there is room for two, some buffer is free. */
  lemma BufferLeft(s: State, m: map<nat, Content>, h: nat) returns (g: nat)
    requires Inv(s, m) && Swapped(s, h) && |s.ram| + 2 <= |s.bufs|
    requires forall b :: Swapped(s, b) ==> b == h
    ensures g < |s.bufs| && g !in s.live
  {
    forall b | b in s.live - {h} ensures exists i: nat :: i in s.ramUsed && OnRam(s, b, i) {
      assert Usable(s, b) && !Swapped(s, b);
      assert OnRam(s, b, s.bufs[b].word.i);
    }
    RamElements(s, s.live - {h}, s.ramUsed);
    Pools.AtMost(s.ramUsed, |s.ram|);
    g := Pools.FreeElement(s.live, |s.bufs|);
  }

  /** No buffer becomes a swapped one, and the cache moves to a swapped one if at all. */
  lemma LoneStays(s: State, s': State, b: nat)
    requires Lone(s) && forall h :: Swapped(s', h) ==> Swapped(s, h)
    requires s'.tmpBuf == s.tmpBuf || (Swapped(s, b) && s'.tmpBuf == Some(b))
    ensures Lone(s')
  {
    forall h: nat, g: nat | Swapped(s', h) && (Swapped(s', g) || s'.tmpBuf == Some(g)) ensures g == h {
      assert Swapped(s, h) && (Swapped(s, g) || !Swapped(s, g));
    }
  }

  lemma StepKeepsRoomy(s: State, m: map<nat, Content>, e: Event)
    requires Inv(s, m) && Allowed(s, e) && Roomy(s)
    ensures Roomy(Step(s, e).0)
  {
    hide UsageCovers, RenewableEmpty, AheadFree, IdsUnique, RamSafe, Holds, Flush, RemoveFromFile, Charge;
    var s' := Step(s, e).0;
    StepKeepsInv(s, m, e);
    match e
    case NewBuf(h, r, c) => if h.Some? { NewKeepsRoomy(s, m, h.value, r, c); }
    case UpdateBuf(b, c) => UpdateKeepsRoomy(s, m, b, c);
    case UpdateAttrs(b, attrs, junk) => UpdateKeepsRoomy(s, m, b, Loaded(s, b, junk).(attrs := attrs));
    case FreeBuf(b) =>
      FreeFrame(s, b);
      if Lone(s) { LoneStays(s, s', b); }
    case ReadBuf(b, junk) =>
      LoadShowsContent(s, b, m, junk);
      if Lone(s) { LoneStays(s, s', b); }
    case RenewTimer =>
      RenewalKeepsInv(s, m, 0);
      if Lone(s) { LoneStays(s, s', 0); }
  }

  lemma FreeFrame(s: State, b: nat)
    requires Usable(s, b)
    ensures var s' := Free(s, b);
            && s'.live == s.live - {b} && s'.tmpBuf == s.tmpBuf && |s'.bufs| == |s.bufs| && s'.ram == s.ram
            && forall h :: 0 <= h < |s.bufs| ==> s'.bufs[h].loc == s.bufs[h].loc
  {
  }

  lemma NewKeepsRoomy(s: State, m: map<nat, Content>, h: nat, r: Option<nat>, c: Content)
    requires Inv(s, m) && PoolsAgree(s, Some(h), r) && Roomy(s)
    ensures Roomy(New(s, Some(h), r, c).0)
  {
    hide UsageCovers, RenewableEmpty, AheadFree, IdsUnique, RamSafe, Holds, Flush, Charge, New;
    NewStores(s, m, Some(h), r, c);
    if |s.ram| + 2 > |s.bufs| && r.None? {
      forall g ensures !Swapped(s, g) {
        if Swapped(s, g) { SecondNeedsRoom(s, m, g, h); }
      }
    }
    NewFrame(s, h, r, c);
    var s' := New(s, Some(h), r, c).0;
    forall g | Swapped(s', g) && g != h ensures Swapped(s, g) {
    }
    if Lone(s) && r.Some? { LoneStays(s, s', h); }
  }

  lemma NewFrame(s: State, h: nat, r: Option<nat>, c: Content)
    requires Shape(s) && h < |s.bufs| && (r.Some? ==> r.value < |s.ram|)
    ensures var s' := New(s, Some(h), r, c).0;
            && |s'.bufs| == |s.bufs| && |s'.ram| == |s.ram| && s'.live <= s.live + {h}
            && s'.tmpBuf == (if r.Some? then s.tmpBuf else Some(h))
            && (forall g :: 0 <= g < |s.bufs| && g != h ==> s'.bufs[g] == s.bufs[g])
            && (r.Some? ==> s'.bufs[h].loc == InRam)
  {
  }

  lemma UpdateKeepsRoomy(s: State, m: map<nat, Content>, b: nat, c: Content)
    requires Inv(s, m) && b in s.live && Roomy(s)
    ensures Roomy(Update(s, b, c).0)
  {
    hide UsageCovers, RenewableEmpty, AheadFree, IdsUnique, RamSafe, Holds, Flush, Charge;
    var s' := Update(s, b, c).0;
    UpdateStores(s, m, b, c);
    if s.bufs[b].loc == InCfs { CacheWritten(s, m, b, c); }
    if Lone(s) {
      assert Loadable(s, b) by { assert s.tmpBuf.Some? ==> Swapped(s, b) || s.bufs[b].loc == InRam; }
      LoneStays(s, s', b);
    }
  }

  lemma {:induction false} RunKeepsRoomy(s: State, m: map<nat, Content>, es: seq<Event>)
    requires Inv(s, m) && Possible(s, es) && Roomy(s)
    ensures Roomy(Run(s, es))
    decreases |es|
  {
    hide Step, Recorded, Allowed, Roomy, RamSafe, Holds, CacheOk, IdsUnique, UsageCovers, RenewableEmpty, AheadFree;
    if es != [] {
      StepKeepsInv(s, m, es[0]);
      StepKeepsRoomy(s, m, es[0]);
      RunKeepsRoomy(Step(s, es[0]).0, Recorded(s, m, es[0]), es[1..]);
    }
  }

  /** A lone swapped buffer always finds its slot. */
  lemma RefusalNeedsRoom(s: State, m: map<nat, Content>, h: nat)
    requires Inv(s, m) && Swapped(s, h) && Roomy(s) && !FindsPlace(s, h)
    ensures |s.ram| + 2 <= |s.bufs|
  {
    if Lone(s) && UsageExact(s) { LoneFindsPlace(s, m, h); }
  }

  lemma LoneFindsPlace(s: State, m: map<nat, Content>, h: nat)
    requires Inv(s, m) && Swapped(s, h) && Lone(s) && UsageExact(s)
    ensures FindsPlace(s, h)
  {
    LoneOwner(s, h, s.next / PER_FILE);
    assert Loadable(s, h);
  }

  lemma LoneOwner(s: State, h: nat, f: nat)
    requires Swapped(s, h) && (forall g :: Swapped(s, g) ==> g == h) && |s.files| == FILES && f < FILES
    requires Charge(s, f) == 0
    ensures s.files[f].usage == if h in Owners(s, f) then 1 else 0
  {
    forall g | g in Owners(s, f) ensures g == h {
      assert Swapped(s, g);
    }
    assert Owners(s, f) == if h in Owners(s, f) then {h} else {};
  }

  /** A buffer that shows c only because the cache has lost its id too: some events on others make
      it show something else. */
  lemma {:induction false} Disturbed(s: State, m: map<nat, Content>, h: nat, c: Content, other: Content)
      returns (es: seq<Event>)
    requires Inv(s, m) && Swapped(s, h) && s.bufs[h].word == SwapId(-1) && Refused(s) && other != c
    requires |s.ram| + 2 <= |s.bufs|
    ensures Possible(s, es) && Spares(es, h) && !Shows(Run(s, es), h, c)
    decreases |s.ram| - |s.ramUsed|
  {
    hide Run, Possible, New, Update, Load, Refused;
    var e: Event;
    if g: nat :| Swapped(s, g) && g != h {
      e := if s.bufs[g].word == SwapId(-1) then UpdateBuf(g, other) else ReadBuf(g, other);
      DisturbedByOther(s, m, h, g, c, other);
    } else {
      var g := BufferLeft(s, m, h);
      Pools.AtMost(s.ramUsed, |s.ram|);
      if |s.ramUsed| < |s.ram| {
        var r := Pools.FreeElement(s.ramUsed, |s.ram|);
        e := NewBuf(Some(g), Some(r), other);
        FillsRamBeside(s, m, h, g, r, other);
        Pools.HasRoom(s.live, |s.bufs|, g);
        NewStores(s, m, Some(g), Some(r), other);
        var rest := Disturbed(Step(s, e).0, m[g := other], h, c, other);
        FirstEvent(s, e, rest);
        return [e] + rest;
      }
      e := NewBuf(Some(g), None, other);
      DisturbedByNew(s, m, h, g, c, other);
    }
    OneEvent(s, e);
    es := [e];
  }

  lemma FillsRamBeside(s: State, m: map<nat, Content>, h: nat, g: nat, r: nat, c: Content)
    requires Inv(s, m) && Swapped(s, h) && s.bufs[h].word == SwapId(-1) && Refused(s)
    requires g < |s.bufs| && g !in s.live && r < |s.ram| && r !in s.ramUsed
    ensures var e := NewBuf(Some(g), Some(r), c);
            && Allowed(s, e)
            && var s' := Step(s, e).0;
               && Swapped(s', h) && s'.bufs[h].word == SwapId(-1) && Refused(s')
               && |s'.ram| == |s.ram| && |s'.bufs| == |s.bufs| && |s'.ramUsed| == |s.ramUsed| + 1
  {
  }

  lemma DisturbedByOther(s: State, m: map<nat, Content>, h: nat, g: nat, c: Content, other: Content)
    requires Inv(s, m) && Swapped(s, h) && s.bufs[h].word == SwapId(-1) && Refused(s) && other != c
    requires Swapped(s, g) && g != h
    ensures var e := if s.bufs[g].word == SwapId(-1) then UpdateBuf(g, other) else ReadBuf(g, other);
            Allowed(s, e) && !Shows(Step(s, e).0, h, c)
  {
    hide UsageCovers, RenewableEmpty, AheadFree, IdsUnique, RamSafe, Holds, Flush;
    var e := if s.bufs[g].word == SwapId(-1) then UpdateBuf(g, other) else ReadBuf(g, other);
    LoadShowsContent(s, g, m, other);
    if s.bufs[g].word == SwapId(-1) {
      CacheWritten(s, m, g, other);
    }
    assert Usable(Step(s, e).0, h) ==> Loaded(Step(s, e).0, h, other) == other;
  }

  lemma DisturbedByNew(s: State, m: map<nat, Content>, h: nat, g: nat, c: Content, other: Content)
    requires Inv(s, m) && Swapped(s, h) && s.bufs[h].word == SwapId(-1) && Refused(s) && other != c
    requires g < |s.bufs| && g !in s.live && |s.ramUsed| >= |s.ram|
    ensures var e := NewBuf(Some(g), None, other); Allowed(s, e) && !Shows(Step(s, e).0, h, c)
  {
    var s' := New(s, Some(g), None, other).0;
    assert Usable(s', h) ==> Loaded(s', h, other) == other;
  }


  // ---------------------------------------------------------------- states that call for care

  ghost predicate Reached(s0: State, es: seq<Event>, s: State) {
    Shape(s0) && Possible(s0, es) && Run(s0, es) == s
  }

  lemma {:induction false} ReachesMore(s0: State, es: seq<Event>, s: State, e: Event)
    requires Reached(s0, es, s) && Allowed(s, e)
    ensures Reached(s0, es + [e], Step(s, e).0)
    decreases |es|
  {
    hide Step, Allowed;
    if es == [] {
      assert es + [e] == [e];
      OneEvent(s, e);
    } else {
      ReachesMore(Step(s0, es[0]).0, es[1..], s, e);
      assert (es + [e])[1..] == es[1..] + [e] && (es + [e])[0] == es[0];
    }
  }

  /** The first n buffers are the live ones. */
  ghost predicate LiveBelow(s: State, n: nat) {
    n <= |s.bufs| && forall h: nat :: h in s.live <==> h < n
  }

  /** RAM is full with the first n buffers, the next j have ids 0, 1, ... of file 0. */
  ghost predicate Started(s: State, n: nat, j: nat) {
    && Shape(s) && LiveBelow(s, n + j) && (forall i: nat :: i in s.ramUsed <==> i < n) && s.next == j <= 3
    && (forall i :: 0 <= i < n ==> s.bufs[i].loc == InRam)
    && (forall i :: 0 <= i < j ==> s.bufs[n + i] == Buf(InCfs, SwapId(i)))
    && s.files[0] == File(j, false) && forall f :: 1 <= f < FILES ==> s.files[f] == File(0, false)
  }

  lemma StartsEmpty(s: State)
    requires Initial(s)
    ensures Started(s, 0, 0)
  {
  }

  lemma FillsOne(s: State, k: nat, c: Content)
    requires Started(s, k, 0) && k < |s.ram| && k < |s.bufs|
    ensures var e := NewBuf(Some(k), Some(k), c);
            && Allowed(s, e) && Started(Step(s, e).0, k + 1, 0)
            && |Step(s, e).0.ram| == |s.ram| && |Step(s, e).0.bufs| == |s.bufs|
  {
  }

  lemma {:induction false} FillsRam(s0: State, n: nat, c: Content) returns (es: seq<Event>, s: State)
    requires Initial(s0) && n <= |s0.ram| && n <= |s0.bufs|
    ensures Reached(s0, es, s) && Started(s, n, 0) && |s.ram| == |s0.ram| && |s.bufs| == |s0.bufs|
  {
    hide Step, Allowed, Started, Initial;
    StartsEmpty(s0);
    if n == 0 {
      es, s := [], s0;
    } else {
      es, s := FillsRam(s0, n - 1, c);
      var e := NewBuf(Some(n - 1), Some(n - 1), c);
      FillsOne(s, n - 1, c);
      ReachesMore(s0, es, s, e);
      es, s := es + [e], Step(s, e).0;
    }
  }

  lemma SwapsOne(s: State, n: nat, j: nat, c: Content)
    requires Started(s, n, j) && j < 3 && n + j < |s.bufs| && n == |s.ram|
    ensures var e := NewBuf(Some(n + j), None, c);
            && Allowed(s, e) && Started(Step(s, e).0, n, j + 1)
            && |Step(s, e).0.ram| == |s.ram| && |Step(s, e).0.bufs| == |s.bufs|
  {
    Pools.AtLeast(s.ramUsed, n);
    var s1 := s.(bufs := s.bufs[n + j := Buf(InCfs, SwapId(-1))], live := s.live + {n + j},
                 tmpBuf := Some(n + j), tmp := c);
    assert GetNewSwapId(s1) == (s1.(files := s.files[0 := File(j + 1, false)], next := j + 1), j as int);
  }

  lemma {:induction false} SwapsOut(s0: State, j: nat, c: Content) returns (es: seq<Event>, s: State)
    requires Initial(s0) && j <= 3 && |s0.ram| + j <= |s0.bufs|
    ensures Reached(s0, es, s) && Started(s, |s0.ram|, j) && |s.ram| == |s0.ram| && |s.bufs| == |s0.bufs|
  {
    hide Step, Allowed, Started, Initial;
    var n := |s0.ram|;
    if j == 0 {
      es, s := FillsRam(s0, n, c);
    } else {
      es, s := SwapsOut(s0, j - 1, c);
      var e := NewBuf(Some(n + j - 1), None, c);
      SwapsOne(s, n, j - 1, c);
      ReachesMore(s0, es, s, e);
      es, s := es + [e], Step(s, e).0;
    }
  }

  /** Buffers n and n + 2 keep ids 0 and 2, the one in between has been updated until x ids were
      used up. */
  ghost predicate Cycled(s: State, n: nat, x: nat) {
    && Shape(s) && 3 <= x <= IDS && LiveBelow(s, n + 3)
    && (forall i :: 0 <= i < n ==> s.bufs[i].loc == InRam)
    && s.bufs[n] == Buf(InCfs, SwapId(0)) && s.bufs[n + 2] == Buf(InCfs, SwapId(2))
    && s.bufs[n + 1] == Buf(InCfs, SwapId(if x == 3 then 1 else x - 1)) && s.next == x % IDS && UsageExact(s)
  }

  lemma AheadOfCycle(s: State, n: nat, x: nat)
    requires Cycled(s, n, x) && x < IDS
    ensures SlotAhead(s, n + 1)
  {
    var f := x / PER_FILE;
    if x % PER_FILE == 0 {
      assert Charge(s, f) == 0;
      assert Owners(s, f) == if n + 1 in Owners(s, f) then {n + 1} else {};
    }
  }

  /** An update of a swapped buffer with an id: only its record changes, to the next id or to -1. */
  lemma UpdateMoves(s: State, m: map<nat, Content>, b: nat, c: Content)
    requires Inv(s, m) && b in s.live && s.bufs[b].loc == InCfs && s.bufs[b].word != SwapId(-1)
    ensures var s', ok := Step(s, UpdateBuf(b, c)).0, SlotAhead(s, b);
            && Allowed(s, UpdateBuf(b, c)) && s'.live == s.live && s'.tmpBuf == Some(b) && |s'.ram| == |s.ram|
            && s'.bufs == s.bufs[b := Buf(InCfs, SwapId(if ok then s.next else -1))]
            && s'.next == (if ok then (s.next + 1) % IDS else s.next) && Charged(s, s', false)
  {
    hide Flush, UsageCovers, RenewableEmpty, AheadFree, IdsUnique;
    UpdateStores(s, m, b, c);
    CacheWritten(s, m, b, c);
  }

  lemma CyclesOn(s: State, m: map<nat, Content>, n: nat, x: nat, c: Content)
    requires Inv(s, m) && Cycled(s, n, x) && x < IDS
    ensures Allowed(s, UpdateBuf(n + 1, c)) && Cycled(Step(s, UpdateBuf(n + 1, c)).0, n, x + 1)
  {
    hide Step, Allowed, SlotAhead, Inv;
    AheadOfCycle(s, n, x);
    UpdateMoves(s, m, n + 1, c);
    assert UsageExact(s);
  }

  lemma StartedExact(s: State, n: nat)
    requires Started(s, n, 3)
    ensures UsageExact(s)
  {
    assert s.bufs[n + 0] == Buf(InCfs, SwapId(0)) && s.bufs[n + 1] == Buf(InCfs, SwapId(1));
    assert s.bufs[n + 2] == Buf(InCfs, SwapId(2));
    forall g | g in Owners(s, 0) ensures g in {n, n + 1, n + 2} {
    }
    assert Owners(s, 0) == {n, n + 1, n + 2};
    forall f | 1 <= f < FILES ensures Owners(s, f) == {} {
    }
  }

  lemma {:induction false} CyclesTo(s0: State, x: nat, c: Content) returns (es: seq<Event>, s: State)
    requires Initial(s0) && 3 <= x <= IDS && |s0.ram| + 3 <= |s0.bufs|
    ensures Reached(s0, es, s) && Cycled(s, |s0.ram|, x)
  {
    hide Step, Allowed, Initial;
    var n := |s0.ram|;
    if x == 3 {
      es, s := SwapsOut(s0, 3, c);
      assert s.bufs[n + 0] == Buf(InCfs, SwapId(0)) && s.bufs[n + 1] == Buf(InCfs, SwapId(1));
      StartedExact(s, n);
    } else {
      es, s := CyclesTo(s0, x - 1, c);
      var m := InvThere(s0, es, s);
      CyclesOn(s, m, n, x - 1, c);
      ReachesMore(s0, es, s, UpdateBuf(n + 1, c));
      es, s := es + [UpdateBuf(n + 1, c)], Step(s, UpdateBuf(n + 1, c)).0;
    }
  }

  lemma InvThere(s0: State, es: seq<Event>, s: State) returns (m: map<nat, Content>)
    requires Initial(s0) && Reached(s0, es, s)
    ensures Inv(s, m)
  {
    InitialHoldsNothing(s0);
    RunKeepsInv(s0, map[], es);
    m := Stored(s0, map[], es);
  }

  /** From queuebuf_init, with any sizes of the two pools that leave room for three swapped buffers,
      a run leads to a live buffer whose next update does not stay. */
  lemma ReachesLostUpdate(s0: State, c: Content) returns (es: seq<Event>, s: State, b: nat)
    requires Initial(s0) && |s0.ram| + 3 <= |s0.bufs|
    ensures Reached(s0, es, s) && b in s.live && Loadable(s, b) && Usable(s, b) && !Stays(Update(s, b, c).0, b, c)
  {
    hide Stays, Initial, UsageExact;
    var n := |s0.ram|;
    b := n + 1;
    es, s := CyclesTo(s0, IDS, c);
    FileInUse(s, n);
    UpdateStaysIff(s0, es, b, c);
  }

  lemma FileInUse(s: State, n: nat)
    requires Cycled(s, n, IDS)
    ensures !SlotAhead(s, n + 1)
  {
    assert n in Owners(s, 0) && n + 1 !in Owners(s, 0) && Charge(s, 0) == 0;
    assert |Owners(s, 0)| > 0;
  }

  /** From there one goes on to a live buffer without an id while the cache stands for a freed one:
      its next update charges file 0 with a slot that no live buffer has. */
  lemma ReachesUnsafeUpdate(s0: State, c: Content) returns (es: seq<Event>, s: State, b: nat)
    requires Initial(s0) && |s0.ram| + 3 <= |s0.bufs|
    ensures Reached(s0, es, s) && b in s.live && Usable(s, b) && !UpdateSafe(s, b)
    ensures var s' := Update(s, b, c).0;
            |s'.files| == FILES && s'.files[0].usage == 1 && Owners(s', 0) == {} && Charge(s', 0) == 1
  {
    hide Reached, Initial, Update, UpdateSafe, Charge;
    es, s, b := ReachesEdge(s0, c);
    var m := InvThere(s0, es, s);
    ChargesNobody(s, m, b, c);
  }

  /** At the start of file 0, which nothing uses, the lone swapped buffer b has no id, and the cache
      stands for a dead record without one. */
  ghost predicate OnEdge(s: State, b: nat) {
    && Shape(s) && s.next == 0 && s.live != {} && Swapped(s, b) && s.bufs[b].word == SwapId(-1)
    && (forall g :: Swapped(s, g) ==> g == b)
    && s.tmpBuf.Some? && s.tmpBuf.value !in s.live && s.bufs[s.tmpBuf.value].word == SwapId(-1)
    && UsageExact(s)
  }

  lemma ReachesEdge(s0: State, c: Content) returns (es: seq<Event>, s: State, b: nat)
    requires Initial(s0) && |s0.ram| + 3 <= |s0.bufs|
    ensures Reached(s0, es, s) && OnEdge(s, b)
  {
    hide Reached, Initial, Update, UpdateSafe, UsageExact;
    var n := |s0.ram|;
    b := n + 1;
    es, s := CyclesTo(s0, IDS, c);
    es, s := LosesItsId(s0, es, s, n, c);
    es, s := ReadAndFreed(s0, es, s, n, c);
  }

  lemma ChargesNobody(s: State, m: map<nat, Content>, b: nat, c: Content)
    requires Inv(s, m) && OnEdge(s, b)
    ensures Usable(s, b) && !UpdateSafe(s, b)
    ensures var s' := Update(s, b, c).0;
            && |s'.files| == FILES && s'.files[0].usage == 1 && Owners(s', 0) == {} && Circles(s', b, 1)
  {
    hide Update, UsageCovers, RenewableEmpty, AheadFree, IdsUnique;
    var s' := Update(s, b, c).0;
    UpdateStores(s, m, b, c);
    CacheWritten(s, m, b, c);
    forall g | Swapped(s', g) ensures g == b {
      assert Swapped(s, g);
    }
    forall g | g in Owners(s, 0) ensures g == b {
      assert Swapped(s, g);
    }
    forall g | g in Owners(s', 0) ensures g == b {
      assert Swapped(s', g);
    }
    assert Owners(s, 0) == {} == Owners(s', 0) && Charge(s, 0) == 0;
  }

  /** Buffer n + 1 has no id any more, the allocator waits in front of file 0. */
  ghost predicate WithoutId(s: State, n: nat) {
    && Shape(s) && LiveBelow(s, n + 3) && s.next == 0
    && (forall i :: 0 <= i < n ==> s.bufs[i].loc == InRam)
    && s.bufs[n] == Buf(InCfs, SwapId(0)) && s.bufs[n + 2] == Buf(InCfs, SwapId(2))
    && s.bufs[n + 1] == Buf(InCfs, SwapId(-1)) && s.tmpBuf == Some(n + 1) && UsageExact(s)
  }

  lemma LosesItsId(s0: State, es: seq<Event>, s: State, n: nat, c: Content) returns (es': seq<Event>, s': State)
    requires Initial(s0) && Reached(s0, es, s) && Cycled(s, n, IDS)
    ensures Reached(s0, es', s') && WithoutId(s', n)
  {
    hide Step, Allowed, SlotAhead, Inv, Reached, Initial;
    var m := InvThere(s0, es, s);
    FileInUse(s, n);
    UpdateMoves(s, m, n + 1, c);
    ReachesMore(s0, es, s, UpdateBuf(n + 1, c));
    es', s' := es + [UpdateBuf(n + 1, c)], Step(s, UpdateBuf(n + 1, c)).0;
    assert UsageExact(s);
  }

  lemma ReadMoves(s: State, m: map<nat, Content>, g: nat, junk: Content)
    requires Inv(s, m) && g in s.live && s.bufs[g].loc == InCfs && s.bufs[g].word != SwapId(-1)
    ensures Allowed(s, ReadBuf(g, junk))
    ensures var s' := Step(s, ReadBuf(g, junk)).0;
            s' == s.(tmp := s'.tmp, tmpBuf := Some(g)) && Charged(s, s', false)
  {
    LoadShowsContent(s, g, m, junk);
  }

  lemma FreeMoves(s: State, m: map<nat, Content>, g: nat)
    requires Inv(s, m) && g in s.live && s.bufs[g].loc == InCfs && s.bufs[g].word != SwapId(-1)
    ensures Allowed(s, FreeBuf(g))
    ensures var s' := Step(s, FreeBuf(g)).0;
            && s' == s.(live := s.live - {g}, files := s'.files, bufs := s'.bufs) && Charged(s, s', false)
            && s'.bufs == if s.tmpBuf == Some(g) then s.bufs[g := Buf(InCfs, SwapId(-1))] else s.bufs
  {
    assert Owns(s, g, s.bufs[g].word.id);
    FreeForgets(s, m, g);
    FreedRecord(s, m, g, s.bufs[g].word.id);
  }

  /** Buffer n + 2 is read and freed, then the last one with an id. */
  lemma ReadAndFreed(s0: State, es: seq<Event>, s: State, n: nat, junk: Content) returns (es': seq<Event>, s': State)
    requires Initial(s0) && Reached(s0, es, s) && WithoutId(s, n)
    ensures Reached(s0, es', s') && OnEdge(s', n + 1)
  {
    hide Step, Allowed, Inv, Reached, Initial, Charge;
    var e1, e2, e3 := ReadBuf(n + 2, junk), FreeBuf(n + 2), FreeBuf(n);
    var m := InvThere(s0, es, s);
    ReadMoves(s, m, n + 2, junk);
    ReachesMore(s0, es, s, e1);
    var s1 := Step(s, e1).0;
    m := InvThere(s0, es + [e1], s1);
    FreeMoves(s1, m, n + 2);
    ReachesMore(s0, es + [e1], s1, e2);
    var s2 := Step(s1, e2).0;
    m := InvThere(s0, es + [e1] + [e2], s2);
    FreeMoves(s2, m, n);
    ReachesMore(s0, es + [e1] + [e2], s2, e3);
    es', s' := es + [e1] + [e2] + [e3], Step(s2, e3).0;
    assert n + 1 in s'.live;
  }

  /** Buffer b is the only swapped one; x ids have been used up since the charge to file 0. */
  ghost predicate Circles(s: State, b: nat, x: nat) {
    && Shape(s) && 1 <= x <= IDS && s.next == x % IDS && Swapped(s, b)
    && (forall g :: Swapped(s, g) ==> g == b)
    && s.bufs[b].word == SwapId(if x == 1 then -1 else x - 1)
    && (x == 1 ==> s.tmpBuf.Some? && s.bufs[s.tmpBuf.value].word != SwapId(-1))
    && Charge(s, 0) == 1 && forall f :: 1 <= f < FILES ==> Charge(s, f) == 0
  }

  lemma CirclesOn(s: State, m: map<nat, Content>, b: nat, x: nat, c: Content)
    requires Inv(s, m) && Circles(s, b, x) && x < IDS
    ensures Allowed(s, UpdateBuf(b, c)) && Circles(Step(s, UpdateBuf(b, c)).0, b, x + 1)
  {
    hide Update, UsageCovers, RenewableEmpty, AheadFree, IdsUnique;
    if x % PER_FILE == 0 {
      LoneOwner(s, b, x / PER_FILE);
    }
    assert Loadable(s, b) && SlotAhead(s, b);
    UpdateStores(s, m, b, c);
    CacheWritten(s, m, b, c);
    forall g | Swapped(Update(s, b, c).0, g) ensures g == b {
      assert Swapped(s, g);
    }
  }

  lemma {:induction false} CirclesTo(s0: State, x: nat, c: Content) returns (es: seq<Event>, s: State, b: nat)
    requires Initial(s0) && 1 <= x <= IDS && |s0.ram| + 3 <= |s0.bufs|
    ensures Reached(s0, es, s) && Circles(s, b, x)
  {
    hide Step, Allowed, Initial, Reached, Circles, OnEdge, UpdateSafe;
    var m: map<nat, Content>;
    if x == 1 {
      es, s, b := ReachesEdge(s0, c);
      m := InvThere(s0, es, s);
      ChargesNobody(s, m, b, c);
      EdgeEvent(s, b, c);
    } else {
      es, s, b := CirclesTo(s0, x - 1, c);
      m := InvThere(s0, es, s);
      CirclesOn(s, m, b, x - 1, c);
    }
    ReachesMore(s0, es, s, UpdateBuf(b, c));
    es, s := es + [UpdateBuf(b, c)], Step(s, UpdateBuf(b, c)).0;
  }

  lemma EdgeEvent(s: State, b: nat, c: Content)
    requires OnEdge(s, b) && Usable(s, b)
    ensures Allowed(s, UpdateBuf(b, c)) && Step(s, UpdateBuf(b, c)) == Update(s, b, c)
  {
  }

  /** Another turn through the ids leads from that update back to file 0, and there the swap stays
      stuck: with a single swapped buffer around, no flush of any further run finds a slot. */
  lemma ReachesStuck(s0: State, c: Content) returns (es: seq<Event>, s: State)
    requires Initial(s0) && |s0.ram| + 3 <= |s0.bufs|
    ensures Reached(s0, es, s) && Stuck(s, 0)
    ensures forall more :: Possible(s, more) ==> GetNewSwapId(Run(s, more)).1 == -1
  {
    hide Run, GetNewSwapId, Initial, Possible;
    var b;
    es, s, b := CirclesTo(s0, IDS, c);
    var m := InvThere(s0, es, s);
    assert s.next == 0;
    forall more | Possible(s, more) ensures GetNewSwapId(Run(s, more)).1 == -1 {
      StuckForGood(s, m, more, 0);
    }
  }

  // ---------------------------------------------------------------- the C module

  class QueueBuffers {
    const bufs: array<Buf>
    const ram: array<Content>
    const files: array<File>
    const slots: array<Content>
    var live: set<nat>
    var ramUsed: set<nat>
    var next: nat
    var tmp: Content
    var tmpBuf: Option<nat>
    ghost var store: map<nat, Content>

    ghost function View(): State
      reads this, bufs, ram, files, slots
    {
      State(bufs[..], live, ram[..], ramUsed, files[..], slots[..], next, tmp, tmpBuf)
    }

    ghost predicate Valid()
      reads this, bufs, ram, files, slots
    {
      ram != slots && Inv(View(), store)
    }

    /** queuebuf_init */
    constructor (b: array<Buf>, r: array<Content>, f: array<File>, d: array<Content>)
      requires f.Length == FILES && d.Length == IDS && r != d
      modifies f, d
      ensures Valid() && Initial(View()) && store == map[]
      ensures bufs == b && ram == r && files == f && slots == d
    {
      bufs, ram, files, slots := b, r, f, d;
      live, ramUsed, next, tmp, tmpBuf := {}, {}, 0, BLANK, None;
      store := map[];
      new;
      var i := 0;
      while i < FILES
        invariant 0 <= i <= FILES && unchanged(b) && unchanged(r)
        invariant live == {} && ramUsed == {} && next == 0 && tmpBuf == None && store == map[]
        invariant forall k :: 0 <= k < i ==> files[k] == File(0, false)
      {
        files[i] := files[i].(renewable := true);
        QbufRenewFile(i);
        i := i + 1;
      }
      InitialHoldsNothing(View());
    }

    /** cfs_remove and cfs_open of a fresh file: no slot of it can be read any more. */
    method CfsRemove(f: nat)
      requires ram != slots
      modifies slots
      ensures slots[..] == Erase(old(slots[..]), f)
    {
      for i := 0 to slots.Length
        invariant forall k :: 0 <= k < i ==> slots[k] == if k / PER_FILE == f then BLANK else old(slots[k])
        invariant forall k :: i <= k < slots.Length ==> slots[k] == old(slots[k])
      {
        if i / PER_FILE == f {
          slots[i] := BLANK;
        }
      }
    }

    method QbufRenewFile(f: nat)
      requires f < files.Length && ram != slots
      modifies files, slots
      ensures View() == RenewFile(old(View()), f)
    {
      if files[f].renewable {
        CfsRemove(f);
      }
      files[f] := File(0, false);
    }

    method QbufRenewAll()
      requires Valid()
      modifies files, slots
      ensures Valid() && View() == RenewFrom(old(View()), 0)
    {
      RenewalKeepsInv(View(), store, 0);
      ghost var s := View();
      var i := 0;
      while i < FILES
        invariant 0 <= i <= FILES && Shape(View())
        invariant RenewFrom(View(), i) == RenewFrom(s, 0)
      {
        if files[i].renewable {
          QbufRenewFile(i);
        }
        i := i + 1;
      }
    }

    method QueuebufRemoveFromFile(id: int)
      requires Shape(View()) && -1 <= id < IDS
      modifies files, bufs
      ensures View() == RemoveFromFile(old(View()), id)
    {
      if id != -1 {
        var f := id / PER_FILE;
        files[f] := files[f].(usage := files[f].usage - 1);
        if files[f].usage == 0 && f != next / PER_FILE {
          files[f] := files[f].(renewable := true);
        }
        if tmpBuf.Some? && bufs[tmpBuf.value].word == SwapId(id) {
          bufs[tmpBuf.value] := bufs[tmpBuf.value].(word := SwapId(-1));
        }
      }
    }

    method TakeSwapId() returns (id: int)
      requires Shape(View()) && ram != slots
      modifies this`next, files, slots
      ensures (View(), id) == GetNewSwapId(old(View()))
    {
      id := next;
      var f := next / PER_FILE;
      if id % PER_FILE == 0 {
        if files[f].renewable {
          QbufRenewFile(f);
        }
        if files[f].usage > 0 {
          return -1;
        }
      }
      files[f] := files[f].(usage := files[f].usage + 1);
      next := (next + 1) % IDS;
    }

    method FlushTmpdata() returns (ok: bool)
      requires CachesSwapped(View()) && ram != slots
      modifies this`next, files, bufs, slots
      ensures (View(), ok) == Flush(old(View()))
    {
      var t := tmpBuf.value;
      QueuebufRemoveFromFile(bufs[t].word.id);
      var id := TakeSwapId();
      bufs[t] := bufs[t].(word := SwapId(id));
      if id == -1 {
        return false;
      }
      slots[id] := tmp;
      return true;
    }

    /** queuebuf_load_to_ram; the content is what the returned pointer shows. */
    method LoadToRam(h: nat, junk: Content) returns (c: Content)
      requires Usable(View(), h)
      modifies this`tmp, this`tmpBuf
      ensures View() == Load(old(View()), h, junk) && c == Loaded(old(View()), h, junk)
    {
      if bufs[h].loc == InRam {
        return ram[bufs[h].word.i];
      }
      if tmpBuf.Some? && bufs[tmpBuf.value].word == bufs[h].word {
        return tmp;
      }
      tmpBuf := Some(h);
      var id := bufs[h].word.id;
      tmp := if id == -1 then junk else slots[id];
      return tmp;
    }

    /** queuebuf_new_from_packetbuf: the new buffer, or none. `h` and `r` are what the two pools
        handed out. */
    method NewFromPacketbuf(c: Content) returns (buf: Option<nat>, ghost h: Option<nat>, ghost r: Option<nat>)
      requires Valid()
      modifies this, bufs, ram, files, slots
      ensures PoolsAgree(old(View()), h, r) && (buf.Some? ==> buf == h)
      ensures Valid() && (View(), buf.Some?) == New(old(View()), h, r, c)
      ensures store == if buf.Some? then old(store)[buf.value := c] else old(store)
    {
      hide IdsUnique, UsageCovers, RenewableEmpty, AheadFree, Holds, CacheOk, RemoveFromFile, GetNewSwapId, Flush;
      var own := Pools.MembAlloc(live, bufs.Length);
      h, r := own, None;
      if own == None {
        return None, None, None;
      }
      var ownRam := Pools.MembAlloc(ramUsed, ram.Length);
      r := ownRam;
      NewStores(View(), store, h, r, c);
      var ok := NewFromPools(own.value, ownRam, c);
      if ok {
        buf := own;
        store := store[own.value := c];
      } else {
        buf := None;
      }
    }

    method NewFromPools(b: nat, r: Option<nat>, c: Content) returns (ok: bool)
      requires Shape(View()) && ram != slots && b < bufs.Length && b !in live && (r.Some? ==> r.value < ram.Length)
      modifies this`live, this`ramUsed, this`next, this`tmp, this`tmpBuf, bufs, ram, files, slots
      ensures (View(), ok) == New(old(View()), Some(b), r, c)
    {
      live := live + {b};
      if r.Some? {
        bufs[b] := Buf(InRam, RamPtr(r.value));
        ramUsed := ramUsed + {r.value};
        ram[r.value] := c;
        ok := true;
      } else {
        ok := NewSwapped(b, c);
        if !ok {
          live := live - {b};
        }
      }
    }

    /** A new buffer for which RAM has no room is written to its slot at once. */
    method NewSwapped(b: nat, c: Content) returns (ok: bool)
      requires Shape(View()) && b < bufs.Length && ram != slots
      modifies this`next, this`tmp, this`tmpBuf, files, bufs, slots
      ensures var s := old(View());
              (View(), ok) == Flush(s.(bufs := s.bufs[b := Buf(InCfs, SwapId(-1))], tmpBuf := Some(b), tmp := c))
    {
      bufs[b] := Buf(InCfs, SwapId(-1));
      tmpBuf := Some(b);
      tmp := c;
      ok := FlushTmpdata();
    }

    /** Load, store through the pointer, flush if the buffer is swapped. */
    method StoreThrough(h: nat, c: Content, junk: Content) returns (ok: bool)
      requires Usable(View(), h) && ram != slots
      modifies this`next, this`tmp, this`tmpBuf, bufs, ram, files, slots
      ensures (View(), ok) == Update(old(View()), h, c)
    {
      var before := LoadToRam(h, junk);
      if bufs[h].loc == InRam {
        ram[bufs[h].word.i] := c;
        return true;
      }
      tmp := c;
      ok := FlushTmpdata();
    }

    method UpdateFromPacketbuf(h: nat, c: Content, junk: Content) returns (ghost ok: bool)
      requires Valid() && h in live
      modifies this, bufs, ram, files, slots
      ensures Valid() && (View(), ok) == Update(old(View()), h, c)
      ensures store == Kept(old(View()), old(store), old(Target(View(), h)), c, ok)
    {
      ghost var s := View();
      UpdateStores(s, store, h, c);
      ok := StoreThrough(h, c, junk);
      store := Kept(s, store, Target(s, h), c, ok);
    }

    method UpdateAttrFromPacketbuf(h: nat, attrs: Attrs, junk: Content) returns (ghost ok: bool)
      requires Valid() && h in live
      modifies this, bufs, ram, files, slots
      ensures Valid() && (View(), ok) == UpdateAttr(old(View()), h, attrs, junk)
      ensures var c := (if h in old(store) then old(store)[h] else Loaded(old(View()), h, junk)).(attrs := attrs);
              store == Kept(old(View()), old(store), old(Target(View(), h)), c, ok)
    {
      ghost var s := View();
      ghost var c0 := if h in store then store[h] else Loaded(s, h, junk);
      UpdateAttrStores(s, store, h, attrs, junk);
      var c := LoadToRam(h, junk);
      LoadTwice(s, h, junk, c.(attrs := attrs));
      ok := StoreThrough(h, c.(attrs := attrs), junk);
      store := Kept(s, store, Target(s, h), c0.(attrs := attrs), ok);
    }

    /** A pointer from outside bufmem is ignored. */
    method QueuebufFree(h: nat)
      requires Valid() && (h in live || h >= bufs.Length)
      modifies this, bufs, files
      ensures Valid() && View() == if h in old(live) then Free(old(View()), h) else old(View())
      ensures store == old(store) - {h}
    {
      if h >= bufs.Length {
        assert store - {h} == store;
        return;
      }
      FreeForgets(View(), store, h);
      if bufs[h].loc == InRam {
        ramUsed := ramUsed - {bufs[h].word.i};
      } else {
        QueuebufRemoveFromFile(bufs[h].word.id);
      }
      live := live - {h};
      store := store - {h};
    }

    /** The read half of queuebuf_to_packetbuf; nothing is read through a pointer from outside
        bufmem. */
    method ReadBack(h: nat, junk: Content) returns (c: Option<Content>)
      requires Valid() && (h in live || h >= bufs.Length)
      modifies this`tmp, this`tmpBuf
      ensures Valid() && store == old(store)
      ensures h in live ==> View() == Load(old(View()), h, junk) && c == Some(Loaded(old(View()), h, junk))
      ensures h in store ==> c == Some(store[h])
      ensures h !in live ==> View() == old(View()) && c == None
    {
      if h >= bufs.Length {
        return None;
      }
      LoadShowsContent(View(), h, store, junk);
      var content := LoadToRam(h, junk);
      c := Some(content);
    }
  }

  /** What the first load has shown may be stored through the second. */
  lemma LoadTwice(s: State, h: nat, junk: Content, c: Content)
    requires Usable(s, h)
    ensures Usable(Load(s, h, junk), h) && Update(Load(s, h, junk), h, c) == Update(s, h, c)
  {
  }
}
