/**
 ringmem.c: a FIFO of variable-length blocks kept in one byte array. A block is a 16-bit
 length followed by its bytes. Blocks never straddle the end of the array: when the tail
 does not fit, the allocator restarts at offset 0 and remembers the cut in wrap_ptr.
 */
module RingMem {
  import opened Bytes

  /** RINGMEM_MAXSIZE */
  const MAX_SIZE: nat := 16383

  /** The fields of struct ringmem together with the bytes they describe. */
  datatype Ring = Ring(data: seq<Byte>, size: nat, aLen: nat, put: nat, get: nat, wrap: nat)

  type Block = d: seq<Byte> | |d| < 0x1_0000

  /** What the pointers may never violate, whatever the queue holds. */
  ghost predicate Shape(r: Ring) {
    && r.put <= r.size <= |r.data|
    && r.get <= r.size
    && r.wrap <= r.size
    && r.aLen <= r.size
    && r.size <= MAX_SIZE
  }

  function InitRing(data: seq<Byte>, len: nat): Ring {
    var size := if len > MAX_SIZE then MAX_SIZE else len;
    Ring(data, size, size, 0, 0, 0)
  }

  function Store(s: seq<Byte>, at: nat, d: Block): (s': seq<Byte>)
    requires at + 2 + |d| <= |s|
    ensures |s'| == |s|
    ensures BlockAt(s', at, d)
    ensures forall i :: 0 <= i < |s| && !(at <= i < at + 2 + |d|) ==> s'[i] == s[i]
  {
    var s' := s[..at] + Le16(|d|) + d + s[at + 2 + |d|..];
    assert s'[at + 2..at + 2 + |d|] == d;
    s'
  }

  /** The bytes at `at` are the block `d`, length word included. */
  ghost predicate BlockAt(s: seq<Byte>, at: nat, d: Block) {
    && at + 2 + |d| <= |s|
    && Load16(s, at) == |d|
    && s[at + 2..at + 2 + |d|] == d
  }

  function AllocStep(r: Ring, d: Block): (Ring, bool)
    requires Shape(r)
  {
    var tot := |d| + 2;
    if tot > r.aLen then (r, false)
    else if r.put + tot <= r.size then
      (r.(data := Store(r.data, r.put, d), put := r.put + tot, aLen := r.aLen - tot), true)
    else if tot > r.get then (r, false)
    else
      (r.(data := Store(r.data, 0, d), wrap := r.put, put := tot, aLen := r.get - tot), true)
  }

  /** The state after ringmem_get_next_block_ptr, whose wrap fix-up may move get_ptr. */
  function PeekStep(r: Ring): Ring {
    if r.aLen != r.size && r.get == r.wrap && r.wrap != 0 then r.(get := 0, wrap := 0) else r
  }

  /** The state after freeing the block of length `len` at get_ptr. */
  function FreeStep(r: Ring, len: nat): Ring
    requires Shape(r) && r.get + len + 2 <= r.size
  {
    var g := r.get + len + 2;
    var (get, wrap) := if g == r.wrap && r.wrap != 0 then (0, 0) else (g, r.wrap);
    if get == r.put then r.(get := 0, put := 0, wrap := wrap, aLen := r.size)
    else if get < r.put then r.(get := get, wrap := wrap, aLen := r.size - r.put + get)
    else r.(get := get, wrap := wrap, aLen := get - r.put)
  }

  /** The live blocks, oldest first, starting at `get`: contiguous up to `put`, or up to the
      wrap mark and then from offset 0 up to `put`. */
  ghost predicate Live(s: seq<Byte>, get: nat, put: nat, wrap: nat, q: seq<Block>)
    decreases |q|
  {
    if q == [] then get == put && wrap == 0
    else
      var next := get + 2 + |q[0]|;
      && BlockAt(s, get, q[0])
      && next <= (if wrap == 0 then put else wrap)
      && if next == wrap then Live(s, 0, put, 0, q[1..]) else Live(s, next, put, wrap, q[1..])
  }

  /** The ring `r` holds exactly the queue `q`. */
  ghost predicate Inv(r: Ring, q: seq<Block>) {
    && Shape(r)
    && Live(r.data, r.get, r.put, r.wrap, q)
    && (r.wrap == 0 ==> r.get <= r.put && r.aLen == r.size - r.put + r.get)
    && (r.wrap != 0 ==> 0 < r.put <= r.get < r.wrap && r.aLen == r.get - r.put)
    && (q == [] ==> r.get == 0 && r.put == 0)
  }

  /** Bytes taken by the queue, each block with its length word. */
  function Footprint(q: seq<Block>): nat {
    if q == [] then 0 else 2 + |q[0]| + Footprint(q[1..])
  }

  /** Cell `i` belongs to a live block. */
  ghost predicate Occupied(get: nat, wrap: nat, q: seq<Block>, i: nat)
    decreases |q|
  {
    q != [] &&
    var next := get + 2 + |q[0]|;
    || get <= i < next
    || (if next == wrap then Occupied(0, 0, q[1..], i) else Occupied(next, wrap, q[1..], i))
  }

  // ---------------------------------------------------------------- facts about Live

  lemma {:induction false} LiveBounds(s: seq<Byte>, get: nat, put: nat, wrap: nat, q: seq<Block>)
    requires Live(s, get, put, wrap, q)
    ensures wrap == 0 ==> get <= put && Footprint(q) == put - get
    ensures wrap != 0 ==> get < wrap && Footprint(q) == wrap - get + put
    decreases |q|
  {
    if q != [] {
      var next := get + 2 + |q[0]|;
      if next == wrap { LiveBounds(s, 0, put, 0, q[1..]); }
      else { LiveBounds(s, next, put, wrap, q[1..]); }
    }
  }

  lemma {:induction false} OccupiedCells(s: seq<Byte>, get: nat, put: nat, wrap: nat, q: seq<Block>, i: nat)
    requires Live(s, get, put, wrap, q)
    ensures Occupied(get, wrap, q, i) <==> (if wrap == 0 then get <= i < put else get <= i < wrap || i < put)
    decreases |q|
  {
    LiveBounds(s, get, put, wrap, q);
    if q != [] {
      var next := get + 2 + |q[0]|;
      if next == wrap {
        LiveBounds(s, 0, put, 0, q[1..]);
        OccupiedCells(s, 0, put, 0, q[1..], i);
      } else {
        LiveBounds(s, next, put, wrap, q[1..]);
        OccupiedCells(s, next, put, wrap, q[1..], i);
      }
    }
  }

  /** Storing a block at the put end appends it to the queue. */
  lemma {:induction false} LiveAppend(s: seq<Byte>, s': seq<Byte>, get: nat, put: nat, wrap: nat,
                                     q: seq<Block>, d: Block)
    requires Live(s, get, put, wrap, q) && |s'| == |s|
    requires BlockAt(s', put, d)
    requires wrap != 0 ==> put + 2 + |d| <= get
    requires forall i :: 0 <= i < |s| && !(put <= i < put + 2 + |d|) ==> s'[i] == s[i]
    ensures Live(s', get, put + 2 + |d|, wrap, q + [d])
    decreases |q|
  {
    LiveBounds(s, get, put, wrap, q);
    var p' := put + 2 + |d|;
    if q == [] {
      assert (q + [d])[1..] == [];
    } else {
      assert (q + [d])[1..] == q[1..] + [d];
      var next := get + 2 + |q[0]|;
      assert s'[get + 2..next] == s[get + 2..next];
      if next == wrap { LiveAppend(s, s', 0, put, 0, q[1..], d); }
      else { LiveAppend(s, s', next, put, wrap, q[1..], d); }
    }
  }

  /** Storing a block at offset 0, in front of get_ptr, sets the wrap mark and appends it too. */
  lemma {:induction false} LiveWrap(s: seq<Byte>, s': seq<Byte>, get: nat, put: nat, q: seq<Block>, d: Block)
    requires Live(s, get, put, 0, q) && q != [] && |s'| == |s|
    requires BlockAt(s', 0, d) && 2 + |d| <= get
    requires forall i :: 2 + |d| <= i < |s| ==> s'[i] == s[i]
    ensures Live(s', get, 2 + |d|, put, q + [d])
    decreases |q|
  {
    LiveBounds(s, get, put, 0, q);
    assert (q + [d])[1..] == q[1..] + [d];
    var next := get + 2 + |q[0]|;
    assert s'[get + 2..next] == s[get + 2..next];
    if q[1..] == [] {
      assert ([d])[1..] == [];
      assert q[1..] + [d] == [d];
    } else {
      LiveBounds(s, next, put, 0, q[1..]);
      assert next < put by { assert Footprint(q[1..]) > 0; }
      LiveWrap(s, s', next, put, q[1..], d);
    }
  }

  // ---------------------------------------------------------------- the three operations

  /** Alloc appends the block when it accepts, changes nothing when it refuses, and accepts
      exactly when a run of |d| + 2 unoccupied cells lies at the put end or, while the ring is
      not wrapped, at the start of the array. */
  lemma AllocRefines(r: Ring, q: seq<Block>, d: Block)
    requires Inv(r, q)
    ensures var (r', ok) := AllocStep(r, d);
            && Inv(r', if ok then q + [d] else q)
            && r'.get == r.get
            && (!ok ==> r' == r)
            && (ok <==> GapFor(r, q, |d| + 2))
  {
    AllocGap(r, q, |d| + 2);
    LiveBounds(r.data, r.get, r.put, r.wrap, q);
    AllocAppends(r, q, d);
  }

  lemma AllocAppends(r: Ring, q: seq<Block>, d: Block)
    requires Inv(r, q)
    ensures var (r', ok) := AllocStep(r, d);
            ok ==> Inv(r', q + [d])
  {
    LiveBounds(r.data, r.get, r.put, r.wrap, q);
    var (r', ok) := AllocStep(r, d);
    if ok {
      if r.put + |d| + 2 <= r.size { LiveAppend(r.data, r'.data, r.get, r.put, r.wrap, q, d); }
      else { LiveWrap(r.data, r'.data, r.get, r.put, q, d); }
    }
  }

  ghost predicate GapFor(r: Ring, q: seq<Block>, n: nat) {
    || (r.put + n <= r.size && FreeRun(r, q, r.put, n))
    || (r.wrap == 0 && n <= r.size && FreeRun(r, q, 0, n))
  }

  ghost predicate FreeRun(r: Ring, q: seq<Block>, from: nat, n: nat) {
    forall i :: from <= i < from + n ==> !Occupied(r.get, r.wrap, q, i)
  }

  lemma AllocGap(r: Ring, q: seq<Block>, n: nat)
    requires Inv(r, q) && n >= 2
    ensures GapFor(r, q, n) <==> n <= r.aLen && (r.put + n <= r.size || n <= r.get)
  {
    LiveBounds(r.data, r.get, r.put, r.wrap, q);
    OccupiedCells(r.data, r.get, r.put, r.wrap, q, r.get);
    forall i: nat
      ensures Occupied(r.get, r.wrap, q, i) <==>
              (if r.wrap == 0 then r.get <= i < r.put else r.get <= i < r.wrap || i < r.put)
    {
      OccupiedCells(r.data, r.get, r.put, r.wrap, q, i);
    }
  }

  /** In every state that holds a queue the fix-up inside peek does nothing, get_ptr is at the
      oldest block's exact length and bytes, and a_len equals size exactly when it is empty. */
  lemma PeekRefines(r: Ring, q: seq<Block>)
    requires Inv(r, q)
    ensures PeekStep(r) == r
    ensures r.aLen == r.size <==> q == []
    ensures q != [] ==> BlockAt(r.data, r.get, q[0])
  {
    LiveBounds(r.data, r.get, r.put, r.wrap, q);
  }

  lemma FreeRefines(r: Ring, q: seq<Block>)
    requires Inv(r, q) && q != []
    ensures r.get + |q[0]| + 2 <= r.size
    ensures Inv(FreeStep(r, |q[0]|), q[1..])
  {
    var next := r.get + 2 + |q[0]|;
    if next == r.wrap { LiveBounds(r.data, 0, r.put, 0, q[1..]); }
    else { LiveBounds(r.data, next, r.put, r.wrap, q[1..]); }
  }

  /** a_len and the live blocks account for every usable cell. */
  lemma SpaceLaw(r: Ring, q: seq<Block>)
    requires Inv(r, q)
    ensures r.aLen + Footprint(q) == (if r.wrap == 0 then r.size else r.wrap)
  {
    LiveBounds(r.data, r.get, r.put, r.wrap, q);
  }

  // ---------------------------------------------------------------- whole runs

  datatype Op = Alloc(block: Block) | Peek | Free

  /** What a caller observes. `Halt` is the assert(0) of freeing an empty ring. */
  datatype Out = Accepted(ok: bool) | Oldest(block: Option<seq<Byte>>) | Freed | Halt

  /** One operation exactly as the code performs it on its pointers and bytes. */
  ghost function Step(r: Ring, op: Op): (Ring, Out)
    requires Shape(r)
  {
    match op
    case Alloc(d) =>
      var (r', ok) := AllocStep(r, d);
      (r', Accepted(ok))
    case Peek =>
      var r' := PeekStep(r);
      (r', Oldest(if r.aLen == r.size then None else ReadBlock(r'.data, r'.get)))
    case Free =>
      if r.aLen == r.size || r.get + 2 > |r.data| || r.get + Load16(r.data, r.get) + 2 > r.size then (r, Halt)
      else (FreeStep(r, Load16(r.data, r.get)), Freed)
  }

  function ReadBlock(s: seq<Byte>, at: nat): Option<seq<Byte>> {
    if at + 2 <= |s| && at + 2 + Load16(s, at) <= |s| then Some(s[at + 2..at + 2 + Load16(s, at)]) else None
  }

  /** The reference: a plain queue of byte sequences, told only whether each alloc was accepted. */
  ghost predicate QueueBehaviour(q: seq<Block>, ops: seq<Op>, outs: seq<Out>)
    decreases |ops|
  {
    |outs| == |ops| &&
    (ops != [] ==>
       match ops[0]
       case Alloc(d) => outs[0].Accepted? &&
                        QueueBehaviour(if outs[0].ok then q + [d] else q, ops[1..], outs[1..])
       case Peek => outs[0] == Oldest(if q == [] then None else Some(q[0])) &&
                    QueueBehaviour(q, ops[1..], outs[1..])
       case Free => outs[0] == (if q == [] then Halt else Freed) &&
                    QueueBehaviour(if q == [] then q else q[1..], ops[1..], outs[1..]))
  }

  ghost function NextQueue(q: seq<Block>, op: Op, out: Out): seq<Block> {
    match op
    case Alloc(d) => if out == Accepted(true) then q + [d] else q
    case Peek => q
    case Free => if q == [] then q else q[1..]
  }

  lemma StepRefines(r: Ring, q: seq<Block>, op: Op)
    requires Inv(r, q)
    ensures var (r', out) := Step(r, op);
            && Inv(r', NextQueue(q, op, out))
            && (op.Alloc? ==> out.Accepted?)
            && (op.Peek? ==> out == Oldest(if q == [] then None else Some(q[0])))
            && (op.Free? ==> out == (if q == [] then Halt else Freed))
            && (!op.Free? ==> r'.get == r.get)
            && r'.size == r.size && |r'.data| == |r.data|
  {
    PeekRefines(r, q);
    match op
    case Alloc(d) => AllocRefines(r, q, d);
    case Peek =>
    case Free => if q != [] { FreeRefines(r, q); }
  }

  ghost function Run(r: Ring, q: seq<Block>, ops: seq<Op>): (Ring, seq<Block>, seq<Out>)
    requires Inv(r, q)
    decreases |ops|
  {
    if ops == [] then (r, q, [])
    else
      StepRefines(r, q, ops[0]);
      var (r1, out) := Step(r, ops[0]);
      var (r2, q2, outs) := Run(r1, NextQueue(q, ops[0], out), ops[1..]);
      (r2, q2, [out] + outs)
  }

  /** Every run from every reachable state is a run of the plain queue. */
  lemma {:induction false} RunRefinesQueue(r: Ring, q: seq<Block>, ops: seq<Op>)
    requires Inv(r, q)
    ensures var (r', q', outs) := Run(r, q, ops);
            Inv(r', q') && QueueBehaviour(q, ops, outs) && r'.size == r.size
    decreases |ops|
  {
    if ops != [] {
      StepRefines(r, q, ops[0]);
      var (r1, out) := Step(r, ops[0]);
      var q1 := NextQueue(q, ops[0], out);
      RunRefinesQueue(r1, q1, ops[1..]);
      var (r2, q2, rest) := Run(r1, q1, ops[1..]);
      assert ([out] + rest)[1..] == rest;
    }
  }

  /** From ringmem_init on, over any operations on any size, the callers see a FIFO, and whenever it is
      empty the whole array up to the cap can be used again. */
  lemma RingMemIsFifo(data: seq<Byte>, len: nat, ops: seq<Op>)
    requires len <= |data|
    ensures Inv(InitRing(data, len), [])
    ensures QueueBehaviour([], ops, Run(InitRing(data, len), [], ops).2)
    ensures var (r', q', outs) := Run(InitRing(data, len), [], ops);
            q' == [] ==> Shape(r') && forall d :: AllocStep(r', d).1 <==> 2 + |d| <= len && 2 + |d| <= 16383
  {
    RunRefinesQueue(InitRing(data, len), [], ops);
    var (r', q', outs) := Run(InitRing(data, len), [], ops);
    if q' == [] { EmptyTakesAll(r'); }
  }

  lemma EmptyTakesAll(r: Ring)
    requires Inv(r, [])
    ensures forall d :: AllocStep(r, d).1 <==> 2 + |d| <= r.size
  {
    PeekRefines(r, []);
  }

  /** A block handed out by peek stays where it is, byte for byte, through any number of later
      allocs and peeks. */
  lemma {:induction false} PeekedBlockSurvives(r: Ring, q: seq<Block>, ops: seq<Op>)
    requires Inv(r, q) && q != []
    requires forall i :: 0 <= i < |ops| ==> !ops[i].Free?
    ensures var (r', q', outs) := Run(r, q, ops);
            && r'.get == r.get && Inv(r', q') && q <= q'
            && BlockAt(r'.data, r.get, q[0])
    decreases |ops|
  {
    PeekRefines(r, q);
    if ops != [] {
      StepRefines(r, q, ops[0]);
      var (r1, out) := Step(r, ops[0]);
      PeekedBlockSurvives(r1, NextQueue(q, ops[0], out), ops[1..]);
    }
  }

  // ---------------------------------------------------------------- the C object

  class RingBuffer {
    const data: array<Byte>
    const size: nat
    var aLen: nat
    var put: nat
    var get: nat
    var wrap: nat
    ghost var queue: seq<Block>

    ghost function View(): Ring
      reads this, data
    {
      Ring(data[..], size, aLen, put, get, wrap)
    }

    ghost predicate Valid()
      reads this, data
    {
      Inv(View(), queue)
    }

    constructor (a: array<Byte>, len: nat)
      requires len <= a.Length
      ensures Valid() && queue == [] && data == a
      ensures View() == InitRing(a[..], len)
    {
      data := a;
      size := if len > MAX_SIZE then MAX_SIZE else len;
      aLen := if len > MAX_SIZE then MAX_SIZE else len;
      put, get, wrap := 0, 0, 0;
      queue := [];
    }

    /** RINGMEM_STORE */
    method StoreBlock(at: nat, d: Block)
      requires at + 2 + |d| <= data.Length
      modifies data
      ensures data[..] == Store(old(data[..]), at, d)
    {
      data[at], data[at + 1] := |d| % 256, |d| / 256;
      var i := 0;
      while i < |d|
        invariant 0 <= i <= |d|
        invariant data[at] == |d| % 256 && data[at + 1] == |d| / 256
        invariant forall k :: 0 <= k < i ==> data[at + 2 + k] == d[k]
        invariant forall k :: 0 <= k < data.Length && !(at <= k < at + 2 + i) ==> data[k] == old(data[k])
      {
        data[at + 2 + i] := d[i];
        i := i + 1;
      }
    }

    method Alloc(d: Block) returns (ok: bool)
      requires Valid()
      modifies this, data
      ensures Valid()
      ensures queue == if ok then old(queue) + [d] else old(queue)
      ensures (View(), ok) == AllocStep(old(View()), d)
      ensures ok <==> GapFor(old(View()), old(queue), |d| + 2)
    {
      ghost var r := View();
      ok := Place(d);
      AllocRefines(r, queue, d);
      if ok {
        queue := queue + [d];
      }
    }

    /** The body of ringmem_alloc, on the pointers and bytes alone. */
    method Place(d: Block) returns (ok: bool)
      requires Shape(View())
      modifies this`put, this`wrap, this`aLen, data
      ensures (View(), ok) == AllocStep(old(View()), d)
    {
      var tot := |d| + 2;
      if tot > aLen {
        return false;
      }
      tot := tot + put;
      if tot <= size {
        StoreBlock(put, d);
        put := tot;
        aLen := aLen - (|d| + 2);
        return true;
      }
      tot := |d| + 2;
      if tot > get {
        return false;
      }
      wrap := put;
      put := 0;
      StoreBlock(put, d);
      put := tot;
      aLen := get - put;
      return true;
    }

    /** Needs only the pointer shape, so that the fix-up can be seen to run on a state that has
        one pending; on a valid ring it changes nothing. */
    method GetNextBlockPtr() returns (at: Option<nat>)
      requires Shape(View())
      modifies this`get, this`wrap
      ensures View() == PeekStep(old(View()))
      ensures at == if aLen == size then None else Some(get)
      ensures old(Valid()) ==>
                && Valid() && View() == old(View())
                && (at.None? <==> queue == [])
                && (at.Some? ==> BlockAt(data[..], at.value, queue[0]))
    {
      ghost var r := View();
      if Inv(r, queue) { PeekRefines(r, queue); }
      if aLen == size {
        return None;
      }
      if get == wrap && wrap != 0 {
        get := 0;
        wrap := 0;
      }
      return Some(get);
    }

    /** The source asserts that the ring is not empty. */
    method FreeBlock()
      requires Valid() && queue != []
      modifies this
      ensures Valid()
      ensures queue == old(queue)[1..]
      ensures View() == FreeStep(old(View()), |old(queue)[0]|)
    {
      FreeRefines(View(), queue);
      assert BlockAt(data[..], get, queue[0]);
      Release(|queue[0]|);
      queue := queue[1..];
    }

    /** The body of ringmem_free_block, on the pointers alone. */
    method Release(ghost len: nat)
      requires Shape(View()) && get + len + 2 <= size && Load16(data[..], get) == len
      modifies this`get, this`put, this`wrap, this`aLen
      ensures View() == FreeStep(old(View()), len)
    {
      get := get + data[get] as int + 256 * data[get + 1] as int + 2;
      if get == wrap && wrap != 0 {
        get := 0;
        wrap := 0;
      }
      if get == put {
        get, put := 0, 0;
        aLen := size;
      } else if get < put {
        aLen := (size - put) + get;
      } else {
        aLen := get - put;
      }
    }
  }
}
