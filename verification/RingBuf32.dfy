/**
 ringbuf32.c: a byte ring shared by one producer and one consumer without locks. Each side reads
 the other's pointer once per call; put and get are taken apart into their single loads and
 stores, which interleave freely.
 */
module RingBuf32 {
  import opened Bytes
  import opened Circular

  // ---------------------------------------------------------------- unsigned arithmetic and masks

  const WORD: int := 0x1_0000_0000

  /** Subtraction of uint32_t. */
  function Sub32(a: nat, b: nat): nat {
    (a - b) % WORD
  }

  /** Bitwise and of unsigned numbers. */
  function And(x: nat, m: nat): nat
    decreases m
  {
    if m == 0 then 0 else (if x % 2 == 1 && m % 2 == 1 then 1 else 0) + 2 * And(x / 2, m / 2)
  }

  function Pow2(k: nat): (p: nat)
    ensures p > 0
  {
    if k == 0 then 1 else 2 * Pow2(k - 1)
  }

  /** Masking with 2^k - 1 is the remainder by 2^k. */
  lemma {:induction false} MaskIsRemainder(x: nat, k: nat)
    ensures And(x, Pow2(k) - 1) == x % Pow2(k)
  {
    if k == 0 {
    } else {
      MaskIsRemainder(x / 2, k - 1);
      MaskDoubles(x, Pow2(k - 1));
    }
  }

  lemma MaskDoubles(x: nat, p: nat)
    requires p > 0 && And(x / 2, p - 1) == (x / 2) % p
    ensures And(x, 2 * p - 1) == x % (2 * p)
  {
    OddMask(x, p);
    HalvedRemainder(x, p);
  }

  lemma OddMask(x: nat, p: nat)
    requires p > 0
    ensures And(x, 2 * p - 1) == x % 2 + 2 * And(x / 2, p - 1)
  {
    assert (2 * p - 1) / 2 == p - 1 && (2 * p - 1) % 2 == 1;
  }

  lemma HalvedRemainder(x: nat, p: nat)
    requires p > 0
    ensures x % (2 * p) == x % 2 + 2 * ((x / 2) % p)
  {
    var q, r := (x / 2) / p, (x / 2) % p;
    assert x / 2 == q * p + r;
    assert x == q * (2 * p) + (x % 2 + 2 * r);
    RemainderIs(x, 2 * p, q, x % 2 + 2 * r);
  }

  lemma RemainderIs(x: nat, n: nat, q: nat, r: nat)
    requires n > 0 && x == q * n + r && r < n
    ensures x % n == r
  {
    var q', r' := x / n, x % n;
    assert x == q' * n + r';
    if q' < q { Scaled(q' + 1, q, n); } else if q < q' { Scaled(q + 1, q', n); }
  }

  lemma Scaled(a: nat, b: nat, n: nat)
    requires a <= b
    ensures a * n <= b * n
    ensures a > 0 ==> a * n == (a - 1) * n + n
  {
    assert b * n - a * n == (b - a) * n;
  }

  /** The number of slots from get up to put. */
  function Dist(put: nat, get: nat, size: nat): nat
    requires put < size && get < size
  {
    if put >= get then put - get else put + size - get
  }

  /** (put - get) & mask counts the slots between the pointers, the 32-bit wrap included. */
  lemma MaskedDifference(put: nat, get: nat, k: nat)
    requires k <= 31 && put < Pow2(k) && get < Pow2(k)
    ensures And(Sub32(put, get), Pow2(k) - 1) == Dist(put, get, Pow2(k))
  {
    BelowWord(k);
    MaskIsRemainder(Sub32(put, get), k);
    SubtractionWraps(put, get);
    if put >= get {
      SmallRemainder(put - get, Pow2(k));
    } else {
      var q := WordIsMultiple(k);
      WrappedRemainder(Pow2(k), q, get - put);
    }
  }

  lemma SubtractionWraps(put: nat, get: nat)
    requires put < WORD && get < WORD
    ensures Sub32(put, get) == if put >= get then put - get else WORD + put - get
  {
    if put < get { WrapsOnce(get - put); } else { assert (put - get) % WORD == put - get; }
  }

  lemma WrappedRemainder(n: nat, q: nat, d: nat)
    requires 0 < d < n && 0 < q && WORD == q * n
    ensures WORD - d >= 0 && (WORD - d) % n == n - d
  {
    Scaled(q, q, n);
    Scaled(1, q, n);
    RemainderIs(WORD - d, n, q - 1, n - d);
  }

  lemma WrapsOnce(d: int)
    requires 0 < d < WORD
    ensures (-d) % WORD == WORD - d
  {
  }

  lemma {:induction false} Pow2Monotone(j: nat, k: nat)
    requires j <= k
    ensures Pow2(j) <= Pow2(k)
    decreases k
  {
    if j < k { Pow2Monotone(j, k - 1); }
  }

  lemma BelowWord(k: nat)
    requires k <= 31
    ensures Pow2(k) <= 0x8000_0000
  {
    Pow2Monotone(k, 31);
    Pow2Of31();
  }

  lemma InAByte(k: nat)
    requires k <= 8
    ensures Pow2(k) <= 256
  {
    Pow2Monotone(k, 8);
    Pow2Of31();
  }

  lemma Pow2Of31()
    ensures Pow2(31) == 0x8000_0000 && Pow2(8) == 256
  {
    assert Pow2(8) == 256;
    assert Pow2(16) == 0x1_0000 by { assert Pow2(12) == 4096; }
    assert Pow2(24) == 0x100_0000 by { assert Pow2(20) == 0x10_0000; }
    assert Pow2(28) == 0x1000_0000;
  }

  lemma {:induction false} WordIsMultiple(k: nat) returns (q: nat)
    requires k <= 31
    ensures 0 < q && WORD == q * Pow2(k)
    decreases 31 - k
  {
    if k == 31 {
      Pow2Of31();
      q := 2;
    } else {
      var h := WordIsMultiple(k + 1);
      q := 2 * h;
      assert h * (2 * Pow2(k)) == (2 * h) * Pow2(k);
    }
  }

  // ---------------------------------------------------------------- the ring and its two users

  /** struct ringbuf32 */
  datatype Ring = Ring(data: seq<Byte>, mask: nat, put: nat, get: nat)

  /** Where the producer is inside ringbuf32_put. */
  datatype Producer = Outside | Admitted(c: Byte) | Stored(c: Byte)

  /** Where the consumer is inside ringbuf32_get. */
  datatype Consumer = Away | Allowed | Holding(c: Byte)

  /** `wide` tells how CC_ACCESS_NOW(uint8_t, r->put_ptr) stores: the whole pointer, or its low
      byte only. `puts` and `gets` are the bytes successfully put and got so far. */
  datatype Sys = Sys(r: Ring, p: Producer, c: Consumer, wide: bool, puts: seq<Byte>, gets: seq<Byte>)

  function Init(data: seq<Byte>, size: nat, wide: bool): Sys
    requires size > 0
  {
    Sys(Ring(data, size - 1, 0, 0), Outside, Away, wide, [], [])
  }

  /** ringbuf32_elements */
  function Elements(r: Ring): nat {
    And(Sub32(r.put, r.get), r.mask)
  }

  /** The pointer after its store: a one-byte store leaves all but the low byte as it was. */
  function Advance(put: nat, mask: nat, wide: bool): (r: nat)
    ensures !wide ==> r / 256 == put / 256 && r % 256 == And(put + 1, mask) % 256
  {
    var v := And(put + 1, mask);
    if wide then v else (put / 256) * 256 + v % 256
  }

  datatype Step = PutCheck(b: Byte) | PutData | PutPtr | GetCheck | GetData | GetPtr

  /** One load or store. A step that is not the next one of its side does nothing. */
  function Do(s: Sys, e: Step): Sys {
    match e
    case PutCheck(b) =>
      if s.p == Outside && Elements(s.r) != s.r.mask then s.(p := Admitted(b)) else s
    case PutData =>
      if s.p.Admitted? && s.r.put < |s.r.data| then
        s.(p := Stored(s.p.c), r := s.r.(data := s.r.data[s.r.put := s.p.c]))
      else s
    case PutPtr =>
      if s.p.Stored? then
        s.(p := Outside, r := s.r.(put := Advance(s.r.put, s.r.mask, s.wide)), puts := s.puts + [s.p.c])
      else s
    case GetCheck =>
      if s.c == Away && Elements(s.r) > 0 then s.(c := Allowed) else s
    case GetData =>
      if s.c == Allowed && s.r.get < |s.r.data| then s.(c := Holding(s.r.data[s.r.get])) else s
    case GetPtr =>
      if s.c.Holding? then
        s.(c := Away, r := s.r.(get := And(s.r.get + 1, s.r.mask)), gets := s.gets + [s.c.c])
      else s
  }

  function Run(s: Sys, es: seq<Step>): Sys
    decreases |es|
  {
    if es == [] then s else Run(Do(s, es[0]), es[1..])
  }

  // ---------------------------------------------------------------- what every interleaving keeps

  /** The slots from get on hold these bytes. */
  ghost predicate Holds(data: seq<Byte>, get: nat, size: nat, bytes: seq<Byte>)
    requires get < size <= |data| && |bytes| <= size
  {
    forall i :: 0 <= i < |bytes| ==> data[At(get, i, size)] == bytes[i]
  }

  ghost predicate InvOf(s: Sys, size: nat) {
    && s.r.mask == size - 1 && s.r.put < size && s.r.get < size <= |s.r.data|
    && s.gets <= s.puts
    && Dist(s.r.put, s.r.get, size) == |s.puts| - |s.gets|
    && Holds(s.r.data, s.r.get, size, s.puts[|s.gets|..])
    && (s.p != Outside ==> |s.puts| - |s.gets| < size - 1)
    && (s.p.Stored? ==> s.r.data[s.r.put] == s.p.c)
    && (s.c != Away ==> |s.puts| > |s.gets|)
    && (s.c.Holding? ==> s.c.c == s.puts[|s.gets|])
  }

  ghost predicate Inv(s: Sys, k: nat) {
    k <= 31 && (s.wide || k <= 8) && InvOf(s, Pow2(k))
  }

  lemma InitInv(data: seq<Byte>, k: nat, wide: bool)
    requires k <= 31 && Pow2(k) <= |data| && (wide || k <= 8)
    ensures Inv(Init(data, Pow2(k), wide), k)
  {
  }

  /** The checks see the exact number of bytes put and not yet got: put is refused only at
      size - 1 of them, get only at none. */
  lemma ChecksAreExact(s: Sys, k: nat)
    requires Inv(s, k)
    ensures Elements(s.r) == |s.puts| - |s.gets|
    ensures forall b :: s.p == Outside ==> (Do(s, PutCheck(b)).p == Outside <==> |s.puts| - |s.gets| == Pow2(k) - 1)
    ensures s.c == Away ==> (Do(s, GetCheck).c == Away <==> |s.puts| == |s.gets|)
  {
    MaskedDifference(s.r.put, s.r.get, k);
  }

  /** The slot the producer writes holds no byte still to be got. */
  lemma NeverOverwrites(s: Sys, k: nat)
    requires Inv(s, k) && s.p.Admitted?
    ensures forall i :: 0 <= i < |s.puts| - |s.gets| ==> At(s.r.get, i, Pow2(k)) != s.r.put
    ensures s.c != Away ==> s.r.put != s.r.get
  {
    if s.c != Away { assert At(s.r.get, 0, Pow2(k)) == s.r.get; }
  }

  lemma NextPointer(p: nat, k: nat, wide: bool)
    requires k <= 31 && p < Pow2(k) && (wide || k <= 8)
    ensures And(p + 1, Pow2(k) - 1) == At(p, 1, Pow2(k))
    ensures Advance(p, Pow2(k) - 1, wide) == At(p, 1, Pow2(k))
  {
    PlusOneMasked(p, k);
    if !wide {
      InAByte(k);
      LowByte(p, And(p + 1, Pow2(k) - 1));
    }
  }

  lemma LowByte(p: nat, v: nat)
    requires p < 256 && v < 256
    ensures (p / 256) * 256 + v % 256 == v
  {
  }

  lemma PlusOneMasked(p: nat, k: nat)
    requires p < Pow2(k)
    ensures And(p + 1, Pow2(k) - 1) == if p + 1 < Pow2(k) then p + 1 else 0
  {
    MaskIsRemainder(p + 1, k);
    SmallRemainder(p + 1, Pow2(k));
  }

  lemma SmallRemainder(x: nat, n: nat)
    requires 0 < n && x <= n
    ensures x % n == if x < n then x else 0
  {
    if x < n { RemainderIs(x, n, 0, x); } else { RemainderIs(x, n, 1, 0); }
  }

  lemma StepKeepsInv(s: Sys, e: Step, k: nat)
    requires Inv(s, k)
    ensures Inv(Do(s, e), k)
  {
    hide And;
    match e
    case PutCheck(b) => ChecksAreExact(s, k);
    case PutData => if s.p.Admitted? { PutDataKeepsInv(s, k); }
    case PutPtr => if s.p.Stored? { NextPointer(s.r.put, k, s.wide); PutPtrKeepsInv(s, Pow2(k)); }
    case GetCheck => ChecksAreExact(s, k);
    case GetData => if s.c == Allowed { GetDataKeepsInv(s, Pow2(k)); }
    case GetPtr => if s.c.Holding? { NextPointer(s.r.get, k, true); GetPtrKeepsInv(s, Pow2(k)); }
  }

  lemma PutDataKeepsInv(s: Sys, k: nat)
    requires Inv(s, k) && s.p.Admitted?
    ensures InvOf(Do(s, PutData), Pow2(k))
  {
    NeverOverwrites(s, k);
  }

  lemma GetDataKeepsInv(s: Sys, size: nat)
    requires InvOf(s, size) && s.c == Allowed
    ensures InvOf(Do(s, GetData), size)
  {
    OldestByte(s, size);
  }

  lemma PutPtrKeepsInv(s: Sys, size: nat)
    requires InvOf(s, size) && s.p.Stored? && Advance(s.r.put, size - 1, s.wide) == At(s.r.put, 1, size)
    ensures InvOf(Do(s, PutPtr), size)
  {
    hide And;
    var s', n := Do(s, PutPtr), |s.puts| - |s.gets|;
    assert At(s.r.get, n, size) == s.r.put;
    assert s'.puts[|s.gets|..] == s.puts[|s.gets|..] + [s.p.c];
  }

  lemma GetPtrKeepsInv(s: Sys, size: nat)
    requires InvOf(s, size) && s.c.Holding? && And(s.r.get + 1, size - 1) == At(s.r.get, 1, size)
    ensures InvOf(Do(s, GetPtr), size)
  {
    hide And;
    var s' := Do(s, GetPtr);
    var before, after := s.puts[|s.gets|..], s'.puts[|s'.gets|..];
    assert after == before[1..];
    forall i | 0 <= i < |after| ensures s'.r.data[At(s'.r.get, i, size)] == after[i] {
      assert At(s'.r.get, i, size) == At(s.r.get, i + 1, size);
    }
  }

  lemma {:induction false} RunKeepsInv(s: Sys, es: seq<Step>, k: nat)
    requires Inv(s, k)
    ensures Inv(Run(s, es), k)
    decreases |es|
  {
    if es != [] {
      StepKeepsInv(s, es[0], k);
      RunKeepsInv(Do(s, es[0]), es[1..], k);
    }
  }

  /** Every interleaving is a FIFO: what was got is a prefix of what was put, and the buffer
      accounts for the rest. */
  ghost predicate Fifo(s: Sys) {
    s.gets <= s.puts && Elements(s.r) == |s.puts| - |s.gets|
  }

  // ---------------------------------------------------------------- the one-byte store

  /** Putting b n times with nobody reading. */
  function PutMany(b: Byte, n: nat): seq<Step> {
    if n == 0 then [] else PutMany(b, n - 1) + [PutCheck(b), PutData, PutPtr]
  }

  lemma {:induction false} RunAppend(s: Sys, es: seq<Step>, more: seq<Step>)
    ensures Run(s, es + more) == Run(Run(s, es), more)
    decreases |es|
  {
    if es == [] {
      assert es + more == more;
    } else {
      assert (es + more)[1..] == es[1..] + more;
      RunAppend(Do(s, es[0]), es[1..], more);
    }
  }

  lemma RunThree(s: Sys, a: Step, b: Step, c: Step)
    ensures Run(s, [a, b, c]) == Do(Do(Do(s, a), b), c)
  {
    assert [a, b, c][1..] == [b, c] && [b, c][1..] == [c] && [c][1..] == [];
    assert Run(s, [a, b, c]) == Run(Do(s, a), [b, c]);
    assert Run(Do(s, a), [b, c]) == Run(Do(Do(s, a), b), [c]);
    assert Run(Do(Do(s, a), b), [c]) == Run(Do(Do(Do(s, a), b), c), []);
  }

  /** Up to the 255th byte the low byte is all there is to the pointer. */
  lemma {:induction false} FillsLowSlots(data: seq<Byte>, k: nat, b: Byte, n: nat)
    requires 9 <= k <= 31 && Pow2(k) <= |data| && n <= 255
    ensures var s := Run(Init(data, Pow2(k), false), PutMany(b, n));
            && s.p == Outside && s.c == Away && !s.wide && s.r.mask == Pow2(k) - 1 && |s.r.data| == |data|
            && s.r.put == n && s.r.get == 0 && |s.puts| == n && s.gets == []
  {
    hide And;
    LargeMask(k);
    if n > 0 {
      FillsLowSlots(data, k, b, n - 1);
      PutsOne(Run(Init(data, Pow2(k), false), PutMany(b, n - 1)), k, b);
      RunAppend(Init(data, Pow2(k), false), PutMany(b, n - 1), [PutCheck(b), PutData, PutPtr]);
    }
  }

  lemma PutsOne(s: Sys, k: nat, b: Byte)
    requires 9 <= k <= 31 && Pow2(k) <= |s.r.data| && s.p == Outside && !s.wide
    requires s.r.mask == Pow2(k) - 1 && s.r.put <= 255 && s.r.get == 0
    ensures var s' := Run(s, [PutCheck(b), PutData, PutPtr]);
            && s' == s.(r := s'.r, puts := s.puts + [b])
            && |s'.r.data| == |s.r.data| && s'.r == s.r.(data := s'.r.data, put := (s.r.put + 1) % 256)
  {
    LargeMask(k);
    MaskedDifference(s.r.put, 0, k);
    LowByteOnly(s.r.put, k);
    RunThree(s, PutCheck(b), PutData, PutPtr);
    var s1 := Do(s, PutCheck(b));
    assert s1 == s.(p := Admitted(b));
    var s2 := Do(s1, PutData);
    assert s2 == s1.(p := Stored(b), r := s.r.(data := s2.r.data));
  }

  lemma LargeMask(k: nat)
    requires 9 <= k <= 31
    ensures Pow2(k) >= 512
  {
    Pow2Monotone(9, k);
    assert Pow2(9) == 512;
  }

  lemma LowByteOnly(p: nat, k: nat)
    requires 9 <= k <= 31 && p <= 255
    ensures Advance(p, Pow2(k) - 1, false) == (p + 1) % 256
  {
    hide And;
    LargeMask(k);
    PlusOneMasked(p, k);
  }

  /** For power-of-two sizes up to 2^31: every interleaving is a FIFO exactly when the pointer is
      stored whole or fits in the byte that is stored. */
  lemma FifoIffPointerFits(data: seq<Byte>, k: nat, wide: bool)
    requires k <= 31 && Pow2(k) <= |data|
    ensures (forall es :: Fifo(Run(Init(data, Pow2(k), wide), es))) <==> wide || Pow2(k) <= 256
  {
    var s := Init(data, Pow2(k), wide);
    if wide || k <= 8 {
      if k <= 8 { InAByte(k); }
      InitInv(data, k, wide);
      forall es ensures Fifo(Run(s, es)) {
        RunKeepsInv(s, es, k);
        ChecksAreExact(Run(s, es), k);
      }
    } else {
      LargeMask(k);
      var es := LosesAFullPage(data, k, 255);
    }
  }

  /** With a larger ring and a one-byte store, 256 accepted bytes leave the ring looking empty. */
  lemma LosesAFullPage(data: seq<Byte>, k: nat, n: nat) returns (es: seq<Step>)
    requires 9 <= k <= 31 && Pow2(k) <= |data| && n == 255
    ensures var s := Run(Init(data, Pow2(k), false), es);
            |s.puts| == 256 && s.gets == [] && Elements(s.r) == 0 && !Fifo(s)
  {
    hide And;
    var s0 := Init(data, Pow2(k), false);
    var s1 := Run(s0, PutMany(0, n));
    FillsLowSlots(data, k, 0, n);
    PutsOne(s1, k, 0);
    assert (255 + 1) % 256 == 0;
    RunAppend(s0, PutMany(0, n), [PutCheck(0), PutData, PutPtr]);
    es := PutMany(0, n) + [PutCheck(0), PutData, PutPtr];
    MaskedDifference(0, 0, k);
  }

  // ---------------------------------------------------------------- the C object, used by one thread

  lemma PutAlone(s: Sys, b: Byte)
    requires s.p == Outside && s.r.put < |s.r.data|
    ensures Run(s, [PutCheck(b), PutData, PutPtr]) ==
            if Elements(s.r) == s.r.mask then s
            else s.(r := s.r.(data := s.r.data[s.r.put := b], put := Advance(s.r.put, s.r.mask, s.wide)),
                    puts := s.puts + [b])
  {
    hide And;
    RunThree(s, PutCheck(b), PutData, PutPtr);
  }

  lemma GetAlone(s: Sys)
    requires s.c == Away && s.r.get < |s.r.data|
    ensures Run(s, [GetCheck, GetData, GetPtr]) ==
            if Elements(s.r) == 0 then s
            else s.(r := s.r.(get := And(s.r.get + 1, s.r.mask)), gets := s.gets + [s.r.data[s.r.get]])
  {
    hide And;
    RunThree(s, GetCheck, GetData, GetPtr);
  }

  lemma OldestByte(s: Sys, size: nat)
    requires InvOf(s, size) && |s.puts| > |s.gets|
    ensures s.r.data[s.r.get] == s.puts[|s.gets|]
  {
    assert s.puts[|s.gets|..][0] == s.puts[|s.gets|];
    assert At(s.r.get, 0, size) == s.r.get;
  }

  class RingBuffer32 {
    const data: array<Byte>
    const mask: nat
    const wide: bool
    var putPtr: nat
    var getPtr: nat
    ghost const k: nat
    ghost var puts: seq<Byte>
    ghost var gets: seq<Byte>

    ghost function View(): Sys
      reads this, data
    {
      Sys(Ring(data[..], mask, putPtr, getPtr), Outside, Away, wide, puts, gets)
    }

    ghost predicate Valid()
      reads this, data
    {
      Inv(View(), k)
    }

    /** ringbuf32_init, for a size that is a power of two. */
    constructor (a: array<Byte>, size: nat, ghost exp: nat, wideStore: bool)
      requires exp <= 31 && size == Pow2(exp) <= a.Length
      ensures View() == Init(a[..], size, wideStore) && (wideStore || size <= 256 ==> Valid())
    {
      data, mask, wide, putPtr, getPtr := a, size - 1, wideStore, 0, 0;
      k, puts, gets := exp, [], [];
      new;
      if exp > 8 { LargeMask(exp); }
      if wideStore || size <= 256 { InitInv(a[..], exp, wideStore); }
    }

    /** ringbuf32_put */
    method Put(c: Byte) returns (ok: bool)
      requires Valid()
      modifies this`putPtr, this`puts, data
      ensures Valid() && View() == Run(old(View()), [PutCheck(c), PutData, PutPtr])
      ensures ok <==> |old(puts)| - |gets| < mask
      ensures puts == if ok then old(puts) + [c] else old(puts)
    {
      hide And;
      PutAlone(View(), c);
      assert Inv(Run(View(), [PutCheck(c), PutData, PutPtr]), k) by {
        RunKeepsInv(View(), [PutCheck(c), PutData, PutPtr], k);
      }
      assert Elements(View().r) == |puts| - |gets| <= mask by { ChecksAreExact(View(), k); }
      if And(Sub32(putPtr, getPtr), mask) == mask {
        return false;
      }
      data[putPtr] := c;
      if wide {
        putPtr := And(putPtr + 1, mask);
      } else {
        putPtr := (putPtr / 256) * 256 + And(putPtr + 1, mask) % 256;
      }
      puts := puts + [c];
      return true;
    }

    /** ringbuf32_get */
    method Get() returns (r: int)
      requires Valid()
      modifies this`getPtr, this`gets
      ensures Valid() && View() == Run(old(View()), [GetCheck, GetData, GetPtr])
      ensures r == if |old(gets)| < |puts| then puts[|old(gets)|] else -1
      ensures gets == if r == -1 then old(gets) else old(gets) + [r]
    {
      hide And;
      GetAlone(View());
      RunKeepsInv(View(), [GetCheck, GetData, GetPtr], k);
      ChecksAreExact(View(), k);
      if putPtr != getPtr { OldestByte(View(), Pow2(k)); }
      if And(Sub32(putPtr, getPtr), mask) > 0 {
        var c := data[getPtr];
        getPtr := And(getPtr + 1, mask);
        gets := gets + [c];
        return c;
      }
      return -1;
    }

    /** ringbuf32_elements */
    method CountElements() returns (n: nat)
      requires Valid()
      ensures n == |puts| - |gets|
    {
      ChecksAreExact(View(), k);
      return And(Sub32(putPtr, getPtr), mask);
    }
  }
}
