/**
 nbr-table.c: up to eight tables over one list of neighbours. The list keeps insertion order; two
 bitmaps per neighbour say which tables use it and which have locked it; when the pool of
 neighbours is full the least used unlocked one makes room.
 */
module NbrTable {
  import opened Bytes
  import Pools

  /** MAX_NUM_TABLES */
  const MAX_TABLES: nat := 8

  /** The contents of an item, read as one number. */
  datatype Value = Value(n: nat)

  const ZEROED: Value := Value(0)

  /** `keys` is the list, `alloc` the pool elements handed out; `addr`, `used` and `locked` are
      indexed by neighbour, `items` by table and neighbour; `cbs` are the tables with a callback. */
  datatype State = State(keys: seq<nat>, alloc: set<nat>, addr: seq<LinkAddr>, used: seq<set<nat>>,
                         locked: seq<set<nat>>, items: seq<seq<Value>>, cbs: set<nat>)

  ghost predicate Shape(s: State) {
    && |s.used| == |s.addr| && |s.locked| == |s.addr| && |s.items| <= MAX_TABLES
    && (forall t :: 0 <= t < |s.items| ==> |s.items[t]| == |s.addr|)
    && (forall k :: 0 <= k < |s.keys| ==> s.keys[k] < |s.addr|)
  }

  ghost predicate Distinct(ks: seq<nat>) {
    forall i, j :: 0 <= i < j < |ks| ==> ks[i] != ks[j]
  }

  ghost predicate Inv(s: State) {
    && Shape(s)
    && s.alloc == (set k | k in s.keys)
    && Distinct(s.keys)
    && (forall i, j :: i in s.keys && j in s.keys && s.addr[i] == s.addr[j] ==> i == j)
    && (forall i :: 0 <= i < |s.addr| && i !in s.keys ==> s.used[i] == {})
    && (forall i :: 0 <= i < |s.addr| ==> s.locked[i] <= s.used[i])
    && (forall i, t :: 0 <= i < |s.addr| && t in s.used[i] ==> t < |s.items|)
  }

  function NoSets(n: nat): (r: seq<set<nat>>)
    ensures |r| == n && forall i :: 0 <= i < n ==> r[i] == {}
  {
    seq(n, _ => {})
  }

  /** No neighbour yet. */
  function Empty(addr: seq<LinkAddr>, items: seq<seq<Value>>, cbs: set<nat>): State {
    State([], {}, addr, NoSets(|addr|), NoSets(|addr|), items, cbs)
  }

  lemma EmptyInv(addr: seq<LinkAddr>, items: seq<seq<Value>>, cbs: set<nat>)
    requires |items| <= MAX_TABLES && forall t :: 0 <= t < |items| ==> |items[t]| == |addr|
    ensures Inv(Empty(addr, items, cbs))
  {
  }

  // ---------------------------------------------------------------- lookup

  /** A NULL address stands for the null address. */
  function AddrOf(a: Option<LinkAddr>): (addr: LinkAddr)
    ensures a.Some? ==> addr == a.value
    ensures a.None? ==> addr == [0, 0, 0, 0, 0, 0]
  {
    if a.None? then NULL_ADDR else a.value
  }

  /** index_from_lladdr on the rest of the list. */
  function FindIn(s: State, ks: seq<nat>, a: LinkAddr): (r: Option<nat>)
    requires forall k :: 0 <= k < |ks| ==> ks[k] < |s.addr|
    ensures r.Some? ==> r.value in ks
  {
    if ks == [] then None
    else if s.addr[ks[0]] == a then Some(ks[0])
    else FindIn(s, ks[1..], a)
  }

  function Find(s: State, a: LinkAddr): (r: Option<nat>)
    requires Shape(s)
    ensures r.Some? ==> r.value < |s.addr|
  {
    FindIn(s, s.keys, a)
  }

  /** What table t holds for address a: the contents of the item nbr_table_get_from_lladdr finds. */
  function Get(s: State, t: nat, a: LinkAddr): Option<Value>
    requires Shape(s) && t < |s.items|
  {
    match Find(s, a)
    case Some(i) => if t in s.used[i] then Some(s.items[t][i]) else None
    case None => None
  }

  lemma {:induction false} FindInIs(s: State, ks: seq<nat>, a: LinkAddr)
    requires forall k :: 0 <= k < |ks| ==> ks[k] < |s.addr|
    ensures match FindIn(s, ks, a)
            case Some(i) => i in ks && i < |s.addr| && s.addr[i] == a
            case None => forall i :: i in ks ==> s.addr[i] != a
  {
    if ks != [] { FindInIs(s, ks[1..], a); }
  }

  /** A neighbour is found exactly when it is listed under the address. */
  lemma FindIs(s: State, a: LinkAddr)
    requires Inv(s)
    ensures forall i :: Find(s, a) == Some(i) <==> i in s.keys && s.addr[i] == a
  {
    FindInIs(s, s.keys, a);
  }

  // ---------------------------------------------------------------- eviction

  /** The scan of nbr_table_allocate: the best unlocked key so far with its count, and the break
      at a key no table uses. */
  function Scan(s: State, ks: seq<nat>, best: Option<nat>, count: nat): (r: Option<nat>)
    requires Shape(s) && forall k :: 0 <= k < |ks| ==> ks[k] < |s.addr|
    ensures r.Some? ==> r == best || r.value in ks
  {
    if ks == [] then best
    else
      var k := ks[0];
      if s.locked[k] == {} && (best.None? || |s.used[k]| < count) then
        if |s.used[k]| == 0 then Some(k) else Scan(s, ks[1..], Some(k), |s.used[k]|)
      else Scan(s, ks[1..], best, count)
  }

  lemma ScanStep(s: State, n: nat, best: Option<nat>, count: nat)
    requires Shape(s) && n < |s.keys|
    ensures var k := s.keys[n];
            Scan(s, s.keys[n..], best, count) ==
            if s.locked[k] == {} && (best.None? || |s.used[k]| < count) then
              if |s.used[k]| == 0 then Some(k) else Scan(s, s.keys[n + 1..], Some(k), |s.used[k]|)
            else Scan(s, s.keys[n + 1..], best, count)
  {
    assert s.keys[n..][0] == s.keys[n] && s.keys[n..][1..] == s.keys[n + 1..];
  }

  function Victim(s: State): (r: Option<nat>)
    requires Shape(s)
    ensures r.Some? ==> r.value < |s.addr|
  {
    Scan(s, s.keys, None, 0)
  }

  /** Among the first n keys position j is unlocked, no unlocked neighbour is used by fewer tables,
      and every older unlocked one is used by more. */
  ghost predicate BestOf(s: State, n: nat, j: nat)
    requires Shape(s) && n <= |s.keys|
  {
    && j < n && s.locked[s.keys[j]] == {}
    && forall i :: 0 <= i < n && s.locked[s.keys[i]] == {} ==>
         |s.used[s.keys[j]]| <= |s.used[s.keys[i]]| &&
         (i < j ==> |s.used[s.keys[j]]| < |s.used[s.keys[i]]|)
  }

  /** The policy. */
  ghost predicate IsVictim(s: State, j: nat)
    requires Shape(s)
  {
    BestOf(s, |s.keys|, j)
  }

  ghost predicate AllLocked(s: State, n: nat)
    requires Shape(s) && n <= |s.keys|
  {
    forall i :: 0 <= i < n ==> s.locked[s.keys[i]] != {}
  }

  lemma KeepsBest(s: State, n: nat, j: nat)
    requires Shape(s) && n < |s.keys| && BestOf(s, n, j)
    requires s.locked[s.keys[n]] == {} ==> |s.used[s.keys[j]]| <= |s.used[s.keys[n]]|
    ensures BestOf(s, n + 1, j)
  {
  }

  lemma FindsBetter(s: State, n: nat, j: nat)
    requires Shape(s) && n < |s.keys| && s.locked[s.keys[n]] == {}
    requires AllLocked(s, n) || (BestOf(s, n, j) && |s.used[s.keys[n]]| < |s.used[s.keys[j]]|)
    ensures BestOf(s, n + 1, n)
    ensures |s.used[s.keys[n]]| == 0 ==> IsVictim(s, n)
  {
  }

  lemma {:induction false} ScanFindsVictim(s: State, n: nat, best: Option<nat>, count: nat, j: nat)
    returns (v: nat)
    requires Shape(s) && n <= |s.keys|
    requires if best.None? then AllLocked(s, n)
             else BestOf(s, n, j) && best == Some(s.keys[j]) && count == |s.used[s.keys[j]]| > 0
    ensures match Scan(s, s.keys[n..], best, count)
            case None => best.None? && AllLocked(s, |s.keys|)
            case Some(k) => IsVictim(s, v) && s.keys[v] == k
    decreases |s.keys| - n
  {
    hide BestOf;
    v := j;
    if n < |s.keys| {
      var k := s.keys[n];
      ScanStep(s, n, best, count);
      if s.locked[k] == {} && (best.None? || |s.used[k]| < count) {
        FindsBetter(s, n, j);
        if |s.used[k]| == 0 { v := n; }
        else { v := ScanFindsVictim(s, n + 1, Some(k), |s.used[k]|, n); }
      } else {
        if best.Some? { KeepsBest(s, n, j); }
        v := ScanFindsVictim(s, n + 1, best, count, j);
      }
    }
  }

  /** The scan picks the neighbour the policy names, in spite of the early break, and finds none
      exactly when every neighbour is locked. */
  lemma VictimFollowsPolicy(s: State)
    requires Shape(s)
    ensures match Victim(s)
            case Some(k) => exists j: nat :: IsVictim(s, j) && s.keys[j] == k
            case None => AllLocked(s, |s.keys|)
    ensures AllLocked(s, |s.keys|) ==> Victim(s) == None
  {
    assert s.keys[0..] == s.keys;
    var v := ScanFindsVictim(s, 0, None, 0, 0);
  }

  /** The position the policy names is unique. */
  lemma VictimIsUnique(s: State, j: nat, k: nat)
    requires Shape(s) && IsVictim(s, j) && IsVictim(s, k)
    ensures j == k
  {
  }

  function RemoveKey(ks: seq<nat>, k: nat): seq<nat> {
    if ks == [] then [] else if ks[0] == k then ks[1..] else [ks[0]] + RemoveKey(ks[1..], k)
  }

  ghost predicate CallsBack(s: State, v: nat, x: nat)
    requires v < |s.used|
  {
    x < |s.items| && x in s.cbs && x in s.used[v]
  }

  /** Those of the first n tables that are called back for a victim, in table order. */
  function CalledBack(s: State, v: nat, n: nat): seq<nat>
    requires v < |s.used|
  {
    if n == 0 then []
    else
      var t := n - 1;
      CalledBack(s, v, t) + if t < |s.items| && t in s.cbs && t in s.used[v] then [t] else []
  }

  /** Called back: exactly the tables with a callback that use the victim, once each, in order. */
  lemma {:induction false} CallsBackUsersOnce(s: State, v: nat, n: nat)
    requires v < |s.used|
    ensures forall x: nat :: x in CalledBack(s, v, n) <==> x < n && CallsBack(s, v, x)
    ensures Ascending(CalledBack(s, v, n), n)
  {
    if n > 0 {
      CallsBackUsersOnce(s, v, n - 1);
      OneMoreTable(s, v, n - 1, CalledBack(s, v, n - 1), CalledBack(s, v, n));
    }
  }

  lemma OneMoreTable(s: State, v: nat, t: nat, first: seq<nat>, all: seq<nat>)
    requires v < |s.used| && all == first + if CallsBack(s, v, t) then [t] else []
    requires forall x: nat :: x in first <==> x < t && CallsBack(s, v, x)
    requires Ascending(first, t)
    ensures forall x: nat :: x in all <==> x < t + 1 && CallsBack(s, v, x)
    ensures Ascending(all, t + 1)
  {
  }

  /** Strictly increasing numbers below `hi`. */
  ghost predicate Ascending(c: seq<nat>, hi: nat) {
    && (forall k :: 0 <= k < |c| ==> c[k] < hi)
    && (forall j, k :: 0 <= j < k < |c| ==> c[j] < c[k])
  }

  lemma {:induction false} NoneBeyond(s: State, v: nat, n: nat)
    requires v < |s.used| && |s.items| <= n
    ensures CalledBack(s, v, n) == CalledBack(s, v, |s.items|)
  {
    if |s.items| < n { NoneBeyond(s, v, n - 1); }
  }

  datatype Allocated = Allocated(s: State, key: Option<nat>, called: seq<nat>)

  /** nbr_table_allocate, with the element the pool hands out while it has one. */
  function Allocate(s: State, slot: nat): Allocated
    requires Shape(s)
  {
    if |s.alloc| < |s.addr| then Allocated(s.(alloc := s.alloc + {slot}), Some(slot), [])
    else
      match Victim(s)
      case None => Allocated(s, None, [])
      case Some(v) =>
        Allocated(s.(used := s.used[v := {}], keys := RemoveKey(s.keys, v)), Some(v), CalledBack(s, v, |s.items|))
  }

  // ---------------------------------------------------------------- the operations

  /** What an add did: the item's neighbour, the address it evicted and the tables called back. */
  datatype Added = Added(s: State, index: Option<nat>, evicted: Option<LinkAddr>, called: seq<nat>)

  /** Zero the item and set the used bit. */
  function Enter(s: State, t: nat, i: nat): State
    requires Shape(s) && t < |s.items| && i < |s.addr|
  {
    s.(items := s.items[t := s.items[t][i := ZEROED]], used := s.used[i := s.used[i] + {t}])
  }

  /** The neighbour for an address: the one listed under it, or a new one at the end of the list. */
  function Listed(s: State, a: LinkAddr, slot: nat): (r: Added)
    requires Shape(s) && SlotFree(s, slot)
    ensures Shape(r.s) && |r.s.addr| == |s.addr| && |r.s.items| == |s.items|
    ensures r.index.Some? ==> r.index.value < |s.addr|
    ensures r.index.None? ==> r == Added(s, None, None, [])
  {
    match Find(s, a)
    case Some(i) => Added(s, Some(i), None, [])
    case None =>
      match Allocate(s, slot)
      case Allocated(s1, None, called) => Added(s, None, None, [])
      case Allocated(s1, Some(k), called) =>
        KeysStayInPool(s, slot);
        Added(s1.(keys := s1.keys + [k], addr := s1.addr[k := a]), Some(k),
              if |s.alloc| < |s.addr| then None else Some(s.addr[k]), called)
  }

  /** nbr_table_add_lladdr */
  function Add(s: State, t: nat, a: LinkAddr, slot: nat): Added
    requires Shape(s) && t < |s.items| && SlotFree(s, slot)
  {
    var r := Listed(s, a, slot);
    if r.index.None? then r else r.(s := Enter(r.s, t, r.index.value))
  }

  /** The pool's contract. */
  ghost predicate SlotFree(s: State, slot: nat) {
    |s.alloc| < |s.addr| ==> slot < |s.addr| && slot !in s.alloc
  }

  lemma KeysStayInPool(s: State, slot: nat)
    requires Shape(s) && SlotFree(s, slot)
    ensures var r := Allocate(s, slot);
            && Shape(r.s) && r.s.addr == s.addr && r.s.items == s.items && r.s.locked == s.locked
            && (r.key.Some? ==> r.key.value < |s.addr|)
  {
    var v := Victim(s);
    if v.Some? {
      RemoveKeySubset(s.keys, v.value);
      KeysInRange(s, RemoveKey(s.keys, v.value));
    }
  }

  lemma KeysInRange(s: State, ks: seq<nat>)
    requires Shape(s) && forall k :: k in ks ==> k in s.keys
    ensures forall i :: 0 <= i < |ks| ==> ks[i] < |s.addr|
  {
    assert forall i :: 0 <= i < |ks| ==> ks[i] in ks;
  }

  lemma {:induction false} RemoveKeySubset(ks: seq<nat>, k: nat)
    ensures forall x :: x in RemoveKey(ks, k) ==> x in ks
  {
    if ks != [] && ks[0] != k { RemoveKeySubset(ks[1..], k); }
  }

  /** nbr_table_remove: both bits of the table are cleared. */
  function Remove(s: State, t: nat, i: nat): State
    requires Shape(s) && i < |s.addr|
  {
    s.(used := s.used[i := s.used[i] - {t}], locked := s.locked[i := s.locked[i] - {t}])
  }

  /** nbr_table_lock */
  function Lock(s: State, t: nat, i: nat): State
    requires Shape(s) && i < |s.addr|
  {
    s.(locked := s.locked[i := s.locked[i] + {t}])
  }

  /** nbr_table_unlock */
  function Unlock(s: State, t: nat, i: nat): State
    requires Shape(s) && i < |s.addr|
  {
    s.(locked := s.locked[i := s.locked[i] - {t}])
  }

  /** The owner of an item writes to it. */
  function WriteItem(s: State, t: nat, i: nat, v: Value): State
    requires Shape(s) && t < |s.items| && i < |s.addr|
  {
    s.(items := s.items[t := s.items[t][i := v]])
  }

  // ---------------------------------------------------------------- what each does

  lemma {:induction false} RemoveKeyIs(ks: seq<nat>, k: nat)
    requires Distinct(ks)
    ensures forall x :: x in RemoveKey(ks, k) <==> x in ks && x != k
    ensures Distinct(RemoveKey(ks, k))
  {
    if ks != [] {
      assert ks == [ks[0]] + ks[1..];
      assert forall x :: x in ks[1..] ==> x != ks[0];
      if ks[0] != k {
        RemoveKeyIs(ks[1..], k);
        assert forall j :: 0 <= j < |RemoveKey(ks[1..], k)| ==> RemoveKey(ks[1..], k)[j] in ks[1..];
      }
    }
  }

  /** The same contents under every table and address, except those of neighbour v. */
  ghost predicate Unlists(s: State, s': State, v: nat)
    requires Shape(s) && Shape(s')
  {
    && |s'.items| == |s.items| && v < |s.addr|
    && forall t, a :: 0 <= t < |s.items| ==> Get(s', t, a) == if Find(s, a) == Some(v) then None else Get(s, t, a)
  }

  lemma EvictionUnlists(s: State, v: nat)
    requires Inv(s) && v in s.keys && s.locked[v] == {}
    ensures var s' := s.(used := s.used[v := {}], keys := RemoveKey(s.keys, v), alloc := s.alloc - {v});
            Inv(s') && v !in s'.keys && Unlists(s, s', v)
            && (forall k :: k in s'.keys <==> k in s.keys && k != v)
  {
    var s' := s.(used := s.used[v := {}], keys := RemoveKey(s.keys, v), alloc := s.alloc - {v});
    RemoveKeyIs(s.keys, v);
    KeysInRange(s, s'.keys);
    assert Inv(s');
    forall t, a | 0 <= t < |s.items|
      ensures Get(s', t, a) == if Find(s, a) == Some(v) then None else Get(s, t, a)
    {
      FindIs(s, a);
      FindIs(s', a);
      FindAfter(s, s', v, a);
    }
  }

  lemma FindAfter(s: State, s': State, v: nat, a: LinkAddr)
    requires Inv(s) && Inv(s') && s'.addr == s.addr && forall k :: k in s'.keys <==> k in s.keys && k != v
    ensures Find(s', a) == if Find(s, a) == Some(v) then None else Find(s, a)
  {
    FindIs(s, a);
    FindIs(s', a);
  }

  function Listing(s: State, k: nat, a: LinkAddr): State
    requires Shape(s) && k < |s.addr|
  {
    s.(keys := s.keys + [k], addr := s.addr[k := a], alloc := s.alloc + {k})
  }

  lemma ListingKeepsInv(s: State, k: nat, a: LinkAddr)
    requires Inv(s) && k < |s.addr| && k !in s.keys && Find(s, a) == None
    ensures Inv(Listing(s, k, a))
    ensures forall x :: x in Listing(s, k, a).keys <==> x in s.keys || x == k
  {
    var s' := Listing(s, k, a);
    FindIs(s, a);
    assert forall x :: x in s'.keys <==> x in s.keys || x == k;
    assert forall i :: 0 <= i < |s.keys| ==> s.keys[i] in s.keys && s'.keys[i] == s.keys[i];
    assert Shape(s') && Distinct(s'.keys);
  }

  /** A new neighbour at the end of the list, used by no table yet. */
  lemma ListingKeepsContents(s: State, k: nat, a: LinkAddr)
    requires Inv(s) && k < |s.addr| && k !in s.keys && Find(s, a) == None
    ensures var s' := Listing(s, k, a);
            && Inv(s') && Find(s', a) == Some(k)
            && forall t, b :: 0 <= t < |s.items| ==> Get(s', t, b) == Get(s, t, b)
  {
    var s' := Listing(s, k, a);
    ListingKeepsInv(s, k, a);
    FindIs(s', a);
    assert k in s'.keys;
    forall t, b | 0 <= t < |s.items| ensures Get(s', t, b) == Get(s, t, b) {
      FindListed(s, k, a, b);
    }
  }

  lemma FindListed(s: State, k: nat, a: LinkAddr, b: LinkAddr)
    requires Inv(s) && k < |s.addr| && k !in s.keys && Find(s, a) == None && Inv(Listing(s, k, a))
    requires forall x :: x in Listing(s, k, a).keys <==> x in s.keys || x == k
    ensures Find(Listing(s, k, a), b) == if b == a then Some(k) else Find(s, b)
  {
    var s' := Listing(s, k, a);
    FindIs(s, a);
    FindIs(s, b);
    FindIs(s', b);
    if b == a { assert k in s'.keys && s'.addr[k] == b; }
  }

  lemma EnterShowsZero(s: State, t: nat, i: nat)
    requires Inv(s) && t < |s.items| && i in s.keys
    ensures var s' := Enter(s, t, i);
            && Inv(s')
            && forall u, b :: 0 <= u < |s.items| ==>
                 Get(s', u, b) == if u == t && b == s.addr[i] then Some(ZEROED) else Get(s, u, b)
  {
    var s' := Enter(s, t, i);
    EnterKeepsInv(s, t, i);
    forall u, b | 0 <= u < |s.items|
      ensures Get(s', u, b) == if u == t && b == s.addr[i] then Some(ZEROED) else Get(s, u, b)
    {
      EnteredShows(s, t, i, u, b);
    }
  }

  lemma EnterKeepsInv(s: State, t: nat, i: nat)
    requires Inv(s) && t < |s.items| && i in s.keys
    ensures i < |s.addr| && Inv(Enter(s, t, i))
  {
  }

  lemma EnteredShows(s: State, t: nat, i: nat, u: nat, b: LinkAddr)
    requires Inv(s) && t < |s.items| && i in s.keys && i < |s.addr| && u < |s.items|
    ensures var s' := Enter(s, t, i);
            Shape(s') && Get(s', u, b) == if u == t && b == s.addr[i] then Some(ZEROED) else Get(s, u, b)
  {
    hide Distinct;
    FindIs(s, b);
    SameFind(s, Enter(s, t, i), s.keys, b);
  }

  lemma {:induction false} SameFind(s: State, s': State, ks: seq<nat>, a: LinkAddr)
    requires s'.addr == s.addr && forall k :: 0 <= k < |ks| ==> ks[k] < |s.addr|
    ensures FindIn(s', ks, a) == FindIn(s, ks, a)
  {
    if ks != [] { SameFind(s, s', ks[1..], a); }
  }

  /** What an add of address a to table t does to what the tables hold: the item is there and
      zeroed, an evicted address is gone from every table, and nothing else has changed. */
  ghost predicate Shows(s: State, s': State, t: nat, a: LinkAddr, evicted: Option<LinkAddr>)
    requires Shape(s) && Shape(s')
  {
    && |s'.items| == |s.items|
    && forall u, b :: 0 <= u < |s.items| ==>
         Get(s', u, b) == (if u == t && b == a then Some(ZEROED)
                           else if evicted == Some(b) then None
                           else Get(s, u, b))
  }

  /** Add fails, and then changes nothing, exactly when the address is unknown, the pool is full
      and every neighbour is locked; it evicts, by the policy, exactly when the address is unknown,
      the pool is full and some neighbour is not locked. */
  lemma AddRefines(s: State, t: nat, a: LinkAddr, slot: nat)
    requires Inv(s) && t < |s.items| && SlotFree(s, slot)
    ensures var r := Add(s, t, a, slot);
            var full := Find(s, a) == None && |s.alloc| >= |s.addr|;
            && Inv(r.s)
            && (r.index == None <==> full && AllLocked(s, |s.keys|))
            && (r.index == None ==> r.s == s)
            && (r.index.Some? ==> Find(r.s, a) == r.index && Shows(s, r.s, t, a, r.evicted))
            && (r.evicted.Some? <==> full && !AllLocked(s, |s.keys|))
            && (r.evicted.None? ==> r.called == [])
            && (r.evicted.Some? ==> r.index == Victim(s) && r.evicted.value == s.addr[r.index.value] &&
                                    r.called == CalledBack(s, r.index.value, |s.items|))
  {
    VictimFollowsPolicy(s);
    if Find(s, a).Some? {
      FindIs(s, a);
      EnterShowsZero(s, t, Find(s, a).value);
      SameFind(s, Enter(s, t, Find(s, a).value), s.keys, a);
    } else if |s.alloc| < |s.addr| {
      AddNew(s, t, a, slot);
    } else if Victim(s).Some? {
      AddEvicting(s, t, a, slot);
    }
  }

  lemma AddEvicting(s: State, t: nat, a: LinkAddr, slot: nat)
    requires Inv(s) && t < |s.items| && Find(s, a) == None && |s.alloc| >= |s.addr| && Victim(s).Some?
    ensures var r := Add(s, t, a, slot);
            && Inv(r.s) && r.index == Victim(s) && Find(r.s, a) == r.index
            && Shows(s, r.s, t, a, Some(s.addr[r.index.value]))
  {
    VictimFollowsPolicy(s);
    var v := Victim(s).value;
    var s1 := s.(used := s.used[v := {}], keys := RemoveKey(s.keys, v), alloc := s.alloc - {v});
    EvictionUnlists(s, v);
    FindAfter(s, s1, v, a);
    AddNew(s1, t, a, v);
    assert s1.alloc + {v} == s.alloc;
    FindInverse(s, v);
    ShowsAfterEviction(s, s1, Add(s, t, a, slot).s, v, t, a);
  }

  lemma FindInverse(s: State, v: nat)
    requires Inv(s) && v in s.keys
    ensures forall b :: Find(s, b) == Some(v) <==> b == s.addr[v]
  {
    forall b ensures Find(s, b) == Some(v) <==> b == s.addr[v] {
      FindIs(s, b);
    }
  }

  lemma ShowsAfterEviction(s: State, s1: State, s2: State, v: nat, t: nat, a: LinkAddr)
    requires Shape(s) && Shape(s1) && Shape(s2) && v < |s.addr| && t < |s.items|
    requires Unlists(s, s1, v) && Shows(s1, s2, t, a, None)
    requires forall b :: Find(s, b) == Some(v) <==> b == s.addr[v]
    ensures Shows(s, s2, t, a, Some(s.addr[v]))
  {
  }

  lemma AddNew(s: State, t: nat, a: LinkAddr, k: nat)
    requires Inv(s) && t < |s.items| && k < |s.addr| && k !in s.keys && Find(s, a) == None
    ensures var s2 := s.(keys := s.keys + [k], addr := s.addr[k := a], alloc := s.alloc + {k});
            && Inv(s2) && Inv(Enter(s2, t, k)) && Find(Enter(s2, t, k), a) == Some(k)
            && Shows(s, Enter(s2, t, k), t, a, None)
  {
    var s2 := s.(keys := s.keys + [k], addr := s.addr[k := a], alloc := s.alloc + {k});
    ListingKeepsContents(s, k, a);
    FindIs(s2, a);
    EnterShowsZero(s2, t, k);
    SameFind(s2, Enter(s2, t, k), s2.keys, a);
  }

  lemma RemoveForgets(s: State, t: nat, i: nat)
    requires Inv(s) && i < |s.addr|
    ensures var s' := Remove(s, t, i);
            && Inv(s') && s'.keys == s.keys
            && forall u, b :: 0 <= u < |s.items| ==>
                 Get(s', u, b) == if u == t && i in s.keys && b == s.addr[i] then None else Get(s, u, b)
  {
    var s' := Remove(s, t, i);
    forall u, b | 0 <= u < |s.items|
      ensures Get(s', u, b) == if u == t && i in s.keys && b == s.addr[i] then None else Get(s, u, b)
    {
      FindIs(s, b);
      SameFind(s, s', s.keys, b);
    }
  }

  lemma LockingKeepsInv(s: State, t: nat, i: nat)
    requires Inv(s) && i < |s.addr|
    ensures Shape(s) && Inv(Unlock(s, t, i)) && (t in s.used[i] ==> Inv(Lock(s, t, i)))
  {
  }

  lemma LockHidesNothing(s: State, s': State)
    requires Inv(s) && s' == s.(locked := s'.locked) && Inv(s')
    ensures forall u, b :: 0 <= u < |s.items| ==> Get(s', u, b) == Get(s, u, b)
  {
    forall u, b | 0 <= u < |s.items| ensures Get(s', u, b) == Get(s, u, b) {
      SameFind(s, s', s.keys, b);
    }
  }

  lemma WriteShows(s: State, t: nat, i: nat, v: Value)
    requires Inv(s) && t < |s.items| && i < |s.addr| && t in s.used[i]
    ensures var s' := WriteItem(s, t, i, v);
            && Inv(s')
            && forall u, b :: 0 <= u < |s.items| ==>
                 Get(s', u, b) == if u == t && b == s.addr[i] then Some(v) else Get(s, u, b)
  {
    var s' := WriteItem(s, t, i, v);
    forall u, b | 0 <= u < |s.items|
      ensures Get(s', u, b) == if u == t && b == s.addr[i] then Some(v) else Get(s, u, b)
    {
      FindIs(s, b);
      SameFind(s, s', s.keys, b);
    }
  }

  // ---------------------------------------------------------------- whole runs

  datatype Event =
    | AddNbr(t: nat, a: LinkAddr, slot: nat)
    | RemoveNbr(t: nat, i: nat)
    | LockNbr(t: nat, i: nat)
    | UnlockNbr(t: nat, i: nat)
    | WriteNbr(t: nat, i: nat, v: Value)

  /** The same history in terms of tables and addresses. */
  datatype Action =
    | AddedTo(t: nat, a: LinkAddr, evicted: Option<LinkAddr>)
    | RemovedFrom(t: nat, a: LinkAddr)
    | Wrote(t: nat, a: LinkAddr, v: Value)
    | NoChange

  /** The pool keeps its contract; items are locked and written only while in the table. */
  ghost predicate Allowed(s: State, e: Event) {
    match e
    case AddNbr(t, a, slot) => t < |s.items| && SlotFree(s, slot)
    case RemoveNbr(t, i) => i < |s.addr|
    case LockNbr(t, i) => i < |s.used| && t in s.used[i]
    case UnlockNbr(t, i) => i < |s.addr|
    case WriteNbr(t, i, v) => t < |s.items| && i < |s.used| && t in s.used[i]
  }

  function Step(s: State, e: Event): State
    requires Shape(s) && Allowed(s, e)
  {
    match e
    case AddNbr(t, a, slot) => Add(s, t, a, slot).s
    case RemoveNbr(t, i) => Remove(s, t, i)
    case LockNbr(t, i) => Lock(s, t, i)
    case UnlockNbr(t, i) => Unlock(s, t, i)
    case WriteNbr(t, i, v) => WriteItem(s, t, i, v)
  }

  function ActionOf(s: State, e: Event): Action
    requires Shape(s) && Allowed(s, e)
  {
    match e
    case AddNbr(t, a, slot) =>
      if Add(s, t, a, slot).index == None then NoChange else AddedTo(t, a, Add(s, t, a, slot).evicted)
    case RemoveNbr(t, i) => if i in s.keys then RemovedFrom(t, s.addr[i]) else NoChange
    case WriteNbr(t, i, v) => Wrote(t, s.addr[i], v)
    case _ => NoChange
  }

  /** The simple map: what the pair (t, a) holds after one more action, seen from that pair alone. */
  function Replay1(cur: Option<Value>, x: Action, t: nat, a: LinkAddr): Option<Value> {
    match x
    case AddedTo(u, b, evicted) =>
      if u == t && b == a then Some(ZEROED) else if evicted == Some(a) then None else cur
    case RemovedFrom(u, b) => if u == t && b == a then None else cur
    case Wrote(u, b, v) => if u == t && b == a then Some(v) else cur
    case NoChange => cur
  }

  function Replay(cur: Option<Value>, log: seq<Action>, t: nat, a: LinkAddr): Option<Value>
    decreases |log|
  {
    if log == [] then cur else Replay(Replay1(cur, log[0], t, a), log[1..], t, a)
  }

  lemma StepRefines(s: State, e: Event)
    requires Inv(s) && Allowed(s, e)
    ensures Inv(Step(s, e)) && |Step(s, e).items| == |s.items|
    ensures forall u, b :: 0 <= u < |s.items| ==>
              Get(Step(s, e), u, b) == Replay1(Get(s, u, b), ActionOf(s, e), u, b)
  {
    match e
    case AddNbr(t, a, slot) => StepAdds(s, t, a, slot);
    case RemoveNbr(t, i) => RemoveForgets(s, t, i);
    case LockNbr(t, i) => LockHidesNothing(s, Lock(s, t, i));
    case UnlockNbr(t, i) => LockHidesNothing(s, Unlock(s, t, i));
    case WriteNbr(t, i, v) => WriteShows(s, t, i, v);
  }

  lemma StepAdds(s: State, t: nat, a: LinkAddr, slot: nat)
    requires Inv(s) && t < |s.items| && SlotFree(s, slot)
    ensures var r := Add(s, t, a, slot);
            var x := if r.index == None then NoChange else AddedTo(t, a, r.evicted);
            && Inv(r.s) && |r.s.items| == |s.items|
            && forall u, b :: 0 <= u < |s.items| ==> Get(r.s, u, b) == Replay1(Get(s, u, b), x, u, b)
  {
    AddRefines(s, t, a, slot);
  }

  /** The run `es` from s leads to s' and does `log`. */
  ghost predicate Reaches(s: State, es: seq<Event>, s': State, log: seq<Action>)
    decreases |es|
  {
    Shape(s) && |log| == |es| &&
    if es == [] then s == s'
    else Allowed(s, es[0]) && log[0] == ActionOf(s, es[0]) && Reaches(Step(s, es[0]), es[1..], s', log[1..])
  }

  /** Over every run each table is a partial map of its own: what it holds for an address is what
      the history of that table and address says, and the list and bitmaps stay well formed. */
  lemma {:induction false} TablesRefineMaps(s: State, es: seq<Event>, s': State, log: seq<Action>, t: nat, a: LinkAddr)
    requires Inv(s) && Reaches(s, es, s', log) && t < |s.items|
    ensures Inv(s') && t < |s'.items| && Get(s', t, a) == Replay(Get(s, t, a), log, t, a)
    decreases |es|
  {
    if es != [] {
      StepRefines(s, es[0]);
      TablesRefineMaps(Step(s, es[0]), es[1..], s', log[1..], t, a);
    }
  }

  /** An action that ends what the pair holds, or starts it afresh. */
  predicate Touches(x: Action, t: nat, a: LinkAddr) {
    || (x.AddedTo? && ((x.t == t && x.a == a) || x.evicted == Some(a)))
    || (x.RemovedFrom? && x.t == t && x.a == a)
  }

  /** The contents after the writes in `log` to the pair, starting from `v`. */
  function LastWrite(v: Value, log: seq<Action>, t: nat, a: LinkAddr): Value
    decreases |log|
  {
    if log == [] then v
    else LastWrite(if log[0].Wrote? && log[0].t == t && log[0].a == a then log[0].v else v, log[1..], t, a)
  }

  /** What a run from empty tables shows under (t, a) was zeroed by the latest add of that very
      pair and holds what has been written under that pair since; nothing written for a neighbour
      that was removed or evicted shows through. */
  lemma NoStaleData(s: State, es: seq<Event>, s': State, log: seq<Action>, t: nat, a: LinkAddr)
    returns (k: nat)
    requires Inv(s) && s.keys == [] && Reaches(s, es, s', log) && t < |s.items|
    ensures Inv(s') && t < |s'.items|
    ensures var g := Get(s', t, a);
            g.Some? ==>
              && k < |log| && log[k].AddedTo? && log[k].t == t && log[k].a == a
              && (forall i :: k < i < |log| ==> !Touches(log[i], t, a))
              && g.value == LastWrite(ZEROED, log[k + 1..], t, a)
  {
    TablesRefineMaps(s, es, s', log, t, a);
    WritesAreOwned(s, es, s', log, t, a);
    k := LatestAdd(None, log, t, a);
  }

  /** A pair is written only while it is held. */
  ghost predicate Owned(cur: Option<Value>, log: seq<Action>, t: nat, a: LinkAddr)
    decreases |log|
  {
    log != [] ==>
      && (log[0].Wrote? && log[0].t == t && log[0].a == a ==> cur.Some?)
      && Owned(Replay1(cur, log[0], t, a), log[1..], t, a)
  }

  lemma {:induction false} WritesAreOwned(s: State, es: seq<Event>, s': State, log: seq<Action>, t: nat, a: LinkAddr)
    requires Inv(s) && Reaches(s, es, s', log) && t < |s.items|
    ensures Owned(Get(s, t, a), log, t, a)
    decreases |es|
  {
    if es != [] {
      StepRefines(s, es[0]);
      if es[0].WriteNbr? && es[0].t == t && s.addr[es[0].i] == a { FindIs(s, a); }
      WritesAreOwned(Step(s, es[0]), es[1..], s', log[1..], t, a);
    }
  }

  lemma {:induction false} LatestAdd(cur: Option<Value>, log: seq<Action>, t: nat, a: LinkAddr) returns (k: nat)
    requires Owned(cur, log, t, a)
    ensures var g := Replay(cur, log, t, a);
            g.Some? ==>
              || (k < |log| && log[k].AddedTo? && log[k].t == t && log[k].a == a
                  && (forall i :: k < i < |log| ==> !Touches(log[i], t, a))
                  && g.value == LastWrite(ZEROED, log[k + 1..], t, a))
              || (cur.Some? && (forall i :: 0 <= i < |log| ==> !Touches(log[i], t, a))
                  && g.value == LastWrite(cur.value, log, t, a))
    decreases |log|
  {
    k := 0;
    if log != [] {
      var j := LatestAdd(Replay1(cur, log[0], t, a), log[1..], t, a);
      if j < |log[1..]| && log[1..][j].AddedTo? && log[1..][j].t == t && log[1..][j].a == a
         && (forall i :: j < i < |log[1..]| ==> !Touches(log[1..][i], t, a))
         && Replay(cur, log, t, a) == Some(LastWrite(ZEROED, log[1..][j + 1..], t, a))
      {
        k := j + 1;
        assert log[k + 1..] == log[1..][j + 1..];
        assert forall i :: k < i < |log| ==> log[i] == log[1..][i - 1];
      } else {
        assert forall i :: 0 < i < |log| ==> log[i] == log[1..][i - 1];
      }
    }
  }

  // ---------------------------------------------------------------- the list over whole runs

  /** The listed addresses, in list order. */
  function Addrs(s: State, ks: seq<nat>): (listed: seq<LinkAddr>)
    requires forall k :: 0 <= k < |ks| ==> ks[k] < |s.addr|
    ensures |listed| == |ks| && forall k :: 0 <= k < |ks| ==> listed[k] == s.addr[ks[k]]
  {
    seq(|ks|, k requires 0 <= k < |ks| => s.addr[ks[k]])
  }

  function Without(listed: seq<LinkAddr>, a: LinkAddr): seq<LinkAddr> {
    if listed == [] then [] else if listed[0] == a then listed[1..] else [listed[0]] + Without(listed[1..], a)
  }

  /** The addresses in the order in which they were first added, as the history has it. */
  function InOrder(listed: seq<LinkAddr>, log: seq<Action>): seq<LinkAddr>
    decreases |log|
  {
    if log == [] then listed
    else
      var x := log[0];
      InOrder(
        if !x.AddedTo? || x.a in listed then listed
        else (if x.evicted.Some? then Without(listed, x.evicted.value) else listed) + [x.a],
        log[1..])
  }

  lemma {:induction false} RemovedAddrs(s: State, ks: seq<nat>, k: nat)
    requires (forall j :: 0 <= j < |ks| ==> ks[j] < |s.addr|) && k in ks && k < |s.addr|
    requires forall x :: x in ks && x < |s.addr| && s.addr[x] == s.addr[k] ==> x == k
    ensures forall j :: 0 <= j < |RemoveKey(ks, k)| ==> RemoveKey(ks, k)[j] < |s.addr|
    ensures Addrs(s, RemoveKey(ks, k)) == Without(Addrs(s, ks), s.addr[k])
  {
    var listed := Addrs(s, ks);
    assert ks[0] in ks && listed[0] == s.addr[ks[0]];
    assert Addrs(s, ks[1..]) == listed[1..];
    if ks[0] != k {
      RemovedAddrs(s, ks[1..], k);
      var rest := RemoveKey(ks[1..], k);
      assert RemoveKey(ks, k) == [ks[0]] + rest;
      assert Addrs(s, [ks[0]] + rest) == [listed[0]] + Addrs(s, rest);
    }
  }

  lemma ListedLast(s: State, s': State, left: seq<nat>, k: nat, a: LinkAddr)
    requires (forall j :: 0 <= j < |left| ==> left[j] < |s.addr| && left[j] != k) && k < |s.addr|
    requires s'.keys == left + [k] && s'.addr == s.addr[k := a]
    ensures Addrs(s', s'.keys) == Addrs(s, left) + [a]
  {
  }

  /** Where an add of a new address leaves the keys. */
  lemma AddedKeys(s: State, t: nat, a: LinkAddr, slot: nat)
    requires Inv(s) && t < |s.items| && SlotFree(s, slot)
    ensures var r := Add(s, t, a, slot);
            && Shape(r.s) && r.s.locked == s.locked && |r.s.addr| == |s.addr|
            && (Find(s, a) != None || r.index == None ==> r.s.keys == s.keys && r.s.addr == s.addr)
            && (Find(s, a) == None && r.index.Some? ==>
                  var k := r.index.value;
                  && k < |s.addr| && r.s.addr == s.addr[k := a]
                  && r.evicted == (if |s.alloc| < |s.addr| then None else Some(s.addr[k]))
                  && r.s.keys == (if |s.alloc| < |s.addr| then s.keys else RemoveKey(s.keys, k)) + [k]
                  && (k in s.keys <==> |s.alloc| >= |s.addr|)
                  && (k in s.keys ==> s.locked[k] == {}))
  {
    hide Victim, Distinct, RemoveKey, Find, CalledBack, Allocate;
    AllocatedKeys(s, slot);
    KeysStayInPool(s, slot);
  }

  lemma AllocatedKeys(s: State, slot: nat)
    requires Inv(s) && SlotFree(s, slot)
    ensures var r := Allocate(s, slot);
            && r.s.addr == s.addr && r.s.locked == s.locked
            && (r.key == None ==> r.s.keys == s.keys)
            && (r.key.Some? ==>
                  var k := r.key.value;
                  && k < |s.addr| && r.s.keys == (if |s.alloc| < |s.addr| then s.keys else RemoveKey(s.keys, k))
                  && (k in s.keys <==> |s.alloc| >= |s.addr|) && (k in s.keys ==> s.locked[k] == {}))
  {
    hide Victim, Distinct, RemoveKey, CalledBack;
    VictimListed(s);
  }

  lemma VictimListed(s: State)
    requires Shape(s)
    ensures Victim(s).Some? ==>
              Victim(s).value in s.keys && Victim(s).value < |s.addr| && s.locked[Victim(s).value] == {}
  {
    VictimFollowsPolicy(s);
  }

  lemma AddListsLast(s: State, t: nat, a: LinkAddr, slot: nat)
    requires Inv(s) && t < |s.items| && SlotFree(s, slot)
    ensures var r := Add(s, t, a, slot);
            var x := if r.index == None then NoChange else AddedTo(t, a, r.evicted);
            Shape(r.s) && Addrs(r.s, r.s.keys) == InOrder(Addrs(s, s.keys), [x])
  {
    hide Add, Victim, Scan, RemoveKey, Find, Get, Without;
    var r, listed := Add(s, t, a, slot), Addrs(s, s.keys);
    AddedKeys(s, t, a, slot);
    AddedIsListed(s, a);
    assert forall x: Action :: [x][1..] == [];
    if Find(s, a) == None && r.index.Some? {
      var k := r.index.value;
      var left := if |s.alloc| < |s.addr| then s.keys else RemoveKey(s.keys, k);
      if |s.alloc| >= |s.addr| {
        RemovedAddrs(s, s.keys, k);
        RemoveKeyIs(s.keys, k);
      }
      assert forall j :: 0 <= j < |left| ==> left[j] in left && left[j] != k;
      ListedLast(s, r.s, left, k, a);
    }
  }

  lemma AddedIsListed(s: State, a: LinkAddr)
    requires Inv(s)
    ensures a in Addrs(s, s.keys) <==> Find(s, a) != None
  {
    FindInIs(s, s.keys, a);
    var listed := Addrs(s, s.keys);
    if Find(s, a) == None {
      forall j | 0 <= j < |listed| ensures listed[j] != a {
        assert s.keys[j] in s.keys;
      }
    } else {
      var j :| 0 <= j < |s.keys| && s.keys[j] == Find(s, a).value;
      assert listed[j] == a;
    }
  }

  /** Over every run the list has the addresses in the order in which they were first added, less those
      evicted; the tables with a callback and the size of the pool stay the same. */
  lemma {:induction false} ListKeepsOrder(s: State, es: seq<Event>, s': State, log: seq<Action>)
    requires Inv(s) && Reaches(s, es, s', log)
    ensures Inv(s') && Addrs(s', s'.keys) == InOrder(Addrs(s, s.keys), log)
    ensures s'.cbs == s.cbs && |s'.addr| == |s.addr| && |s'.items| == |s.items|
    decreases |es|
  {
    hide InOrder, Add;
    if es == [] {
      InOrderNil(Addrs(s, s.keys));
    } else {
      var s1 := Step(s, es[0]);
      StepRefines(s, es[0]);
      StepKeepsOrder(s, es[0]);
      ListKeepsOrder(s1, es[1..], s', log[1..]);
      InOrderCons(Addrs(s, s.keys), log[0], log[1..]);
      assert log == [log[0]] + log[1..];
    }
  }

  lemma InOrderNil(listed: seq<LinkAddr>)
    ensures InOrder(listed, []) == listed
  {
  }

  lemma InOrderCons(listed: seq<LinkAddr>, x: Action, log: seq<Action>)
    ensures InOrder(listed, [x] + log) == InOrder(InOrder(listed, [x]), log)
  {
    assert ([x] + log)[1..] == log && [x][1..] == [];
  }

  lemma StepKeepsOrder(s: State, e: Event)
    requires Inv(s) && Allowed(s, e)
    ensures var s' := Step(s, e);
            && Shape(s') && Addrs(s', s'.keys) == InOrder(Addrs(s, s.keys), [ActionOf(s, e)])
            && s'.cbs == s.cbs && |s'.addr| == |s.addr| && |s'.items| == |s.items|
  {
    hide Add, Remove, Lock, Unlock, WriteItem;
    if e.AddNbr? {
      AddListsLast(s, e.t, e.a, e.slot);
      AddFrame(s, e.t, e.a, e.slot);
    } else {
      NotListed(s, e);
      assert [ActionOf(s, e)][1..] == [];
    }
  }

  lemma AddFrame(s: State, t: nat, a: LinkAddr, slot: nat)
    requires Shape(s) && t < |s.items| && SlotFree(s, slot)
    ensures var s' := Add(s, t, a, slot).s; s'.cbs == s.cbs && |s'.addr| == |s.addr| && |s'.items| == |s.items|
  {
    hide Victim, Find, RemoveKey, CalledBack;
  }

  lemma NotListed(s: State, e: Event)
    requires Inv(s) && Allowed(s, e) && !e.AddNbr?
    ensures var s' := Step(s, e);
            && Shape(s') && s'.keys == s.keys && s'.addr == s.addr && s'.cbs == s.cbs && |s'.items| == |s.items|
            && Addrs(s', s'.keys) == Addrs(s, s.keys)
  {
  }

  // ---------------------------------------------------------------- locks over whole runs

  /** Whether table t holds a lock on neighbour i after the events, by the calls alone: the last one
      of lock, unlock and remove on that item decides. */
  function LockedBy(held: bool, es: seq<Event>, t: nat, i: nat): bool
    decreases |es|
  {
    if es == [] then held
    else
      var e := es[0];
      LockedBy(
        if e == LockNbr(t, i) then true else if e == UnlockNbr(t, i) || e == RemoveNbr(t, i) then false else held,
        es[1..], t, i)
  }

  /** No add locks or unlocks anything, and none evicts a locked neighbour. */
  lemma AddKeepsLocks(s: State, t: nat, a: LinkAddr, slot: nat)
    requires Inv(s) && t < |s.items| && SlotFree(s, slot)
    ensures var s' := Add(s, t, a, slot).s;
            && s'.locked == s.locked && |s'.addr| == |s.addr|
            && forall i :: 0 <= i < |s.addr| && s.locked[i] != {} ==> i in s'.keys && s'.addr[i] == s.addr[i]
  {
    hide Add, Victim, RemoveKey, Find;
    AddedKeys(s, t, a, slot);
    var r := Add(s, t, a, slot);
    if Find(s, a) == None && r.index.Some? { RemoveKeyIs(s.keys, r.index.value); }
    forall i | 0 <= i < |s.addr| && s.locked[i] != {} ensures i in r.s.keys && r.s.addr[i] == s.addr[i] {
      assert i in s.keys;
    }
  }

  lemma StepKeepsLocks(s: State, e: Event, t: nat, i: nat)
    requires Inv(s) && Allowed(s, e) && i < |s.addr|
    ensures Shape(Step(s, e)) && |Step(s, e).addr| == |s.addr|
    ensures t in Step(s, e).locked[i] <==> LockedBy(t in s.locked[i], [e], t, i)
    ensures t in s.locked[i] ==> i in Step(s, e).keys && Step(s, e).addr[i] == s.addr[i]
  {
    StepRefines(s, e);
    assert [e][1..] == [];
    if e.AddNbr? { AddKeepsLocks(s, e.t, e.a, e.slot); }
  }

  /** Over every run the locks are those the calls say. */
  lemma {:induction false} LocksFollowCalls(s: State, es: seq<Event>, s': State, log: seq<Action>, t: nat, i: nat)
    requires Inv(s) && Reaches(s, es, s', log) && i < |s.addr|
    ensures Inv(s') && |s'.addr| == |s.addr|
    ensures t in s'.locked[i] <==> LockedBy(t in s.locked[i], es, t, i)
    decreases |es|
  {
    hide Step, Allowed;
    if es != [] {
      StepRefines(s, es[0]);
      StepKeepsLocks(s, es[0], t, i);
      assert [es[0]][1..] == [];
      LocksFollowCalls(Step(s, es[0]), es[1..], s', log[1..], t, i);
    }
  }

  /** No call of the run takes the lock or the item away. */
  ghost predicate KeepsLock(es: seq<Event>, t: nat, i: nat) {
    forall k :: 0 <= k < |es| ==> es[k] != UnlockNbr(t, i) && es[k] != RemoveNbr(t, i)
  }

  /** A neighbour that a table has locked survives every add, of any address to any table, until that
      table unlocks or removes it: it stays listed under its address and in the table. */
  lemma {:induction false} LockedSurvives(s: State, es: seq<Event>, s': State, log: seq<Action>, t: nat, i: nat)
    requires Inv(s) && Reaches(s, es, s', log) && i < |s.addr| && t in s.locked[i] && KeepsLock(es, t, i)
    ensures Inv(s') && |s'.addr| == |s.addr| && t < |s'.items| && i in s'.keys && s'.addr[i] == s.addr[i]
    ensures t in s'.used[i] && t in s'.locked[i] && Get(s', t, s.addr[i]).Some?
    decreases |es|
  {
    hide Step, Allowed, Get;
    if es == [] {
      LockedIsHeld(s, t, i);
    } else {
      var s1 := Step(s, es[0]);
      StepRefines(s, es[0]);
      StepKeepsLocks(s, es[0], t, i);
      LastLockStays(es[0], t, i);
      assert forall k :: 0 <= k < |es[1..]| ==> es[1..][k] == es[k + 1];
      LockedSurvives(s1, es[1..], s', log[1..], t, i);
    }
  }

  lemma LastLockStays(e: Event, t: nat, i: nat)
    requires e != UnlockNbr(t, i) && e != RemoveNbr(t, i)
    ensures LockedBy(true, [e], t, i)
  {
    assert [e][1..] == [];
  }

  lemma LockedIsHeld(s: State, t: nat, i: nat)
    requires Inv(s) && i < |s.addr| && t in s.locked[i]
    ensures i in s.keys && t in s.used[i] && t < |s.items| && Get(s, t, s.addr[i]).Some?
  {
    FindIs(s, s.addr[i]);
  }

  // ---------------------------------------------------------------- iteration

  /** The part of the list after key i. */
  function After(ks: seq<nat>, i: nat): (r: seq<nat>)
    ensures |r| <= |ks| && (forall x :: x in r ==> x in ks)
    ensures i in ks ==> |r| < |ks|
  {
    if ks == [] then [] else if ks[0] == i then ks[1..] else After(ks[1..], i)
  }

  /** list_item_next, for a key in the list. */
  function NextKey(ks: seq<nat>, i: nat): Option<nat> {
    if After(ks, i) == [] then None else Some(After(ks, i)[0])
  }

  lemma {:induction false} AfterNext(ks: seq<nat>, i: nat)
    requires Distinct(ks) && After(ks, i) != []
    ensures After(ks, After(ks, i)[0]) == After(ks, i)[1..]
  {
    var x := After(ks, i)[0];
    if ks[0] == i {
      assert After(ks[1..], ks[1]) == ks[1..][1..];
    } else {
      AfterNext(ks[1..], i);
      assert x in ks[1..];
    }
  }

  /** nbr_table_next: the do-while loop over the list. */
  function Next(s: State, t: nat, i: nat): (r: Option<nat>)
    requires Inv(s) && i in s.keys
    ensures r.Some? ==> r.value in s.keys && |After(s.keys, r.value)| < |After(s.keys, i)|
    decreases |After(s.keys, i)|
  {
    match NextKey(s.keys, i)
    case None => None
    case Some(k) =>
      AfterNext(s.keys, i);
      assert k in After(s.keys, i) && k in s.keys;
      if t in s.used[k] then Some(k) else Next(s, t, k)
  }

  /** nbr_table_head */
  function Head(s: State, t: nat): (r: Option<nat>)
    requires Inv(s)
    ensures r.Some? ==> r.value in s.keys
  {
    if s.keys == [] then None
    else if t in s.used[s.keys[0]] then Some(s.keys[0])
    else Next(s, t, s.keys[0])
  }

  /** The items a caller meets from `item` on. */
  function Walk(s: State, t: nat, item: Option<nat>): seq<nat>
    requires Inv(s) && (item.Some? ==> item.value in s.keys)
    decreases if item.None? then 0 else 1 + |After(s.keys, item.value)|
  {
    if item.None? then [] else [item.value] + Walk(s, t, Next(s, t, item.value))
  }

  /** The keys that table t uses, in list order. */
  function UsedBy(s: State, t: nat, ks: seq<nat>): seq<nat>
    requires forall k :: k in ks ==> k < |s.used|
  {
    if ks == [] then []
    else
      assert forall k :: k in ks[1..] ==> k in ks;
      assert ks[0] in ks;
      (if t in s.used[ks[0]] then [ks[0]] else []) + UsedBy(s, t, ks[1..])
  }

  lemma {:induction false} NextIsFirstUsed(s: State, t: nat, i: nat)
    requires Inv(s) && i in s.keys
    ensures forall k :: k in After(s.keys, i) ==> k < |s.used|
    ensures var u := UsedBy(s, t, After(s.keys, i));
            Walk(s, t, Next(s, t, i)) == u
    decreases |After(s.keys, i)|
  {
    var rest := After(s.keys, i);
    if rest != [] {
      AfterNext(s.keys, i);
      assert rest[0] in s.keys;
      NextIsFirstUsed(s, t, rest[0]);
    }
  }

  /** Walking from head with next terminates and meets each neighbour used by the table exactly
      once, in insertion order. */
  lemma WalkMeetsUsedInOrder(s: State, t: nat)
    requires Inv(s)
    ensures forall k :: k in s.keys ==> k < |s.used|
    ensures Walk(s, t, Head(s, t)) == UsedBy(s, t, s.keys)
    ensures Distinct(Walk(s, t, Head(s, t)))
    ensures forall k :: k in Walk(s, t, Head(s, t)) <==> k in s.keys && t in s.used[k]
  {
    if s.keys != [] {
      NextIsFirstUsed(s, t, s.keys[0]);
      assert After(s.keys, s.keys[0]) == s.keys[1..];
    }
    UsedByIs(s, t, s.keys);
  }

  lemma {:induction false} UsedByIs(s: State, t: nat, ks: seq<nat>)
    requires Distinct(ks) && forall k :: k in ks ==> k < |s.used|
    ensures Distinct(UsedBy(s, t, ks))
    ensures forall k :: k in UsedBy(s, t, ks) <==> k in ks && t in s.used[k]
  {
    if ks != [] {
      assert forall k :: k in ks[1..] ==> k in ks;
      UsedByIs(s, t, ks[1..]);
      var rest := UsedBy(s, t, ks[1..]);
      assert forall j :: 0 <= j < |rest| ==> rest[j] in rest;
      assert ks == [ks[0]] + ks[1..];
      assert ks[0] !in ks[1..];
    }
  }

  // ---------------------------------------------------------------- items, indices, bits

  /** nbr_table_t: where the items of the table lie and how large each is. */
  datatype Table = Table(index: nat, itemSize: int, data: int)

  /** item_from_index, for a table that is there; -1 stands for none. */
  function ItemFromIndex(t: Table, index: int): Option<int> {
    if index != -1 then Some(t.data + index * t.itemSize) else None
  }

  /** index_from_item: the C division of the byte distance by the item size. */
  function IndexFromItem(t: Table, item: Option<int>): int
    requires t.itemSize > 0
  {
    if item.Some? then
      var d := item.value - t.data;
      if d >= 0 then d / t.itemSize else -((-d) / t.itemSize)
    else -1
  }

  /** For any positive item size an index and its item determine each other, an address inside an
      item leads to that item's index, and distinct indices have disjoint items. */
  lemma ItemsAndIndices(t: Table, i: nat, off: nat)
    requires off < t.itemSize
    ensures ItemFromIndex(t, i).Some? && IndexFromItem(t, ItemFromIndex(t, i)) == i
    ensures ItemFromIndex(t, -1) == None && IndexFromItem(t, None) == -1
    ensures IndexFromItem(t, Some(t.data + i * t.itemSize + off)) == i
    ensures forall j: nat :: j != i ==>
              !(t.data + i * t.itemSize <= t.data + j * t.itemSize < t.data + (i + 1) * t.itemSize)
  {
    DivOfProduct(i, t.itemSize, off);
    DivOfProduct(i, t.itemSize, 0);
    forall j: nat | j != i
      ensures !(i * t.itemSize <= j * t.itemSize < (i + 1) * t.itemSize)
    {
      if j < i { Multiples(j, i, t.itemSize); } else { Multiples(i + 1, j, t.itemSize); }
    }
  }

  lemma Multiples(j: nat, i: nat, n: int)
    requires j <= i && n > 0
    ensures j * n <= i * n && (j < i ==> j * n < i * n)
  {
    assert i * n - j * n == (i - j) * n;
  }

  lemma DivOfProduct(i: nat, n: int, off: nat)
    requires off < n
    ensures i * n + off >= 0 && (i * n + off) / n == i
  {
    assert i * n + off >= 0;
    var q := (i * n + off) / n;
    assert i * n + off == q * n + (i * n + off) % n;
    assert (q + 1) * n == q * n + n && (i + 1) * n == i * n + n;
    if q < i { Multiples(q + 1, i, n); }
    else if q > i { Multiples(i + 1, q, n); }
  }

  /** 1 << t in a uint8_t */
  function Mask(t: nat): bv8
    requires t < MAX_TABLES
  {
    if t == 0 then 1 else if t == 1 then 2 else if t == 2 then 4 else if t == 3 then 8
    else if t == 4 then 16 else if t == 5 then 32 else if t == 6 then 64 else 128
  }

  predicate HasBit(b: bv8, t: nat)
    requires t < MAX_TABLES
  {
    b & Mask(t) != 0
  }

  function Bits(b: bv8): (r: set<nat>)
    ensures forall t: nat :: t in r <==> t < MAX_TABLES && HasBit(b, t)
  {
    set t: nat | t < MAX_TABLES && HasBit(b, t)
  }

  lemma SetAndClear(b: bv8, t: nat, u: nat)
    requires t < MAX_TABLES && u < MAX_TABLES
    ensures HasBit(b | Mask(t), u) <==> HasBit(b, u) || t == u
    ensures HasBit(b & !Mask(t), u) <==> HasBit(b, u) && t != u
  {
  }

  lemma BitmapUpdates(b: bv8, t: nat)
    requires t < MAX_TABLES
    ensures Bits(b | Mask(t)) == Bits(b) + {t}
    ensures Bits(b & !Mask(t)) == Bits(b) - {t}
  {
    forall u: nat | u < MAX_TABLES
      ensures HasBit(b | Mask(t), u) <==> HasBit(b, u) || t == u
      ensures HasBit(b & !Mask(t), u) <==> HasBit(b, u) && t != u
    {
      SetAndClear(b, t, u);
    }
  }

  function Bit(b: bv8, t: nat): nat
    requires t < MAX_TABLES
  {
    if HasBit(b, t) then 1 else 0
  }

  function Ones(b: bv8): nat {
    Bit(b, 0) + Bit(b, 1) + Bit(b, 2) + Bit(b, 3) + Bit(b, 4) + Bit(b, 5) + Bit(b, 6) + Bit(b, 7)
  }

  lemma ShiftOut(b: bv8)
    ensures Ones(b) == Ones(b >> 1) + if b & 1 == 1 then 1 else 0
  {
    assert HasBit(b >> 1, 0) == HasBit(b, 1) && HasBit(b >> 1, 1) == HasBit(b, 2);
    assert HasBit(b >> 1, 2) == HasBit(b, 3) && HasBit(b >> 1, 3) == HasBit(b, 4);
    assert HasBit(b >> 1, 4) == HasBit(b, 5) && HasBit(b >> 1, 5) == HasBit(b, 6);
    assert HasBit(b >> 1, 6) == HasBit(b, 7) && !HasBit(b >> 1, 7);
  }

  function BitsBelow(b: bv8, n: nat): set<nat>
    requires n <= MAX_TABLES
  {
    set t: nat | t < n && HasBit(b, t)
  }

  lemma OneMore(b: bv8, n: nat)
    requires n < MAX_TABLES
    ensures |BitsBelow(b, n + 1)| == |BitsBelow(b, n)| + Bit(b, n)
  {
    assert BitsBelow(b, n + 1) == if HasBit(b, n) then BitsBelow(b, n) + {n} else BitsBelow(b, n);
  }

  /** The shift-and-test loop counts the tables in the bitmap. */
  lemma OnesCountsBits(b: bv8)
    ensures Ones(b) == |Bits(b)|
  {
    assert BitsBelow(b, 0) == {} && BitsBelow(b, 8) == Bits(b);
    OneMore(b, 0);
    OneMore(b, 1);
    OneMore(b, 2);
    OneMore(b, 3);
    OneMore(b, 4);
    OneMore(b, 5);
    OneMore(b, 6);
    OneMore(b, 7);
  }

  /** The inner loop of nbr_table_allocate. */
  method CountTables(bitmap: bv8) returns (count: nat)
    ensures count == |Bits(bitmap)|
  {
    OnesCountsBits(bitmap);
    var used := bitmap;
    count := 0;
    while used != 0
      invariant count + Ones(used) == Ones(bitmap)
      decreases used
    {
      ShiftOut(used);
      if used & 1 == 1 {
        count := count + 1;
      }
      used := used >> 1;
    }
    assert Ones(0) == 0;
  }

  // ---------------------------------------------------------------- the C module

  class NbrTables {
    const tables: seq<Table>
    const cbs: set<nat>
    /** Tables whose callback takes the victim's item out of its own table. */
    const selfRemoving: set<nat>
    const addr: array<LinkAddr>
    const usedMap: array<bv8>
    const lockedMap: array<bv8>
    const items: array2<Value>
    var keys: seq<nat>
    var alloc: set<nat>
    /** The callbacks made so far: table and neighbour. */
    var calls: seq<(nat, nat)>

    ghost function View(): State
      reads this, addr, usedMap, lockedMap, items
    {
      State(keys, alloc, addr[..], BitSets(usedMap[..]), BitSets(lockedMap[..]),
            Rows(items), cbs)
    }

    ghost predicate Valid()
      reads this, addr, usedMap, lockedMap, items
    {
      && usedMap != lockedMap && addr as object != usedMap && addr as object != lockedMap
      && usedMap.Length == lockedMap.Length == addr.Length == items.Length1
      && items.Length0 == |tables| <= MAX_TABLES
      && (forall t :: 0 <= t < |tables| ==> tables[t].index == t && tables[t].itemSize > 0)
      && Inv(View())
    }

    /** MEMB, LIST and the bitmaps as they are at start-up, with the tables registered one after
        another, for n neighbours. */
    constructor (ts: seq<Table>, callbacks: set<nat>, removing: set<nat>, n: nat)
      requires |ts| <= MAX_TABLES && forall t :: 0 <= t < |ts| ==> ts[t].index == t && ts[t].itemSize > 0
      ensures Valid() && tables == ts && cbs == callbacks && selfRemoving == removing
      ensures View() == Empty(addr[..], Rows(items), callbacks) && addr.Length == n && calls == []
      ensures fresh(addr) && fresh(usedMap) && fresh(lockedMap) && fresh(items)
    {
      tables, cbs, selfRemoving := ts, callbacks, removing;
      addr, items := new LinkAddr[n](_ => NULL_ADDR), new Value[|ts|, n]((_, _) => ZEROED);
      usedMap, lockedMap := new bv8[n](_ => 0), new bv8[n](_ => 0);
      keys, alloc, calls := [], {}, [];
      new;
      NoBits(0);
      EmptyInv(addr[..], Rows(items), cbs);
      assert BitSets(usedMap[..]) == NoSets(n) && BitSets(lockedMap[..]) == NoSets(n);
    }

    /** index_from_lladdr */
    method IndexFromLladdr(a: LinkAddr) returns (index: int)
      requires Valid()
      ensures index == match Find(View(), a) case Some(i) => i case None => -1
    {
      var k := 0;
      assert keys[0..] == keys;
      while k < |keys|
        invariant 0 <= k <= |keys|
        invariant Find(View(), a) == FindIn(View(), keys[k..], a)
      {
        if addr[keys[k]] == a {
          return keys[k];
        }
        assert keys[k..][1..] == keys[k + 1..];
        k := k + 1;
      }
      return -1;
    }

    /** The scan of nbr_table_allocate for a neighbour to give up. */
    method FindVictim() returns (victim: Option<nat>)
      requires Valid()
      ensures victim == Victim(View())
    {
      ghost var s := View();
      var k := 0;
      var count := 0;
      victim := None;
      assert keys[0..] == keys;
      while k < |keys|
        invariant 0 <= k <= |keys|
        invariant Victim(s) == Scan(s, s.keys[k..], victim, count)
      {
        var i := keys[k];
        ScanStep(s, k, victim, count);
        NoBits(lockedMap[i]);
        if lockedMap[i] == 0 {
          var n := CountTables(usedMap[i]);
          if victim == None || n < count {
            victim, count := Some(i), n;
            if n == 0 {
              return;
            }
          }
        }
        k := k + 1;
      }
    }

    /** The two sets agree on the tables from t on. */
    static ghost predicate AgreeFrom(x: set<nat>, y: set<nat>, t: nat) {
      forall u: nat :: t <= u ==> (u in x <==> u in y)
    }

    static ghost predicate SameExcept(x: seq<bv8>, y: seq<bv8>, v: nat) {
      |x| == |y| && forall i :: 0 <= i < |x| && i != v ==> x[i] == y[i]
    }

    /** One call for neighbour v to each of these tables. */
    static function CallsFor(ts: seq<nat>, v: nat): seq<(nat, nat)> {
      seq(|ts|, i requires 0 <= i < |ts| => (ts[i], v))
    }

    static lemma OneMoreCall(ts: seq<nat>, t: nat, v: nat)
      ensures CallsFor(ts + [t], v) == CallsFor(ts, v) + [(t, v)] && ts + [] == ts
    {
    }

    /** nbr_set_bit to 0 on both maps. */
    method ClearBits(t: nat, i: nat)
      requires usedMap != lockedMap && t < MAX_TABLES && i < usedMap.Length == lockedMap.Length
      modifies usedMap, lockedMap
      ensures SameExcept(usedMap[..], old(usedMap[..]), i) && Bits(usedMap[i]) == old(Bits(usedMap[i])) - {t}
      ensures SameExcept(lockedMap[..], old(lockedMap[..]), i) && Bits(lockedMap[i]) == old(Bits(lockedMap[i])) - {t}
    {
      BitmapUpdates(usedMap[i], t);
      BitmapUpdates(lockedMap[i], t);
      usedMap[i] := usedMap[i] & !Mask(t);
      lockedMap[i] := lockedMap[i] & !Mask(t);
    }

    /** Table t hears about the victim if it uses it. */
    method NotifyOne(t: nat, v: nat)
      requires usedMap != lockedMap && t < MAX_TABLES && v < usedMap.Length == lockedMap.Length && lockedMap[v] == 0
      modifies this`calls, usedMap, lockedMap
      ensures lockedMap[..] == old(lockedMap[..])
      ensures SameExcept(usedMap[..], old(usedMap[..]), v)
      ensures AgreeFrom(Bits(usedMap[v]), old(Bits(usedMap[v])), t + 1)
      ensures calls == old(calls) + if t < |tables| && t in cbs && t in old(Bits(usedMap[v])) then [(t, v)] else []
    {
      assert t in Bits(usedMap[v]) <==> HasBit(usedMap[v], t);
      if t < |tables| && t in cbs && HasBit(usedMap[v], t) {
        calls := calls + [(t, v)];
        if t in selfRemoving {
          NoBits(lockedMap[v]);
          ClearBits(t, v);
          NoBits(lockedMap[v]);
          assert lockedMap[..] == old(lockedMap[..]);
        }
      }
    }

    /** The callback loop for a victim. A callback that takes the item out of its own table clears
        a bit that is cleared afterwards anyway. */
    method NotifyUsers(v: nat)
      requires usedMap != lockedMap && |tables| == items.Length0 <= MAX_TABLES
      requires v < usedMap.Length == lockedMap.Length && lockedMap[v] == 0
      modifies this`calls, usedMap, lockedMap
      ensures lockedMap[..] == old(lockedMap[..])
      ensures SameExcept(usedMap[..], old(usedMap[..]), v)
      ensures calls == old(calls) + CallsFor(CalledBack(old(View()), v, |tables|), v)
    {
      ghost var s := View();
      var t := 0;
      while t < MAX_TABLES
        invariant 0 <= t <= MAX_TABLES
        invariant lockedMap[..] == old(lockedMap[..])
        invariant SameExcept(usedMap[..], old(usedMap[..]), v)
        invariant AgreeFrom(Bits(usedMap[v]), s.used[v], t)
        invariant calls == old(calls) + CallsFor(CalledBack(s, v, t), v)
      {
        NotifyOne(t, v);
        OneMoreCall(CalledBack(s, v, t), t, v);
        t := t + 1;
      }
      NoneBeyond(s, v, t);
    }

    /** A victim is announced, loses its used bits and its place in the list. */
    method Evict(v: nat)
      requires Valid() && v in keys && lockedMap[v] == 0
      modifies this`keys, this`calls, usedMap, lockedMap
      ensures View() == old(View()).(used := old(View()).used[v := {}], keys := RemoveKey(old(keys), v))
      ensures calls == old(calls) + CallsFor(CalledBack(old(View()), v, |tables|), v)
    {
      NotifyUsers(v);
      usedMap[v] := 0;
      NoBits(usedMap[v]);
      keys := RemoveFromList(keys, v);
      assert BitSets(usedMap[..]) == old(View()).used[v := {}];
    }

    /** nbr_table_allocate; `slot` is what the pool handed out, if it had room. */
    method AllocateKey() returns (key: Option<nat>, ghost slot: nat)
      requires Valid()
      modifies this`keys, this`alloc, this`calls, usedMap, lockedMap
      ensures SlotFree(old(View()), slot)
      ensures (View(), key) == (Allocate(old(View()), slot).s, Allocate(old(View()), slot).key)
      ensures calls == old(calls) + CallsFor(Allocate(old(View()), slot).called, if key.Some? then key.value else 0)
    {
      var own := Pools.MembAlloc(alloc, addr.Length);
      if own.Some? {
        alloc := alloc + {own.value};
        return own, own.value;
      }
      slot := 0;
      key := FindVictim();
      if key.Some? {
        VictimFollowsPolicy(View());
        NoBits(lockedMap[key.value]);
        Evict(key.value);
      }
    }

    /** list_remove */
    method RemoveFromList(ks: seq<nat>, k: nat) returns (r: seq<nat>)
      ensures r == RemoveKey(ks, k)
    {
      var i := 0;
      while i < |ks|
        invariant 0 <= i <= |ks|
        invariant RemoveKey(ks, k) == ks[..i] + RemoveKey(ks[i..], k)
      {
        RemoveKeyAt(ks, k, i);
        if ks[i] == k {
          return ks[..i] + ks[i + 1..];
        }
        i := i + 1;
      }
      return ks;
    }

    /** The item of neighbour i in table t, or none for -1. */
    function Item(t: nat, i: int): Option<int>
      requires t < |tables|
    {
      ItemFromIndex(tables[t], i)
    }

    /** item is none or one of the table's items, the one of neighbour i. */
    ghost predicate IsItem(t: nat, item: Option<int>, i: int)
      requires t < |tables|
    {
      -1 <= i < addr.Length && item == Item(t, i)
    }

    /** index_from_item on a pointer the table gave out. */
    method IndexOf(t: nat, item: Option<int>, ghost i: int) returns (index: int)
      requires Valid() && t < |tables| && IsItem(t, item, i)
      ensures index == i
    {
      if i >= 0 { ItemsAndIndices(tables[t], i, 0); }
      index := IndexFromItem(tables[t], item);
    }

    /** nbr_get_bit on the used map. */
    method UsesItem(t: nat, item: Option<int>, ghost i: int) returns (b: bool)
      requires Valid() && t < |tables| && IsItem(t, item, i)
      ensures b <==> i != -1 && t in View().used[i]
    {
      var index := IndexOf(t, item, i);
      return index != -1 && HasBit(usedMap[index], t);
    }

    /** nbr_table_get_from_lladdr */
    method GetFromLladdr(t: nat, lladdr: Option<LinkAddr>) returns (item: Option<int>)
      requires Valid() && t < |tables|
      ensures item.Some? <==> Get(View(), t, AddrOf(lladdr)).Some?
      ensures item.Some? ==>
                var i := Find(View(), AddrOf(lladdr)).value;
                item == Item(t, i) && Get(View(), t, AddrOf(lladdr)) == Some(items[t, i])
    {
      var index := IndexFromLladdr(AddrOf(lladdr));
      item := ItemFromIndex(tables[t], index);
      var used := UsesItem(t, item, index);
      if !used {
        item := None;
      }
    }

    /** list_item_next on a key in the list. */
    method ListItemNext(k: nat) returns (next: Option<nat>)
      requires k in keys
      ensures next == NextKey(keys, k)
    {
      var j := 0;
      assert keys[0..] == keys;
      while keys[j] != k
        invariant 0 <= j < |keys| && k in keys[j..]
        invariant After(keys, k) == After(keys[j..], k)
        decreases |keys| - j
      {
        assert keys[j..] == [keys[j]] + keys[j + 1..];
        j := j + 1;
      }
      assert After(keys, k) == keys[j..][1..] == keys[j + 1..];
      if j + 1 < |keys| {
        return Some(keys[j + 1]);
      }
      return None;
    }

    /** nbr_table_next; the next of no item is no item. */
    method NextItem(t: nat, item0: Option<int>, ghost i0: int) returns (item: Option<int>)
      requires Valid() && t < |tables| && IsItem(t, item0, i0) && (i0 == -1 || i0 in keys)
      ensures i0 == -1 ==> item == None
      ensures i0 != -1 ==> item == match Next(View(), t, i0) case Some(i) => Item(t, i) case None => None
    {
      item := item0;
      ghost var i := i0;
      var again := true;
      while again
        invariant IsItem(t, item, i)
        invariant i0 == -1 ==> item == None && i == -1
        invariant i0 != -1 && again ==> i in keys && Next(View(), t, i) == Next(View(), t, i0)
        invariant i0 != -1 && !again ==> item == match Next(View(), t, i0) case Some(i) => Item(t, i) case None => None
        decreases again, if i in keys then |After(keys, i)| else 0
      {
        var index := IndexOf(t, item, i);
        var key: Option<nat> := None;
        if index != -1 {
          key := ListItemNext(index);
        }
        if key == None {
          item, i := None, -1;
          again := false;
        } else {
          AfterNext(keys, index);
          assert key.value in After(keys, index);
          item, i := ItemFromIndex(tables[t], key.value), key.value;
          var used := UsesItem(t, item, i);
          again := !used;
        }
      }
    }

    /** nbr_table_head */
    method HeadItem(t: nat) returns (item: Option<int>)
      requires Valid() && t < |tables|
      ensures item == match Head(View(), t) case Some(i) => Item(t, i) case None => None
    {
      var index := if keys == [] then -1 else keys[0];
      item := ItemFromIndex(tables[t], index);
      var used := UsesItem(t, item, index);
      if !used {
        item := NextItem(t, item, index);
      }
    }

    /** nbr_table_remove */
    method RemoveItem(t: nat, item: Option<int>, ghost i: int) returns (ret: bool)
      requires Valid() && t < |tables| && IsItem(t, item, i)
      modifies usedMap, lockedMap
      ensures Valid() && (ret <==> item.Some?)
      ensures View() == if i == -1 then old(View()) else Remove(old(View()), t, i)
    {
      var index := IndexOf(t, item, i);
      if index == -1 {
        return false;
      }
      RemoveForgets(View(), t, i);
      ClearBits(t, index);
      assert BitSets(usedMap[..]) == Remove(old(View()), t, i).used;
      assert BitSets(lockedMap[..]) == Remove(old(View()), t, i).locked;
      return true;
    }

    method SetLocked(i: nat, b: bv8)
      requires i < lockedMap.Length && lockedMap != usedMap && addr as object != lockedMap
      modifies lockedMap
      ensures View() == old(View()).(locked := old(View()).locked[i := Bits(b)])
    {
      lockedMap[i] := b;
      assert BitSets(lockedMap[..]) == old(View()).locked[i := Bits(b)];
    }

    /** nbr_table_lock. It does not look whether the table uses the item; when it does, all stays well. */
    method LockItem(t: nat, item: Option<int>, ghost i: int) returns (ret: bool)
      requires Valid() && t < |tables| && IsItem(t, item, i)
      modifies lockedMap
      ensures ret <==> item.Some?
      ensures View() == if i == -1 then old(View()) else Lock(old(View()), t, i)
      ensures i == -1 || t in old(View()).used[i] ==> Valid()
    {
      hide Inv;
      ghost var s := View();
      var index := IndexOf(t, item, i);
      if index == -1 {
        return false;
      }
      LockingKeepsInv(s, t, i);
      BitmapUpdates(lockedMap[index], t);
      SetLocked(index, lockedMap[index] | Mask(t));
      assert View() == Lock(s, t, i);
      return true;
    }

    /** nbr_table_unlock */
    method UnlockItem(t: nat, item: Option<int>, ghost i: int) returns (ret: bool)
      requires Valid() && t < |tables| && IsItem(t, item, i)
      modifies lockedMap
      ensures Valid() && (ret <==> item.Some?)
      ensures View() == if i == -1 then old(View()) else Unlock(old(View()), t, i)
    {
      var index := IndexOf(t, item, i);
      if index == -1 {
        return false;
      }
      LockingKeepsInv(View(), t, i);
      SetLocked(index, lockedMap[index] & !Mask(t));
      BitmapUpdates(old(lockedMap[i]), t);
      return true;
    }

    /** The last lines of nbr_table_add_lladdr: zero the item, set its used bit. */
    method EnterItem(t: nat, index: nat)
      requires usedMap.Length == items.Length1 && items.Length0 == |tables| <= MAX_TABLES && addr as object != usedMap
      requires usedMap != lockedMap && addr as object != lockedMap
      requires t < |tables| && index < usedMap.Length && Shape(View())
      modifies usedMap, items
      ensures View() == Enter(old(View()), t, index)
    {
      ZeroItem(t, index);
      BitmapUpdates(usedMap[index], t);
      usedMap[index] := usedMap[index] | Mask(t);
      assert BitSets(usedMap[..]) == Enter(old(View()), t, index).used;
    }

    /** memset of the item */
    method ZeroItem(t: nat, index: nat)
      requires t < items.Length0 && index < items.Length1
      modifies items
      ensures Rows(items) == old(Rows(items))[t := old(Rows(items))[t][index := ZEROED]]
    {
      items[t, index] := ZEROED;
      ghost var rows := old(Rows(items))[t := old(Rows(items))[t][index := ZEROED]];
      forall u | 0 <= u < items.Length0 ensures Rows(items)[u] == rows[u] {
      }
    }

    /** nbr_table_add_lladdr */
    method AddLladdr(t: nat, lladdr: Option<LinkAddr>) returns (item: Option<int>, ghost slot: nat)
      requires Valid() && t < |tables|
      modifies this`keys, this`alloc, this`calls, addr, usedMap, lockedMap, items
      ensures SlotFree(old(View()), slot)
      ensures View() == Add(old(View()), t, AddrOf(lladdr), slot).s && Valid()
      ensures item == match Add(old(View()), t, AddrOf(lladdr), slot).index case Some(i) => Item(t, i) case None => None
      ensures var r := Add(old(View()), t, AddrOf(lladdr), slot);
              calls == old(calls) + CallsFor(r.called, if r.index.Some? then r.index.value else 0)
    {
      hide Listed;
      AnyAddKeepsInv(View(), t, AddrOf(lladdr));
      var index;
      index, slot := IndexFor(AddrOf(lladdr));
      if index == -1 {
        return None, slot;
      }
      EnterItem(t, index);
      item := ItemFromIndex(tables[t], index);
    }

    /** The neighbour listed under an address, or else a new one. */
    method IndexFor(a: LinkAddr) returns (index: int, ghost slot: nat)
      requires Valid()
      modifies this`keys, this`alloc, this`calls, addr, usedMap, lockedMap
      ensures SlotFree(old(View()), slot)
      ensures var r := Listed(old(View()), a, slot);
              && View() == r.s && index == (if r.index.Some? then r.index.value else -1)
              && calls == old(calls) + CallsFor(r.called, if r.index.Some? then r.index.value else 0)
    {
      index := IndexFromLladdr(a);
      slot := AnySlot(View());
      assert calls + CallsFor([], 0) == calls == calls + CallsFor([], if index == -1 then 0 else index);
      if index == -1 {
        index, slot := ListNew(a);
      }
    }

    /** An address not in the list gets a neighbour at its end, if there is one to be had. */
    method ListNew(a: LinkAddr) returns (index: int, ghost slot: nat)
      requires Valid() && Find(View(), a) == None
      modifies this`keys, this`alloc, this`calls, addr, usedMap, lockedMap
      ensures SlotFree(old(View()), slot)
      ensures match Allocate(old(View()), slot)
              case Allocated(s1, None, called) => index == -1 && View() == old(View()) && calls == old(calls)
              case Allocated(s1, Some(k), called) =>
                && index == k < addr.Length && View() == s1.(keys := s1.keys + [k], addr := old(addr[..])[k := a])
                && calls == old(calls) + CallsFor(called, k)
    {
      var key;
      ghost var s := View();
      key, slot := AllocateKey();
      if key == None {
        return -1, slot;
      }
      KeysStayInPool(s, slot);
      keys := keys + [key.value];
      index := key.value;
      addr[index] := a;
    }
  }

  ghost function Rows(items: array2<Value>): (r: seq<seq<Value>>)
    reads items
    ensures |r| == items.Length0
    ensures forall t :: 0 <= t < |r| ==> |r[t]| == items.Length1
    ensures forall t, i :: 0 <= t < |r| && 0 <= i < items.Length1 ==> r[t][i] == items[t, i]
  {
    seq(items.Length0, t requires 0 <= t < items.Length0 reads items =>
      seq(items.Length1, i requires 0 <= i < items.Length1 reads items => items[t, i]))
  }

  lemma RemoveKeyAt(ks: seq<nat>, k: nat, i: nat)
    requires i < |ks|
    ensures ks[..i] + RemoveKey(ks[i..], k) ==
            if ks[i] == k then ks[..i] + ks[i + 1..] else ks[..i + 1] + RemoveKey(ks[i + 1..], k)
  {
    assert ks[i..][1..] == ks[i + 1..] && ks[..i + 1] == ks[..i] + [ks[i]];
  }

  function BitSets(m: seq<bv8>): (r: seq<set<nat>>)
    ensures |r| == |m| && forall i :: 0 <= i < |m| ==> r[i] == Bits(m[i])
  {
    seq(|m|, i requires 0 <= i < |m| => Bits(m[i]))
  }

  lemma AnyAddKeepsInv(s: State, t: nat, a: LinkAddr)
    requires Inv(s) && t < |s.items|
    ensures forall slot: nat :: SlotFree(s, slot) ==> Inv(Add(s, t, a, slot).s)
  {
    forall slot: nat | SlotFree(s, slot) ensures Inv(Add(s, t, a, slot).s) {
      AddRefines(s, t, a, slot);
    }
  }

  /** A slot the pool could hand out. */
  lemma AnySlot(s: State) returns (slot: nat)
    requires Inv(s)
    ensures SlotFree(s, slot)
  {
    slot := 0;
    if |s.alloc| < |s.addr| { slot := Pools.FreeElement(s.alloc, |s.addr|); }
  }

  lemma NoBits(b: bv8)
    ensures Bits(b) == {} <==> b == 0
  {
    assert b == 0 || HasBit(b, 0) || HasBit(b, 1) || HasBit(b, 2) || HasBit(b, 3)
           || HasBit(b, 4) || HasBit(b, 5) || HasBit(b, 6) || HasBit(b, 7);
  }
}
