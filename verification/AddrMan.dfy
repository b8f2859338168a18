/**
The address manager (src/addrman.cpp, src/addrman.h): known peers, indexed five ways. The keyed
hashes that choose buckets and positions are the parameter `Keyed`; clocks and random draws are
arguments. Tables are maps from occupied slots: a missing slot is the source's -1.
*/
module AddrMan {
  import opened Wrappers
  import opened Numbers

  type Ip = nat

  datatype Service = Service(ip: Ip, port: nat)

  /** An address as gossiped: where, when last seen, and which services. */
  datatype Address = Address(service: Service, time: int, services: set<nat>)

  datatype Info = Info(
    service: Service, time: int, services: set<nat>, source: Ip, lastSuccess: int, lastTry: int,
    lastCountAttempt: int, attempts: int, refCount: int, inTried: bool, randomPos: int)

  /** Bucket and position in it. */
  type Slot = (nat, nat)

  const TRIED_BUCKET_COUNT := 256
  const NEW_BUCKET_COUNT := 1024
  const BUCKET_SIZE := 64
  const NEW_BUCKETS_PER_ADDRESS := 8

  /** The hashes under the manager's secret key, before reduction to a table size. */
  datatype Keyed = Keyed(tried: Service -> nat, unknown: (Ip, Ip) -> nat, position: (bool, nat, Service) -> nat)

  function TriedBucket(h: Keyed, s: Service): (b: nat)
    ensures b < TRIED_BUCKET_COUNT && (h.tried(s) < 256 ==> b == h.tried(s))
  {
    h.tried(s) % 256
  }

  function NewBucket(h: Keyed, ip: Ip, source: Ip): (b: nat)
    ensures b < NEW_BUCKET_COUNT && (h.unknown(ip, source) < 1024 ==> b == h.unknown(ip, source))
  {
    h.unknown(ip, source) % 1024
  }

  function Position(h: Keyed, isNew: bool, bucket: nat, s: Service): (p: nat)
    ensures p < BUCKET_SIZE && (h.position(isNew, bucket, s) < 64 ==> p == h.position(isNew, bucket, s))
  {
    h.position(isNew, bucket, s) % 64
  }

  function TriedSlot(h: Keyed, s: Service): Slot {
    (TriedBucket(h, s), Position(h, false, TriedBucket(h, s), s))
  }

  /** The only slot of a "new" bucket that an address can occupy. */
  function NewSlot(h: Keyed, bucket: nat, s: Service): Slot {
    (bucket, Position(h, true, bucket, s))
  }

  datatype Man = Man(
    idCount: int, info: map<int, Info>, addr: map<Ip, int>, random: seq<int>,
    nTried: int, vvTried: map<Slot, int>, nNew: int, vvNew: map<Slot, int>, lastGood: int)

  const Cleared := Man(0, map[], map[], [], 0, map[], 0, map[], 1)

  // ---------------------------------------------------------------- the Check_ invariant

  ghost function NewIds(info: map<int, Info>): set<int> { set id | id in info && !info[id].inTried }
  ghost function TriedIds(info: map<int, Info>): set<int> { set id | id in info && info[id].inTried }

  /** How far nNew and nTried are from counting the entries of each kind. */
  ghost function Slack(m: Man): (int, int) {
    (m.nNew - |NewIds(m.info)|, m.nTried - |TriedIds(m.info)|)
  }

  /** The slots of the "new" table that refer to an id. */
  ghost function Refs(table: map<Slot, int>, id: int): set<Slot> { set s | s in table && table[s] == id }

  ghost predicate Held(table: map<Slot, int>, s: Slot, id: int) {
    s in table && table[s] == id
  }

  /** vRandom position `k` holds an entry that knows its position. */
  ghost predicate RandomOk(m: Man, k: nat)
    requires k < |m.random|
  {
    m.random[k] in m.info && m.info[m.random[k]].randomPos == k
  }

  ghost predicate AddrOk(m: Man, ip: Ip)
    requires ip in m.addr
  {
    m.addr[ip] in m.info && m.info[m.addr[ip]].service.ip == ip
  }

  /** An occupied "tried" slot is the hash-determined slot of a tried entry. */
  ghost predicate TriedSlotOk(h: Keyed, m: Man, s: Slot)
    requires s in m.vvTried
  {
    var id := m.vvTried[s];
    id in m.info && m.info[id].inTried && s == TriedSlot(h, m.info[id].service)
  }

  /** An occupied "new" slot is at the hash-determined position for an entry that is not tried. */
  ghost predicate NewSlotOk(h: Keyed, m: Man, s: Slot)
    requires s in m.vvNew
  {
    var id := m.vvNew[s];
    id in m.info && !m.info[id].inTried && s.0 < NEW_BUCKET_COUNT && s == NewSlot(h, s.0, m.info[id].service)
  }

  /** What every index says about one entry; a refcount counts references and is at most 8. */
  ghost predicate EntryOk(h: Keyed, m: Man, id: int)
    requires id in m.info
  {
    var x := m.info[id];
    && 0 <= x.randomPos < |m.random| && m.random[x.randomPos] == id
    && 0 <= id < m.idCount && x.service.ip in m.addr && m.addr[x.service.ip] == id
    && x.lastTry >= 0 && x.lastSuccess >= 0
    && if x.inTried then x.refCount == 0 && x.lastSuccess > 0 && Held(m.vvTried, TriedSlot(h, x.service), id)
       else x.refCount == |Refs(m.vvNew, id)| && x.refCount <= NEW_BUCKETS_PER_ADDRESS
  }

  /** Everything but the counters, and that a "new" entry may for a moment have no reference. */
  ghost predicate Core(h: Keyed, m: Man) {
    && (forall k :: 0 <= k < |m.random| ==> RandomOk(m, k))
    && (forall ip :: ip in m.addr ==> AddrOk(m, ip))
    && (forall s :: s in m.vvTried ==> TriedSlotOk(h, m, s))
    && (forall s :: s in m.vvNew ==> NewSlotOk(h, m, s))
    && (forall id :: id in m.info ==> EntryOk(h, m, id))
    && m.idCount >= 0
  }

  ghost predicate Unreferenced(m: Man, id: int) {
    id in m.info && !m.info[id].inTried && m.info[id].refCount == 0
  }

  /** The invariant Check_ tests, between any two calls. */
  ghost predicate Inv(h: Keyed, m: Man) {
    Core(h, m) && Slack(m) == (0, 0) && forall id :: id in m.info ==> !Unreferenced(m, id)
  }

  lemma ClearedHolds(h: Keyed)
    ensures Inv(h, Cleared)
  {
  }

  /** One element of each index, whichever of them exist. */
  ghost predicate ElementsOk(h: Keyed, m: Man, k: nat, ip: Ip, s: Slot, t: Slot, id: int) {
    && (k < |m.random| ==> RandomOk(m, k))
    && (ip in m.addr ==> AddrOk(m, ip))
    && (s in m.vvTried ==> TriedSlotOk(h, m, s))
    && (t in m.vvNew ==> NewSlotOk(h, m, t))
    && (id in m.info ==> EntryOk(h, m, id))
  }

  lemma Elements(h: Keyed, m: Man, k: nat, ip: Ip, s: Slot, t: Slot, id: int)
    requires Core(h, m)
    ensures ElementsOk(h, m, k, ip, s, t, id)
  {
    hide RandomOk, AddrOk, TriedSlotOk, NewSlotOk, EntryOk;
  }

  lemma CoreFrom(h: Keyed, m: Man)
    requires m.idCount >= 0
    requires forall k: nat, ip: Ip, s: Slot, t: Slot, id: int :: ElementsOk(h, m, k, ip, s, t, id)
    ensures Core(h, m)
  {
    hide RandomOk, AddrOk, TriedSlotOk, NewSlotOk, EntryOk;
    var z := (0, 0);
    forall k: nat | k < |m.random| ensures RandomOk(m, k) { assert ElementsOk(h, m, k, 0, z, z, 0); }
    forall ip: Ip | ip in m.addr ensures AddrOk(m, ip) { assert ElementsOk(h, m, 0, ip, z, z, 0); }
    forall s: Slot | s in m.vvTried ensures TriedSlotOk(h, m, s) { assert ElementsOk(h, m, 0, 0, s, z, 0); }
    forall s: Slot | s in m.vvNew ensures NewSlotOk(h, m, s) { assert ElementsOk(h, m, 0, 0, z, s, 0); }
    forall id | id in m.info ensures EntryOk(h, m, id) { assert ElementsOk(h, m, 0, 0, z, z, id); }
  }

  lemma AtId(h: Keyed, m: Man, id: int)
    requires Core(h, m) && id in m.info
    ensures EntryOk(h, m, id)
  {
    hide RandomOk, AddrOk, TriedSlotOk, NewSlotOk, EntryOk;
  }

  lemma AtCount(h: Keyed, m: Man)
    requires Core(h, m)
    ensures m.idCount >= 0
  {
    hide RandomOk, AddrOk, TriedSlotOk, NewSlotOk, EntryOk;
  }

  // ---------------------------------------------------------------- vRandom lists every entry once

  ghost predicate Distinct(ids: seq<int>) {
    forall i, j :: 0 <= i < j < |ids| ==> ids[i] != ids[j]
  }

  lemma {:induction false} DistinctCount(ids: seq<int>)
    requires Distinct(ids)
    ensures |set id | id in ids| == |ids|
  {
    if ids != [] {
      var rest := ids[..|ids| - 1];
      DistinctCount(rest);
      assert (set id | id in ids) == (set id | id in rest) + {ids[|ids| - 1]};
    }
  }

  lemma RandomSet(h: Keyed, m: Man)
    requires Core(h, m)
    ensures Distinct(m.random) && forall id :: id in m.random <==> id in m.info
  {
    forall i, j | 0 <= i < j < |m.random| ensures m.random[i] != m.random[j] {
      assert RandomOk(m, i) && RandomOk(m, j);
    }
    forall k | 0 <= k < |m.random| ensures m.random[k] in m.info { assert RandomOk(m, k); }
    forall id | id in m.info ensures id in m.random { assert EntryOk(h, m, id); }
  }

  lemma RandomCount(h: Keyed, m: Man)
    requires Inv(h, m)
    ensures |m.random| == m.nTried + m.nNew
  {
    hide Core;
    RandomSet(h, m);
    DistinctCount(m.random);
    assert (set id | id in m.random) == NewIds(m.info) + TriedIds(m.info);
  }

  // ---------------------------------------------------------------- updating one entry in place

  /** The fields other indexes depend on are unchanged. */
  predicate SameIndexes(a: Info, b: Info) {
    a.service == b.service && a.refCount == b.refCount && a.inTried == b.inTried && a.randomPos == b.randomPos
  }

  function WithInfo(m: Man, id: int, x: Info): Man { m.(info := m.info[id := x]) }

  lemma WithInfoAt(h: Keyed, m: Man, id: int, x: Info, k: nat, ip: Ip, s: Slot, t: Slot, i: int)
    requires Core(h, m) && id in m.info && SameIndexes(m.info[id], x)
    requires x.lastTry >= 0 && x.lastSuccess >= 0 && (x.inTried ==> x.lastSuccess > 0)
    ensures ElementsOk(h, WithInfo(m, id, x), k, ip, s, t, i)
  {
    hide Core, TriedSlot, NewSlot, Held, Refs;
    Elements(h, m, k, ip, s, t, i);
  }

  lemma WithInfoKeeps(h: Keyed, m: Man, id: int, x: Info)
    requires Core(h, m) && id in m.info && SameIndexes(m.info[id], x)
    requires x.lastTry >= 0 && x.lastSuccess >= 0 && (x.inTried ==> x.lastSuccess > 0)
    ensures Core(h, WithInfo(m, id, x))
    ensures forall i :: i in m.info ==> (Unreferenced(WithInfo(m, id, x), i) <==> Unreferenced(m, i))
    ensures Slack(WithInfo(m, id, x)) == Slack(m)
  {
    var m' := WithInfo(m, id, x);
    assert NewIds(m'.info) == NewIds(m.info) && TriedIds(m'.info) == TriedIds(m.info);
    hide Core, ElementsOk, NewIds, TriedIds;
    AtCount(h, m);
    forall k: nat, ip: Ip, s: Slot, t: Slot, i: int ensures ElementsOk(h, m', k, ip, s, t, i) {
      WithInfoAt(h, m, id, x, k, ip, s, t, i);
    }
    CoreFrom(h, m');
  }

  // ---------------------------------------------------------------- references from new buckets

  /** Drop the reference in an occupied slot. */
  function RemoveRef(m: Man, slot: Slot): Man
    requires slot in m.vvNew && m.vvNew[slot] in m.info
  {
    var id := m.vvNew[slot];
    m.(vvNew := m.vvNew - {slot}, info := m.info[id := m.info[id].(refCount := m.info[id].refCount - 1)])
  }

  lemma RefsRemove(table: map<Slot, int>, slot: Slot, id: int)
    requires slot in table
    ensures |Refs(table - {slot}, id)| == |Refs(table, id)| - if table[slot] == id then 1 else 0
  {
    if table[slot] == id {
      assert Refs(table, id) == Refs(table - {slot}, id) + {slot};
    } else {
      assert Refs(table, id) == Refs(table - {slot}, id);
    }
  }

  lemma RemoveRefAt(h: Keyed, m: Man, slot: Slot, k: nat, ip: Ip, s: Slot, t: Slot, i: int)
    requires Core(h, m) && slot in m.vvNew && m.vvNew[slot] in m.info && !m.info[m.vvNew[slot]].inTried
    ensures ElementsOk(h, RemoveRef(m, slot), k, ip, s, t, i)
  {
    hide Core, TriedSlot, NewSlot, Held, Refs;
    Elements(h, m, k, ip, s, t, i);
    RefsRemove(m.vvNew, slot, i);
  }

  lemma RemoveRefKeeps(h: Keyed, m: Man, slot: Slot)
    requires Core(h, m) && slot in m.vvNew
    ensures m.vvNew[slot] in m.info && !m.info[m.vvNew[slot]].inTried && m.info[m.vvNew[slot]].refCount >= 1
    ensures Core(h, RemoveRef(m, slot))
    ensures forall i :: i in m.info && i != m.vvNew[slot] ==>
      (Unreferenced(RemoveRef(m, slot), i) <==> Unreferenced(m, i))
    ensures Slack(RemoveRef(m, slot)) == Slack(m)
  {
    var id := m.vvNew[slot];
    hide Core, NewIds, TriedIds, Refs, TriedSlot, NewSlot, Held;
    Elements(h, m, 0, 0, slot, slot, id);
    var m' := RemoveRef(m, slot);
    SameIds(m.info, id, m'.info[id]);
    RefsRemove(m.vvNew, slot, id);
    hide ElementsOk;
    AtCount(h, m);
    forall k: nat, ip: Ip, s: Slot, t: Slot, i: int ensures ElementsOk(h, m', k, ip, s, t, i) {
      RemoveRefAt(h, m, slot, k, ip, s, t, i);
    }
    CoreFrom(h, m');
  }

  lemma SameIds(info: map<int, Info>, id: int, x: Info)
    requires id in info && info[id].inTried == x.inTried
    ensures NewIds(info[id := x]) == NewIds(info) && TriedIds(info[id := x]) == TriedIds(info)
  {
  }

  /** Give an entry a reference in an empty slot. */
  function AddRef(m: Man, slot: Slot, id: int): Man
    requires id in m.info
  {
    m.(vvNew := m.vvNew[slot := id], info := m.info[id := m.info[id].(refCount := m.info[id].refCount + 1)])
  }

  lemma RefsPut(table: map<Slot, int>, slot: Slot, id: int, i: int)
    requires slot !in table
    ensures |Refs(table[slot := id], i)| == |Refs(table, i)| + if i == id then 1 else 0
  {
    if i == id {
      assert Refs(table[slot := id], i) == Refs(table, i) + {slot};
    } else {
      assert Refs(table[slot := id], i) == Refs(table, i);
    }
  }

  ghost predicate MayRefer(h: Keyed, m: Man, slot: Slot, id: int) {
    && id in m.info && !m.info[id].inTried && m.info[id].refCount < NEW_BUCKETS_PER_ADDRESS
    && slot !in m.vvNew && slot.0 < NEW_BUCKET_COUNT && slot == NewSlot(h, slot.0, m.info[id].service)
  }

  lemma AddRefAt(h: Keyed, m: Man, slot: Slot, id: int, k: nat, ip: Ip, s: Slot, t: Slot, i: int)
    requires Core(h, m) && MayRefer(h, m, slot, id)
    ensures ElementsOk(h, AddRef(m, slot, id), k, ip, s, t, i)
  {
    hide Core, TriedSlot, NewSlot, Held, Refs;
    Elements(h, m, k, ip, s, t, i);
    RefsPut(m.vvNew, slot, id, i);
  }

  lemma AddRefKeeps(h: Keyed, m: Man, slot: Slot, id: int)
    requires Core(h, m) && MayRefer(h, m, slot, id)
    ensures Core(h, AddRef(m, slot, id)) && !Unreferenced(AddRef(m, slot, id), id)
    ensures forall i :: i in m.info && i != id ==> (Unreferenced(AddRef(m, slot, id), i) <==> Unreferenced(m, i))
    ensures Slack(AddRef(m, slot, id)) == Slack(m)
  {
    var m' := AddRef(m, slot, id);
    hide Core, NewIds, TriedIds, Refs, TriedSlot, NewSlot, Held;
    Elements(h, m, 0, 0, slot, slot, id);
    SameIds(m.info, id, m'.info[id]);
    AtCount(h, m);
    hide ElementsOk;
    forall k: nat, ip: Ip, s: Slot, t: Slot, i: int ensures ElementsOk(h, m', k, ip, s, t, i) {
      AddRefAt(h, m, slot, id, k, ip, s, t, i);
    }
    CoreFrom(h, m');
  }

  lemma NoRefs(table: map<Slot, int>, id: int, t: Slot)
    ensures |Refs(table, id)| == 0 && t in table ==> table[t] != id
  {
    if t in table && table[t] == id { assert t in Refs(table, id); }
  }

  /** An id that is unknown, or tried, is in no "new" slot. */
  lemma RefsOfOthers(h: Keyed, m: Man, id: int)
    requires Core(h, m) && (id in m.info ==> m.info[id].inTried)
    ensures Refs(m.vvNew, id) == {}
  {
    forall t | t in m.vvNew ensures m.vvNew[t] != id {
      hide Core;
      Elements(h, m, 0, 0, t, t, 0);
    }
  }

  lemma MovedIds(info: map<int, Info>, id: int, x: Info)
    ensures |NewIds(info[id := x])| ==
      |NewIds(info)| + (if x.inTried then 0 else 1) - (if id in info && !info[id].inTried then 1 else 0)
    ensures |TriedIds(info[id := x])| ==
      |TriedIds(info)| + (if x.inTried then 1 else 0) - (if id in info && info[id].inTried then 1 else 0)
  {
    MovedNew(info, id, x);
    MovedTried(info, id, x);
    hide NewIds, TriedIds;
    Without(NewIds(info), id);
    Without(TriedIds(info), id);
  }

  lemma MovedNew(info: map<int, Info>, id: int, x: Info)
    ensures NewIds(info[id := x]) == if x.inTried then NewIds(info) - {id} else NewIds(info) - {id} + {id}
    ensures id in NewIds(info) <==> id in info && !info[id].inTried
  {
    var info' := info[id := x];
    assert forall i :: i != id ==> (i in NewIds(info') <==> i in NewIds(info));
  }

  lemma MovedTried(info: map<int, Info>, id: int, x: Info)
    ensures TriedIds(info[id := x]) == if x.inTried then TriedIds(info) - {id} + {id} else TriedIds(info) - {id}
    ensures id in TriedIds(info) <==> id in info && info[id].inTried
  {
    var info' := info[id := x];
    assert forall i :: i != id ==> (i in TriedIds(info') <==> i in TriedIds(info));
  }

  lemma Without(s: set<int>, id: int)
    ensures |s - {id}| == |s| - if id in s then 1 else 0
    ensures |s - {id} + {id}| == |s - {id}| + 1
  {
    if id !in s { assert s - {id} == s; }
  }

  // ---------------------------------------------------------------- vRandom

  function SwapRandom(m: Man, p1: nat, p2: nat): Man
    requires p1 < |m.random| && p2 < |m.random| && m.random[p1] in m.info && m.random[p2] in m.info
  {
    if p1 == p2 then m else
      var id1, id2 := m.random[p1], m.random[p2];
      var info := m.info[id1 := m.info[id1].(randomPos := p2)];
      m.(info := info[id2 := info[id2].(randomPos := p1)], random := m.random[p1 := id2][p2 := id1])
  }

  lemma SwapRandomAt(h: Keyed, m: Man, p1: nat, p2: nat, k: nat, ip: Ip, s: Slot, t: Slot, i: int)
    requires Core(h, m) && p1 < |m.random| && p2 < |m.random| && m.random[p1] in m.info && m.random[p2] in m.info
    ensures ElementsOk(h, SwapRandom(m, p1, p2), k, ip, s, t, i)
  {
    hide Core, TriedSlot, NewSlot, Held, Refs;
    Elements(h, m, k, ip, s, t, i);
    Elements(h, m, p1, ip, s, t, m.random[p1]);
    Elements(h, m, p2, ip, s, t, m.random[p2]);
  }

  lemma SwapRandomKeeps(h: Keyed, m: Man, p1: nat, p2: nat)
    requires Core(h, m) && p1 < |m.random| && p2 < |m.random|
    ensures m.random[p1] in m.info && m.random[p2] in m.info && Core(h, SwapRandom(m, p1, p2))
    ensures forall i :: i in m.info ==> (Unreferenced(SwapRandom(m, p1, p2), i) <==> Unreferenced(m, i))
    ensures SwapRandom(m, p1, p2).info.Keys == m.info.Keys
    ensures Slack(SwapRandom(m, p1, p2)) == Slack(m)
  {
    hide Core, NewIds, TriedIds, Refs, TriedSlot, NewSlot, Held;
    Elements(h, m, p1, 0, (0, 0), (0, 0), 0);
    Elements(h, m, p2, 0, (0, 0), (0, 0), 0);
    var m' := SwapRandom(m, p1, p2);
    var id1, id2 := m.random[p1], m.random[p2];
    if p1 != p2 {
      var info := m.info[id1 := m.info[id1].(randomPos := p2)];
      SameIds(m.info, id1, info[id1]);
      SameIds(info, id2, m'.info[id2]);
    }
    hide ElementsOk;
    AtCount(h, m);
    forall k: nat, ip: Ip, s: Slot, t: Slot, i: int ensures ElementsOk(h, m', k, ip, s, t, i) {
      SwapRandomAt(h, m, p1, p2, k, ip, s, t, i);
    }
    CoreFrom(h, m');
  }

  // ---------------------------------------------------------------- creating and deleting entries

  function NewInfo(a: Address, source: Ip, pos: nat): Info {
    Info(a.service, a.time, a.services, source, 0, 0, 0, 0, 0, false, pos)
  }

  /** Create, with the nNew++ that follows it. */
  function Create(m: Man, a: Address, source: Ip): Man {
    var id := m.idCount;
    m.(idCount := id + 1, info := m.info[id := NewInfo(a, source, |m.random|)],
       addr := m.addr[a.service.ip := id], random := m.random + [id], nNew := m.nNew + 1)
  }

  lemma CreateAt(h: Keyed, m: Man, a: Address, source: Ip, k: nat, ip: Ip, s: Slot, t: Slot, i: int)
    requires Core(h, m) && m.idCount !in m.info && m.idCount >= 0 && a.service.ip !in m.addr
    requires Refs(m.vvNew, m.idCount) == {}
    ensures ElementsOk(h, Create(m, a, source), k, ip, s, t, i)
  {
    hide Core, TriedSlot, NewSlot, Held, Refs;
    Elements(h, m, k, ip, s, t, i);
  }

  lemma CreateKeeps(h: Keyed, m: Man, a: Address, source: Ip)
    requires Core(h, m) && a.service.ip !in m.addr
    ensures m.idCount !in m.info && Core(h, Create(m, a, source)) && Unreferenced(Create(m, a, source), m.idCount)
    ensures forall i :: i in m.info ==> (Unreferenced(Create(m, a, source), i) <==> Unreferenced(m, i))
    ensures Slack(Create(m, a, source)) == Slack(m)
  {
    hide Core, Refs, TriedSlot, NewSlot, Held;
    var id := m.idCount;
    Elements(h, m, 0, 0, (0, 0), (0, 0), id);
    assert id !in m.info;
    RefsOfOthers(h, m, id);
    hide ElementsOk, NewIds, TriedIds;
    AtCount(h, m);
    var m' := Create(m, a, source);
    MovedIds(m.info, id, m'.info[id]);
    forall k: nat, ip: Ip, s: Slot, t: Slot, i: int ensures ElementsOk(h, m', k, ip, s, t, i) {
      CreateAt(h, m, a, source, k, ip, s, t, i);
    }
    CoreFrom(h, m');
  }

  /** Delete's second half: the entry is last in vRandom. */
  function DropLast(m: Man, id: int): Man
    requires id in m.info && m.random != []
  {
    m.(random := m.random[..|m.random| - 1], addr := m.addr - {m.info[id].service.ip},
       info := m.info - {id}, nNew := m.nNew - 1)
  }

  lemma DropLastAt(h: Keyed, m: Man, id: int, k: nat, ip: Ip, s: Slot, t: Slot, i: int)
    requires Core(h, m) && Unreferenced(m, id) && m.random != [] && m.info[id].randomPos == |m.random| - 1
    ensures ElementsOk(h, DropLast(m, id), k, ip, s, t, i)
  {
    hide Core, TriedSlot, NewSlot, Held, Refs;
    Elements(h, m, k, ip, s, t, i);
    Elements(h, m, k, ip, s, t, id);
    NoRefs(m.vvNew, id, t);
  }

  lemma DroppedIds(info: map<int, Info>, id: int)
    requires id in info && !info[id].inTried
    ensures |NewIds(info)| == |NewIds(info - {id})| + 1 && TriedIds(info - {id}) == TriedIds(info)
  {
    assert NewIds(info) == NewIds(info - {id}) + {id};
  }

  lemma DropLastKeeps(h: Keyed, m: Man, id: int)
    requires Core(h, m) && Unreferenced(m, id) && m.random != [] && m.info[id].randomPos == |m.random| - 1
    ensures Core(h, DropLast(m, id))
    ensures forall i :: i in m.info && i != id ==> (Unreferenced(DropLast(m, id), i) <==> Unreferenced(m, i))
    ensures Slack(DropLast(m, id)) == Slack(m)
  {
    hide Core, Refs, TriedSlot, NewSlot, Held;
    hide ElementsOk, NewIds, TriedIds;
    AtCount(h, m);
    var m' := DropLast(m, id);
    DroppedIds(m.info, id);
    forall k: nat, ip: Ip, s: Slot, t: Slot, i: int ensures ElementsOk(h, m', k, ip, s, t, i) {
      DropLastAt(h, m, id, k, ip, s, t, i);
    }
    CoreFrom(h, m');
  }

  function Delete(m: Man, id: int): Man
    requires id in m.info && 0 <= m.info[id].randomPos < |m.random| && m.random[m.info[id].randomPos] in m.info
    requires m.random[|m.random| - 1] in m.info
  {
    DropLast(SwapRandom(m, m.info[id].randomPos, |m.random| - 1), id)
  }

  /** Whether Delete's assertions and indexing are safe. */
  ghost predicate Deletable(m: Man, id: int) {
    && Unreferenced(m, id) && 0 <= m.info[id].randomPos < |m.random|
    && m.random[m.info[id].randomPos] == id && m.random[|m.random| - 1] in m.info
  }

  lemma DeleteKeeps(h: Keyed, m: Man, id: int)
    requires Core(h, m) && Unreferenced(m, id)
    ensures Deletable(m, id) && Core(h, Delete(m, id)) && Delete(m, id).info.Keys == m.info.Keys - {id}
    ensures forall i :: i in m.info && i != id ==> (Unreferenced(Delete(m, id), i) <==> Unreferenced(m, i))
    ensures Slack(Delete(m, id)) == Slack(m)
  {
    hide Core, Refs, TriedSlot, NewSlot, Held;
    AtId(h, m, id);
    var last := |m.random| - 1;
    Elements(h, m, last, 0, (0, 0), (0, 0), 0);
    SwapRandomKeeps(h, m, m.info[id].randomPos, last);
    DropLastKeeps(h, SwapRandom(m, m.info[id].randomPos, last), id);
  }

  // ---------------------------------------------------------------- between the two tables

  /** Take an entry out of its tried slot; it is "new" but has no reference yet. */
  function Demote(h: Keyed, m: Man, id: int): Man
    requires id in m.info
  {
    m.(vvTried := m.vvTried - {TriedSlot(h, m.info[id].service)}, info := m.info[id := m.info[id].(inTried := false)],
       nTried := m.nTried - 1, nNew := m.nNew + 1)
  }

  lemma DemoteAt(h: Keyed, m: Man, id: int, k: nat, ip: Ip, s: Slot, t: Slot, i: int)
    requires Core(h, m) && id in m.info && m.info[id].inTried && Refs(m.vvNew, id) == {}
    ensures ElementsOk(h, Demote(h, m, id), k, ip, s, t, i)
  {
    hide Core, TriedSlot, NewSlot, Refs;
    Elements(h, m, k, ip, s, t, i);
    Elements(h, m, k, ip, s, t, id);
    NoRefs(m.vvNew, id, t);
  }

  lemma DemoteKeeps(h: Keyed, m: Man, id: int)
    requires Core(h, m) && id in m.info && m.info[id].inTried
    ensures Core(h, Demote(h, m, id)) && Unreferenced(Demote(h, m, id), id)
    ensures forall i :: i in m.info && i != id ==> (Unreferenced(Demote(h, m, id), i) <==> Unreferenced(m, i))
    ensures Slack(Demote(h, m, id)) == Slack(m)
  {
    hide Core, Refs, TriedSlot, NewSlot, Held;
    AtCount(h, m);
    AtId(h, m, id);
    RefsOfOthers(h, m, id);
    hide ElementsOk, NewIds, TriedIds;
    var m' := Demote(h, m, id);
    MovedIds(m.info, id, m'.info[id]);
    forall k: nat, ip: Ip, s: Slot, t: Slot, i: int ensures ElementsOk(h, m', k, ip, s, t, i) {
      DemoteAt(h, m, id, k, ip, s, t, i);
    }
    CoreFrom(h, m');
  }

  /** Put an entry without references into its empty tried slot. */
  function Promote(h: Keyed, m: Man, id: int): Man
    requires id in m.info
  {
    m.(vvTried := m.vvTried[TriedSlot(h, m.info[id].service) := id], info := m.info[id := m.info[id].(inTried := true)],
       nTried := m.nTried + 1, nNew := m.nNew - 1)
  }

  lemma PromoteAt(h: Keyed, m: Man, id: int, k: nat, ip: Ip, s: Slot, t: Slot, i: int)
    requires Core(h, m) && Unreferenced(m, id) && m.info[id].lastSuccess > 0
    requires TriedSlot(h, m.info[id].service) !in m.vvTried
    ensures ElementsOk(h, Promote(h, m, id), k, ip, s, t, i)
  {
    hide Core, TriedSlot, NewSlot, Refs;
    Elements(h, m, k, ip, s, t, i);
    Elements(h, m, k, ip, s, t, id);
    NoRefs(m.vvNew, id, t);
  }

  lemma PromoteKeeps(h: Keyed, m: Man, id: int)
    requires Core(h, m) && Unreferenced(m, id) && m.info[id].lastSuccess > 0
    requires TriedSlot(h, m.info[id].service) !in m.vvTried
    ensures Core(h, Promote(h, m, id)) && !Unreferenced(Promote(h, m, id), id)
    ensures forall i :: i in m.info && i != id ==> (Unreferenced(Promote(h, m, id), i) <==> Unreferenced(m, i))
    ensures Slack(Promote(h, m, id)) == Slack(m)
  {
    hide Core, Refs, TriedSlot, NewSlot, Held;
    AtCount(h, m);
    hide ElementsOk, NewIds, TriedIds;
    var m' := Promote(h, m, id);
    MovedIds(m.info, id, m'.info[id]);
    forall k: nat, ip: Ip, s: Slot, t: Slot, i: int ensures ElementsOk(h, m', k, ip, s, t, i) {
      PromoteAt(h, m, id, k, ip, s, t, i);
    }
    CoreFrom(h, m');
  }

  // ---------------------------------------------------------------- ClearNew

  /** Empty a "new" slot, deleting the entry when that was its last reference. */
  ghost function ClearNew(h: Keyed, m: Man, slot: Slot): Man
    requires Core(h, m)
  {
    if slot !in m.vvNew then m else
      ClearNewReady(h, m, slot);
      var m1 := RemoveRef(m, slot);
      var id := m.vvNew[slot];
      if m1.info[id].refCount == 0 then Delete(m1, id) else m1
  }

  lemma ClearNewReady(h: Keyed, m: Man, slot: Slot)
    requires Core(h, m) && slot in m.vvNew
    ensures m.vvNew[slot] in m.info
    ensures var m1 := RemoveRef(m, slot);
      m1.info[m.vvNew[slot]].refCount == 0 ==> Deletable(m1, m.vvNew[slot])
  {
    hide Core, Refs, TriedSlot, NewSlot, Held, Delete;
    RemoveRefKeeps(h, m, slot);
    var m1 := RemoveRef(m, slot);
    if m1.info[m.vvNew[slot]].refCount == 0 { DeleteKeeps(h, m1, m.vvNew[slot]); }
  }

  lemma DeleteOthers(m: Man, id: int)
    requires Deletable(m, id)
    ensures var m' := Delete(m, id);
      && m'.vvNew == m.vvNew && m'.vvTried == m.vvTried && m'.info.Keys == m.info.Keys - {id}
      && m'.lastGood == m.lastGood
      && forall i :: i in m.info && i != id ==> SameButPosition(m.info[i], m'.info[i])
  {
    var last := |m.random| - 1;
    SwapRandomBehind(m, 0, m.info[id].randomPos, last);
    hide SwapRandom;
    SwapRandomTables(m, m.info[id].randomPos, last);
  }

  lemma SwapRandomTables(m: Man, p1: nat, p2: nat)
    requires p1 < |m.random| && p2 < |m.random| && m.random[p1] in m.info && m.random[p2] in m.info
    ensures var m' := SwapRandom(m, p1, p2);
      m'.vvNew == m.vvNew && m'.vvTried == m.vvTried && m'.info.Keys == m.info.Keys && m'.lastGood == m.lastGood
  {
  }

  /** ClearNew creates no unreferenced entry; those there were stay, and only one entry can disappear. */
  lemma ClearNewKeeps(h: Keyed, m: Man, slot: Slot)
    requires Core(h, m)
    ensures var m' := ClearNew(h, m, slot);
      && Core(h, m') && Slack(m') == Slack(m)
      && slot !in m'.vvNew && m'.vvNew == m.vvNew - {slot} && m'.vvTried == m.vvTried && m'.lastGood == m.lastGood
      && m'.info.Keys <= m.info.Keys && (slot !in m.vvNew ==> m' == m)
      && (forall i :: i in m.info && !(slot in m.vvNew && i == m.vvNew[slot]) ==>
            i in m'.info && SameButPosition(m.info[i], m'.info[i]))
      && (forall i :: Unreferenced(m', i) ==> Unreferenced(m, i))
      && (slot in m.vvNew ==> LosesRef(m, m', m.vvNew[slot]))
  {
    hide Core, Refs, TriedSlot, NewSlot, Held, Delete;
    if slot !in m.vvNew {
      assert m.vvNew - {slot} == m.vvNew;
    } else {
      RemoveRefKeeps(h, m, slot);
      var m1 := RemoveRef(m, slot);
      if m1.info[m.vvNew[slot]].refCount == 0 {
        DeleteKeeps(h, m1, m.vvNew[slot]);
        DeleteOthers(m1, m.vvNew[slot]);
      }
    }
  }

  /** One reference less; an entry that had no other is gone. */
  ghost predicate LosesRef(m: Man, m': Man, i: int) {
    && i in m.info && (i in m'.info <==> m.info[i].refCount != 1)
    && (i in m'.info ==>
         m'.info[i] == m.info[i].(refCount := m.info[i].refCount - 1, randomPos := m'.info[i].randomPos))
  }

  predicate SameButPosition(a: Info, b: Info) {
    b == a.(randomPos := b.randomPos)
  }

  // ---------------------------------------------------------------- MakeTried

  /** Remove an entry from all "new" buckets. */
  ghost function UnrefAll(m: Man, id: int): Man
    requires id in m.info
  {
    m.(vvNew := m.vvNew - Refs(m.vvNew, id),
       info := m.info[id := m.info[id].(refCount := m.info[id].refCount - |Refs(m.vvNew, id)|)])
  }

  lemma RefsElsewhere(table: map<Slot, int>, id: int, i: int)
    ensures Refs(table - Refs(table, id), i) == if i == id then {} else Refs(table, i)
  {
  }

  lemma UnrefAllAt(h: Keyed, m: Man, id: int, k: nat, ip: Ip, s: Slot, t: Slot, i: int)
    requires Core(h, m) && id in m.info && !m.info[id].inTried
    ensures ElementsOk(h, UnrefAll(m, id), k, ip, s, t, i)
  {
    hide Core, TriedSlot, NewSlot, Held, Refs;
    Elements(h, m, k, ip, s, t, i);
    RefsElsewhere(m.vvNew, id, i);
  }

  lemma UnrefAllKeeps(h: Keyed, m: Man, id: int)
    requires Core(h, m) && id in m.info && !m.info[id].inTried
    ensures Core(h, UnrefAll(m, id)) && Unreferenced(UnrefAll(m, id), id) && Refs(UnrefAll(m, id).vvNew, id) == {}
    ensures forall i :: i in m.info && i != id ==> (Unreferenced(UnrefAll(m, id), i) <==> Unreferenced(m, i))
    ensures Slack(UnrefAll(m, id)) == Slack(m)
  {
    hide Core, NewIds, TriedIds, Refs, TriedSlot, NewSlot, Held;
    AtId(h, m, id);
    AtCount(h, m);
    var m' := UnrefAll(m, id);
    RefsElsewhere(m.vvNew, id, id);
    SameIds(m.info, id, m'.info[id]);
    hide ElementsOk;
    forall k: nat, ip: Ip, s: Slot, t: Slot, i: int ensures ElementsOk(h, m', k, ip, s, t, i) {
      UnrefAllAt(h, m, id, k, ip, s, t, i);
    }
    CoreFrom(h, m');
  }

  /** The "new" slot an entry belongs to by its own source. */
  function HomeSlot(h: Keyed, x: Info): Slot {
    NewSlot(h, NewBucket(h, x.service.ip, x.source), x.service)
  }

  /** Move a tried entry back to the "new" table, clearing its place there. */
  ghost function Evict(h: Keyed, m: Man, id: int): Man
    requires Core(h, m) && id in m.info && m.info[id].inTried
  {
    DemoteKeeps(h, m, id);
    var m1 := Demote(h, m, id);
    var slot := HomeSlot(h, m.info[id]);
    ClearNewKeeps(h, m1, slot);
    UntouchedByClear(h, m1, slot, id);
    AddRef(ClearNew(h, m1, slot), slot, id)
  }

  /** An entry without references survives ClearNew. */
  lemma UntouchedByClear(h: Keyed, m: Man, slot: Slot, id: int)
    requires Core(h, m) && Unreferenced(m, id)
    ensures !(slot in m.vvNew && id == m.vvNew[slot])
    ensures id in ClearNew(h, m, slot).info && SameButPosition(m.info[id], ClearNew(h, m, slot).info[id])
  {
    hide Core, ClearNew, Refs;
    AtId(h, m, id);
    NoRefs(m.vvNew, id, slot);
    ClearNewKeeps(h, m, slot);
  }

  lemma EvictKeeps(h: Keyed, m: Man, id: int, other: int)
    requires Core(h, m) && id in m.info && m.info[id].inTried && Unreferenced(m, other)
    ensures var m' := Evict(h, m, id);
      && Core(h, m') && Slack(m') == Slack(m) && m'.vvTried == m.vvTried - {TriedSlot(h, m.info[id].service)}
      && m'.lastGood == m.lastGood
      && Unreferenced(m', other) && SameButPosition(m.info[other], m'.info[other])
      && BackInNew(h, m.info[id], m', id)
      && (forall i :: Unreferenced(m', i) ==> Unreferenced(m, i))
      && (forall i :: i in m.info && i != id && !Held(m.vvNew, HomeSlot(h, m.info[id]), i) ==>
            i in m'.info && SameButPosition(m.info[i], m'.info[i]))
  {
    hide Core, ClearNew, Refs, TriedSlot, NewSlot;
    DemoteKeeps(h, m, id);
    var m1 := Demote(h, m, id);
    var slot := HomeSlot(h, m.info[id]);
    AtId(h, m, id);
    ClearNewKeeps(h, m1, slot);
    UntouchedByClear(h, m1, slot, id);
    UntouchedByClear(h, m1, slot, other);
    var m2 := ClearNew(h, m1, slot);
    HomeSlotIsNew(h, m.info[id]);
    assert MayRefer(h, m2, slot, id);
    AddRefKeeps(h, m2, slot, id);
  }

  lemma HomeSlotIsNew(h: Keyed, x: Info)
    ensures HomeSlot(h, x).0 < NEW_BUCKET_COUNT && HomeSlot(h, x) == NewSlot(h, HomeSlot(h, x).0, x.service)
  {
  }

  /** Free the tried slot of an entry that is about to move there. */
  ghost function Vacate(h: Keyed, m: Man, id: int): Man
    requires Core(h, m) && id in m.info
  {
    var slot := TriedSlot(h, m.info[id].service);
    if slot in m.vvTried then
      Elements(h, m, 0, 0, slot, slot, 0);
      Evict(h, m, m.vvTried[slot])
    else m
  }

  lemma VacateKeeps(h: Keyed, m: Man, id: int)
    requires Core(h, m) && Unreferenced(m, id)
    ensures var m' := Vacate(h, m, id);
      var slot := TriedSlot(h, m.info[id].service);
      && Core(h, m') && Slack(m') == Slack(m) && m'.vvTried == m.vvTried - {slot} && m'.lastGood == m.lastGood
      && Unreferenced(m', id) && SameButPosition(m.info[id], m'.info[id])
      && (forall i :: Unreferenced(m', i) ==> Unreferenced(m, i))
      && (slot in m.vvTried ==> m.vvTried[slot] != id && SentBack(h, m, m', slot))
      && (forall i :: i in m.info && !Disturbed(h, m, id, i) ==> i in m'.info && SameButPosition(m.info[i], m'.info[i]))
  {
    hide Core, Refs, TriedSlot, NewSlot, Held, Evict, HomeSlot;
    var slot := TriedSlot(h, m.info[id].service);
    if slot in m.vvTried {
      Elements(h, m, 0, 0, slot, slot, 0);
      EvictKeeps(h, m, m.vvTried[slot], id);
    } else {
      assert m.vvTried - {slot} == m.vvTried;
    }
  }

  /** Moving an entry to its tried slot may touch who is there and who is in that one's home slot. */
  ghost predicate Disturbed(h: Keyed, m: Man, id: int, i: int)
    requires id in m.info
  {
    var slot := TriedSlot(h, m.info[id].service);
    && slot in m.vvTried && m.vvTried[slot] in m.info
    && (i == m.vvTried[slot] || Held(m.vvNew, HomeSlot(h, m.info[m.vvTried[slot]]), i))
  }

  /** An entry that was tried has one reference, in the slot where its own source would have put it. */
  ghost predicate BackInNew(h: Keyed, x: Info, m: Man, id: int) {
    && id in m.info && m.info[id] == x.(inTried := false, refCount := 1, randomPos := m.info[id].randomPos)
    && Held(m.vvNew, NewSlot(h, NewBucket(h, x.service.ip, x.source), x.service), id)
  }

  ghost predicate SentBack(h: Keyed, m: Man, m': Man, slot: Slot)
    requires slot in m.vvTried
  {
    m.vvTried[slot] in m.info && BackInNew(h, m.info[m.vvTried[slot]], m', m.vvTried[slot])
  }

  ghost function MakeTried(h: Keyed, m: Man, id: int): Man
    requires Core(h, m) && id in m.info && !m.info[id].inTried
  {
    UnrefAllKeeps(h, m, id);
    VacateKeeps(h, UnrefAll(m, id), id);
    Promote(h, Vacate(h, UnrefAll(m, id), id), id)
  }

  lemma UnrefAllDisturbs(h: Keyed, m: Man, id: int)
    requires Core(h, m) && id in m.info && !m.info[id].inTried
    ensures forall i :: Disturbed(h, UnrefAll(m, id), id, i) ==> Disturbed(h, m, id, i)
  {
    hide Core, TriedSlot, HomeSlot, Refs;
    var slot := TriedSlot(h, m.info[id].service);
    if slot in m.vvTried { Elements(h, m, 0, 0, slot, slot, 0); }
  }

  /** The entry moves to its tried slot; whoever was there goes back to its home slot in the "new" table. */
  lemma MakeTriedKeeps(h: Keyed, m: Man, id: int)
    requires Inv(h, m) && id in m.info && !m.info[id].inTried && m.info[id].lastSuccess > 0
    ensures var m' := MakeTried(h, m, id);
      var slot := TriedSlot(h, m.info[id].service);
      && Inv(h, m') && id in m'.info && m'.info[id].inTried && m'.info[id].service == m.info[id].service
      && m'.vvTried == m.vvTried[slot := id]
      && (slot in m.vvTried ==> SentBack(h, m, m', slot)) && m'.lastGood == m.lastGood
      && (forall i :: i in m.info && i != id && !Disturbed(h, m, id, i) ==>
           i in m'.info && SameButPosition(m.info[i], m'.info[i]))
  {
    hide Core, Refs, TriedSlot, Vacate, HomeSlot;
    UnrefAllKeeps(h, m, id);
    var m1 := UnrefAll(m, id);
    VacateKeeps(h, m1, id);
    var m2 := Vacate(h, m1, id);
    PromoteKeeps(h, m2, id);
    assert (m.vvTried - {TriedSlot(h, m.info[id].service)})[TriedSlot(h, m.info[id].service) := id] ==
      m.vvTried[TriedSlot(h, m.info[id].service) := id];
    UnrefAllDisturbs(h, m, id);
    forall i | i in MakeTried(h, m, id).info ensures !Unreferenced(MakeTried(h, m, id), i) {
      assert Unreferenced(m2, i) ==> Unreferenced(m1, i);
      assert i != id && Unreferenced(m1, i) ==> Unreferenced(m, i);
    }
  }

  // MakeTried lowers nNew before it makes room, not when it moves the entry. Nothing in between looks at nNew.

  function Lowered(m: Man): Man { m.(nNew := m.nNew - 1) }

  lemma LoweredKeeps(h: Keyed, m: Man)
    requires Core(h, m)
    ensures Core(h, Lowered(m))
  {
    hide TriedSlot, NewSlot, Refs, Held;
    var m' := Lowered(m);
    forall k: nat, ip: Ip, s: Slot, t: Slot, i: int ensures ElementsOk(h, m', k, ip, s, t, i) {
      hide Core;
      Elements(h, m, k, ip, s, t, i);
    }
    AtCount(h, m);
    CoreFrom(h, m');
  }

  lemma DeleteLowered(m: Man, id: int)
    requires Deletable(m, id)
    ensures Deletable(Lowered(m), id) && Delete(Lowered(m), id) == Lowered(Delete(m, id))
  {
  }

  lemma RefsLowered(m: Man, slot: Slot, id: int)
    ensures slot in m.vvNew && m.vvNew[slot] in m.info ==> RemoveRef(Lowered(m), slot) == Lowered(RemoveRef(m, slot))
    ensures id in m.info ==> AddRef(Lowered(m), slot, id) == Lowered(AddRef(m, slot, id))
  {
  }

  lemma ClearNewLowered(h: Keyed, m: Man, slot: Slot)
    requires Core(h, m)
    ensures Core(h, Lowered(m)) && ClearNew(h, Lowered(m), slot) == Lowered(ClearNew(h, m, slot))
  {
    LoweredKeeps(h, m);
    hide Core, Delete, RemoveRef;
    if slot in m.vvNew {
      ClearNewReady(h, m, slot);
      RefsLowered(m, slot, 0);
      var m1 := RemoveRef(m, slot);
      if m1.info[m.vvNew[slot]].refCount == 0 { DeleteLowered(m1, m.vvNew[slot]); }
    }
  }

  lemma DemoteLowered(h: Keyed, m: Man, id: int)
    requires id in m.info
    ensures Demote(h, Lowered(m), id) == Lowered(Demote(h, m, id))
  {
  }

  lemma EvictLowered(h: Keyed, m: Man, id: int)
    requires Core(h, m) && id in m.info && m.info[id].inTried
    ensures Core(h, Lowered(m)) && Evict(h, Lowered(m), id) == Lowered(Evict(h, m, id))
  {
    LoweredKeeps(h, m);
    hide Core, ClearNew, HomeSlot, TriedSlot, Demote, AddRef;
    DemoteKeeps(h, m, id);
    DemoteLowered(h, m, id);
    var m1 := Demote(h, m, id);
    var slot := HomeSlot(h, m.info[id]);
    ClearNewLowered(h, m1, slot);
    UntouchedByClear(h, m1, slot, id);
    RefsLowered(ClearNew(h, m1, slot), slot, id);
  }

  lemma VacateLowered(h: Keyed, m: Man, id: int)
    requires Core(h, m) && id in m.info
    ensures Core(h, Lowered(m)) && Vacate(h, Lowered(m), id) == Lowered(Vacate(h, m, id))
  {
    LoweredKeeps(h, m);
    hide Core, Evict, TriedSlot;
    var slot := TriedSlot(h, m.info[id].service);
    if slot in m.vvTried {
      Elements(h, m, 0, 0, slot, slot, 0);
      EvictLowered(h, m, m.vvTried[slot]);
    }
  }

  // ---------------------------------------------------------------- the public operations

  /** Find by address, then demand the same port. */
  function FindExact(m: Man, s: Service): Option<int> {
    if s.ip in m.addr && m.addr[s.ip] in m.info && m.info[m.addr[s.ip]].service == s then Some(m.addr[s.ip]) else None
  }

  /** Good_: record the success and move the entry to the tried table. */
  ghost function Good(h: Keyed, m: Man, s: Service, time: int): Man
    requires Inv(h, m) && time > 0
  {
    var m0 := m.(lastGood := time);
    match FindExact(m, s)
    case None => m0
    case Some(id) =>
      var x := m.info[id].(lastSuccess := time, lastTry := time, attempts := 0);
      LastGoodKeeps(h, m, time);
      WithInfoKeeps(h, m0, id, x);
      if x.inTried then WithInfo(m0, id, x) else MakeTried(h, WithInfo(m0, id, x), id)
  }

  lemma LastGoodKeeps(h: Keyed, m: Man, time: int)
    requires Core(h, m)
    ensures Core(h, m.(lastGood := time)) && Slack(m.(lastGood := time)) == Slack(m)
  {
    hide TriedSlot, NewSlot, Refs, Held, NewIds, TriedIds;
    var m' := m.(lastGood := time);
    forall k: nat, ip: Ip, s: Slot, t: Slot, i: int ensures ElementsOk(h, m', k, ip, s, t, i) {
      hide Core;
      Elements(h, m, k, ip, s, t, i);
    }
    AtCount(h, m);
    CoreFrom(h, m');
  }

  lemma GoodKeeps(h: Keyed, m: Man, s: Service, time: int)
    requires Inv(h, m) && time > 0
    ensures var m' := Good(h, m, s, time);
      Inv(h, m') && (FindExact(m, s).None? ==> m' == m.(lastGood := time))
  {
    hide Core, MakeTried, Slack, Disturbed, TriedSlot;
    LastGoodKeeps(h, m, time);
    var m0 := m.(lastGood := time);
    if FindExact(m, s).Some? {
      var id := FindExact(m, s).value;
      var x := m.info[id].(lastSuccess := time, lastTry := time, attempts := 0);
      WithInfoKeeps(h, m0, id, x);
      var m1 := WithInfo(m0, id, x);
      assert forall i :: i in m1.info ==> (Unreferenced(m0, i) <==> Unreferenced(m, i));
      if !x.inTried { MakeTriedKeeps(h, m1, id); }
    }
  }

  /** What Good_ does to the entry: the success is recorded and it is in its tried slot. */
  ghost predicate MadeGood(h: Keyed, x: Info, m': Man, id: int, time: int) {
    && id in m'.info && Held(m'.vvTried, TriedSlot(h, x.service), id)
    && m'.info[id] == x.(lastSuccess := time, lastTry := time, attempts := 0, refCount := 0, inTried := true,
                         randomPos := m'.info[id].randomPos)
  }

  /** Good_ makes the entry a tried one, and touches no other entry than those that have to make room. */
  lemma GoodMoves(h: Keyed, m: Man, s: Service, time: int)
    requires Inv(h, m) && time > 0 && FindExact(m, s).Some?
    ensures var m', id := Good(h, m, s, time), FindExact(m, s).value;
      && MadeGood(h, m.info[id], m', id, time) && m'.lastGood == time
      && (!m.info[id].inTried && TriedSlot(h, s) in m.vvTried ==> SentBack(h, m, m', TriedSlot(h, s)))
      && forall i :: i in m.info && i != id && !Disturbed(h, m, id, i) ==>
           i in m'.info && SameButPosition(m.info[i], m'.info[i])
  {
    hide Core, MakeTried, Slack, Disturbed, TriedSlot, Unreferenced;
    LastGoodKeeps(h, m, time);
    var m0, id := m.(lastGood := time), FindExact(m, s).value;
    var x := m.info[id].(lastSuccess := time, lastTry := time, attempts := 0);
    WithInfoKeeps(h, m0, id, x);
    AtId(h, m, id);
    if !x.inTried {
      GoodReady(h, m, id, x, time);
      var m1 := WithInfo(m0, id, x);
      MakeTriedKeeps(h, m1, id);
      MakeTriedInfo(h, m1, id);
    }
  }

  lemma GoodReady(h: Keyed, m: Man, id: int, x: Info, time: int)
    requires Inv(h, m) && id in m.info && !m.info[id].inTried && SameIndexes(m.info[id], x)
    requires x.source == m.info[id].source
    requires x.lastTry >= 0 && x.lastSuccess > 0
    ensures var m1 := WithInfo(m.(lastGood := time), id, x);
      Inv(h, m1) && forall i :: Disturbed(h, m1, id, i) <==> Disturbed(h, m, id, i)
  {
    hide Core, TriedSlot, HomeSlot;
    LastGoodKeeps(h, m, time);
    var m0 := m.(lastGood := time);
    WithInfoKeeps(h, m0, id, x);
    assert forall i :: i in m.info ==> (Unreferenced(m0, i) <==> Unreferenced(m, i));
    var slot := TriedSlot(h, x.service);
    if slot in m.vvTried { Elements(h, m, 0, 0, slot, slot, 0); }
  }

  lemma MakeTriedInfo(h: Keyed, m: Man, id: int)
    requires Core(h, m) && id in m.info && !m.info[id].inTried
    ensures var m' := MakeTried(h, m, id);
      id in m'.info && m'.info[id] == m.info[id].(refCount := 0, inTried := true, randomPos := m'.info[id].randomPos)
  {
    hide Core, Vacate, Refs;
    UnrefAllKeeps(h, m, id);
    VacateKeeps(h, UnrefAll(m, id), id);
  }

  /**
  Good_ looks for a "new" bucket that holds the entry, starting anywhere. One exists, so the exit for
  "no bucket found" is never taken.
  */
  lemma SomeBucketHolds(h: Keyed, m: Man, id: int)
    requires Inv(h, m) && id in m.info && !m.info[id].inTried
    ensures exists b :: 0 <= b < NEW_BUCKET_COUNT && Held(m.vvNew, NewSlot(h, b, m.info[id].service), id)
  {
    AtId(h, m, id);
    assert !Unreferenced(m, id);
    var t :| t in Refs(m.vvNew, id);
    Elements(h, m, 0, 0, t, t, id);
    hide Core;
    assert Held(m.vvNew, NewSlot(h, t.0, m.info[id].service), id);
  }

  /** Attempt_ */
  function Attempt(m: Man, s: Service, countFailure: bool, time: int): Man {
    match FindExact(m, s)
    case None => m
    case Some(id) =>
      var x := m.info[id].(lastTry := time);
      WithInfo(m, id, if countFailure && x.lastCountAttempt < m.lastGood
                      then x.(lastCountAttempt := time, attempts := x.attempts + 1) else x)
  }

  /** Connected_ */
  function Connected(m: Man, s: Service, time: int): Man {
    match FindExact(m, s)
    case None => m
    case Some(id) =>
      if time - m.info[id].time > 20 * 60 then WithInfo(m, id, m.info[id].(time := time)) else m
  }

  /** SetServices_ */
  function SetServices(m: Man, s: Service, services: set<nat>): Man {
    match FindExact(m, s)
    case None => m
    case Some(id) => WithInfo(m, id, m.info[id].(services := services))
  }

  lemma TouchKeeps(h: Keyed, m: Man, id: int, x: Info)
    requires Inv(h, m) && id in m.info && SameIndexes(m.info[id], x) && x.lastTry >= 0
    requires x.lastSuccess == m.info[id].lastSuccess
    ensures Inv(h, WithInfo(m, id, x))
  {
    AtId(h, m, id);
    hide Core;
    WithInfoKeeps(h, m, id, x);
  }

  /** The entry found for an address with its port is the only one that has them. */
  lemma FoundByService(h: Keyed, m: Man, s: Service)
    requires Inv(h, m)
    ensures forall i :: i in m.info ==> (m.info[i].service == s <==> FindExact(m, s) == Some(i))
  {
    hide Core;
    forall i | i in m.info ensures m.info[i].service == s <==> FindExact(m, s) == Some(i) { AtId(h, m, i); }
  }

  /** A change of the entry for one address and of nothing else. */
  ghost predicate OnlyEntry(m: Man, m': Man, s: Service) {
    && m' == m.(info := m'.info) && m'.info.Keys == m.info.Keys
    && forall i :: i in m.info && m.info[i].service != s ==> m'.info[i] == m.info[i]
  }

  /** A failure is counted only if something succeeded since the last that was counted. */
  lemma AttemptKeeps(h: Keyed, m: Man, s: Service, countFailure: bool, time: int)
    requires Inv(h, m) && time >= 0
    ensures var m' := Attempt(m, s, countFailure, time);
      && Inv(h, m') && OnlyEntry(m, m', s)
      && forall i :: i in m.info && m.info[i].service == s ==>
        var x, counts := m.info[i], countFailure && m.info[i].lastCountAttempt < m.lastGood;
        m'.info[i] == x.(lastTry := time, attempts := x.attempts + (if counts then 1 else 0),
                         lastCountAttempt := if counts then time else x.lastCountAttempt)
  {
    hide Inv;
    FoundByService(h, m, s);
    if FindExact(m, s).Some? {
      var id := FindExact(m, s).value;
      TouchKeeps(h, m, id, Attempt(m, s, countFailure, time).info[id]);
    }
  }

  /** Until something succeeds again, further failures of an address are not counted. */
  lemma FailuresCountOnce(h: Keyed, m: Man, s: Service, time: int, later: int, i: int)
    requires Inv(h, m) && time >= 0 && later >= 0 && time >= m.lastGood && i in m.info
    ensures var m' := Attempt(m, s, true, time);
      && i in m'.info && i in Attempt(m', s, true, later).info
      && Attempt(m', s, true, later).info[i].attempts == m'.info[i].attempts <= m.info[i].attempts + 1
  {
    hide Inv, Attempt;
    AttemptKeeps(h, m, s, true, time);
    AttemptKeeps(h, Attempt(m, s, true, time), s, true, later);
  }

  lemma ConnectedKeeps(h: Keyed, m: Man, s: Service, time: int)
    requires Inv(h, m)
    ensures var m' := Connected(m, s, time);
      && Inv(h, m') && OnlyEntry(m, m', s)
      && forall i :: i in m.info && m.info[i].service == s ==>
        m'.info[i] == m.info[i].(time := if time - m.info[i].time > 20 * 60 then time else m.info[i].time)
  {
    FoundByService(h, m, s);
    if FindExact(m, s).Some? {
      var id := FindExact(m, s).value;
      AtId(h, m, id);
      hide Core;
      TouchKeeps(h, m, id, m.info[id].(time := time));
    }
  }

  lemma SetServicesKeeps(h: Keyed, m: Man, s: Service, services: set<nat>)
    requires Inv(h, m)
    ensures var m' := SetServices(m, s, services);
      && Inv(h, m') && OnlyEntry(m, m', s)
      && forall i :: i in m.info && m.info[i].service == s ==> m'.info[i] == m.info[i].(services := services)
  {
    FoundByService(h, m, s);
    if FindExact(m, s).Some? {
      var id := FindExact(m, s).value;
      AtId(h, m, id);
      hide Core;
      TouchKeeps(h, m, id, m.info[id].(services := services));
    }
  }

  // ---------------------------------------------------------------- Add_

  function IsTerrible(x: Info, now: int): bool {
    if x.lastTry != 0 && x.lastTry >= now - 60 then false
    else if x.time > now + 10 * 60 then true
    else if x.time == 0 || now - x.time > 30 * 24 * 60 * 60 then true
    else if x.lastSuccess == 0 && x.attempts >= 3 then true
    else now - x.lastSuccess > 7 * 24 * 60 * 60 && x.attempts >= 10
  }

  /**
  An entry is good enough if it was tried within the last minute; or else if it was heard of within thirty days, and
  not from more than ten minutes ahead, and it failed less than three times or succeeded before, and it failed less
  than ten times or succeeded within a week.
  */
  lemma GoodEnough(x: Info, now: int)
    ensures !IsTerrible(x, now) <==>
      || (x.lastTry != 0 && now - x.lastTry <= 60)
      || (&& x.time != 0 && -600 <= now - x.time <= 2_592_000
          && (x.attempts < 3 || x.lastSuccess != 0) && (x.attempts < 10 || now - x.lastSuccess <= 604_800))
  {
  }

  /** Time makes no entry better, but for one that was heard of from the future. */
  lemma TerribleStays(x: Info, now: int, later: int)
    requires IsTerrible(x, now) && now <= later && x.time <= now + 10 * 60
    ensures IsTerrible(x, later)
  {
  }

  function MaxInt(a: int, b: int): int { if a < b then b else a }

  /** What hearing about a known address changes at once. */
  function Refreshed(x: Info, a: Address, penalty: int, now: int): Info {
    var interval := if now - a.time < 24 * 60 * 60 then 60 * 60 else 24 * 60 * 60;
    var time := if a.time != 0 && (x.time == 0 || x.time < a.time - interval - penalty)
      then MaxInt(0, a.time - penalty) else x.time;
    x.(time := time, services := x.services + a.services)
  }

  /** Whether a known address deserves one more reference; each it has makes another half as likely. */
  predicate WantsReference(x: Info, a: Address, draw: nat) {
    && a.time != 0 && !(x.time != 0 && a.time <= x.time)
    && !x.inTried && x.refCount != NEW_BUCKETS_PER_ADDRESS && draw % Pow2(MaxInt(0, x.refCount)) == 0
  }

  /** Put a reference into a slot if it is empty or its occupant may be displaced. */
  ghost function Reference(h: Keyed, m: Man, id: int, slot: Slot, now: int): Man
    requires Core(h, m) && id in m.info && !m.info[id].inTried
  {
    if Held(m.vvNew, slot, id) then m
    else if slot !in m.vvNew || (SlotOccupant(h, m, slot); Displaceable(m.info[m.vvNew[slot]], m.info[id], now)) then
      OthersSurvive(h, m, slot, id);
      AddRef(ClearNew(h, m, slot), slot, id)
    else if m.info[id].refCount == 0 then
      DeleteKeeps(h, m, id);
      Delete(m, id)
    else m
  }

  predicate Displaceable(existing: Info, x: Info, now: int) {
    IsTerrible(existing, now) || (existing.refCount > 1 && x.refCount == 0)
  }

  lemma SlotOccupant(h: Keyed, m: Man, slot: Slot)
    requires Core(h, m) && slot in m.vvNew
    ensures m.vvNew[slot] in m.info
  {
    hide Core;
    Elements(h, m, 0, 0, slot, slot, 0);
  }

  lemma OthersSurvive(h: Keyed, m: Man, slot: Slot, id: int)
    requires Core(h, m) && id in m.info && !Held(m.vvNew, slot, id)
    ensures id in ClearNew(h, m, slot).info && SameButPosition(m.info[id], ClearNew(h, m, slot).info[id])
  {
    hide Core, ClearNew;
    ClearNewKeeps(h, m, slot);
  }

  /** Whatever Reference does, at most the given entry was unreferenced before, and none is after. */
  lemma ReferenceKeeps(h: Keyed, m: Man, id: int, bucket: nat, now: int)
    requires Core(h, m) && id in m.info && !m.info[id].inTried && bucket < NEW_BUCKET_COUNT
    requires m.info[id].refCount < NEW_BUCKETS_PER_ADDRESS
    requires Slack(m) == (0, 0) && forall i :: i in m.info && i != id ==> !Unreferenced(m, i)
    ensures Inv(h, Reference(h, m, id, NewSlot(h, bucket, m.info[id].service), now))
  {
    hide Core, ClearNew, Refs, Delete, Displaceable;
    var slot := NewSlot(h, bucket, m.info[id].service);
    hide NewSlot, TriedSlot;
    var m' := Reference(h, m, id, slot, now);
    if Held(m.vvNew, slot, id) {
      HeldIsReferenced(h, m, slot, id);
    } else if slot !in m.vvNew || (SlotOccupant(h, m, slot); Displaceable(m.info[m.vvNew[slot]], m.info[id], now)) {
      OthersSurvive(h, m, slot, id);
      ClearNewKeeps(h, m, slot);
      var m1 := ClearNew(h, m, slot);
      NewSlotBucket(h, bucket, m.info[id].service);
      assert MayRefer(h, m1, slot, id);
      AddRefKeeps(h, m1, slot, id);
      forall i | i in m'.info ensures !Unreferenced(m', i) {
        assert i != id ==> (Unreferenced(m', i) <==> Unreferenced(m1, i));
        assert Unreferenced(m1, i) ==> Unreferenced(m, i);
      }
    } else if m.info[id].refCount == 0 {
      DeleteKeeps(h, m, id);
    }
  }

  lemma NewSlotBucket(h: Keyed, bucket: nat, s: Service)
    ensures NewSlot(h, bucket, s).0 == bucket
  {
  }

  lemma HeldIsReferenced(h: Keyed, m: Man, slot: Slot, id: int)
    requires Core(h, m) && Held(m.vvNew, slot, id) && id in m.info
    ensures !Unreferenced(m, id)
  {
    hide Core, Refs;
    AtId(h, m, id);
    NoRefs(m.vvNew, id, slot);
  }

  /** Add_: the new state and whether a new entry was created. */
  ghost function Add(h: Keyed, m: Man, a: Address, source: Ip, nTimePenalty: int, now: int, routable: bool,
      draw: nat): (Man, bool)
    requires Inv(h, m)
  {
    if !routable then (m, false) else
      var penalty := if a.service.ip == source then 0 else nTimePenalty;
      if a.service.ip in m.addr then
        Elements(h, m, 0, a.service.ip, (0, 0), (0, 0), 0);
        var id := m.addr[a.service.ip];
        var x := Refreshed(m.info[id], a, penalty, now);
        RefreshKeeps(h, m, id, a, penalty, now);
        var m1 := WithInfo(m, id, x);
        var slot := NewSlot(h, NewBucket(h, x.service.ip, source), x.service);
        (if WantsReference(x, a, draw) then Reference(h, m1, id, slot, now) else m1, false)
      else
        CreatedKeeps(h, m, a, source, penalty);
        var slot := NewSlot(h, NewBucket(h, a.service.ip, source), a.service);
        (Reference(h, Created(m, a, source, penalty), m.idCount, slot, now), true)
  }

  function Created(m: Man, a: Address, source: Ip, penalty: int): Man {
    var m1 := Create(m, a, source);
    WithInfo(m1, m.idCount, m1.info[m.idCount].(time := MaxInt(0, a.time - penalty)))
  }

  lemma RefreshKeeps(h: Keyed, m: Man, id: int, a: Address, penalty: int, now: int)
    requires Inv(h, m) && id in m.info
    ensures Inv(h, WithInfo(m, id, Refreshed(m.info[id], a, penalty, now)))
  {
    AtId(h, m, id);
    hide Core;
    TouchKeeps(h, m, id, Refreshed(m.info[id], a, penalty, now));
  }

  lemma CreatedKeeps(h: Keyed, m: Man, a: Address, source: Ip, penalty: int)
    requires Inv(h, m) && a.service.ip !in m.addr
    ensures var m1 := Created(m, a, source, penalty);
      && Core(h, m1) && Slack(m1) == Slack(m) && Unreferenced(m1, m.idCount) && m1.info[m.idCount].service == a.service
      && forall i :: i in m1.info && i != m.idCount ==> !Unreferenced(m1, i)
  {
    hide Core;
    CreateKeeps(h, m, a, source);
    var m1 := Create(m, a, source);
    WithInfoKeeps(h, m1, m.idCount, m1.info[m.idCount].(time := MaxInt(0, a.time - penalty)));
  }

  lemma AddKeeps(h: Keyed, m: Man, a: Address, source: Ip, nTimePenalty: int, now: int, routable: bool, draw: nat)
    requires Inv(h, m)
    ensures Inv(h, Add(h, m, a, source, nTimePenalty, now, routable, draw).0)
    ensures Add(h, m, a, source, nTimePenalty, now, routable, draw).1 <==> routable && a.service.ip !in m.addr
  {
    hide Core, Reference, NewSlot, Refreshed, Created;
    if routable {
      var penalty := if a.service.ip == source then 0 else nTimePenalty;
      if a.service.ip in m.addr {
        Elements(h, m, 0, a.service.ip, (0, 0), (0, 0), 0);
        var id := m.addr[a.service.ip];
        var x := Refreshed(m.info[id], a, penalty, now);
        RefreshKeeps(h, m, id, a, penalty, now);
        var m1 := WithInfo(m, id, x);
        AtId(h, m1, id);
        if WantsReference(x, a, draw) {
          ReferenceKeeps(h, m1, id, NewBucket(h, x.service.ip, source), now);
        }
      } else {
        CreatedKeeps(h, m, a, source, penalty);
        ReferenceKeeps(h, Created(m, a, source, penalty), m.idCount, NewBucket(h, a.service.ip, source), now);
      }
    }
  }

  /**
  Add_ reports "new" for every unknown routable address, but keeps it only if its slot was empty or its
  occupant could be displaced; otherwise the entry it created is deleted again.
  */
  lemma NewAddressKept(h: Keyed, m: Man, a: Address, source: Ip, nTimePenalty: int, now: int, draw: nat)
    requires Inv(h, m) && a.service.ip !in m.addr
    ensures var (m', reported) := Add(h, m, a, source, nTimePenalty, now, true, draw);
      var slot := NewSlot(h, NewBucket(h, a.service.ip, source), a.service);
      && reported
      && (slot in m.vvNew ==> m.vvNew[slot] in m.info)
      && (a.service.ip in m'.addr <==>
            slot !in m.vvNew || IsTerrible(m.info[m.vvNew[slot]], now) || m.info[m.vvNew[slot]].refCount > 1)
      && (a.service.ip in m'.addr ==>
           var id := m'.addr[a.service.ip];
           Held(m'.vvNew, slot, id) && id in m'.info && NewEntry(m'.info[id], a, source, nTimePenalty))
  {
    hide Core, Reference, NewSlot, NewBucket, IsTerrible, Refs, Created, Slack, Add;
    var penalty := if a.service.ip == source then 0 else nTimePenalty;
    var slot := NewSlot(h, NewBucket(h, a.service.ip, source), a.service);
    var m1, id := Created(m, a, source, penalty), m.idCount;
    CreatedKeeps(h, m, a, source, penalty);
    CreatedSame(h, m, a, source, penalty);
    CreatedInfo(m, a, source, penalty);
    ReferenceHolds(h, m1, id, slot, now);
    if slot in m.vvNew {
      SlotOccupant(h, m, slot);
      var occupant := m.vvNew[slot];
      assert occupant in m.info && m1.info[occupant] == m.info[occupant];
    }
    AddNew(h, m, a, source, nTimePenalty, now, draw);
    AddKeeps(h, m, a, source, nTimePenalty, now, true, draw);
    var m' := Add(h, m, a, source, nTimePenalty, now, true, draw).0;
    if id in m'.info {
      AtId(h, m', id);
      assert m'.addr[a.service.ip] == id;
    }
  }

  lemma AddNew(h: Keyed, m: Man, a: Address, source: Ip, nTimePenalty: int, now: int, draw: nat)
    requires Inv(h, m) && a.service.ip !in m.addr
    ensures var penalty := if a.service.ip == source then 0 else nTimePenalty;
      var m1 := Created(m, a, source, penalty);
      && Core(h, m1) && m.idCount in m1.info && !m1.info[m.idCount].inTried
      && Add(h, m, a, source, nTimePenalty, now, true, draw) ==
           (Reference(h, m1, m.idCount, NewSlot(h, NewBucket(h, a.service.ip, source), a.service), now), true)
  {
    hide Core, Reference, NewSlot, NewBucket, Created, Slack;
    CreatedFresh(h, m, a, source, if a.service.ip == source then 0 else nTimePenalty);
  }

  /** An entry as made for a new address: as heard of but for the penalty, never tried, with one reference. */
  predicate NewEntry(x: Info, a: Address, source: Ip, nTimePenalty: int) {
    var penalty := if a.service.ip == source then 0 else nTimePenalty;
    x == Info(a.service, if a.time < penalty then 0 else a.time - penalty, a.services, source,
              0, 0, 0, 0, 1, false, x.randomPos)
  }

  /** Keyed hashes under which every address has the same slot. */
  const SameSlot := Keyed(_ => 0, (_, _) => 0, (_, _, _) => 0)

  /** A reachable state: the second of two fresh addresses for one slot is reported as new and then gone. */
  lemma NewAddressLost(a: Address, b: Address, now: int)
    requires a == Address(Service(1, 8333), now, {}) && b == Address(Service(2, 8333), now, {}) && now == 1_500_000_000
    ensures Inv(SameSlot, Cleared)
    ensures Inv(SameSlot, Add(SameSlot, Cleared, a, 1, 0, now, true, 0).0)
    ensures var (m, reported) := Add(SameSlot, Add(SameSlot, Cleared, a, 1, 0, now, true, 0).0, b, 2, 0, now, true, 0);
      reported && b.service.ip !in m.addr
  {
    var h := SameSlot;
    ClearedHolds(h);
    AddKeeps(h, Cleared, a, 1, 0, now, true, 0);
    var slot := NewSlot(h, 0, a.service);
    assert NewBucket(h, 1, 1) == 0 && NewBucket(h, 2, 2) == 0 && NewSlot(h, 0, b.service) == slot;
    hide Inv, NewSlot, NewBucket;
    var m := Add(h, Cleared, a, 1, 0, now, true, 0).0;
    FirstAdded(h, a, now);
    NewAddressKept(h, m, b, 2, 0, now, 0);
  }

  lemma FirstAdded(h: Keyed, a: Address, now: int)
    requires Inv(h, Cleared) && a.time == now > 0
    ensures var m := Add(h, Cleared, a, a.service.ip, 0, now, true, 0).0;
      var slot := NewSlot(h, NewBucket(h, a.service.ip, a.service.ip), a.service);
      && slot in m.vvNew && m.vvNew[slot] == 0 && 0 in m.info && m.addr.Keys == {a.service.ip}
      && m.info[0].refCount == 1 && !IsTerrible(m.info[0], now)
  {
    CreatedKeeps(h, Cleared, a, a.service.ip, 0);
    var m1 := Created(Cleared, a, a.service.ip, 0);
    var slot := NewSlot(h, NewBucket(h, a.service.ip, a.service.ip), a.service);
    hide NewSlot, NewBucket;
    ReferenceTouches(h, m1, 0, slot, now);
  }

  lemma ReferenceHolds(h: Keyed, m: Man, id: int, slot: Slot, now: int)
    requires Core(h, m) && Unreferenced(m, id)
    ensures slot in m.vvNew ==> m.vvNew[slot] in m.info
    ensures var m' := Reference(h, m, id, slot, now);
      && (id in m'.info <==> slot !in m.vvNew || Displaceable(m.info[m.vvNew[slot]], m.info[id], now))
      && (id in m'.info ==> Held(m'.vvNew, slot, id))
      && (id in m'.info ==> m'.info[id] == m.info[id].(refCount := 1, randomPos := m'.info[id].randomPos))
      && (id !in m'.info ==> m.info[id].service.ip !in m'.addr)
  {
    hide Core, ClearNew, Refs, Displaceable, SwapRandom;
    UnheldNew(h, m, slot, id);
    if slot in m.vvNew { SlotOccupant(h, m, slot); }
    if slot !in m.vvNew || Displaceable(m.info[m.vvNew[slot]], m.info[id], now) {
      OthersSurvive(h, m, slot, id);
    } else {
      DeleteKeeps(h, m, id);
      DeleteForgets(m, id);
    }
  }

  lemma DeleteForgets(m: Man, id: int)
    requires Deletable(m, id)
    ensures m.info[id].service.ip !in Delete(m, id).addr
  {
  }

  /** Whether Reference puts a reference into the slot. */
  ghost predicate Gains(m: Man, id: int, slot: Slot, now: int)
    requires id in m.info
  {
    && !Held(m.vvNew, slot, id)
    && (slot !in m.vvNew || (m.vvNew[slot] in m.info && Displaceable(m.info[m.vvNew[slot]], m.info[id], now)))
  }

  /** Reference touches only the entry and the slot's occupant; the entry counts the reference it gains. */
  lemma ReferenceTouches(h: Keyed, m: Man, id: int, slot: Slot, now: int)
    requires Core(h, m) && id in m.info && !m.info[id].inTried
    ensures var m' := Reference(h, m, id, slot, now);
      && (forall i :: i in m.info && i != id && !Held(m.vvNew, slot, i) ==>
           i in m'.info && SameButPosition(m.info[i], m'.info[i]))
      && (m.info[id].refCount > 0 || Gains(m, id, slot, now) ==>
            && id in m'.info
            && m'.info[id] == m.info[id].(
                 refCount := m.info[id].refCount + (if Gains(m, id, slot, now) then 1 else 0),
                 randomPos := m'.info[id].randomPos))
      && m'.vvTried == m.vvTried && (Gains(m, id, slot, now) ==> m'.vvNew == m.vvNew[slot := id])
      && (!Gains(m, id, slot, now) && (m.info[id].refCount > 0 || Held(m.vvNew, slot, id)) ==> m' == m)
      && (Gains(m, id, slot, now) && slot in m.vvNew ==> LosesRef(m, m', m.vvNew[slot]))
  {
    hide Core, ClearNew, Refs, Displaceable, Delete, Slack, Unreferenced;
    if slot in m.vvNew { SlotOccupant(h, m, slot); }
    if Gains(m, id, slot, now) {
      OthersSurvive(h, m, slot, id);
      ClearNewKeeps(h, m, slot);
      assert (m.vvNew - {slot})[slot := id] == m.vvNew[slot := id];
    } else if !Held(m.vvNew, slot, id) && m.info[id].refCount == 0 {
      Deleted(h, m, id);
    }
  }

  lemma Deleted(h: Keyed, m: Man, id: int)
    requires Core(h, m) && id in m.info && !m.info[id].inTried && m.info[id].refCount == 0
    ensures Deletable(m, id)
    ensures forall i :: i in m.info && i != id ==>
      i in Delete(m, id).info && SameButPosition(m.info[i], Delete(m, id).info[i])
    ensures Delete(m, id).vvNew == m.vvNew && Delete(m, id).vvTried == m.vvTried
  {
    DeleteKeeps(h, m, id);
    hide Core, Delete;
    DeleteOthers(m, id);
  }

  /** The slot that an address heard from a source may get a reference in. */
  function AddSlot(h: Keyed, m: Man, a: Address, source: Ip): Slot {
    var s := if a.service.ip in m.addr && m.addr[a.service.ip] in m.info
      then m.info[m.addr[a.service.ip]].service else a.service;
    NewSlot(h, NewBucket(h, s.ip, source), s)
  }

  /** Add_ touches only the address's own entry and the occupant of one slot. */
  lemma AddTouches(h: Keyed, m: Man, a: Address, source: Ip, nTimePenalty: int, now: int, routable: bool, draw: nat)
    requires Inv(h, m)
    ensures var m' := Add(h, m, a, source, nTimePenalty, now, routable, draw).0;
      forall i :: i in m.info && !(a.service.ip in m.addr && i == m.addr[a.service.ip]) &&
                  !Held(m.vvNew, AddSlot(h, m, a, source), i) ==>
        i in m'.info && SameButPosition(m.info[i], m'.info[i])
  {
    hide Core, Reference, NewSlot, Refreshed, Slack, Unreferenced, WantsReference;
    if routable {
      var penalty := if a.service.ip == source then 0 else nTimePenalty;
      if a.service.ip in m.addr {
        Elements(h, m, 0, a.service.ip, (0, 0), (0, 0), 0);
        RefreshedSame(h, m, a, penalty, now);
        var id := m.addr[a.service.ip];
        var x := Refreshed(m.info[id], a, penalty, now);
        RefreshKeeps(h, m, id, a, penalty, now);
        if WantsReference(x, a, draw) {
          WantsNew(x, a, draw);
          ReferenceTouches(h, WithInfo(m, id, x), id, AddSlot(h, m, a, source), now);
        }
      } else {
        CreatedFresh(h, m, a, source, penalty);
        CreatedSame(h, m, a, source, penalty);
        ReferenceTouches(h, Created(m, a, source, penalty), m.idCount, AddSlot(h, m, a, source), now);
      }
    }
  }

  lemma RefreshedSame(h: Keyed, m: Man, a: Address, penalty: int, now: int)
    requires a.service.ip in m.addr && m.addr[a.service.ip] in m.info
    ensures Refreshed(m.info[m.addr[a.service.ip]], a, penalty, now).service == m.info[m.addr[a.service.ip]].service
  {
  }

  lemma WantsNew(x: Info, a: Address, draw: nat)
    requires WantsReference(x, a, draw)
    ensures !x.inTried
  {
  }

  lemma CreatedFresh(h: Keyed, m: Man, a: Address, source: Ip, penalty: int)
    requires Inv(h, m) && a.service.ip !in m.addr
    ensures var m1 := Created(m, a, source, penalty);
      Core(h, m1) && m.idCount in m1.info && !m1.info[m.idCount].inTried
  {
    hide Core, Slack;
    CreatedKeeps(h, m, a, source, penalty);
  }

  lemma CreatedSame(h: Keyed, m: Man, a: Address, source: Ip, penalty: int)
    requires Inv(h, m) && a.service.ip !in m.addr
    ensures var m1 := Created(m, a, source, penalty);
      m1.vvNew == m.vvNew && m.idCount !in m.info && forall i :: i in m.info ==> i in m1.info && m1.info[i] == m.info[i]
  {
    hide Core, Slack;
    CreateKeeps(h, m, a, source);
  }

  lemma KnownRefreshed(h: Keyed, m: Man, a: Address, source: Ip, nTimePenalty: int, now: int, draw: nat)
    requires Inv(h, m) && a.service.ip in m.addr
    ensures m.addr[a.service.ip] in m.info
    ensures var m', id := Add(h, m, a, source, nTimePenalty, now, true, draw).0, m.addr[a.service.ip];
      var x := Refreshed(m.info[id], a, if a.service.ip == source then 0 else nTimePenalty, now);
      var slot, m1 := AddSlot(h, m, a, source), WithInfo(m, id, x);
      var gains := WantsReference(x, a, draw) && Gains(m1, id, slot, now);
      && id in m'.info && (!x.inTried ==> x.refCount > 0)
      && m'.info[id] == x.(refCount := x.refCount + (if gains then 1 else 0), randomPos := m'.info[id].randomPos)
      && m'.vvTried == m.vvTried && m'.vvNew == (if gains then m.vvNew[slot := id] else m.vvNew)
      && (gains && slot in m.vvNew ==> LosesRef(m1, m', m.vvNew[slot])) && (!gains ==> m' == m1)
  {
    hide Core, Reference, NewSlot, Slack, WantsReference, Gains;
    Elements(h, m, 0, a.service.ip, (0, 0), (0, 0), 0);
    var id := m.addr[a.service.ip];
    var penalty := if a.service.ip == source then 0 else nTimePenalty;
    var x := Refreshed(m.info[id], a, penalty, now);
    RefreshKeeps(h, m, id, a, penalty, now);
    AtId(h, m, id);
    assert !Unreferenced(m, id);
    if WantsReference(x, a, draw) {
      WantsNew(x, a, draw);
      ReferenceTouches(h, WithInfo(m, id, x), id, AddSlot(h, m, a, source), now);
    }
  }

  /** Whether a slot is empty or has a terrible occupant other than the entry itself. */
  ghost predicate Open(m: Man, slot: Slot, id: int, now: int) {
    slot !in m.vvNew || (m.vvNew[slot] != id && m.vvNew[slot] in m.info && IsTerrible(m.info[m.vvNew[slot]], now))
  }

  /**
  Hearing of a known address. Its time is brought to within an hour of what was heard if that is less than a day old,
  and otherwise to within a day, less the penalty; its services grow. If there is news and room, and luck that halves
  with each reference it has, it gains one reference, in the slot of this source; all else about it stays.
  */
  lemma KnownAddressKept(h: Keyed, m: Man, a: Address, source: Ip, nTimePenalty: int, now: int, draw: nat)
    requires Inv(h, m) && a.service.ip in m.addr
    ensures m.addr[a.service.ip] in m.info
    ensures var m', id := Add(h, m, a, source, nTimePenalty, now, true, draw).0, m.addr[a.service.ip];
      var p, v := if a.service.ip == source then 0 else nTimePenalty, if now - a.time < 86400 then 3600 else 86400;
      id in m'.info &&
      var x, y := m.info[id], m'.info[id];
      && (a.time != 0 ==> y.time >= a.time - v - p)
      && (a.time == 0 || (x.time != 0 && x.time >= a.time - v - p) ==> y.time == x.time)
      && (a.time != 0 && (x.time == 0 || x.time < a.time - v - p) ==> y.time == if a.time < p then 0 else a.time - p)
      && y == x.(time := y.time, services := x.services + a.services, refCount := y.refCount, randomPos := y.randomPos)
    ensures var m', id := Add(h, m, a, source, nTimePenalty, now, true, draw).0, m.addr[a.service.ip];
      id in m'.info &&
      var x, y, slot := m.info[id], m'.info[id], AddSlot(h, m, a, source);
      var gains := && a.time != 0 && (y.time == 0 || a.time > y.time) && !x.inTried && x.refCount < 8
                   && (x.refCount >= 0 ==> draw % Pow2(x.refCount) == 0) && Open(m, slot, id, now);
      && y.refCount == (if gains then x.refCount + 1 else x.refCount)
      && m'.vvTried == m.vvTried && m'.vvNew == if gains then m.vvNew[slot := id] else m.vvNew
  {
    hide Core, Add, AddSlot, IsTerrible, Slack;
    KnownRefreshed(h, m, a, source, nTimePenalty, now, draw);
    var id := m.addr[a.service.ip];
    AtId(h, m, id);
    var slot := AddSlot(h, m, a, source);
    if slot in m.vvNew { SlotOccupant(h, m, slot); }
  }

  /**
  Add_ forgets no entry that is good enough: what is gone afterwards was terrible, and the slot was its only one; and
  what keeps its other references loses no more than one.
  */
  lemma AddForgets(h: Keyed, m: Man, a: Address, source: Ip, nTimePenalty: int, now: int, routable: bool, draw: nat,
      i: int)
    requires Inv(h, m) && i in m.info
    ensures var m', slot := Add(h, m, a, source, nTimePenalty, now, routable, draw).0, AddSlot(h, m, a, source);
      && (i !in m'.info ==> IsTerrible(m.info[i], now) && m.info[i].refCount == 1 && Held(m.vvNew, slot, i))
      && (i in m'.info ==>
            && m'.info[i].refCount >= m.info[i].refCount - 1
            && (!(a.service.ip in m.addr && m.addr[a.service.ip] == i) ==> m'.info[i] == m.info[i].(
                  refCount := m'.info[i].refCount, randomPos := m'.info[i].randomPos)))
  {
    hide Core, Add, AddSlot, IsTerrible, Slack;
    var slot := AddSlot(h, m, a, source);
    AddTouches(h, m, a, source, nTimePenalty, now, routable, draw);
    if !routable {
      NotRoutable(h, m, a, source, nTimePenalty, now, draw);
    } else if a.service.ip in m.addr {
      KnownRefreshed(h, m, a, source, nTimePenalty, now, draw);
    } else if Held(m.vvNew, slot, i) {
      NewDisplaces(h, m, a, source, nTimePenalty, now, draw, i);
    }
  }

  lemma NotRoutable(h: Keyed, m: Man, a: Address, source: Ip, nTimePenalty: int, now: int, draw: nat)
    requires Inv(h, m)
    ensures Add(h, m, a, source, nTimePenalty, now, false, draw) == (m, false)
  {
    hide Inv;
  }

  lemma NewDisplaces(h: Keyed, m: Man, a: Address, source: Ip, nTimePenalty: int, now: int, draw: nat, i: int)
    requires Inv(h, m) && a.service.ip !in m.addr && Held(m.vvNew, AddSlot(h, m, a, source), i) && i in m.info
    ensures var m' := Add(h, m, a, source, nTimePenalty, now, true, draw).0;
      if IsTerrible(m.info[i], now) || m.info[i].refCount > 1 then LosesRef(m, m', i)
      else i in m'.info && SameButPosition(m.info[i], m'.info[i])
  {
    hide Core, IsTerrible, Slack, Reference, NewSlot, Create, Add;
    AddNew(h, m, a, source, nTimePenalty, now, draw);
    var penalty := if a.service.ip == source then 0 else nTimePenalty;
    var slot, m1 := AddSlot(h, m, a, source), Created(m, a, source, penalty);
    CreatedFresh(h, m, a, source, penalty);
    CreatedSame(h, m, a, source, penalty);
    CreatedInfo(m, a, source, penalty);
    ReferenceTouches(h, m1, m.idCount, slot, now);
    if !Gains(m1, m.idCount, slot, now) { NotDisplaced(h, m1, m.idCount, slot, now, i); }
  }

  lemma CreatedInfo(m: Man, a: Address, source: Ip, penalty: int)
    ensures Created(m, a, source, penalty).info[m.idCount] == Info(a.service,
      if a.time < penalty then 0 else a.time - penalty, a.services, source, 0, 0, 0, 0, 0, false, |m.random|)
  {
  }

  lemma NotDisplaced(h: Keyed, m: Man, id: int, slot: Slot, now: int, i: int)
    requires Core(h, m) && id in m.info && !m.info[id].inTried && Held(m.vvNew, slot, i) && i != id && i in m.info
    requires !Gains(m, id, slot, now)
    ensures i in Reference(h, m, id, slot, now).info
    ensures SameButPosition(m.info[i], Reference(h, m, id, slot, now).info[i])
  {
    hide Core, Refs, Delete, Displaceable, ClearNew;
    if m.info[id].refCount == 0 { Deleted(h, m, id); }
  }

  lemma UnheldNew(h: Keyed, m: Man, slot: Slot, id: int)
    requires Core(h, m) && Unreferenced(m, id)
    ensures !Held(m.vvNew, slot, id)
  {
    hide Core, Refs;
    AtId(h, m, id);
    NoRefs(m.vvNew, id, slot);
  }

  // ---------------------------------------------------------------- GetAddr_

  function AddressOf(x: Info): Address { Address(x.service, x.time, x.services) }

  /** At most 23 percent of the entries, and at most 2500. */
  function GetAddrLimit(n: nat): (r: nat)
    ensures r <= 2500 && 100 * r <= 23 * n && (r < 2500 ==> 100 * (r + 1) > 23 * n)
  {
    var share := 23 * n / 100;
    if share > 2500 then 2500 else share
  }

  /** The acceptable addresses among some entries. */
  ghost function Acceptable(info: map<int, Info>, ids: seq<int>, now: int): seq<Address>
    requires forall id :: id in ids ==> id in info
  {
    if ids == [] then [] else
      var last := ids[|ids| - 1];
      assert last in ids;
      var x := info[last];
      Acceptable(info, ids[..|ids| - 1], now) + if IsTerrible(x, now) then [] else [AddressOf(x)]
  }

  lemma RandomKnown(h: Keyed, m: Man)
    requires Core(h, m)
    ensures forall id :: id in m.random ==> id in m.info
  {
    forall k | 0 <= k < |m.random| ensures m.random[k] in m.info {
      hide Core;
      Elements(h, m, k, 0, (0, 0), (0, 0), 0);
    }
  }

  function DrawPos(m: Man, n: nat, draws: nat -> nat): (pos: nat)
    requires n < |m.random|
    ensures n <= pos < |m.random| && (draws(n) < |m.random| - n ==> pos == n + draws(n))
  {
    n + draws(n) % (|m.random| - n)
  }

  /** Bring a random entry of the rest to position `n`. */
  ghost function Drawn(h: Keyed, m: Man, n: nat, pos: nat): (m1: Man)
    requires Core(h, m) && n <= pos < |m.random|
    ensures Core(h, m1) && |m1.random| == |m.random| && m1.random[n] in m1.info
    ensures m.random[n] in m.info && m.random[pos] in m.info && m1 == SwapRandom(m, n, pos)
  {
    SwapRandomKeeps(h, m, n, pos);
    SwapRandomBehind(m, n, n, pos);
    var m1 := SwapRandom(m, n, pos);
    Elements(h, m1, n, 0, (0, 0), (0, 0), 0);
    m1
  }

  /** GetAddr_ from position `n` on, with `draws` as the random source. */
  ghost function GetAddrFrom(h: Keyed, m: Man, n: nat, limit: nat, draws: nat -> nat, now: int,
      acc: seq<Address>): (Man, seq<Address>)
    requires Core(h, m) && n <= |m.random|
    decreases |m.random| - n
  {
    if n == |m.random| || |acc| >= limit then (m, acc) else
      var m1 := Drawn(h, m, n, DrawPos(m, n, draws));
      var x := m1.info[m1.random[n]];
      GetAddrFrom(h, m1, n + 1, limit, draws, now, if IsTerrible(x, now) then acc else acc + [AddressOf(x)])
  }

  lemma GetAddrUnfold(h: Keyed, m: Man, n: nat, limit: nat, draws: nat -> nat, now: int, acc: seq<Address>)
    requires Core(h, m) && n < |m.random| && |acc| < limit
    ensures var m1 := Drawn(h, m, n, DrawPos(m, n, draws));
      var x := m1.info[m1.random[n]];
      GetAddrFrom(h, m, n, limit, draws, now, acc) ==
      GetAddrFrom(h, m1, n + 1, limit, draws, now, if IsTerrible(x, now) then acc else acc + [AddressOf(x)])
  {
    hide Core, SwapRandom, Drawn;
  }

  lemma GetAddrStops(h: Keyed, m: Man, n: nat, limit: nat, draws: nat -> nat, now: int, acc: seq<Address>)
    requires Core(h, m) && n <= |m.random| && (n == |m.random| || |acc| >= limit)
    ensures GetAddrFrom(h, m, n, limit, draws, now, acc) == (m, acc)
  {
    hide Core, SwapRandom;
  }

  ghost function GetAddr(h: Keyed, m: Man, draws: nat -> nat, now: int): (Man, seq<Address>)
    requires Inv(h, m)
  {
    GetAddrFrom(h, m, 0, GetAddrLimit(|m.random|), draws, now, [])
  }

  lemma {:induction false} AcceptableIgnoresPosition(info: map<int, Info>, info': map<int, Info>, ids: seq<int>,
      now: int)
    requires forall id :: id in ids ==> id in info && id in info' && SameButPosition(info[id], info'[id])
    ensures Acceptable(info', ids, now) == Acceptable(info, ids, now)
  {
    if ids != [] {
      assert ids[|ids| - 1] in ids;
      AcceptableIgnoresPosition(info, info', ids[..|ids| - 1], now);
    }
  }

  /** Swapping from position `n` on does not change what stands before it. */
  lemma SwapRandomBehind(m: Man, n: nat, p1: nat, p2: nat)
    requires n <= p1 < |m.random| && n <= p2 < |m.random| && m.random[p1] in m.info && m.random[p2] in m.info
    ensures var m' := SwapRandom(m, p1, p2);
      && |m'.random| == |m.random| && m'.random[..n] == m.random[..n]
      && forall id :: id in m.info ==> id in m'.info && SameButPosition(m.info[id], m'.info[id])
  {
  }

  /** One round of GetAddr_. */
  lemma GetAddrStep(h: Keyed, m: Man, n: nat, pos: nat, now: int)
    requires Core(h, m) && n <= pos < |m.random|
    requires forall id :: id in m.random ==> id in m.info
    ensures m.random[n] in m.info && m.random[pos] in m.info
    ensures var m1 := SwapRandom(m, n, pos);
      && |m1.random| == |m.random| && m1.random[n] in m1.info && (forall id :: id in m1.random ==> id in m1.info)
      && var x := m1.info[m1.random[n]];
         Acceptable(m1.info, m1.random[..n + 1], now) ==
           Acceptable(m.info, m.random[..n], now) + if IsTerrible(x, now) then [] else [AddressOf(x)]
  {
    SwapRandomKeeps(h, m, n, pos);
    SwapRandomBehind(m, n, n, pos);
    var m1 := SwapRandom(m, n, pos);
    RandomKnown(h, m1);
    hide Core, SwapRandom, IsTerrible;
    AcceptableIgnoresPosition(m.info, m1.info, m.random[..n], now);
    assert m1.random[..n + 1][..n] == m1.random[..n];
  }

  /** The answer lists the acceptable entries of some initial part of the reshuffled vRandom, up to the limit. */
  ghost predicate Answers(m: Man, r: seq<Address>, limit: nat, now: int, end: nat) {
    && end <= |m.random| && (forall id :: id in m.random ==> id in m.info)
    && r == Acceptable(m.info, m.random[..end], now) && |r| <= limit && (end == |m.random| || |r| == limit)
  }

  ghost predicate SameEntries(m: Man, m': Man) {
    m'.info.Keys == m.info.Keys && |m'.random| == |m.random| && Slack(m') == Slack(m)
    && forall i :: i in m.info ==> (Unreferenced(m', i) <==> Unreferenced(m, i))
  }

  lemma {:induction false} GetAddrFromKeeps(h: Keyed, m: Man, n: nat, limit: nat, draws: nat -> nat, now: int,
      acc: seq<Address>)
    returns (end: nat)
    requires Core(h, m) && n <= |m.random| && forall id :: id in m.random ==> id in m.info
    requires acc == Acceptable(m.info, m.random[..n], now) && |acc| <= limit
    ensures var (m', r) := GetAddrFrom(h, m, n, limit, draws, now, acc);
      Core(h, m') && SameEntries(m, m') && Answers(m', r, limit, now, end)
    decreases |m.random| - n
  {
    hide Core, IsTerrible, Unreferenced, Acceptable, SwapRandom, Slack, Drawn;
    if n == |m.random| || |acc| >= limit {
      end := n;
    } else {
      var pos := DrawPos(m, n, draws);
      SwapRandomKeeps(h, m, n, pos);
      GetAddrStep(h, m, n, pos, now);
      var m1 := Drawn(h, m, n, pos);
      var x := m1.info[m1.random[n]];
      var acc' := if IsTerrible(x, now) then acc else acc + [AddressOf(x)];
      assert acc' == Acceptable(m1.info, m1.random[..n + 1], now);
      end := GetAddrFromKeeps(h, m1, n + 1, limit, draws, now, acc');
    }
  }

  lemma GetAddrKeeps(h: Keyed, m: Man, draws: nat -> nat, now: int)
    requires Inv(h, m)
    ensures var (m', r) := GetAddr(h, m, draws, now);
      && Inv(h, m') && m'.info.Keys == m.info.Keys
      && exists end :: Answers(m', r, GetAddrLimit(|m.random|), now, end)
  {
    RandomKnown(h, m);
    hide Core, IsTerrible, GetAddrFrom, Unreferenced, Slack;
    assert m.random[..0] == [];
    var end := GetAddrFromKeeps(h, m, 0, GetAddrLimit(|m.random|), draws, now, []);
  }

  // ---------------------------------------------------------------- whole runs

  datatype Op =
    | AddOp(a: Address, source: Ip, penalty: int, now: int, routable: bool, draw: nat)
    | GoodOp(s: Service, time: int)
    | AttemptOp(s: Service, countFailure: bool, time: int)
    | ConnectedOp(s: Service, time: int)
    | SetServicesOp(s: Service, services: set<nat>)
    | GetAddrOp(draws: nat -> nat, now: int)

  /** Clocks never show a time before 1970. */
  predicate Timed(op: Op) {
    (op.GoodOp? ==> op.time > 0) && (op.AttemptOp? ==> op.time >= 0)
  }

  ghost function Step(h: Keyed, m: Man, op: Op): Man
    requires Inv(h, m) && Timed(op)
  {
    match op
    case AddOp(a, source, penalty, now, routable, draw) => Add(h, m, a, source, penalty, now, routable, draw).0
    case GoodOp(s, time) => Good(h, m, s, time)
    case AttemptOp(s, c, time) => Attempt(m, s, c, time)
    case ConnectedOp(s, time) => Connected(m, s, time)
    case SetServicesOp(s, services) => SetServices(m, s, services)
    case GetAddrOp(draws, now) => GetAddr(h, m, draws, now).0
  }

  lemma StepKeeps(h: Keyed, m: Man, op: Op)
    requires Inv(h, m) && Timed(op)
    ensures Inv(h, Step(h, m, op))
  {
    hide Inv, Add, Good, Attempt, Connected, SetServices, GetAddr;
    match op
    case AddOp(a, source, penalty, now, routable, draw) => AddKeeps(h, m, a, source, penalty, now, routable, draw);
    case GoodOp(s, time) => GoodKeeps(h, m, s, time);
    case AttemptOp(s, c, time) => AttemptKeeps(h, m, s, c, time);
    case ConnectedOp(s, time) => ConnectedKeeps(h, m, s, time);
    case SetServicesOp(s, services) => SetServicesKeeps(h, m, s, services);
    case GetAddrOp(draws, now) => GetAddrKeeps(h, m, draws, now);
  }

  /**
  What a step forgets is an entry that was terrible and had one reference, where an address was added; or one that
  stood where a tried entry has its home, which lost its tried slot to an address that proved good.
  */
  lemma StepForgets(h: Keyed, m: Man, op: Op, i: int)
    requires Inv(h, m) && Timed(op) && i in m.info && i !in Step(h, m, op).info
    ensures op.AddOp? || op.GoodOp?
    ensures op.AddOp? ==>
      IsTerrible(m.info[i], op.now) && m.info[i].refCount == 1 && Held(m.vvNew, AddSlot(h, m, op.a, op.source), i)
    ensures op.GoodOp? ==>
      && TriedSlot(h, op.s) in m.vvTried && m.vvTried[TriedSlot(h, op.s)] in m.info
      && Held(m.vvNew, HomeSlot(h, m.info[m.vvTried[TriedSlot(h, op.s)]]), i)
  {
    hide Inv, Add, Good, Attempt, Connected, SetServices, GetAddr, TriedSlot, HomeSlot, IsTerrible, AddSlot;
    match op
    case AddOp(a, source, penalty, now, routable, draw) => AddForgets(h, m, a, source, penalty, now, routable, draw, i);
    case GoodOp(s, time) =>
      GoodKeeps(h, m, s, time);
      if FindExact(m, s).Some? { GoodForgets(h, m, s, time, i); }
    case AttemptOp(s, c, time) => AttemptKeeps(h, m, s, c, time);
    case ConnectedOp(s, time) => ConnectedKeeps(h, m, s, time);
    case SetServicesOp(s, services) => SetServicesKeeps(h, m, s, services);
    case GetAddrOp(draws, now) => GetAddrKeeps(h, m, draws, now);
  }

  lemma GoodForgets(h: Keyed, m: Man, s: Service, time: int, i: int)
    requires Inv(h, m) && time > 0 && FindExact(m, s).Some? && i in m.info && i !in Good(h, m, s, time).info
    ensures
      && TriedSlot(h, s) in m.vvTried && m.vvTried[TriedSlot(h, s)] in m.info
      && Held(m.vvNew, HomeSlot(h, m.info[m.vvTried[TriedSlot(h, s)]]), i)
  {
    hide Core, Good, TriedSlot, HomeSlot, Slack;
    var id := FindExact(m, s).value;
    AtId(h, m, id);
    GoodMoves(h, m, s, time);
    assert Disturbed(h, m, id, i);
    if m.info[id].inTried { assert m.vvTried[TriedSlot(h, s)] == id; TriedAlready(h, m, s, time); }
  }

  lemma TriedAlready(h: Keyed, m: Man, s: Service, time: int)
    requires Inv(h, m) && time > 0 && FindExact(m, s).Some? && m.info[FindExact(m, s).value].inTried
    ensures Good(h, m, s, time).info.Keys == m.info.Keys
  {
    hide Core, Slack;
  }

  ghost function Run(h: Keyed, m: Man, ops: seq<Op>): Man
    requires Inv(h, m) && forall op :: op in ops ==> Timed(op)
    decreases |ops|
  {
    if ops == [] then m else
      StepKeeps(h, m, ops[0]);
      Run(h, Step(h, m, ops[0]), ops[1..])
  }

  /** Every run from the cleared state satisfies what Check_ tests. */
  lemma {:induction false} RunKeeps(h: Keyed, m: Man, ops: seq<Op>)
    requires Inv(h, m) && forall op :: op in ops ==> Timed(op)
    ensures Inv(h, Run(h, m, ops))
    decreases |ops|
  {
    hide Inv, Step;
    if ops != [] {
      StepKeeps(h, m, ops[0]);
      RunKeeps(h, Step(h, m, ops[0]), ops[1..]);
    }
  }
}
