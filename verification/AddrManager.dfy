/**
The address manager as the object of src/addrman.h: maps, a vector and two fixed tables of slots updated in
place. Every method does to the object's value what the function of the same name in AddrMan does.
*/
module AddrManager {
  import opened Wrappers
  import opened Numbers
  import opened AddrMan

  /** The occupied slots of a table in which -1 marks an empty slot. */
  ghost function Table(a: array2<int>): map<Slot, int>
    reads a
  {
    map i: nat, j: nat | i < a.Length0 && j < a.Length1 && a[i, j] != -1 :: (i, j) := a[i, j]
  }

  lemma TableAt(a: array2<int>, s: Slot)
    ensures s in Table(a) <==> s.0 < a.Length0 && s.1 < a.Length1 && a[s.0, s.1] != -1
    ensures s in Table(a) ==> Table(a)[s] == a[s.0, s.1]
  {
    if s.0 < a.Length0 && s.1 < a.Length1 && a[s.0, s.1] != -1 {
      assert (s.0, s.1) in Table(a);
    }
  }

  lemma HeldAt(a: array2<int>, s: Slot, id: int)
    requires s.0 < a.Length0 && s.1 < a.Length1 && id >= 0
    ensures a[s.0, s.1] == id <==> Held(Table(a), s, id)
  {
    TableAt(a, s);
  }

  lemma SlotBounds(h: Keyed, bucket: nat, s: Service)
    ensures NewSlot(h, bucket, s).0 == bucket && NewSlot(h, bucket, s).1 < 64
    ensures TriedSlot(h, s).0 < 256 && TriedSlot(h, s).1 < 64
  {
  }

  method Put(a: array2<int>, s: Slot, v: int)
    requires s.0 < a.Length0 && s.1 < a.Length1
    modifies a
    ensures Table(a) == if v == -1 then old(Table(a)) - {s} else old(Table(a))[s := v]
  {
    ghost var before := Table(a);
    a[s.0, s.1] := v;
    forall t: Slot
      ensures t in Table(a) <==> if t == s then v != -1 else t in before
      ensures t in Table(a) ==> Table(a)[t] == if t == s then v else before[t]
    {
      TableAt(a, t);
      assert t != s ==> (t.0, t.1) != (s.0, s.1);
    }
  }

  /** The references to an entry from buckets before `b`. */
  ghost function RefsBelow(table: map<Slot, int>, id: int, b: nat): set<Slot> {
    set s | s in Refs(table, id) && s.0 < b
  }

  /** In each bucket there is one slot where the entry can be. */
  lemma RefsBelowNext(h: Keyed, m: Man, id: int, b: nat)
    requires Core(h, m) && id in m.info
    ensures var s := NewSlot(h, b, m.info[id].service);
      && RefsBelow(m.vvNew, id, b + 1) == RefsBelow(m.vvNew, id, b) + (if Held(m.vvNew, s, id) then {s} else {})
      && s !in RefsBelow(m.vvNew, id, b)
  {
    var s := NewSlot(h, b, m.info[id].service);
    forall t | t in Refs(m.vvNew, id) && t.0 == b ensures t == s {
      hide Core;
      Elements(h, m, 0, 0, t, t, id);
    }
  }

  lemma RefsBelowNone(table: map<Slot, int>, info: map<int, Info>, id: int)
    requires id in info
    ensures RefsBelow(table, id, 0) == {} && table - {} == table && WithRefCount(info, id, info[id].refCount) == info
  {
  }

  lemma RefsBelowAll(h: Keyed, m: Man, id: int)
    requires Core(h, m)
    ensures RefsBelow(m.vvNew, id, 1024) == Refs(m.vvNew, id)
  {
    forall t | t in Refs(m.vvNew, id) ensures t.0 < 1024 {
      hide Core;
      Elements(h, m, 0, 0, t, t, id);
    }
  }

  ghost function WithRefCount(info: map<int, Info>, id: int, c: int): map<int, Info>
    requires id in info
  {
    info[id := info[id].(refCount := c)]
  }

  class CAddrMan {
    const h: Keyed
    var nIdCount: int
    var mapInfo: map<int, Info>
    var mapAddr: map<Ip, int>
    var vRandom: seq<int>
    var nTried: int
    const vvTried: array2<int>
    var nNew: int
    const vvNew: array2<int>
    var nLastGood: int

    ghost predicate Shape()
    {
      && vvTried != vvNew && vvTried.Length0 == 256 && vvTried.Length1 == 64
      && vvNew.Length0 == 1024 && vvNew.Length1 == 64
    }

    /** The object's value. */
    ghost function M(): Man
      reads this, vvTried, vvNew
    {
      Man(nIdCount, mapInfo, mapAddr, vRandom, nTried, Table(vvTried), nNew, Table(vvNew), nLastGood)
    }

    constructor (h: Keyed)
      ensures Shape() && M() == Cleared && this.h == h && fresh(vvTried) && fresh(vvNew)
    {
      this.h := h;
      nIdCount, mapInfo, mapAddr, vRandom, nTried, nNew, nLastGood := 0, map[], map[], [], 0, 0, 1;
      vvTried := new int[256, 64]((i, j) => -1);
      vvNew := new int[1024, 64]((i, j) => -1);
    }

    method SwapRandom(nRndPos1: nat, nRndPos2: nat)
      requires Shape() && Core(h, M()) && nRndPos1 < |vRandom| && nRndPos2 < |vRandom|
      modifies `mapInfo, `vRandom
      ensures old(vRandom[nRndPos1] in mapInfo && vRandom[nRndPos2] in mapInfo)
      ensures M() == AddrMan.SwapRandom(old(M()), nRndPos1, nRndPos2) && Core(h, M())
    {
      hide Core, Table, Unreferenced, Slack;
      SwapRandomKeeps(h, M(), nRndPos1, nRndPos2);
      if nRndPos1 == nRndPos2 { return; }
      var nId1, nId2 := vRandom[nRndPos1], vRandom[nRndPos2];
      mapInfo := mapInfo[nId1 := mapInfo[nId1].(randomPos := nRndPos2)];
      mapInfo := mapInfo[nId2 := mapInfo[nId2].(randomPos := nRndPos1)];
      vRandom := vRandom[nRndPos1 := nId2];
      vRandom := vRandom[nRndPos2 := nId1];
    }

    method Delete(nId: int)
      requires Shape() && Core(h, M()) && Unreferenced(M(), nId)
      modifies `mapInfo, `vRandom, `mapAddr, `nNew
      ensures Deletable(old(M()), nId) && M() == AddrMan.Delete(old(M()), nId) && Core(h, M())
    {
      hide Core, Table, AddrMan.SwapRandom, Slack;
      DeleteKeeps(h, M(), nId);
      var last := |vRandom| - 1;
      ghost var m1 := AddrMan.SwapRandom(M(), mapInfo[nId].randomPos, last);
      SwapRandomBehind(M(), 0, mapInfo[nId].randomPos, last);
      SwapRandom(mapInfo[nId].randomPos, last);
      assert M() == m1;
      vRandom := vRandom[..last];
      mapAddr := mapAddr - {mapInfo[nId].service.ip};
      mapInfo := mapInfo - {nId};
      nNew := nNew - 1;
    }

    method ClearNew(slot: Slot)
      requires Shape() && Core(h, M()) && slot.0 < 1024 && slot.1 < 64
      modifies `mapInfo, `vRandom, `mapAddr, `nNew, vvNew
      ensures M() == AddrMan.ClearNew(h, old(M()), slot) && Core(h, M()) && vvNew[slot.0, slot.1] == -1
    {
      hide Core, Table, AddrMan.Delete, Slack;
      ghost var m := M();
      ClearNewKeeps(h, m, slot);
      TableAt(vvNew, slot);
      if vvNew[slot.0, slot.1] != -1 {
        RemoveRefKeeps(h, m, slot);
        ClearNewReady(h, m, slot);
        var nIdDelete := vvNew[slot.0, slot.1];
        mapInfo := mapInfo[nIdDelete := mapInfo[nIdDelete].(refCount := mapInfo[nIdDelete].refCount - 1)];
        Put(vvNew, slot, -1);
        assert M() == RemoveRef(m, slot);
        if mapInfo[nIdDelete].refCount == 0 { Delete(nIdDelete); }
      }
      TableAt(vvNew, slot);
    }
  
    /** One round of MakeTried's loop over the "new" buckets. */
    method UnrefBucket(nId: int, bucket: nat)
      requires Shape() && bucket < 1024 && nId >= 0 && nId in mapInfo
      modifies `mapInfo, vvNew
      ensures Unreffed(old(Table(vvNew)), old(mapInfo), Table(vvNew), mapInfo,
                       NewSlot(h, bucket, old(mapInfo[nId].service)), nId)
    {
      hide Table, NewSlot;
      var slot := NewSlot(h, bucket, mapInfo[nId].service);
      SlotBounds(h, bucket, mapInfo[nId].service);
      HeldAt(vvNew, slot, nId);
      if vvNew[slot.0, slot.1] == nId {
        Put(vvNew, slot, -1);
        mapInfo := mapInfo[nId := mapInfo[nId].(refCount := mapInfo[nId].refCount - 1)];
      }
    }

    /** MakeTried's first loop. */
    method UnrefBuckets(nId: int)
      requires Shape() && Core(h, M()) && nId in mapInfo && !mapInfo[nId].inTried
      modifies `mapInfo, vvNew
      ensures var refs := Refs(old(M()).vvNew, nId);
        && Table(vvNew) == old(M()).vvNew - refs
        && mapInfo == WithRefCount(old(mapInfo), nId, old(mapInfo[nId]).refCount - |refs|)
    {
      hide Core, Table, Held, Refs, NewSlot, RefsBelow, Unreffed, WithRefCount;
      ghost var m := M();
      EntryId(h, m, nId);
      RefsBelowNone(m.vvNew, m.info, nId);
      for bucket := 0 to 1024
        invariant Table(vvNew) == m.vvNew - RefsBelow(m.vvNew, nId, bucket)
        invariant mapInfo == WithRefCount(m.info, nId, m.info[nId].refCount - |RefsBelow(m.vvNew, nId, bucket)|)
      {
        RefsBelowNext(h, m, nId, bucket);
        UnreffedNext(m.vvNew, m.info, nId, RefsBelow(m.vvNew, nId, bucket), NewSlot(h, bucket, m.info[nId].service));
        UnrefBucket(nId, bucket);
      }
      RefsBelowAll(h, m, nId);
    }

    method UnrefAll(nId: int)
      requires Shape() && Core(h, M()) && nId in mapInfo && !mapInfo[nId].inTried
      modifies `mapInfo, vvNew
      ensures M() == AddrMan.UnrefAll(old(M()), nId) && Core(h, M()) && Unreferenced(M(), nId)
    {
      hide Core, Table, Refs, Slack, WithRefCount;
      ghost var m := M();
      UnrefAllKeeps(h, m, nId);
      UnrefBuckets(nId);
      Recounted(m.info, nId, m.info[nId].refCount - |Refs(m.vvNew, nId)|);
    }

    /** Take an entry out of the tried table; nNew counts it only when it has its reference. */
    method Demote(nId: int)
      requires Shape() && nId in mapInfo
      modifies `mapInfo, `nTried, vvTried
      ensures M() == Lowered(AddrMan.Demote(h, old(M()), nId))
    {
      hide Table, TriedSlot;
      SlotBounds(h, 0, mapInfo[nId].service);
      Put(vvTried, TriedSlot(h, mapInfo[nId].service), -1);
      mapInfo := mapInfo[nId := mapInfo[nId].(inTried := false)];
      nTried := nTried - 1;
    }

    /** Give an entry its first reference, in an empty slot. */
    method Enter(nId: int, slot: Slot)
      requires Shape() && nId in mapInfo && nId >= 0 && mapInfo[nId].refCount == 0 && slot.0 < 1024 && slot.1 < 64
      modifies `mapInfo, `nNew, vvNew
      ensures Lowered(M()) == AddRef(old(M()), slot, nId)
    {
      hide Table;
      mapInfo := mapInfo[nId := mapInfo[nId].(refCount := 1)];
      Put(vvNew, slot, nId);
      nNew := nNew + 1;
    }

    method Evict(nIdEvict: int)
      requires Shape() && Core(h, M()) && nIdEvict in mapInfo && mapInfo[nIdEvict].inTried
      modifies `mapInfo, `vRandom, `mapAddr, `nNew, `nTried, vvNew, vvTried
      ensures M() == AddrMan.Evict(h, old(M()), nIdEvict)
    {
      hide Core, Table, AddrMan.Demote, AddrMan.ClearNew, AddRef, HomeSlot, Slack;
      ghost var m := M();
      DemoteKeeps(h, m, nIdEvict);
      ghost var m1 := AddrMan.Demote(h, m, nIdEvict);
      var infoOld := mapInfo[nIdEvict];
      var slot := HomeSlot(h, infoOld);
      HomeSlotBounds(h, infoOld);
      EntryId(h, m, nIdEvict);
      Demote(nIdEvict);
      ClearNewLowered(h, m1, slot);
      UntouchedByClear(h, m1, slot, nIdEvict);
      ClearNew(slot);
      RefsLowered(AddrMan.ClearNew(h, m1, slot), slot, nIdEvict);
      Enter(nIdEvict, slot);
    }

    method MakeTried(nId: int)
      requires Shape() && Core(h, M()) && nId in mapInfo && !mapInfo[nId].inTried
      modifies `mapInfo, `vRandom, `mapAddr, `nNew, `nTried, vvNew, vvTried
      ensures M() == AddrMan.MakeTried(h, old(M()), nId)
    {
      hide Core, Table, AddrMan.UnrefAll, AddrMan.Evict, TriedSlot, Slack;
      EntryId(h, M(), nId);
      UnrefAll(nId);
      ghost var m1 := M();
      VacateKeeps(h, m1, nId);
      nNew := nNew - 1;
      VacateLowered(h, m1, nId);
      var slot := TriedSlot(h, mapInfo[nId].service);
      SlotBounds(h, 0, mapInfo[nId].service);
      TableAt(vvTried, slot);
      if vvTried[slot.0, slot.1] != -1 {
        Elements(h, M(), 0, 0, slot, slot, 0);
        Evict(vvTried[slot.0, slot.1]);
      }
      assert M() == Lowered(Vacate(h, m1, nId));
      Put(vvTried, slot, nId);
      nTried := nTried + 1;
      mapInfo := mapInfo[nId := mapInfo[nId].(inTried := true)];
    }

    /** A "new" bucket that refers to the entry, searching upward from `nRnd` and around; -1 if there is none. */
    method FindBucket(nId: int, nRnd: nat) returns (nUBucket: int)
      requires Shape() && nId in mapInfo && nId >= 0
      ensures nUBucket == -1 ||
        (0 <= nUBucket < 1024 && Held(Table(vvNew), NewSlot(h, nUBucket, mapInfo[nId].service), nId))
      ensures nUBucket == -1 ==> forall b: nat :: b < 1024 ==>
        !Held(Table(vvNew), NewSlot(h, b, mapInfo[nId].service), nId)
    {
      hide Table, Held, NewSlot;
      var s := mapInfo[nId].service;
      for n := 0 to 1024
        invariant forall k: nat :: k < n ==> !Held(Table(vvNew), NewSlot(h, Round(k, nRnd), s), nId)
      {
        var nB := Round(n, nRnd);
        var slot := NewSlot(h, nB, s);
        SlotBounds(h, nB, s);
        HeldAt(vvNew, slot, nId);
        if vvNew[slot.0, slot.1] == nId { return nB; }
      }
      forall b: nat | b < 1024 ensures !Held(Table(vvNew), NewSlot(h, b, s), nId) {
        var k := RoundReaches(b, nRnd);
      }
      return -1;
    }

    method Good(addr: Service, nTime: int, nRnd: nat)
      requires Shape() && Inv(h, M()) && nTime > 0
      modifies this, vvNew, vvTried
      ensures M() == AddrMan.Good(h, old(M()), addr, nTime) && Inv(h, M())
    {
      hide Core, Table, AddrMan.MakeTried, Held, NewSlot, Slack, Unreferenced;
      ghost var m := M();
      GoodKeeps(h, m, addr, nTime);
      nLastGood := nTime;
      if addr.ip !in mapAddr || mapAddr[addr.ip] !in mapInfo { return; }
      var nId := mapAddr[addr.ip];
      if mapInfo[nId].service != addr { return; }
      SomeBucketHoldsIfNew(h, m, nId);
      LastGoodKeeps(h, m, nTime);
      ghost var x := m.info[nId].(lastSuccess := nTime, lastTry := nTime, attempts := 0);
      WithInfoKeeps(h, M(), nId, x);
      mapInfo := mapInfo[nId := mapInfo[nId].(lastSuccess := nTime, lastTry := nTime, attempts := 0)];
      if mapInfo[nId].inTried { return; }
      var nUBucket := FindBucket(nId, nRnd);
      assert nUBucket != -1;
      MakeTried(nId);
    }

    method Create(addr: Address, addrSource: Ip) returns (nId: int)
      requires Shape()
      modifies `nIdCount, `mapInfo, `mapAddr, `vRandom
      ensures nId == old(nIdCount) && M() == Lowered(AddrMan.Create(old(M()), addr, addrSource))
    {
      hide Table;
      nId := nIdCount;
      nIdCount := nIdCount + 1;
      mapInfo := mapInfo[nId := NewInfo(addr, addrSource, |vRandom|)];
      mapAddr := mapAddr[addr.service.ip := nId];
      vRandom := vRandom + [nId];
    }

    /** The second half of Add_. */
    method Reference(nId: int, slot: Slot, now: int)
      requires Shape() && Core(h, M()) && nId in mapInfo && !mapInfo[nId].inTried && slot.0 < 1024 && slot.1 < 64
      modifies `mapInfo, `vRandom, `mapAddr, `nNew, vvNew
      ensures M() == AddrMan.Reference(h, old(M()), nId, slot, now)
    {
      hide Core, Table, AddrMan.ClearNew, AddrMan.Delete, IsTerrible, Slack;
      ghost var m := M();
      EntryId(h, m, nId);
      HeldAt(vvNew, slot, nId);
      if vvNew[slot.0, slot.1] != nId {
        TableAt(vvNew, slot);
        var fInsert := vvNew[slot.0, slot.1] == -1;
        if !fInsert {
          SlotOccupant(h, m, slot);
          var infoExisting := mapInfo[vvNew[slot.0, slot.1]];
          if IsTerrible(infoExisting, now) || (infoExisting.refCount > 1 && mapInfo[nId].refCount == 0) {
            fInsert := true;
          }
        }
        if fInsert {
          OthersSurvive(h, m, slot, nId);
          ClearNew(slot);
          mapInfo := mapInfo[nId := mapInfo[nId].(refCount := mapInfo[nId].refCount + 1)];
          Put(vvNew, slot, nId);
        } else if mapInfo[nId].refCount == 0 {
          DeleteKeeps(h, m, nId);
          Delete(nId);
        }
      }
    }

    /** The stochastic test of Add_. */
    method Lucky(nRefCount: int, draw: nat) returns (lucky: bool)
      ensures lucky <==> draw % Pow2(MaxInt(0, nRefCount)) == 0
    {
      var nFactor := 1;
      var n := 0;
      while n < nRefCount
        invariant 0 <= n && (n <= nRefCount || n == 0) && nFactor == Pow2(n)
      {
        nFactor := nFactor * 2;
        n := n + 1;
      }
      lucky := !(nFactor > 1 && draw % nFactor != 0);
    }

    /** What Add_ changes at once in an entry for a known address. */
    method Refresh(nId: int, addr: Address, penalty: int, now: int)
      requires nId in mapInfo
      modifies `mapInfo
      ensures mapInfo == old(mapInfo)[nId := Refreshed(old(mapInfo[nId]), addr, penalty, now)]
    {
      var info := mapInfo[nId];
      var fCurrentlyOnline := now - addr.time < 24 * 60 * 60;
      var nUpdateInterval := if fCurrentlyOnline then 60 * 60 else 24 * 60 * 60;
      if addr.time != 0 && (info.time == 0 || info.time < addr.time - nUpdateInterval - penalty) {
        info := info.(time := MaxInt(0, addr.time - penalty));
      }
      mapInfo := mapInfo[nId := info.(services := info.services + addr.services)];
    }

    /** Add_ for a known address. */
    method AddKnown(addr: Address, source: Ip, penalty: int, now: int, draw: nat)
      requires Shape() && Inv(h, M()) && addr.service.ip in mapAddr
      requires addr.service.ip == source ==> penalty == 0
      modifies `mapInfo, `mapAddr, `vRandom, `nNew, vvNew
      ensures M() == AddrMan.Add(h, old(M()), addr, source, penalty, now, true, draw).0
    {
      hide Core, Table, AddrMan.Reference, Refreshed, NewSlot, Slack, Unreferenced;
      ghost var m := M();
      var nId := mapAddr[addr.service.ip];
      Elements(h, m, 0, addr.service.ip, (0, 0), (0, 0), nId);
      RefreshKeeps(h, m, nId, addr, penalty, now);
      Refresh(nId, addr, penalty, now);
      assert M() == WithInfo(m, nId, Refreshed(m.info[nId], addr, penalty, now));
      var info := mapInfo[nId];
      if addr.time == 0 || (info.time != 0 && addr.time <= info.time) { return; }
      if info.inTried { return; }
      if info.refCount == 8 { return; }
      var lucky := Lucky(info.refCount, draw);
      if !lucky { return; }
      SlotBounds(h, NewBucket(h, info.service.ip, source), info.service);
      BucketBound(h, info.service.ip, source);
      Reference(nId, NewSlot(h, NewBucket(h, info.service.ip, source), info.service), now);
    }

    /** Add_ for an unknown address. */
    method AddUnknown(addr: Address, source: Ip, penalty: int, now: int, ghost draw: nat)
      requires Shape() && Inv(h, M()) && addr.service.ip !in mapAddr
      requires addr.service.ip == source ==> penalty == 0
      modifies `nIdCount, `mapInfo, `mapAddr, `vRandom, `nNew, vvNew
      ensures M() == AddrMan.Add(h, old(M()), addr, source, penalty, now, true, draw).0
    {
      hide Core, Table, AddrMan.Reference, NewSlot, Slack;
      ghost var m := M();
      CreatedKeeps(h, m, addr, source, penalty);
      var nId := Create(addr, source);
      mapInfo := mapInfo[nId := mapInfo[nId].(time := MaxInt(0, addr.time - penalty))];
      nNew := nNew + 1;
      assert M() == Created(m, addr, source, penalty);
      SlotBounds(h, NewBucket(h, addr.service.ip, source), addr.service);
      BucketBound(h, addr.service.ip, source);
      Reference(nId, NewSlot(h, NewBucket(h, addr.service.ip, source), addr.service), now);
    }

    /** `draw` is what the random source gives for the stochastic test, before reduction. */
    method Add(addr: Address, source: Ip, nTimePenalty: int, now: int, routable: bool, draw: nat) returns (fNew: bool)
      requires Shape() && Inv(h, M())
      modifies `nIdCount, `mapInfo, `mapAddr, `vRandom, `nNew, vvNew
      ensures (M(), fNew) == AddrMan.Add(h, old(M()), addr, source, nTimePenalty, now, routable, draw) && Inv(h, M())
    {
      hide Inv, Table, AddrMan.Reference, Created, Refreshed, NewSlot;
      AddKeeps(h, M(), addr, source, nTimePenalty, now, routable, draw);
      if !routable { return false; }
      var penalty := if addr.service.ip == source then 0 else nTimePenalty;
      if addr.service.ip in mapAddr {
        AddKnown(addr, source, penalty, now, draw);
        fNew := false;
      } else {
        AddUnknown(addr, source, penalty, now, draw);
        fNew := true;
      }
    }

    method Attempt(addr: Service, fCountFailure: bool, nTime: int)
      requires Shape() && Inv(h, M()) && nTime >= 0
      modifies `mapInfo
      ensures M() == AddrMan.Attempt(old(M()), addr, fCountFailure, nTime) && Inv(h, M())
    {
      hide Inv, Table;
      AttemptKeeps(h, M(), addr, fCountFailure, nTime);
      if addr.ip !in mapAddr || mapAddr[addr.ip] !in mapInfo { return; }
      var nId := mapAddr[addr.ip];
      var info := mapInfo[nId];
      if info.service != addr { return; }
      info := info.(lastTry := nTime);
      if fCountFailure && info.lastCountAttempt < nLastGood {
        info := info.(lastCountAttempt := nTime, attempts := info.attempts + 1);
      }
      mapInfo := mapInfo[nId := info];
    }

    method Connected(addr: Service, nTime: int)
      requires Shape() && Inv(h, M())
      modifies `mapInfo
      ensures M() == AddrMan.Connected(old(M()), addr, nTime) && Inv(h, M())
    {
      hide Inv, Table;
      ConnectedKeeps(h, M(), addr, nTime);
      if addr.ip !in mapAddr || mapAddr[addr.ip] !in mapInfo { return; }
      var nId := mapAddr[addr.ip];
      var info := mapInfo[nId];
      if info.service != addr { return; }
      if nTime - info.time > 20 * 60 { mapInfo := mapInfo[nId := info.(time := nTime)]; }
    }

    method SetServices(addr: Service, nServices: set<nat>)
      requires Shape() && Inv(h, M())
      modifies `mapInfo
      ensures M() == AddrMan.SetServices(old(M()), addr, nServices) && Inv(h, M())
    {
      hide Inv, Table;
      SetServicesKeeps(h, M(), addr, nServices);
      if addr.ip !in mapAddr || mapAddr[addr.ip] !in mapInfo { return; }
      var nId := mapAddr[addr.ip];
      if mapInfo[nId].service != addr { return; }
      mapInfo := mapInfo[nId := mapInfo[nId].(services := nServices)];
    }

    method GetAddr(draws: nat -> nat, now: int) returns (vAddr: seq<Address>)
      requires Shape() && Inv(h, M())
      modifies `mapInfo, `vRandom
      ensures (M(), vAddr) == AddrMan.GetAddr(h, old(M()), draws, now) && Inv(h, M())
    {
      hide Core, Table, AddrMan.SwapRandom, IsTerrible, Slack, Unreferenced, Acceptable, GetAddrFrom, Answers;
      ghost var m := M();
      GetAddrKeeps(h, m, draws, now);
      var nNodes := 23 * |vRandom| / 100;
      if nNodes > 2500 { nNodes := 2500; }
      vAddr := [];
      var n := 0;
      while n < |vRandom| && |vAddr| < nNodes
        invariant n <= |vRandom| && Core(h, M()) && Table(vvTried) == m.vvTried && Table(vvNew) == m.vvNew
        invariant GetAddrFrom(h, M(), n, nNodes, draws, now, vAddr) == AddrMan.GetAddr(h, m, draws, now)
      {
        var nRndPos := draws(n) % (|vRandom| - n) + n;
        GetAddrUnfold(h, M(), n, nNodes, draws, now, vAddr);
        SwapRandom(n, nRndPos);
        var ai := mapInfo[vRandom[n]];
        if !IsTerrible(ai, now) { vAddr := vAddr + [AddressOf(ai)]; }
        n := n + 1;
      }
      GetAddrStops(h, M(), n, nNodes, draws, now, vAddr);
    }
  }

  function Round(n: nat, nRnd: nat): nat { (n + nRnd) % 1024 }

  /** Going around reaches every bucket. */
  lemma RoundReaches(b: nat, nRnd: nat) returns (k: nat)
    requires b < 1024
    ensures k < 1024 && Round(k, nRnd) == b
  {
    k := (b + 1024 - nRnd % 1024) % 1024;
  }

  lemma SomeBucketHoldsIfNew(h: Keyed, m: Man, id: int)
    requires Inv(h, m) && id in m.info
    ensures id >= 0
    ensures !m.info[id].inTried ==> exists b: nat :: b < 1024 && Held(m.vvNew, NewSlot(h, b, m.info[id].service), id)
  {
    EntryId(h, m, id);
    if !m.info[id].inTried { SomeBucketHolds(h, m, id); }
  }

  lemma BucketBound(h: Keyed, ip: Ip, source: Ip)
    ensures NewBucket(h, ip, source) < 1024
  {
  }

  lemma HomeSlotBounds(h: Keyed, x: Info)
    ensures HomeSlot(h, x).0 < 1024 && HomeSlot(h, x).1 < 64
  {
  }

  lemma EntryId(h: Keyed, m: Man, id: int)
    requires Core(h, m) && id in m.info
    ensures id >= 0
  {
    hide Core;
    AtId(h, m, id);
  }

  /** If the slot refers to the entry, the reference is gone and no longer counted. */
  ghost predicate Unreffed(table: map<Slot, int>, info: map<int, Info>, table': map<Slot, int>, info': map<int, Info>,
      slot: Slot, id: int)
    requires id in info
  {
    if Held(table, slot, id) then
      table' == table - {slot} && info' == info[id := info[id].(refCount := info[id].refCount - 1)]
    else table' == table && info' == info
  }

  lemma Recounted(info: map<int, Info>, id: int, c: int)
    requires id in info
    ensures WithRefCount(info, id, c) == info[id := info[id].(refCount := c)]
  {
  }

  lemma UnreffedNext(table: map<Slot, int>, info: map<int, Info>, id: int, seen: set<Slot>, slot: Slot)
    requires id in info && slot !in seen
    ensures var before := WithRefCount(info, id, info[id].refCount - |seen|);
      && id in before && before[id].service == info[id].service
      && forall table', info' :: Unreffed(table - seen, before, table', info', slot, id) ==>
           var now := seen + if Held(table, slot, id) then {slot} else {};
           table' == table - now && info' == WithRefCount(info, id, info[id].refCount - |now|)
  {
    var before := WithRefCount(info, id, info[id].refCount - |seen|);
    if Held(table, slot, id) {
      assert (table - seen) - {slot} == table - (seen + {slot});
      assert |seen + {slot}| == |seen| + 1;
    } else {
      assert seen + {} == seen;
    }
  }
}
