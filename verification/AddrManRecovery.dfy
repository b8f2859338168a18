/**
Loading any file (src/addrman.h), whoever wrote it: of whatever version, with bucket lists that say anything, and with
tried entries that collide. As long as no address is in it twice and the times make sense, what is loaded is a valid
address manager; entries are lost only where there is no room for them.
*/
module AddrManRecovery {
  import opened Wrappers
  import opened AddrMan
  import opened AddrManFile

  /** All entries of a file, the new ones first. */
  function All(f: File): seq<Saved> { f.news + f.trieds }

  /** No address twice, no time before 1970, and every tried entry succeeded once. */
  ghost predicate Sensible(f: File) {
    && (forall i, j :: 0 <= i < j < |All(f)| ==> All(f)[i].service.ip != All(f)[j].service.ip)
    && (forall i :: 0 <= i < |f.news| ==> f.news[i].lastSuccess >= 0)
    && (forall i :: 0 <= i < |f.trieds| ==> f.trieds[i].lastSuccess > 0)
  }

  /** An entry is as in the file; the first ids are the new entries. */
  ghost predicate FromFile(f: File, m: Man, id: int, n: nat)
    requires id in m.info && n <= |All(f)|
  {
    if m.info[id].inTried then id >= |f.news| && SavedPart(m.info[id]) in f.trieds[..Past(f, n)]
    else 0 <= id < n && id < |f.news| && SavedPart(m.info[id]) == f.news[id]
  }

  /** How many tried entries are among the first `n`. */
  function Past(f: File, n: nat): (k: nat)
    requires n <= |All(f)|
    ensures k <= |f.trieds|
  {
    if n <= |f.news| then 0 else n - |f.news|
  }

  /** The first `n` entries are read. */
  ghost predicate Loading(f: File, m: Man, n: nat)
    requires n <= |All(f)|
  {
    && Core(f.key, m) && Slack(m) == (f.nNew - (n - Past(f, n)), f.nTried - Past(f, n))
    && (if n <= |f.news| then m.idCount == n else m.idCount >= |f.news|)
    && (forall ip :: ip in m.addr ==> exists i :: 0 <= i < n && All(f)[i].service.ip == ip)
    && (forall id :: id in m.info ==> FromFile(f, m, id, n))
    && (forall k :: 0 <= k < Past(f, n) ==> TriedSlot(f.key, f.trieds[k].service) in m.vvTried)
  }

  /** Unless the bucket lists can be used, every reference is where the entry's own source would have put it. */
  ghost predicate AtHome(f: File, m: Man) {
    forall s :: s in m.vvNew ==> m.vvNew[s] in m.info && s == HomeSlot(f.key, m.info[m.vvNew[s]])
  }

  lemma CountersFree(h: Keyed, m: Man, nNew: int, nTried: int)
    requires Core(h, m)
    ensures Core(h, m.(nNew := nNew, nTried := nTried))
  {
    hide TriedSlot, NewSlot, Refs, Held;
    var m' := m.(nNew := nNew, nTried := nTried);
    forall k: nat, ip: Ip, s: Slot, t: Slot, i: int ensures ElementsOk(h, m', k, ip, s, t, i) {
      hide Core;
      Elements(h, m, k, ip, s, t, i);
    }
    AtCount(h, m);
    CoreFrom(h, m');
  }

  // ---------------------------------------------------------------- one entry

  /** An entry read from the file, not yet in any table. */
  function Entered(m: Man, x: Saved): Man {
    m.(idCount := m.idCount + 1, info := m.info[m.idCount := Restored(x).(randomPos := |m.random|)],
       addr := m.addr[x.service.ip := m.idCount], random := m.random + [m.idCount])
  }

  lemma EnteredKeeps(h: Keyed, m: Man, x: Saved)
    requires Core(h, m) && x.service.ip !in m.addr && x.lastSuccess >= 0
    ensures m.idCount !in m.info && m.idCount >= 0 && Core(h, Entered(m, x)) && Unreferenced(Entered(m, x), m.idCount)
    ensures Slack(Entered(m, x)) == (Slack(m).0 - 1, Slack(m).1)
  {
    hide Core, NewIds, TriedIds;
    var a, id := Address(x.service, x.time, x.services), m.idCount;
    AtCount(h, m);
    CreateKeeps(h, m, a, x.source);
    var m1 := Create(m, a, x.source);
    var m2 := WithInfo(m1, id, Restored(x).(randomPos := |m.random|));
    WithInfoKeeps(h, m1, id, m2.info[id]);
    CountersFree(h, m2, m.nNew, m.nTried);
    assert m1.info[id := m2.info[id]] == m.info[id := m2.info[id]];
    assert m2.(nNew := m.nNew, nTried := m.nTried) == Entered(m, x);
  }

  lemma NewIp(f: File, m: Man, n: nat)
    requires n < |All(f)| && Sensible(f) && Loading(f, m, n)
    ensures All(f)[n].service.ip !in m.addr
  {
    hide Core, Slack;
  }

  lemma NewKeeps(f: File, m: Man, n: nat)
    requires n < |f.news| && Sensible(f) && Loading(f, m, n) && (!Usable(f) ==> AtHome(f, m))
    ensures Loading(f, LoadNew(f, m, f.news[n]), n + 1)
    ensures !Usable(f) ==> AtHome(f, LoadNew(f, m, f.news[n]))
  {
    hide Core, Slack, HomeSlot, Sensible;
    var x := f.news[n];
    assert All(f)[n] == x;
    assert x.lastSuccess >= 0 by { NewTimes(f, n); }
    NewIp(f, m, n);
    EnteredKeeps(f.key, m, x);
    var m1, m' := Entered(m, x), LoadNew(f, m, x);
    var info := Restored(x).(randomPos := |m.random|);
    var slot := HomeSlot(f.key, info);
    if !Usable(f) && slot !in m.vvNew {
      HomeSlotIsNew(f.key, info);
      assert MayRefer(f.key, m1, slot, n);
      AddRefKeeps(f.key, m1, slot, n);
      assert m1.info[n := info.(refCount := 1)] == m.info[n := info.(refCount := 1)];
      assert m' == AddRef(m1, slot, n);
      HomeSlotSame(f.key, info, info.(refCount := 1));
    } else {
      assert m' == m1;
    }
    ReadOn(f, m, m', n, x);
  }

  lemma HomeSlotSame(h: Keyed, x: Info, y: Info)
    requires x.service == y.service && x.source == y.source
    ensures HomeSlot(h, x) == HomeSlot(h, y)
  {
  }

  lemma NewTimes(f: File, n: nat)
    requires Sensible(f)
    ensures n < |f.news| ==> f.news[n].lastSuccess >= 0
    ensures n < |f.trieds| ==> f.trieds[n].lastSuccess > 0
  {
  }

  /** What the file says about the addresses and entries, after one more. */
  lemma ReadOn(f: File, m: Man, m': Man, n: nat, x: Saved)
    requires n < |All(f)| && x == All(f)[n] && Loading(f, m, n)
    requires m'.addr == m.addr || m'.addr == m.addr[x.service.ip := m.idCount]
    requires m'.info == m.info ||
      (m.idCount in m'.info && m'.info == m.info[m.idCount := m'.info[m.idCount]] && FromFile(f, m', m.idCount, n + 1))
    ensures forall ip :: ip in m'.addr ==> exists i :: 0 <= i < n + 1 && All(f)[i].service.ip == ip
    ensures forall id :: id in m'.info ==> FromFile(f, m', id, n + 1)
  {
    hide Core, Slack;
    forall ip | ip in m'.addr ensures exists i :: 0 <= i < n + 1 && All(f)[i].service.ip == ip {
      if ip in m.addr {
        var i :| 0 <= i < n && All(f)[i].service.ip == ip;
      } else {
        assert All(f)[n].service.ip == ip;
      }
    }
    forall id | id in m'.info ensures FromFile(f, m', id, n + 1) {
      if id in m.info && m'.info[id] == m.info[id] {
        assert FromFile(f, m, id, n);
        if m.info[id].inTried { MorePast(f, n, SavedPart(m.info[id])); }
      }
    }
  }

  lemma MorePast(f: File, n: nat, x: Saved)
    requires n < |All(f)| && x in f.trieds[..Past(f, n)]
    ensures x in f.trieds[..Past(f, n + 1)]
  {
    var k :| 0 <= k < Past(f, n) && f.trieds[..Past(f, n)][k] == x;
    assert f.trieds[..Past(f, n + 1)][k] == x;
  }

  /** A tried entry whose slot is empty. */
  lemma TriedEnters(f: File, m: Man, x: Saved)
    requires Core(f.key, m) && x.service.ip !in m.addr && x.lastSuccess > 0 && TriedSlot(f.key, x.service) !in m.vvTried
    ensures var m', id := LoadTried(f, m, x), m.idCount;
      && Core(f.key, m') && Slack(m') == (Slack(m).0, Slack(m).1 - 1) && id !in m.info && id >= 0
      && m'.info == m.info[id := Restored(x).(randomPos := |m.random|, inTried := true)]
  {
    hide Core, Slack, TriedSlot;
    EnteredKeeps(f.key, m, x);
    var m1, id, m' := Entered(m, x), m.idCount, LoadTried(f, m, x);
    PromoteKeeps(f.key, m1, id);
    var m2 := Promote(f.key, m1, id);
    CountersFree(f.key, m2, m.nNew, m.nTried);
    assert m1.info[id := m1.info[id].(inTried := true)] == m.info[id := m1.info[id].(inTried := true)];
    assert m' == m2.(nNew := m.nNew, nTried := m.nTried);
    SlackOf(m2, m');
  }

  lemma TriedKeeps(f: File, m: Man, n: nat)
    requires |f.news| <= n < |All(f)| && Sensible(f) && Loading(f, m, n)
    ensures var m' := LoadTried(f, m, f.trieds[n - |f.news|]);
      Loading(f, m', n + 1) && m'.vvNew == m.vvNew && (AtHome(f, m) ==> AtHome(f, m'))
  {
    hide Core, Slack, TriedSlot, HomeSlot, Sensible;
    var k := n - |f.news|;
    var x := f.trieds[k];
    assert All(f)[n] == x;
    var m', slot := LoadTried(f, m, x), TriedSlot(f.key, x.service);
    if slot in m.vvTried {
      CountersFree(f.key, m, m.nNew, m.nTried - 1);
      SlackLost(m);
    } else {
      NewTimes(f, k);
      NewIp(f, m, n);
      TriedEnters(f, m, x);
      assert x == f.trieds[..k + 1][k];
      assert FromFile(f, m', m.idCount, n + 1);
    }
    ReadOn(f, m, m', n, x);
  }

  lemma SlackLost(m: Man)
    ensures Slack(m.(nTried := m.nTried - 1)) == (Slack(m).0, Slack(m).1 - 1)
  {
  }

  lemma SlackOf(m: Man, m': Man)
    requires m'.info == m.info
    ensures Slack(m') == (Slack(m).0 + m'.nNew - m.nNew, Slack(m).1 + m'.nTried - m.nTried)
  {
  }

  // ---------------------------------------------------------------- references

  /** All entries are read; references may still be missing. */
  ghost predicate Read(f: File, m: Man) { Loading(f, m, |All(f)|) }

  lemma RefKeeps(f: File, m: Man, bucket: nat, index: int)
    requires |f.news| == f.nNew && Read(f, m) && (Usable(f) ==> bucket < NEW_BUCKET_COUNT)
    ensures Read(f, LoadRef(f, m, bucket, index)) && LoadRef(f, m, bucket, index).info.Keys == m.info.Keys
    ensures !Usable(f) ==> LoadRef(f, m, bucket, index) == m
  {
    hide Core, Slack, NewSlot, TriedSlot;
    var m' := LoadRef(f, m, bucket, index);
    if m' != m {
      assert FromFile(f, m, index, |All(f)|);
      var slot := NewSlot(f.key, bucket, m.info[index].service);
      NewSlotBucket(f.key, bucket, m.info[index].service);
      assert MayRefer(f.key, m, slot, index);
      AddRefKeeps(f.key, m, slot, index);
      forall id | id in m'.info ensures FromFile(f, m', id, |All(f)|) { assert FromFile(f, m, id, |All(f)|); }
    }
  }

  lemma {:induction false} BucketKeeps(f: File, m: Man, bucket: nat, list: seq<int>)
    requires |f.news| == f.nNew && Read(f, m) && (Usable(f) ==> bucket < NEW_BUCKET_COUNT)
    ensures Read(f, LoadBucket(f, m, bucket, list)) && (!Usable(f) ==> LoadBucket(f, m, bucket, list) == m)
  {
    hide Read, LoadRef;
    if list != [] {
      var n := |list| - 1;
      BucketKeeps(f, m, bucket, list[..n]);
      RefKeeps(f, LoadBucket(f, m, bucket, list[..n]), bucket, list[n]);
    }
  }

  lemma {:induction false} BucketsKeep(f: File, m: Man, n: nat)
    requires |f.news| == f.nNew && Read(f, m) && n <= |f.buckets| == f.nUBuckets
    ensures Read(f, LoadBuckets(f, m, n)) && (!Usable(f) ==> LoadBuckets(f, m, n) == m)
  {
    hide Read, LoadBucket;
    if n > 0 {
      BucketsKeep(f, m, n - 1);
      BucketKeeps(f, LoadBuckets(f, m, n - 1), n - 1, f.buckets[n - 1]);
    }
  }

  // ---------------------------------------------------------------- pruning

  /** Entries below `n` have a reference or are tried, and those that have stay as they were. */
  lemma {:induction false} PruneKeeps(h: Keyed, m: Man, n: nat)
    requires Core(h, m)
    ensures var m' := Prune(m, n);
      && Core(h, m') && Slack(m') == Slack(m) && m'.vvNew == m.vvNew && m'.vvTried == m.vvTried
      && (forall id :: id in m'.info ==> id in m.info && SameButPosition(m.info[id], m'.info[id]))
      && (forall id :: 0 <= id < n ==> !Unreferenced(m', id))
      && (forall id :: id in m.info && !Unreferenced(m, id) ==> id in m'.info)
  {
    hide Core, Slack, Delete;
    if n > 0 {
      PruneKeeps(h, m, n - 1);
      var m1 := Prune(m, n - 1);
      if Unreferenced(m1, n - 1) {
        DeleteKeeps(h, m1, n - 1);
        DeleteOthers(m1, n - 1);
      }
    }
  }

  // ---------------------------------------------------------------- the whole file

  lemma {:induction false} NewsKeep(f: File, n: nat)
    requires Sensible(f) && n <= |f.news|
    ensures var m := LoadNews(f, Cleared.(nNew := f.nNew, nTried := f.nTried), n);
      Loading(f, m, n) && (!Usable(f) ==> AtHome(f, m))
  {
    hide LoadNew, Sensible, AtHome, Loading;
    if n == 0 { LoadingStarts(f); } else {
      NewsKeep(f, n - 1);
      NewKeeps(f, LoadNews(f, Cleared.(nNew := f.nNew, nTried := f.nTried), n - 1), n - 1);
    }
  }

  lemma LoadingStarts(f: File)
    ensures var m := Cleared.(nNew := f.nNew, nTried := f.nTried); Loading(f, m, 0) && AtHome(f, m)
  {
    ClearedHolds(f.key);
    CountersFree(f.key, Cleared, f.nNew, f.nTried);
    SlackOf(Cleared, Cleared.(nNew := f.nNew, nTried := f.nTried));
  }

  lemma {:induction false} TriedsKeep(f: File, m: Man, k: nat)
    requires Sensible(f) && k <= |f.trieds| && Loading(f, m, |f.news|)
    ensures var m' := LoadTrieds(f, m, k);
      Loading(f, m', |f.news| + k) && (AtHome(f, m) ==> AtHome(f, m'))
  {
    hide LoadTried, Sensible, AtHome, Loading;
    if k > 0 {
      TriedsKeep(f, m, k - 1);
      TriedKeeps(f, LoadTrieds(f, m, k - 1), |f.news| + k - 1);
    }
  }

  /**
  Whatever is loaded is valid: the counters, the tables and vRandom agree, every entry is one of the file, every tried
  entry is there or lost its slot to another, and without usable bucket lists every reference is in its home slot. A
  file is refused if and only if it announces too many entries, or holds not as many as it announces.
  */
  lemma LoadHolds(f: File)
    requires Sensible(f)
    ensures Load(f).Some? <==>
      && f.nNew <= 65536 && f.nTried <= 16384
      && |f.news| == f.nNew && |f.trieds| == f.nTried && |f.buckets| == f.nUBuckets
    ensures Load(f).Some? ==>
      var m := Load(f).value;
      && Inv(f.key, m)
      && (forall id :: id in m.info ==> FromFile(f, m, id, |All(f)|))
      && (forall k :: 0 <= k < |f.trieds| ==> TriedSlot(f.key, f.trieds[k].service) in m.vvTried)
      && (!(f.version == 1 && f.nUBuckets == 1024) ==> AtHome(f, m))
  {
    hide Sensible, LoadNews, LoadTrieds, LoadBuckets, Prune, TriedSlot, HomeSlot, Core, Slack;
    if Load(f).Some? {
      var m0 := Cleared.(nNew := f.nNew, nTried := f.nTried);
      NewsKeep(f, |f.news|);
      var m1 := LoadNews(f, m0, |f.news|);
      TriedsKeep(f, m1, |f.trieds|);
      var m2 := LoadTrieds(f, m1, |f.trieds|);
      BucketsKeep(f, m2, |f.buckets|);
      var m3 := LoadBuckets(f, m2, |f.buckets|);
      PruneKeeps(f.key, m3, |f.news| + |f.trieds|);
      var m := Prune(m3, |f.news| + |f.trieds|);
      Pruned(f, m3, m);
    }
  }

  lemma Pruned(f: File, m3: Man, m: Man)
    requires Read(f, m3) && Core(f.key, m) && Slack(m) == Slack(m3) && m.vvNew == m3.vvNew && m.vvTried == m3.vvTried
    requires |f.news| == f.nNew && |f.trieds| == f.nTried
    requires forall id :: id in m.info ==> id in m3.info && SameButPosition(m3.info[id], m.info[id])
    requires forall id :: 0 <= id < |f.news| + |f.trieds| ==> !Unreferenced(m, id)
    ensures Inv(f.key, m) && forall id :: id in m.info ==> FromFile(f, m, id, |All(f)|)
    ensures AtHome(f, m3) ==> AtHome(f, m)
  {
    hide Core, Slack, HomeSlot;
    forall id | id in m.info ensures FromFile(f, m, id, |All(f)|) && !Unreferenced(m, id) {
      assert FromFile(f, m3, id, |All(f)|);
    }
    if AtHome(f, m3) {
      forall s | s in m.vvNew ensures m.vvNew[s] in m.info && s == HomeSlot(f.key, m.info[m.vvNew[s]]) {
        Elements(f.key, m, 0, 0, s, s, 0);
        HomeSlotSame(f.key, m3.info[m.vvNew[s]], m.info[m.vvNew[s]]);
      }
    }
  }

  /** An address that is in the file twice is loaded twice, which is no valid state. */
  lemma TwiceLoaded(h: Keyed, x: Saved, y: Saved)
    requires x.service.ip == y.service.ip && TriedSlot(h, x.service) != TriedSlot(h, y.service)
    ensures var f := File(1, h, 0, 2, 0, [], [x, y], []);
      Load(f).Some? && !Inv(h, Load(f).value)
  {
    hide TriedSlot, Delete;
    var f := File(1, h, 0, 2, 0, [], [x, y], []);
    var m0 := Cleared.(nNew := 0, nTried := 2);
    assert LoadNews(f, m0, 0) == m0;
    var m1, m2 := LoadTrieds(f, m0, 1), LoadTrieds(f, m0, 2);
    assert LoadTrieds(f, m0, 0) == m0;
    assert 0 in m1.info && m1.info[0].inTried && m1.info[0].service == x.service;
    assert 0 in m2.info && m2.info[0].inTried && m2.info[1].inTried && m2.addr[x.service.ip] == 1;
    assert Prune(m2, 0) == m2 && Prune(m2, 1) == m2 && Prune(m2, 2) == m2;
    assert !EntryOk(h, m2, 0);
  }
}
