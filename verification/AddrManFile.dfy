/**
Saving and loading the address manager (src/addrman.h): the file holds the "new" entries, the tried entries
and, for each "new" bucket, the numbers of its entries. Everything else is rebuilt.
*/
module AddrManFile {
  import opened Numbers
  import opened Wrappers
  import opened AddrMan

  /** The part of an entry that is on disk. */
  datatype Saved = Saved(service: Service, time: int, services: set<nat>, source: Ip, lastSuccess: int, attempts: int)

  function SavedPart(x: Info): Saved {
    Saved(x.service, x.time, x.services, x.source, x.lastSuccess, x.attempts)
  }

  /** An entry as read from disk; the rest has its default value. */
  function Restored(x: Saved): Info {
    Info(x.service, x.time, x.services, x.source, x.lastSuccess, 0, 0, x.attempts, 0, false, -1)
  }

  datatype File = File(
    version: nat, key: Keyed, nNew: int, nTried: int, nUBuckets: nat,
    news: seq<Saved>, trieds: seq<Saved>, buckets: seq<seq<int>>)

  // ---------------------------------------------------------------- saving

  /** A sequence that visits each entry once, as iterating over mapInfo does. */
  ghost predicate Visits(order: seq<int>, m: Man) {
    && (forall id :: id in order <==> id in m.info)
    && forall i, j :: 0 <= i < j < |order| ==> order[i] != order[j]
  }

  function Select(order: seq<int>, m: Man, tried: bool): seq<int>
    requires forall id :: id in order ==> id in m.info
  {
    if order == [] then [] else
      var last := order[|order| - 1];
      assert last in order;
      Select(order[..|order| - 1], m, tried) +
      if (if tried then m.info[last].inTried else m.info[last].refCount != 0) then [last] else []
  }

  function SavedParts(ids: seq<int>, m: Man): (r: seq<Saved>)
    requires forall id :: id in ids ==> id in m.info
    ensures |r| == |ids|
  {
    if ids == [] then [] else
      var last := ids[|ids| - 1];
      assert last in ids;
      SavedParts(ids[..|ids| - 1], m) + [SavedPart(m.info[last])]
  }

  /** Where an id stands in a sequence that has it. */
  ghost function Index(ids: seq<int>, id: int): (k: nat)
    requires id in ids
    ensures k < |ids| && ids[k] == id
  {
    var k :| 0 <= k < |ids| && ids[k] == id;
    k
  }

  /** The numbers written for the first `n` positions of a bucket. */
  ghost function BucketList(table: map<Slot, int>, ids: seq<int>, bucket: nat, n: nat): seq<int>
    requires forall s :: s in table ==> table[s] in ids
  {
    if n == 0 then [] else
      BucketList(table, ids, bucket, n - 1) +
      if (bucket, n - 1) in table then [Index(ids, table[(bucket, n - 1)])] else []
  }

  ghost function Save(h: Keyed, m: Man, order: seq<int>): File
    requires Inv(h, m) && Visits(order, m)
  {
    SelectLists(h, m, order);
    var news, trieds := Select(order, m, false), Select(order, m, true);
    NewRefsListed(h, m, news, trieds);
    File(1, h, m.nNew, m.nTried, NEW_BUCKET_COUNT, SavedParts(news, m), SavedParts(trieds, m),
         BucketLists(m.vvNew, news, NEW_BUCKET_COUNT))
  }

  ghost function BucketLists(table: map<Slot, int>, ids: seq<int>, n: nat): (r: seq<seq<int>>)
    requires forall s :: s in table ==> table[s] in ids
    ensures |r| == n && forall b :: 0 <= b < n ==> r[b] == BucketList(table, ids, b, BUCKET_SIZE)
  {
    if n == 0 then [] else BucketLists(table, ids, n - 1) + [BucketList(table, ids, n - 1, BUCKET_SIZE)]
  }

  lemma NewRefsListed(h: Keyed, m: Man, news: seq<int>, trieds: seq<int>)
    requires Inv(h, m) && Lists(m, news, trieds)
    ensures forall s :: s in m.vvNew ==> m.vvNew[s] in news
  {
    forall s | s in m.vvNew ensures m.vvNew[s] in news {
      hide Core;
      Elements(h, m, 0, 0, s, s, 0);
    }
  }

  // ---------------------------------------------------------------- loading

  /** Whether the file's bucket lists can be used. */
  predicate Usable(f: File) { f.version == 1 && f.nUBuckets == NEW_BUCKET_COUNT }

  /** Read one "new" entry; without usable buckets it goes to its home slot if that is empty. */
  function LoadNew(f: File, m: Man, x: Saved): Man {
    var n := m.idCount;
    var info := Restored(x).(randomPos := |m.random|);
    var slot := HomeSlot(f.key, info);
    var refer := !Usable(f) && slot !in m.vvNew;
    m.(idCount := n + 1, info := m.info[n := if refer then info.(refCount := 1) else info],
       addr := m.addr[x.service.ip := n], random := m.random + [n],
       vvNew := if refer then m.vvNew[slot := n] else m.vvNew)
  }

  function LoadNews(f: File, m: Man, n: nat): Man
    requires n <= |f.news|
  {
    if n == 0 then m else LoadNew(f, LoadNews(f, m, n - 1), f.news[n - 1])
  }

  /** Read one tried entry; it is lost if its slot is taken. */
  function LoadTried(f: File, m: Man, x: Saved): Man {
    var slot := TriedSlot(f.key, x.service);
    if slot in m.vvTried then m.(nTried := m.nTried - 1) else
      var id := m.idCount;
      m.(idCount := id + 1, info := m.info[id := Restored(x).(randomPos := |m.random|, inTried := true)],
         addr := m.addr[x.service.ip := id], random := m.random + [id], vvTried := m.vvTried[slot := id])
  }

  function LoadTrieds(f: File, m: Man, n: nat): Man
    requires n <= |f.trieds|
  {
    if n == 0 then m else LoadTried(f, LoadTrieds(f, m, n - 1), f.trieds[n - 1])
  }

  /** Read one number of a bucket's list. */
  function LoadRef(f: File, m: Man, bucket: nat, index: int): Man {
    if !(0 <= index < f.nNew && index in m.info) then m else
      var slot := NewSlot(f.key, bucket, m.info[index].service);
      if Usable(f) && slot !in m.vvNew && m.info[index].refCount < NEW_BUCKETS_PER_ADDRESS then
        AddRef(m, slot, index)
      else m
  }

  function LoadBucket(f: File, m: Man, bucket: nat, list: seq<int>): Man {
    if list == [] then m else LoadRef(f, LoadBucket(f, m, bucket, list[..|list| - 1]), bucket, list[|list| - 1])
  }

  function LoadBuckets(f: File, m: Man, n: nat): Man
    requires n <= |f.buckets|
  {
    if n == 0 then m else LoadBucket(f, LoadBuckets(f, m, n - 1), n - 1, f.buckets[n - 1])
  }

  /** Drop the "new" entries below `n` that got no reference. */
  ghost function Prune(m: Man, n: nat): Man {
    if n == 0 then m else
      var m1 := Prune(m, n - 1);
      if Deletable(m1, n - 1) then Delete(m1, n - 1) else m1
  }

  ghost function Load(f: File): Option<Man> {
    if f.nNew > NEW_BUCKET_COUNT * BUCKET_SIZE || f.nTried > TRIED_BUCKET_COUNT * BUCKET_SIZE then None
    else if |f.news| != f.nNew || |f.trieds| != f.nTried || |f.buckets| != f.nUBuckets then None
    else
      var m1 := LoadNews(f, Cleared.(nNew := f.nNew, nTried := f.nTried), |f.news|);
      var m2 := LoadTrieds(f, m1, |f.trieds|);
      var m3 := LoadBuckets(f, m2, |f.buckets|);
      Some(Prune(m3, |f.news| + |f.trieds|))
  }

  // ---------------------------------------------------------------- what was selected

  lemma {:induction false} SelectIs(order: seq<int>, m: Man, tried: bool)
    requires Distinct(order) && forall id :: id in order ==> id in m.info
    ensures Distinct(Select(order, m, tried))
    ensures forall id :: id in Select(order, m, tried) <==>
      id in order && if tried then m.info[id].inTried else m.info[id].refCount != 0
  {
    if order != [] {
      var last := order[|order| - 1];
      assert last in order && last !in order[..|order| - 1];
      SelectIs(order[..|order| - 1], m, tried);
    }
  }

  /** `news` and `trieds` list the entries of each kind, each once. */
  ghost predicate Lists(m: Man, news: seq<int>, trieds: seq<int>) {
    && Distinct(news) && Distinct(trieds)
    && (forall id :: id in news <==> id in m.info && !m.info[id].inTried)
    && (forall id :: id in trieds <==> id in m.info && m.info[id].inTried)
  }

  lemma SelectLists(h: Keyed, m: Man, order: seq<int>)
    requires Inv(h, m) && Visits(order, m)
    ensures Lists(m, Select(order, m, false), Select(order, m, true))
  {
    SelectIs(order, m, false);
    SelectIs(order, m, true);
    forall id | id in m.info ensures m.info[id].refCount != 0 <==> !m.info[id].inTried {
      AtId(h, m, id);
      assert !Unreferenced(m, id);
    }
  }

  lemma IndexIs(ids: seq<int>, k: nat)
    requires Distinct(ids) && k < |ids|
    ensures ids[k] in ids && Index(ids, ids[k]) == k
  {
  }

  lemma ListsDistinct(m: Man, news: seq<int>, trieds: seq<int>)
    requires Lists(m, news, trieds)
    ensures Distinct(news + trieds) && (forall id :: id in news + trieds <==> id in m.info)
    ensures forall k :: 0 <= k < |news| + |trieds| ==> KindAt(m, news, trieds, k)
  {
    var ids := news + trieds;
    forall k | 0 <= k < |ids| ensures KindAt(m, news, trieds, k) {
      var id := ids[k];
      if k < |news| {
        assert id == news[k] && id in news;
      } else {
        assert id == trieds[k - |news|] && id in trieds;
      }
    }
    forall i, j | 0 <= i < j < |ids| ensures ids[i] != ids[j] {
      assert KindAt(m, news, trieds, i) && KindAt(m, news, trieds, j);
    }
  }

  /** The tried entries have the higher numbers. */
  ghost predicate KindAt(m: Man, news: seq<int>, trieds: seq<int>, k: nat)
    requires k < |news| + |trieds|
  {
    (news + trieds)[k] in m.info && (m.info[(news + trieds)[k]].inTried <==> |news| <= k)
  }

  // ---------------------------------------------------------------- the state while loading

  /** `ids` numbers the entries: first the `nn` that are not tried. */
  ghost predicate Numbering(m: Man, ids: seq<int>, nn: nat) {
    && nn <= |ids| && Distinct(ids) && (forall id :: id in ids <==> id in m.info)
    && forall k :: 0 <= k < |ids| ==> ids[k] in m.info && (m.info[ids[k]].inTried <==> nn <= k)
  }

  /** An index with its ids replaced by their numbers, keeping the numbers below `n`. */
  ghost function Below<X>(t: map<X, int>, ids: seq<int>, n: nat): map<X, int>
    requires forall x :: x in t ==> t[x] in ids
  {
    map x | x in t && Index(ids, t[x]) < n :: Index(ids, t[x])
  }

  lemma BelowStep<X>(t: map<X, int>, ids: seq<int>, n: nat, x0: X)
    requires Distinct(ids) && n < |ids| && (forall x :: x in t ==> t[x] in ids)
    requires x0 in t && forall x :: x in t ==> (t[x] == ids[n] <==> x == x0)
    ensures Below(t, ids, n + 1) == Below(t, ids, n)[x0 := n] && x0 !in Below(t, ids, n)
  {
    IndexIs(ids, n);
  }

  lemma BelowSkip<X>(t: map<X, int>, ids: seq<int>, n: nat)
    requires Distinct(ids) && n < |ids| && (forall x :: x in t ==> t[x] in ids)
    requires forall x :: x in t ==> t[x] != ids[n]
    ensures Below(t, ids, n + 1) == Below(t, ids, n)
  {
    IndexIs(ids, n);
  }

  function Entry(x: Info, k: int, refs: int): Info {
    Restored(SavedPart(x)).(randomPos := k, inTried := x.inTried, refCount := refs)
  }

  ghost function Entries(m: Man, ids: seq<int>, n: nat, table: map<Slot, int>): map<int, Info>
    requires n <= |ids| && forall k :: 0 <= k < |ids| ==> ids[k] in m.info
  {
    map k | 0 <= k < n :: Entry(m.info[ids[k]], k, |Refs(table, k)|)
  }

  function Upto(n: nat): seq<int> {
    if n == 0 then [] else Upto(n - 1) + [n - 1]
  }

  /** Every index refers to numbered entries only. */
  ghost predicate Closed(m: Man, ids: seq<int>) {
    && (forall ip :: ip in m.addr ==> m.addr[ip] in ids) && (forall s :: s in m.vvTried ==> m.vvTried[s] in ids)
    && (forall s :: s in m.vvNew ==> m.vvNew[s] in ids) && forall k :: 0 <= k < |ids| ==> ids[k] in m.info
  }

  /** What has been rebuilt from the first `n` entries and the references in `table`. */
  ghost function Stage(m: Man, ids: seq<int>, n: nat, table: map<Slot, int>): Man
    requires Closed(m, ids) && n <= |ids|
  {
    Man(n, Entries(m, ids, n, table), Below(m.addr, ids, n), Upto(n),
        m.nTried, Below(m.vvTried, ids, n), m.nNew, table, 1)
  }

  lemma ClosedIs(h: Keyed, m: Man, ids: seq<int>, nn: nat)
    requires Core(h, m) && Numbering(m, ids, nn)
    ensures Closed(m, ids)
  {
    forall ip | ip in m.addr ensures m.addr[ip] in ids { AddrNumbered(h, m, ids, nn, ip); }
    forall s | s in m.vvTried ensures m.vvTried[s] in ids {
      hide Core;
      Elements(h, m, 0, 0, s, s, 0);
    }
    forall s | s in m.vvNew ensures m.vvNew[s] in ids {
      hide Core;
      Elements(h, m, 0, 0, s, s, 0);
    }
  }

  lemma AddrNumbered(h: Keyed, m: Man, ids: seq<int>, nn: nat, ip: Ip)
    requires Core(h, m) && Numbering(m, ids, nn) && ip in m.addr
    ensures m.addr[ip] in ids
  {
    hide Core;
    Elements(h, m, 0, ip, (0, 0), (0, 0), 0);
    var id := m.addr[ip];
    assert id in m.info;
    assert id in ids;
  }

  lemma AddrUnique(h: Keyed, m: Man, id: int)
    requires Core(h, m) && id in m.info
    ensures m.info[id].service.ip in m.addr
    ensures forall ip :: ip in m.addr ==> (m.addr[ip] == id <==> ip == m.info[id].service.ip)
  {
    AtId(h, m, id);
    forall ip | ip in m.addr && m.addr[ip] == id ensures ip == m.info[id].service.ip {
      hide Core;
      Elements(h, m, 0, ip, (0, 0), (0, 0), id);
    }
  }

  lemma TriedUnique(h: Keyed, m: Man, id: int)
    requires Core(h, m) && id in m.info
    ensures m.info[id].inTried ==> TriedSlot(h, m.info[id].service) in m.vvTried
    ensures m.info[id].inTried ==> forall s :: s in m.vvTried ==>
      (m.vvTried[s] == id <==> s == TriedSlot(h, m.info[id].service))
    ensures !m.info[id].inTried ==> forall s :: s in m.vvTried ==> m.vvTried[s] != id
  {
    AtId(h, m, id);
    hide TriedSlot;
    forall s | s in m.vvTried && m.vvTried[s] == id
      ensures m.info[id].inTried && s == TriedSlot(h, m.info[id].service)
    {
      hide Core;
      Elements(h, m, 0, 0, s, s, id);
    }
  }

  lemma EntriesStep(m: Man, ids: seq<int>, n: nat)
    requires n < |ids| && forall k :: 0 <= k < |ids| ==> ids[k] in m.info
    ensures Entries(m, ids, n + 1, map[]) == Entries(m, ids, n, map[])[n := Entry(m.info[ids[n]], n, 0)]
  {
    assert Refs(map[], n) == {};
  }

  lemma UptoLength(n: nat)
    ensures |Upto(n)| == n
  {
  }

  lemma LoadNewStep(h: Keyed, f: File, m: Man, ids: seq<int>, nn: nat, n: nat)
    requires Core(h, m) && Numbering(m, ids, nn) && Closed(m, ids) && n < nn && Usable(f)
    ensures LoadNew(f, Stage(m, ids, n, map[]), SavedPart(m.info[ids[n]])) == Stage(m, ids, n + 1, map[])
  {
    hide Core, Entries, Below, HomeSlot, TriedSlot;
    var id := ids[n];
    AddrUnique(h, m, id);
    TriedUnique(h, m, id);
    BelowStep(m.addr, ids, n, m.info[id].service.ip);
    BelowSkip(m.vvTried, ids, n);
    EntriesStep(m, ids, n);
    UptoLength(n);
  }

  lemma LoadTriedStep(h: Keyed, f: File, m: Man, ids: seq<int>, nn: nat, n: nat)
    requires Core(h, m) && Numbering(m, ids, nn) && Closed(m, ids) && nn <= n < |ids| && f.key == h
    ensures LoadTried(f, Stage(m, ids, n, map[]), SavedPart(m.info[ids[n]])) == Stage(m, ids, n + 1, map[])
  {
    hide Core, Entries, Below, TriedSlot;
    var id := ids[n];
    AddrUnique(h, m, id);
    TriedUnique(h, m, id);
    BelowStep(m.addr, ids, n, m.info[id].service.ip);
    BelowStep(m.vvTried, ids, n, TriedSlot(h, m.info[id].service));
    EntriesStep(m, ids, n);
    UptoLength(n);
  }

  /** The references from slots before position `i` of bucket `b`, with numbers for ids. */
  ghost function Part(table: map<Slot, int>, ids: seq<int>, b: nat, i: nat): map<Slot, int>
    requires forall s :: s in table ==> table[s] in ids
  {
    map s | s in table && (s.0 < b || (s.0 == b && s.1 < i)) :: Index(ids, table[s])
  }

  lemma PartStep(table: map<Slot, int>, ids: seq<int>, b: nat, i: nat)
    requires forall s :: s in table ==> table[s] in ids
    ensures (b, i) !in Part(table, ids, b, i)
    ensures Part(table, ids, b, i + 1) ==
      if (b, i) in table then Part(table, ids, b, i)[(b, i) := Index(ids, table[(b, i)])] else Part(table, ids, b, i)
  {
    forall s: Slot | s in table ensures s == (s.0, s.1) {}
  }

  lemma PartRefs(table: map<Slot, int>, ids: seq<int>, b: nat, i: nat, k: nat)
    requires Distinct(ids) && k < |ids| && (forall s :: s in table ==> table[s] in ids)
    ensures Refs(Part(table, ids, b, i), k) <= Refs(table, ids[k])
  {
  }

  /** There is room for one more reference. */
  lemma PartRoom(table: map<Slot, int>, ids: seq<int>, b: nat, i: nat)
    requires Distinct(ids) && (forall s :: s in table ==> table[s] in ids) && (b, i) in table
    ensures |Refs(Part(table, ids, b, i), Index(ids, table[(b, i)]))| < |Refs(table, table[(b, i)])|
  {
    var k := Index(ids, table[(b, i)]);
    PartRefs(table, ids, b, i, k);
    var some, all := Refs(Part(table, ids, b, i), k), Refs(table, ids[k]);
    assert (b, i) in all && (b, i) !in some;
    SubsetSize(some, all);
  }

  lemma EntriesRefer(m: Man, ids: seq<int>, table: map<Slot, int>, slot: Slot, k: nat)
    requires k < |ids| && slot !in table && forall k :: 0 <= k < |ids| ==> ids[k] in m.info
    ensures var es := Entries(m, ids, |ids|, table);
      && k in es
      && Entries(m, ids, |ids|, table[slot := k]) == es[k := es[k].(refCount := es[k].refCount + 1)]
  {
    hide Refs;
    forall j: int ensures |Refs(table[slot := k], j)| == |Refs(table, j)| + if j == k then 1 else 0 {
      RefsPut(table, slot, k, j);
    }
  }

  lemma LoadRefStep(h: Keyed, f: File, m: Man, ids: seq<int>, nn: nat, b: nat, i: nat)
    requires Core(h, m) && Numbering(m, ids, nn) && Closed(m, ids) && Usable(f) && f.key == h && f.nNew == nn
    requires (b, i) in m.vvNew
    ensures LoadRef(f, Stage(m, ids, |ids|, Part(m.vvNew, ids, b, i)), b, Index(ids, m.vvNew[(b, i)])) ==
      Stage(m, ids, |ids|, Part(m.vvNew, ids, b, i + 1))
  {
    hide Core, Entries, Below, Part, Refs, NewSlot, Index;
    var table := Part(m.vvNew, ids, b, i);
    var k := Index(ids, m.vvNew[(b, i)]);
    LoadRefReady(h, m, ids, nn, b, i);
    PartStep(m.vvNew, ids, b, i);
    var st := Stage(m, ids, |ids|, table);
    EntriesRefer(m, ids, table, (b, i), k);
    assert st.info == Entries(m, ids, |ids|, table);
  }

  lemma LoadRefReady(h: Keyed, m: Man, ids: seq<int>, nn: nat, b: nat, i: nat)
    requires Core(h, m) && Numbering(m, ids, nn) && Closed(m, ids) && (b, i) in m.vvNew
    ensures var k := Index(ids, m.vvNew[(b, i)]);
      var x := Entries(m, ids, |ids|, Part(m.vvNew, ids, b, i))[k];
      k < nn && NewSlot(h, b, x.service) == (b, i) && x.refCount < 8
  {
    var id := m.vvNew[(b, i)];
    Elements(h, m, 0, 0, (b, i), (b, i), id);
    PartRoom(m.vvNew, ids, b, i);
    hide Core, Part, Refs, NewSlot;
  }

  // ---------------------------------------------------------------- loading what was saved

  ghost predicate FileOf(h: Keyed, f: File, m: Man, ids: seq<int>, nn: nat) {
    && Closed(m, ids) && nn <= |ids| && Usable(f) && f.key == h
    && f.nNew == nn == m.nNew && f.nTried == |ids| - nn == m.nTried
    && |f.news| == nn && |f.trieds| == |ids| - nn && |f.buckets| == NEW_BUCKET_COUNT
    && (forall k :: 0 <= k < nn ==> f.news[k] == SavedPart(m.info[ids[k]]))
    && (forall k :: 0 <= k < |ids| - nn ==> f.trieds[k] == SavedPart(m.info[ids[nn + k]]))
    && (forall b :: 0 <= b < NEW_BUCKET_COUNT ==> f.buckets[b] == BucketList(m.vvNew, ids, b, BUCKET_SIZE))
  }

  lemma StageZero(m: Man, ids: seq<int>)
    requires Closed(m, ids)
    ensures Stage(m, ids, 0, map[]) == Cleared.(nNew := m.nNew, nTried := m.nTried)
  {
    assert Below(m.addr, ids, 0) == map[] && Below(m.vvTried, ids, 0) == map[] && Entries(m, ids, 0, map[]) == map[];
  }

  lemma {:induction false} LoadNewsIs(h: Keyed, f: File, m: Man, ids: seq<int>, nn: nat, n: nat)
    requires Core(h, m) && Numbering(m, ids, nn) && FileOf(h, f, m, ids, nn) && n <= nn
    ensures LoadNews(f, Cleared.(nNew := f.nNew, nTried := f.nTried), n) == Stage(m, ids, n, map[])
  {
    hide Core, LoadNew, Numbering, Stage, BucketList;
    if n == 0 {
      StageZero(m, ids);
    } else {
      LoadNewsIs(h, f, m, ids, nn, n - 1);
      LoadNewStep(h, f, m, ids, nn, n - 1);
    }
  }

  lemma {:induction false} LoadTriedsIs(h: Keyed, f: File, m: Man, ids: seq<int>, nn: nat, n: nat)
    requires Core(h, m) && Numbering(m, ids, nn) && FileOf(h, f, m, ids, nn) && nn + n <= |ids|
    ensures LoadTrieds(f, Stage(m, ids, nn, map[]), n) == Stage(m, ids, nn + n, map[])
  {
    hide Core, LoadTried, Stage, Numbering;
    if n > 0 {
      LoadTriedsIs(h, f, m, ids, nn, n - 1);
      assert f.trieds[n - 1] == SavedPart(m.info[ids[nn + (n - 1)]]);
      LoadTriedStep(h, f, m, ids, nn, nn + n - 1);
    }
  }

  lemma {:induction false} LoadBucketIs(h: Keyed, f: File, m: Man, ids: seq<int>, nn: nat, b: nat, i: nat)
    requires Core(h, m) && Numbering(m, ids, nn) && FileOf(h, f, m, ids, nn)
    ensures LoadBucket(f, Stage(m, ids, |ids|, Part(m.vvNew, ids, b, 0)), b, BucketList(m.vvNew, ids, b, i)) ==
      Stage(m, ids, |ids|, Part(m.vvNew, ids, b, i))
  {
    hide Core, LoadRef, Stage, Numbering, Part, Index;
    if i > 0 {
      LoadBucketIs(h, f, m, ids, nn, b, i - 1);
      PartStep(m.vvNew, ids, b, i - 1);
      var list := BucketList(m.vvNew, ids, b, i);
      if (b, i - 1) in m.vvNew {
        LoadRefStep(h, f, m, ids, nn, b, i - 1);
        assert list[..|list| - 1] == BucketList(m.vvNew, ids, b, i - 1);
      } else {
        assert list == BucketList(m.vvNew, ids, b, i - 1);
      }
    }
  }

  /** A bucket has 64 positions. */
  lemma PartWhole(h: Keyed, m: Man, ids: seq<int>, b: nat)
    requires Core(h, m) && Closed(m, ids)
    ensures Part(m.vvNew, ids, b, 64) == Part(m.vvNew, ids, b + 1, 0)
  {
    forall s | s in m.vvNew ensures s.1 < 64 { SlotRange(h, m, s); }
    hide Core;
  }

  lemma SlotRange(h: Keyed, m: Man, s: Slot)
    requires Core(h, m) && s in m.vvNew
    ensures s.0 < 1024 && s.1 < 64
  {
    hide Core;
    Elements(h, m, 0, 0, s, s, 0);
  }

  lemma {:induction false} LoadBucketsIs(h: Keyed, f: File, m: Man, ids: seq<int>, nn: nat, n: nat)
    requires Core(h, m) && Numbering(m, ids, nn) && FileOf(h, f, m, ids, nn) && n <= 1024
    ensures LoadBuckets(f, Stage(m, ids, |ids|, map[]), n) == Stage(m, ids, |ids|, Part(m.vvNew, ids, n, 0))
  {
    hide Core, Stage, Numbering, LoadBucket, BucketList;
    if n == 0 {
      assert Part(m.vvNew, ids, 0, 0) == map[];
    } else {
      hide Part;
      LoadBucketsIs(h, f, m, ids, nn, n - 1);
      LoadBucketIs(h, f, m, ids, nn, n - 1, 64);
      PartWhole(h, m, ids, n - 1);
    }
  }

  lemma {:induction false} PruneNothing(m: Man, n: nat)
    requires forall id :: !Unreferenced(m, id)
    ensures Prune(m, n) == m
  {
    if n > 0 { PruneNothing(m, n - 1); }
  }

  // ---------------------------------------------------------------- the loaded state

  /** `m` with its entries renumbered. */
  ghost function Renumbered(m: Man, ids: seq<int>): Man
    requires Closed(m, ids)
  {
    Stage(m, ids, |ids|, Part(m.vvNew, ids, 1024, 0))
  }

  lemma {:induction false} UptoAt(n: nat, k: nat)
    requires k < n
    ensures |Upto(n)| == n && Upto(n)[k] == k
  {
    UptoLength(n);
    if k < n - 1 { UptoAt(n - 1, k); }
  }

  lemma PartAll(h: Keyed, m: Man, ids: seq<int>)
    requires Core(h, m) && Closed(m, ids)
    ensures Part(m.vvNew, ids, 1024, 0) == map s | s in m.vvNew :: Index(ids, m.vvNew[s])
  {
    forall s | s in m.vvNew ensures s.0 < 1024 { SlotRange(h, m, s); }
  }

  lemma RenumberedRefs(table: map<Slot, int>, ids: seq<int>, k: nat)
    requires Distinct(ids) && k < |ids| && forall s :: s in table ==> table[s] in ids
    ensures Refs(map s | s in table :: Index(ids, table[s]), k) == Refs(table, ids[k])
  {
    IndexIs(ids, k);
  }

  lemma RenumberedEntry(h: Keyed, m: Man, ids: seq<int>, nn: nat, k: nat)
    requires Core(h, m) && Numbering(m, ids, nn) && Closed(m, ids) && k < |ids|
    ensures var m' := Renumbered(m, ids);
      && k in m'.info && EntryOk(h, m', k) && k < |m'.random| && RandomOk(m', k)
      && m'.info[k] == Entry(m.info[ids[k]], k, m.info[ids[k]].refCount)
  {
    hide Core, TriedSlot, Refs, Part;
    PartAll(h, m, ids);
    UptoAt(|ids|, k);
    RenumberedRefs(m.vvNew, ids, k);
    AtId(h, m, ids[k]);
    IndexIs(ids, k);
    if m.info[ids[k]].inTried { RefsOfOthers(h, m, ids[k]); }
  }

  lemma RenumberedAddr(h: Keyed, m: Man, ids: seq<int>, nn: nat, ip: Ip)
    requires Core(h, m) && Numbering(m, ids, nn) && Closed(m, ids) && ip in m.addr
    ensures ip in Renumbered(m, ids).addr && AddrOk(Renumbered(m, ids), ip)
  {
    hide Core, Refs, Part;
    Elements(h, m, 0, ip, (0, 0), (0, 0), 0);
  }

  lemma RenumberedTried(h: Keyed, m: Man, ids: seq<int>, nn: nat, s: Slot)
    requires Core(h, m) && Numbering(m, ids, nn) && Closed(m, ids) && s in m.vvTried
    ensures s in Renumbered(m, ids).vvTried && TriedSlotOk(h, Renumbered(m, ids), s)
  {
    hide Core, Refs, Part, TriedSlot;
    Elements(h, m, 0, 0, s, s, 0);
  }

  lemma RenumberedNew(h: Keyed, m: Man, ids: seq<int>, nn: nat, s: Slot)
    requires Core(h, m) && Numbering(m, ids, nn) && Closed(m, ids) && s in m.vvNew
    ensures s in Renumbered(m, ids).vvNew && NewSlotOk(h, Renumbered(m, ids), s)
  {
    hide Core, Refs, Part, NewSlot;
    PartAll(h, m, ids);
    Elements(h, m, 0, 0, s, s, 0);
  }

  lemma RenumberedAt(h: Keyed, m: Man, ids: seq<int>, nn: nat, k: nat, ip: Ip, s: Slot, t: Slot, i: int)
    requires Core(h, m) && Numbering(m, ids, nn) && Closed(m, ids)
    ensures ElementsOk(h, Renumbered(m, ids), k, ip, s, t, i)
  {
    hide Core, TriedSlotOk, NewSlotOk, AddrOk, EntryOk, RandomOk, Part, Refs;
    PartAll(h, m, ids);
    UptoLength(|ids|);
    if k < |ids| { RenumberedEntry(h, m, ids, nn, k); }
    if ip in m.addr { RenumberedAddr(h, m, ids, nn, ip); }
    if s in m.vvTried { RenumberedTried(h, m, ids, nn, s); }
    if t in m.vvNew { RenumberedNew(h, m, ids, nn, t); }
    if 0 <= i < |ids| { RenumberedEntry(h, m, ids, nn, i); }
  }

  lemma {:induction false} RangeCount(s: set<int>, lo: int, hi: int)
    requires lo <= hi && forall k :: k in s <==> lo <= k < hi
    ensures |s| == hi - lo
    decreases hi - lo
  {
    if lo == hi {
      assert forall k :: k !in s;
      assert s == {};
    } else {
      RangeCount(s - {hi - 1}, lo, hi - 1);
    }
  }

  lemma EntryKind(m: Man, ids: seq<int>, nn: nat, table: map<Slot, int>, k: int)
    requires Numbering(m, ids, nn)
    ensures k in NewIds(Entries(m, ids, |ids|, table)) <==> 0 <= k < nn
    ensures k in TriedIds(Entries(m, ids, |ids|, table)) <==> nn <= k < |ids|
  {
    hide Refs;
    var es := Entries(m, ids, |ids|, table);
    assert k in es <==> 0 <= k < |ids|;
    if 0 <= k < |ids| { assert es[k].inTried <==> nn <= k; }
  }

  lemma EntryKinds(m: Man, ids: seq<int>, nn: nat, table: map<Slot, int>)
    requires Numbering(m, ids, nn)
    ensures |NewIds(Entries(m, ids, |ids|, table))| == nn && |TriedIds(Entries(m, ids, |ids|, table))| == |ids| - nn
  {
    hide Refs, Entries, NewIds, TriedIds;
    var es := Entries(m, ids, |ids|, table);
    forall k: int ensures k in NewIds(es) <==> 0 <= k < nn { EntryKind(m, ids, nn, table, k); }
    forall k: int ensures k in TriedIds(es) <==> nn <= k < |ids| { EntryKind(m, ids, nn, table, k); }
    RangeCount(NewIds(es), 0, nn);
    RangeCount(TriedIds(es), nn, |ids|);
  }

  lemma CountsAre(m: Man, news: seq<int>, trieds: seq<int>)
    requires Slack(m) == (0, 0) && Lists(m, news, trieds)
    ensures m.nNew == |news| && m.nTried == |trieds|
  {
    DistinctCount(news);
    DistinctCount(trieds);
    var s, t := (set id | id in news), (set id | id in trieds);
    assert forall id :: id in NewIds(m.info) <==> id in s;
    assert NewIds(m.info) == s;
    assert forall id :: id in TriedIds(m.info) <==> id in t;
    assert TriedIds(m.info) == t;
  }

  lemma RenumberedHolds(h: Keyed, m: Man, ids: seq<int>, nn: nat)
    requires Inv(h, m) && Numbering(m, ids, nn) && Closed(m, ids) && m.nNew == nn && m.nTried == |ids| - nn
    ensures Inv(h, Renumbered(m, ids))
  {
    hide Core, ElementsOk, NewIds, TriedIds, Part, Refs, EntryOk, RandomOk, Numbering, Below;
    var m' := Renumbered(m, ids);
    EntryKinds(m, ids, nn, Part(m.vvNew, ids, 1024, 0));
    forall k: nat, ip: Ip, s: Slot, t: Slot, i: int ensures ElementsOk(h, m', k, ip, s, t, i) {
      RenumberedAt(h, m, ids, nn, k, ip, s, t, i);
    }
    CoreFrom(h, m');
    forall k | k in m'.info ensures !Unreferenced(m', k) {
      RenumberedEntry(h, m, ids, nn, k);
      assert !Unreferenced(m, ids[k]);
    }
  }

  // ---------------------------------------------------------------- the file is not refused

  /** Distinct places below `n` number at most `n`. */
  lemma {:induction false} AtMost(ids: set<int>, place: int -> int, n: nat)
    requires forall id :: id in ids ==> 0 <= place(id) < n
    requires forall a, b :: a in ids && b in ids && place(a) == place(b) ==> a == b
    ensures |ids| <= n
  {
    if n == 0 {
      assert forall id :: id in ids ==> 0 <= place(id) < 0;
      assert ids == {};
    } else if id :| id in ids && place(id) == n - 1 {
      AtMost(ids - {id}, place, n - 1);
    } else {
      AtMost(ids, place, n - 1);
    }
  }

  function Code(s: Slot): int { s.0 * 64 + s.1 }

  lemma CodeInjective(s: Slot, t: Slot)
    requires Code(s) == Code(t) && s.1 < 64 && t.1 < 64
    ensures s == t
  {
  }

  lemma TriedFit(h: Keyed, m: Man)
    requires Core(h, m)
    ensures |TriedIds(m.info)| <= 256 * 64
  {
    var place := id => if id in m.info then Code(TriedSlot(h, m.info[id].service)) else 0;
    forall a, b | a in TriedIds(m.info) && b in TriedIds(m.info) && place(a) == place(b) ensures a == b {
      AtId(h, m, a);
      AtId(h, m, b);
      CodeInjective(TriedSlot(h, m.info[a].service), TriedSlot(h, m.info[b].service));
    }
    AtMost(TriedIds(m.info), place, 256 * 64);
  }

  /** Some slot that refers to an entry with references. */
  ghost function SomeRef(table: map<Slot, int>, id: int): (s: Slot)
    requires Refs(table, id) != {}
    ensures s in Refs(table, id)
  {
    var s :| s in Refs(table, id);
    s
  }

  lemma NewFit(h: Keyed, m: Man)
    requires Inv(h, m)
    ensures |NewIds(m.info)| <= 1024 * 64
  {
    var place := id => if Refs(m.vvNew, id) != {} then Code(SomeRef(m.vvNew, id)) else 0;
    forall id | id in NewIds(m.info) ensures Refs(m.vvNew, id) != {} && 0 <= place(id) < 1024 * 64 {
      AtId(h, m, id);
      assert !Unreferenced(m, id);
      SlotRange(h, m, SomeRef(m.vvNew, id));
    }
    forall a, b | a in NewIds(m.info) && b in NewIds(m.info) && place(a) == place(b) ensures a == b {
      SlotRange(h, m, SomeRef(m.vvNew, a));
      SlotRange(h, m, SomeRef(m.vvNew, b));
      CodeInjective(SomeRef(m.vvNew, a), SomeRef(m.vvNew, b));
    }
    AtMost(NewIds(m.info), place, 1024 * 64);
  }

  // ---------------------------------------------------------------- round trip

  lemma {:induction false} SavedPartsAt(ids: seq<int>, m: Man, k: nat)
    requires (forall id :: id in ids ==> id in m.info) && k < |ids|
    ensures ids[k] in m.info && SavedParts(ids, m)[k] == SavedPart(m.info[ids[k]])
  {
    var id := ids[k];
    assert id in ids;
    if k < |ids| - 1 { SavedPartsAt(ids[..|ids| - 1], m, k); }
  }

  lemma {:induction false} BucketListSame(table: map<Slot, int>, news: seq<int>, trieds: seq<int>, b: nat, n: nat)
    requires Distinct(news + trieds) && forall s :: s in table ==> table[s] in news
    ensures BucketList(table, news, b, n) == BucketList(table, news + trieds, b, n)
  {
    if n > 0 {
      BucketListSame(table, news, trieds, b, n - 1);
      if (b, n - 1) in table {
        var k := Index(news, table[(b, n - 1)]);
        assert (news + trieds)[k] == table[(b, n - 1)];
        IndexIs(news + trieds, k);
      }
    }
  }

  lemma SavedFile(h: Keyed, m: Man, order: seq<int>, news: seq<int>, trieds: seq<int>)
    requires Inv(h, m) && Visits(order, m) && news == Select(order, m, false) && trieds == Select(order, m, true)
    requires Lists(m, news, trieds)
    ensures Numbering(m, news + trieds, |news|) && FileOf(h, Save(h, m, order), m, news + trieds, |news|)
  {
    hide Core, SavedParts, BucketList, BucketLists, Select, Slack, Unreferenced, Numbering;
    var ids := news + trieds;
    var f := Save(h, m, order);
    ListsDistinct(m, news, trieds);
    CountsAre(m, news, trieds);
    NewRefsListed(h, m, news, trieds);
    NumberingIs(m, news, trieds);
    ClosedIs(h, m, ids, |news|);
    forall k | 0 <= k < |news| ensures f.news[k] == SavedPart(m.info[ids[k]]) { SavedPartsAt(news, m, k); }
    forall k | 0 <= k < |trieds| ensures f.trieds[k] == SavedPart(m.info[ids[|news| + k]]) {
      SavedPartsAt(trieds, m, k);
    }
    forall b: nat | b < 1024 ensures f.buckets[b] == BucketList(m.vvNew, ids, b, 64) {
      BucketListSame(m.vvNew, news, trieds, b, 64);
    }
  }

  lemma NumberingIs(m: Man, news: seq<int>, trieds: seq<int>)
    requires Lists(m, news, trieds)
    ensures Numbering(m, news + trieds, |news|)
  {
    ListsDistinct(m, news, trieds);
    forall k | 0 <= k < |news + trieds|
      ensures (news + trieds)[k] in m.info && (m.info[(news + trieds)[k]].inTried <==> |news| <= k)
    {
      assert KindAt(m, news, trieds, k);
    }
  }

  /** The same manager, with entry `ids[k]` now called `k`; only the memory-only fields may differ. */
  ghost predicate SameUpTo(m: Man, m': Man, ids: seq<int>) {
    && Distinct(ids) && (forall id :: id in ids <==> id in m.info) && (forall k :: k in m'.info <==> 0 <= k < |ids|)
    && (forall k :: 0 <= k < |ids| ==> SameOnDisk(m.info[ids[k]], m'.info[k]))
    && SameIndex(m.addr, m'.addr, ids) && SameIndex(m.vvTried, m'.vvTried, ids) && SameIndex(m.vvNew, m'.vvNew, ids)
    && m'.nNew == m.nNew && m'.nTried == m.nTried
  }

  predicate SameOnDisk(x: Info, y: Info) {
    SavedPart(y) == SavedPart(x) && y.inTried == x.inTried && y.refCount == x.refCount
  }

  ghost predicate SameIndex<X>(t: map<X, int>, t': map<X, int>, ids: seq<int>) {
    && t'.Keys == t.Keys
    && forall x :: x in t ==> 0 <= t'[x] < |ids| && ids[t'[x]] == t[x]
  }

  lemma BelowAll<X>(t: map<X, int>, ids: seq<int>)
    requires forall x :: x in t ==> t[x] in ids
    ensures SameIndex(t, Below(t, ids, |ids|), ids)
  {
  }

  lemma RenumberedFields(m: Man, ids: seq<int>)
    requires Closed(m, ids)
    ensures var m' := Renumbered(m, ids);
      && m'.addr == Below(m.addr, ids, |ids|) && m'.vvTried == Below(m.vvTried, ids, |ids|)
      && m'.vvNew == Part(m.vvNew, ids, 1024, 0) && m'.nNew == m.nNew && m'.nTried == m.nTried
      && forall k :: k in m'.info <==> 0 <= k < |ids|
  {
    hide Below, Part, Refs, Upto;
  }

  lemma RenumberedIsSame(h: Keyed, m: Man, ids: seq<int>, nn: nat)
    requires Core(h, m) && Numbering(m, ids, nn) && Closed(m, ids)
    ensures SameUpTo(m, Renumbered(m, ids), ids)
  {
    hide Core, Below, Part, Refs, SameIndex, EntryOk, RandomOk, Renumbered, Entries, Index;
    var m' := Renumbered(m, ids);
    RenumberedFields(m, ids);
    BelowAll(m.addr, ids);
    BelowAll(m.vvTried, ids);
    PartSame(h, m, ids);
    forall k | 0 <= k < |ids| ensures SameOnDisk(m.info[ids[k]], m'.info[k]) { RenumberedEntry(h, m, ids, nn, k); }
  }

  lemma PartSame(h: Keyed, m: Man, ids: seq<int>)
    requires Core(h, m) && Closed(m, ids)
    ensures SameIndex(m.vvNew, Part(m.vvNew, ids, 1024, 0), ids)
  {
    PartAll(h, m, ids);
    hide Core, Part;
  }

  lemma LoadSaved(h: Keyed, f: File, m: Man, ids: seq<int>, nn: nat)
    requires Inv(h, m) && Numbering(m, ids, nn) && FileOf(h, f, m, ids, nn)
    ensures Closed(m, ids) && Load(f) == Some(Renumbered(m, ids)) && Inv(h, Renumbered(m, ids))
  {
    hide Core, Numbering, NewIds, TriedIds, Stage, LoadNews, LoadTrieds, LoadBuckets, Prune, BucketList;
    hide Unreferenced, Part;
    TriedFit(h, m);
    NewFit(h, m);
    LoadNewsIs(h, f, m, ids, nn, nn);
    LoadTriedsIs(h, f, m, ids, nn, |ids| - nn);
    LoadBucketsIs(h, f, m, ids, nn, 1024);
    RenumberedHolds(h, m, ids, nn);
    NoneUnreferenced(h, Renumbered(m, ids));
    PruneNothing(Renumbered(m, ids), |ids|);
  }

  lemma NoneUnreferenced(h: Keyed, m: Man)
    requires Inv(h, m)
    ensures forall id :: !Unreferenced(m, id)
  {
    hide Core;
  }

  /**
  Loading what was saved succeeds and gives the same manager: every entry, every slot of both tables and the
  counters, up to the choice of ids. The invariant holds again.
  */
  lemma RoundTrip(h: Keyed, m: Man, order: seq<int>)
    requires Inv(h, m) && Visits(order, m)
    ensures var r := Load(Save(h, m, order));
      r.Some? && Inv(h, r.value) && exists ids :: SameUpTo(m, r.value, ids)
  {
    hide Core, Load, Save, Stage, Select, SameUpTo, Slack, FileOf, Numbering, Renumbered, Lists;
    SelectLists(h, m, order);
    var news, trieds := Select(order, m, false), Select(order, m, true);
    var ids := news + trieds;
    SavedFile(h, m, order, news, trieds);
    LoadSaved(h, Save(h, m, order), m, ids, |news|);
    RenumberedIsSame(h, m, ids, |news|);
  }
}
