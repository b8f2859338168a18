/**
Compact blocks (src/blockencodings.cpp, src/blockencodings.h; BIP 152): a block is announced by its header and
short ids, rebuilt from the pools, and completed with the transactions that are asked for. Hashes are the
parameter `Hashes`; transactions are values.
*/
module CompactBlock {
  import opened Numbers
  import opened Wrappers

  datatype Tx = Tx(isNull: bool, data: nat)

  /** Witness hash of a transaction, and short id of a hash under the announcement's key. */
  datatype Hashes = Hashes(txHash: Tx -> nat, short: nat -> nat) {
    function ShortOf(tx: Tx): nat { short(txHash(tx)) }
  }

  /** A transaction sent along; `index` counts from the previous one. */
  datatype Prefilled = Prefilled(index: nat, tx: Tx)

  datatype Compact = Compact(headerNull: bool, shorttxids: seq<nat>, prefilled: seq<Prefilled>) {
    function TxCount(): nat { |shorttxids| + |prefilled| }
  }

  /** Endless is no value of the source: it stands for a call that does not return. */
  datatype Status = Good | Invalid | Failed | CheckBlockFailed | Endless

  /** Transactions by position; None is a null pointer. */
  type Slots = seq<Option<Tx>>

  const UINT16_MAX := 65535

  /** The largest block weight by the smallest weight of a transaction. */
  const MAX_TRANSACTIONS := 8_000_000 / 40

  // ---------------------------------------------------------------- prefilled transactions

  function Empty(n: nat): (r: Slots)
    ensures |r| == n && forall p :: 0 <= p < n ==> r[p].None?
  {
    seq(n, _ => None)
  }

  /** The slots after placing the first `n` prefilled transactions, and the last position used. */
  function Place(c: Compact, n: nat): (r: Option<(Slots, int)>)
    requires n <= |c.prefilled|
    ensures r.Some? ==> |r.value.0| == c.TxCount() && -1 <= r.value.1 <= UINT16_MAX
  {
    if n == 0 then Some((Empty(c.TxCount()), -1)) else
      var prev := Place(c, n - 1);
      var p := c.prefilled[n - 1];
      if prev.None? || p.tx.isNull then None else
        var last := prev.value.1 + p.index + 1;
        if last > UINT16_MAX || last > |c.shorttxids| + n - 1 then None
        else Some((prev.value.0[last := Some(p.tx)], last))
  }

  /** The sum of the first indexes. */
  function Indexes(c: Compact, n: nat): nat
    requires n <= |c.prefilled|
  {
    if n == 0 then 0 else Indexes(c, n - 1) + c.prefilled[n - 1].index
  }

  /** The position of a prefilled transaction: each index counts the positions between it and the one before. */
  function PositionOf(c: Compact, k: nat): nat
    requires k < |c.prefilled|
  {
    Indexes(c, k + 1) + k
  }

  /** It has a transaction, and a position within 16 bits and not beyond what was announced so far. */
  predicate Placeable(c: Compact, k: nat)
    requires k < |c.prefilled|
  {
    !c.prefilled[k].tx.isNull && PositionOf(c, k) <= 65535 && PositionOf(c, k) <= |c.shorttxids| + k
  }

  lemma PositionNext(c: Compact, k: nat)
    requires k < |c.prefilled|
    ensures PositionOf(c, k) == (if k == 0 then -1 else PositionOf(c, k - 1)) + c.prefilled[k].index + 1
  {
    assert Indexes(c, 0) == 0;
  }

  /** Exactly when the prefilled transactions are accepted. */
  lemma {:induction false} PlaceWhen(c: Compact, n: nat)
    requires n <= |c.prefilled|
    ensures Place(c, n).Some? <==> forall k :: 0 <= k < n ==> Placeable(c, k)
    ensures Place(c, n).Some? ==> Place(c, n).value.1 == if n == 0 then -1 else PositionOf(c, n - 1)
  {
    if n > 0 {
      PlaceWhen(c, n - 1);
      PositionNext(c, n - 1);
      hide PositionOf;
      assert Place(c, n).Some? <==> Place(c, n - 1).Some? && Placeable(c, n - 1);
    }
  }

  /** Each of them is at its position, and no other slot is filled. */
  lemma {:induction false} PlaceWhere(c: Compact, n: nat, p: nat)
    requires n <= |c.prefilled| && Place(c, n).Some? && p < c.TxCount()
    ensures var slot := Place(c, n).value.0[p];
      && (forall k :: 0 <= k < n && p == PositionOf(c, k) ==> slot == Some(c.prefilled[k].tx))
      && (slot.Some? ==> exists k :: 0 <= k < n && p == PositionOf(c, k))
  {
    hide PositionOf;
    if n > 0 {
      PlaceWhere(c, n - 1, p);
      PlaceWhen(c, n - 1);
      PlaceWhen(c, n);
      PositionsIncrease(c, n - 1);
      if p == Place(c, n).value.1 {
        assert p == PositionOf(c, n - 1);
      } else {
        assert Place(c, n).value.0[p] == Place(c, n - 1).value.0[p];
      }
    }
  }

  lemma {:induction false} PositionsIncrease(c: Compact, n: nat)
    requires n < |c.prefilled|
    ensures forall k :: 0 <= k < n ==> PositionOf(c, k) < PositionOf(c, n)
  {
    hide PositionOf;
    if n > 0 {
      PositionsIncrease(c, n - 1);
      PositionNext(c, n);
    }
  }

  /** A sender may send along the transactions at any positions: they are found there again. */
  lemma {:induction false} PrefilledRoundTrip(c: Compact, where: seq<nat>, n: nat)
    requires n <= |where| == |c.prefilled| && Increasing(where)
    requires forall k :: 0 <= k < |where| ==>
      c.prefilled[k].index == where[k] - if k == 0 then 0 else where[k - 1] + 1
    ensures forall k :: 0 <= k < n ==> PositionOf(c, k) == where[k]
  {
    hide PositionOf;
    if n > 0 {
      PrefilledRoundTrip(c, where, n - 1);
      PositionNext(c, n - 1);
      var last := c.prefilled[n - 1].index;
      assert last == where[n - 1] - if n == 1 then 0 else where[n - 2] + 1;
      assert n > 1 ==> PositionOf(c, n - 2) == where[n - 2];
    }
  }

  /** How many of the first `p` slots are empty. */
  function Free(a: Slots, p: nat): (r: nat)
    requires p <= |a|
    ensures r <= p
  {
    if p == 0 then 0 else Free(a, p - 1) + if a[p - 1].None? then 1 else 0
  }

  lemma {:induction false} FreeOfUpdate(a: Slots, q: nat, tx: Tx, p: nat)
    requires q < |a| && a[q].None? && p <= |a|
    ensures Free(a[q := Some(tx)], p) == Free(a, p) - if q < p then 1 else 0
  {
    if p > 0 { FreeOfUpdate(a, q, tx, p - 1); }
  }

  lemma {:induction false} FreeOfEmpty(n: nat, p: nat)
    requires p <= n
    ensures Free(Empty(n), p) == p
  {
    if p > 0 { FreeOfEmpty(n, p - 1); }
  }

  /** Each prefilled transaction takes a slot of its own. */
  lemma {:induction false} PlaceFree(c: Compact, n: nat)
    requires n <= |c.prefilled| && Place(c, n).Some?
    ensures var (a, last) := Place(c, n).value;
      Free(a, |a|) == c.TxCount() - n && forall p :: last < p < |a| ==> a[p].None?
  {
    if n == 0 {
      FreeOfEmpty(c.TxCount(), c.TxCount());
    } else {
      PlaceFree(c, n - 1);
      var (a, last) := Place(c, n - 1).value;
      FreeOfUpdate(a, last + c.prefilled[n - 1].index + 1, c.prefilled[n - 1].tx, |a|);
    }
  }

  lemma {:induction false} FreeMonotone(a: Slots, p: nat, q: nat)
    requires p <= q <= |a|
    ensures Free(a, p) <= Free(a, q)
  {
    if p < q { FreeMonotone(a, p, q - 1); }
  }

  /** The empty slot that has `i` empty slots before it. */
  ghost predicate IsFreeAt(a: Slots, i: nat, p: nat) {
    p < |a| && a[p].None? && Free(a, p) == i
  }

  lemma FreeAtUnique(a: Slots, i: nat, j: nat, p: nat, q: nat)
    requires IsFreeAt(a, i, p) && IsFreeAt(a, j, q)
    ensures p == q <==> i == j
    ensures p < q <==> i < j
  {
    if p < q { FreeMonotone(a, p + 1, q); } else if q < p { FreeMonotone(a, q + 1, p); }
  }

  // ---------------------------------------------------------------- short ids to positions

  /** The 16 bits that are kept of the slot with `i` empty slots before it. */
  ghost predicate LowBitsAt(a: Slots, i: nat, q: nat) {
    exists p: nat :: IsFreeAt(a, i, p) && q == p % 65536
  }

  lemma SmallLowBits(a: Slots, i: nat, q: nat)
    requires |a| <= 65536 && LowBitsAt(a, i, q)
    ensures IsFreeAt(a, i, q)
  {
    var p: nat :| IsFreeAt(a, i, p) && q == p % 65536;
    assert p % 65536 == p;
  }

  /** The map from short ids to the 16 bits of their slots, for distinct short ids. */
  ghost predicate IdsOk(shorttxids: seq<nat>, n: nat, a: Slots, ids: map<nat, nat>)
    requires n <= |shorttxids|
  {
    && (forall i :: 0 <= i < n ==> shorttxids[i] in ids)
    && (forall s :: s in ids ==> exists i :: 0 <= i < n && shorttxids[i] == s && LowBitsAt(a, i, ids[s]))
  }

  lemma {:induction false} IdsCount(shorttxids: seq<nat>, n: nat, ids: set<nat>)
    requires n <= |shorttxids| && forall s :: s in ids <==> s in shorttxids[..n]
    ensures |ids| <= n && (|ids| == n <==> forall i, j :: 0 <= i < j < n ==> shorttxids[i] != shorttxids[j])
  {
    if n == 0 {
      assert forall s :: s !in ids;
      assert ids == {};
    } else {
      var s := shorttxids[n - 1];
      assert shorttxids[..n] == shorttxids[..n - 1] + [s];
      assert s in shorttxids[..n];
      if s in shorttxids[..n - 1] {
        IdsCount(shorttxids, n - 1, ids);
        var i :| 0 <= i < n - 1 && shorttxids[i] == s;
      } else {
        IdsCount(shorttxids, n - 1, ids - {s});
        forall i | 0 <= i < n - 1 ensures shorttxids[i] != s { assert shorttxids[..n - 1][i] != s; }
      }
    }
  }

  /** With the right number of keys, the map is a bijection from short ids to empty slots. */
  ghost predicate Bijection(shorttxids: seq<nat>, a: Slots, ids: map<nat, nat>) {
    && (forall i :: 0 <= i < |shorttxids| ==> shorttxids[i] in ids && IsFreeAt(a, i, ids[shorttxids[i]]))
    && (forall s :: s in ids ==> s in shorttxids)
    && (forall s, t :: s in ids && t in ids && s != t ==> ids[s] != ids[t])
    && |ids| == |shorttxids|
  }

  lemma IdIndex(shorttxids: seq<nat>, a: Slots, ids: map<nat, nat>, s: nat) returns (i: nat)
    requires IdsOk(shorttxids, |shorttxids|, a, ids) && s in ids
    ensures i < |shorttxids| && shorttxids[i] == s && LowBitsAt(a, i, ids[s])
  {
    i :| 0 <= i < |shorttxids| && shorttxids[i] == s && LowBitsAt(a, i, ids[s]);
  }

  lemma IdsDistinct(shorttxids: seq<nat>, a: Slots, ids: map<nat, nat>)
    requires IdsOk(shorttxids, |shorttxids|, a, ids)
    ensures |ids| <= |shorttxids|
    ensures |ids| == |shorttxids| <==> forall i, j :: 0 <= i < j < |shorttxids| ==> shorttxids[i] != shorttxids[j]
  {
    var n := |shorttxids|;
    assert shorttxids[..n] == shorttxids;
    forall s ensures s in ids.Keys <==> s in shorttxids[..n] {
      if s in ids { var i := IdIndex(shorttxids, a, ids, s); }
    }
    IdsCount(shorttxids, n, ids.Keys);
  }

  lemma IdsBijection(shorttxids: seq<nat>, a: Slots, ids: map<nat, nat>)
    requires IdsOk(shorttxids, |shorttxids|, a, ids) && |ids| == |shorttxids| && |a| <= 65536
    ensures Bijection(shorttxids, a, ids)
  {
    IdsDistinct(shorttxids, a, ids);
    hide IsFreeAt, LowBitsAt;
    forall i: nat | i < |shorttxids| ensures shorttxids[i] in ids && IsFreeAt(a, i, ids[shorttxids[i]]) {
      var j := IdIndex(shorttxids, a, ids, shorttxids[i]);
      SmallLowBits(a, j, ids[shorttxids[i]]);
    }
    forall s | s in ids ensures s in shorttxids { var i := IdIndex(shorttxids, a, ids, s); }
    forall s, t | s in ids && t in ids && s != t ensures ids[s] != ids[t] {
      var i := IdIndex(shorttxids, a, ids, s);
      var j := IdIndex(shorttxids, a, ids, t);
      SmallLowBits(a, i, ids[s]);
      SmallLowBits(a, j, ids[t]);
      FreeAtUnique(a, i, j, ids[s], ids[t]);
    }
  }

  /** A slot beyond 16 bits that is to be filled has no short id mapped to it. */
  lemma NoBijection(shorttxids: seq<nat>, a: Slots, ids: map<nat, nat>, p: nat)
    requires IdsOk(shorttxids, |shorttxids|, a, ids) && 65536 <= p < |a| && a[p].None?
    requires Free(a, |a|) == |shorttxids|
    ensures !Bijection(shorttxids, a, ids)
  {
    var i := Free(a, p);
    FreeMonotone(a, p + 1, |a|);
    if Bijection(shorttxids, a, ids) {
      var s := shorttxids[i];
      var q := ids[s];
      FreeAtUnique(a, i, i, p, q);
      var j := IdIndex(shorttxids, a, ids, s);
    }
  }

  // ---------------------------------------------------------------- scanning the pools

  /** A hash and its transaction, as the pools list them. */
  type Entry = (nat, Tx)

  /** Slots, which of them were ever matched, and how many are filled from the pools. */
  datatype Scan = Scan(avail: Slots, have: seq<bool>, count: int)

  ghost predicate Fits(ids: map<nat, nat>, sc: Scan) {
    |sc.have| == |sc.avail| && forall s :: s in ids ==> ids[s] < |sc.avail|
  }

  /** Whether a second match empties the slot; among extra transactions only for a different hash. */
  predicate Clashes(h: Hashes, extra: bool, present: Tx, tx: Tx) {
    !extra || h.txHash(present) != h.txHash(tx)
  }

  function Step(h: Hashes, ids: map<nat, nat>, extra: bool, sc: Scan, e: Entry): (r: Scan)
    requires Fits(ids, sc)
    ensures Fits(ids, r)
  {
    var s := h.short(e.0);
    if s !in ids then sc else
      var p := ids[s];
      if !sc.have[p] then Scan(sc.avail[p := Some(e.1)], sc.have[p := true], sc.count + 1)
      else if sc.avail[p].Some? && Clashes(h, extra, sc.avail[p].value, e.1) then
        sc.(avail := sc.avail[p := None], count := sc.count - 1)
      else sc
  }

  /** Go through a pool from entry `i`, stopping once every slot is filled. */
  function ScanFrom(h: Hashes, ids: map<nat, nat>, extra: bool, sc: Scan, pool: seq<Entry>, i: nat): (r: Scan)
    requires Fits(ids, sc) && i <= |pool|
    ensures Fits(ids, r)
    decreases |pool| - i
  {
    if i == |pool| then sc else
      var next := Step(h, ids, extra, sc, pool[i]);
      if next.count == |ids| then next else ScanFrom(h, ids, extra, next, pool, i + 1)
  }

  ghost function Filled(ids: map<nat, nat>, a: Slots): set<nat> {
    set s | s in ids && ids[s] < |a| && a[ids[s]].Some?
  }

  ghost predicate Injective(ids: map<nat, nat>) {
    forall s, t :: s in ids && t in ids && s != t ==> ids[s] != ids[t]
  }

  /** A slot filled from a pool holds a transaction of it with the slot's short id; the other slots are as they were. */
  ghost predicate ScanOk(h: Hashes, ids: map<nat, nat>, base: Slots, sc: Scan, known: seq<Tx>) {
    && Fits(ids, sc) && |sc.avail| == |base| && Injective(ids)
    && (forall p: nat :: p < |base| && p !in ids.Values ==> sc.avail[p] == base[p])
    && (forall s :: s in ids ==> SlotOk(h, s, sc.avail[ids[s]], sc.have[ids[s]], known))
    && sc.count == |Filled(ids, sc.avail)|
  }

  ghost predicate SlotOk(h: Hashes, s: nat, slot: Option<Tx>, have: bool, known: seq<Tx>) {
    slot.Some? ==> have && h.ShortOf(slot.value) == s && slot.value in known
  }

  predicate Labelled(h: Hashes, pool: seq<Entry>) {
    forall i :: 0 <= i < |pool| ==> pool[i].0 == h.txHash(pool[i].1)
  }

  lemma FilledUpdate(ids: map<nat, nat>, a: Slots, s: nat, slot: Option<Tx>)
    requires Injective(ids) && s in ids && ids[s] < |a|
    ensures Filled(ids, a[ids[s] := slot]) == if slot.Some? then Filled(ids, a) + {s} else Filled(ids, a) - {s}
  {
  }

  lemma StepOk(h: Hashes, ids: map<nat, nat>, extra: bool, base: Slots, sc: Scan, e: Entry, known: seq<Tx>)
    requires ScanOk(h, ids, base, sc, known) && e.0 == h.txHash(e.1) && e.1 in known
    ensures ScanOk(h, ids, base, Step(h, ids, extra, sc, e), known)
  {
    hide Filled;
    var s := h.short(e.0);
    if s in ids {
      FilledUpdate(ids, sc.avail, s, Some(e.1));
      FilledUpdate(ids, sc.avail, s, None);
      FilledHas(ids, sc.avail, s);
      assert ids[s] in ids.Values;
    }
  }

  lemma FilledHas(ids: map<nat, nat>, a: Slots, s: nat)
    requires s in ids && ids[s] < |a|
    ensures s in Filled(ids, a) <==> a[ids[s]].Some?
  {
  }

  lemma {:induction false} ScanFromOk(h: Hashes, ids: map<nat, nat>, extra: bool, base: Slots, sc: Scan,
      pool: seq<Entry>, i: nat, known: seq<Tx>)
    requires ScanOk(h, ids, base, sc, known) && i <= |pool| && Labelled(h, pool)
    requires forall j :: 0 <= j < |pool| ==> pool[j].1 in known
    ensures ScanOk(h, ids, base, ScanFrom(h, ids, extra, sc, pool, i), known)
    decreases |pool| - i
  {
    hide Step, Filled, SlotOk;
    if i < |pool| {
      StepOk(h, ids, extra, base, sc, pool[i], known);
      var next := Step(h, ids, extra, sc, pool[i]);
      if next.count != |ids| { ScanFromOk(h, ids, extra, base, next, pool, i + 1, known); }
    }
  }

  lemma AllFilled(ids: map<nat, nat>, a: Slots)
    requires |Filled(ids, a)| == |ids|
    ensures Filled(ids, a) == ids.Keys
  {
    assert Filled(ids, a) <= ids.Keys;
    if exists s :: s in ids.Keys && s !in Filled(ids, a) {
      var s :| s in ids.Keys && s !in Filled(ids, a);
      assert |Filled(ids, a) + {s}| == |Filled(ids, a)| + 1;
      SubsetSize(Filled(ids, a) + {s}, ids.Keys);
    }
  }

  // ---------------------------------------------------------------- nothing known is asked for

  /** No slot was emptied again. */
  ghost predicate Kept(ids: map<nat, nat>, sc: Scan)
    requires Fits(ids, sc)
  {
    forall s :: s in ids ==> (sc.have[ids[s]] <==> sc.avail[ids[s]].Some?)
  }

  /** No entry from `i` on would empty a slot. */
  ghost predicate Peaceful(h: Hashes, ids: map<nat, nat>, extra: bool, sc: Scan, pool: seq<Entry>, i: nat)
    requires Fits(ids, sc)
  {
    forall j :: i <= j < |pool| && h.short(pool[j].0) in ids ==>
      var slot := sc.avail[ids[h.short(pool[j].0)]];
      slot.Some? ==> !Clashes(h, extra, slot.value, pool[j].1)
  }

  /** Different entries for the same slot do not clash. */
  ghost predicate Agree(h: Hashes, extra: bool, pool: seq<Entry>) {
    forall j, k :: 0 <= j < k < |pool| && h.short(pool[j].0) == h.short(pool[k].0) ==>
      !Clashes(h, extra, pool[j].1, pool[k].1)
  }

  lemma StepKept(h: Hashes, ids: map<nat, nat>, extra: bool, sc: Scan, pool: seq<Entry>, i: nat)
    requires Fits(ids, sc) && Injective(ids) && i < |pool| && Kept(ids, sc)
    requires Peaceful(h, ids, extra, sc, pool, i) && Agree(h, extra, pool)
    ensures var next := Step(h, ids, extra, sc, pool[i]);
      && Kept(ids, next) && Peaceful(h, ids, extra, next, pool, i + 1)
      && Filled(ids, sc.avail) <= Filled(ids, next.avail)
      && (h.short(pool[i].0) in ids ==> h.short(pool[i].0) in Filled(ids, next.avail))
  {
  }

  /** Then every slot with a match is filled at the end. */
  lemma {:induction false} ScanFills(h: Hashes, ids: map<nat, nat>, extra: bool, base: Slots, sc: Scan,
      pool: seq<Entry>, i: nat, known: seq<Tx>)
    requires ScanOk(h, ids, base, sc, known) && i <= |pool| && Labelled(h, pool) && Kept(ids, sc)
    requires forall j :: 0 <= j < |pool| ==> pool[j].1 in known
    requires Peaceful(h, ids, extra, sc, pool, i) && Agree(h, extra, pool)
    ensures var r := ScanFrom(h, ids, extra, sc, pool, i);
      && Kept(ids, r) && Filled(ids, sc.avail) <= Filled(ids, r.avail)
      && forall j :: i <= j < |pool| && h.short(pool[j].0) in ids ==> h.short(pool[j].0) in Filled(ids, r.avail)
    decreases |pool| - i
  {
    hide Step, Filled, SlotOk, Peaceful, Kept;
    if i < |pool| {
      StepOk(h, ids, extra, base, sc, pool[i], known);
      StepKept(h, ids, extra, sc, pool, i);
      var next := Step(h, ids, extra, sc, pool[i]);
      if next.count == |ids| {
        AllFilled(ids, next.avail);
      } else {
        ScanFills(h, ids, extra, base, next, pool, i + 1, known);
      }
    }
  }

  // ---------------------------------------------------------------- announcing and rebuilding a block

  function ShortIds(h: Hashes, vtx: seq<Tx>): (r: seq<nat>)
    ensures |r| == |vtx| && forall i :: 0 <= i < |vtx| ==> r[i] == h.ShortOf(vtx[i])
  {
    if vtx == [] then [] else ShortIds(h, vtx[..|vtx| - 1]) + [h.ShortOf(vtx[|vtx| - 1])]
  }

  /** The coinbase is sent along, the rest as short ids. */
  function Announce(h: Hashes, vtx: seq<Tx>): Compact
    requires vtx != []
  {
    Compact(false, ShortIds(h, vtx[1..]), [Prefilled(0, vtx[0])])
  }

  function Nothing(n: nat): (r: seq<bool>)
    ensures |r| == n && forall p :: 0 <= p < n ==> !r[p]
  {
    seq(n, _ => false)
  }

  ghost function Rebuild(h: Hashes, ids: map<nat, nat>, base: Slots, pool: seq<Entry>, extra: seq<Entry>): (r: Slots)
    requires forall s :: s in ids ==> ids[s] < |base|
    ensures |r| == |base|
  {
    var sc := ScanFrom(h, ids, false, Scan(base, Nothing(|base|), 0), pool, 0);
    ScanLength(h, ids, false, Scan(base, Nothing(|base|), 0), pool, 0);
    ScanLength(h, ids, true, sc, extra, 0);
    ScanFrom(h, ids, true, sc, extra, 0).avail
  }

  lemma {:induction false} ScanLength(h: Hashes, ids: map<nat, nat>, extra: bool, sc: Scan, pool: seq<Entry>, i: nat)
    requires Fits(ids, sc) && i <= |pool|
    ensures |ScanFrom(h, ids, extra, sc, pool, i).avail| == |sc.avail|
    decreases |pool| - i
  {
    if i < |pool| { ScanLength(h, ids, extra, Step(h, ids, extra, sc, pool[i]), pool, i + 1); }
  }

  /** A slot that no short id is mapped to stays as it is. */
  lemma {:induction false} ScanElsewhere(
    h: Hashes, ids: map<nat, nat>, extra: bool, sc: Scan, pool: seq<Entry>, i: nat, p: nat)
    requires Fits(ids, sc) && i <= |pool| && p < |sc.avail| && p !in ids.Values
    ensures p < |ScanFrom(h, ids, extra, sc, pool, i).avail|
    ensures ScanFrom(h, ids, extra, sc, pool, i).avail[p] == sc.avail[p]
    decreases |pool| - i
  {
    if i < |pool| {
      var s := h.short(pool[i].0);
      assert s in ids ==> ids[s] in ids.Values;
      ScanElsewhere(h, ids, extra, Step(h, ids, extra, sc, pool[i]), pool, i + 1, p);
    }
  }

  lemma RebuildElsewhere(
    h: Hashes, ids: map<nat, nat>, base: Slots, pool: seq<Entry>, extra: seq<Entry>, p: nat)
    requires (forall s :: s in ids ==> ids[s] < |base|) && p < |base| && p !in ids.Values
    ensures Rebuild(h, ids, base, pool, extra)[p] == base[p]
  {
    hide ScanFrom;
    var sc := Scan(base, Nothing(|base|), 0);
    ScanElsewhere(h, ids, false, sc, pool, 0, p);
    ScanElsewhere(h, ids, true, ScanFrom(h, ids, false, sc, pool, 0), extra, 0, p);
  }

  // ---------------------------------------------------------------- exactly what a slot gets

  /** The transactions with a short id, in the order of the pool. */
  function Matching(h: Hashes, s: nat, es: seq<Entry>): seq<Tx> {
    if es == [] then [] else
      Matching(h, s, es[..|es| - 1]) + if h.short(es[|es| - 1].0) == s then [es[|es| - 1].1] else []
  }

  /** The first match stays unless a later one differs from it; in the mempool every later one counts as different. */
  function Settled(h: Hashes, extra: bool, first: Tx, rest: seq<Tx>): Option<Tx> {
    if forall t :: t in rest ==> extra && h.txHash(t) == h.txHash(first) then Some(first) else None
  }

  /** A pool gone through to its end. */
  function Steps(h: Hashes, ids: map<nat, nat>, extra: bool, sc: Scan, es: seq<Entry>): (r: Scan)
    requires Fits(ids, sc)
    ensures Fits(ids, r) && |r.avail| == |sc.avail|
  {
    if es == [] then sc else Step(h, ids, extra, Steps(h, ids, extra, sc, es[..|es| - 1]), es[|es| - 1])
  }

  /** The scan goes through its pool up to the first entry after which all slots are filled, or to the end. */
  lemma {:induction false} ScanEnds(h: Hashes, ids: map<nat, nat>, extra: bool, sc: Scan, pool: seq<Entry>, i: nat)
    returns (end: nat)
    requires Fits(ids, sc) && i <= |pool|
    ensures i <= end <= |pool| && (i < |pool| ==> i < end)
    ensures ScanFrom(h, ids, extra, sc, pool, i) == Steps(h, ids, extra, sc, pool[i..end])
    ensures end < |pool| ==> Steps(h, ids, extra, sc, pool[i..end]).count == |ids|
    ensures forall k :: i < k < end ==> Steps(h, ids, extra, sc, pool[i..k]).count != |ids|
    decreases |pool| - i
  {
    hide Step;
    if i == |pool| {
      end := i;
      assert pool[i..end] == [];
    } else {
      var next := Step(h, ids, extra, sc, pool[i]);
      StepsFirst(h, ids, extra, sc, pool[i..i + 1]);
      assert pool[i..i + 1][1..] == [];
      if next.count == |ids| {
        end := i + 1;
      } else {
        end := ScanEnds(h, ids, extra, next, pool, i + 1);
        forall k | i < k <= end
          ensures Steps(h, ids, extra, sc, pool[i..k]) == Steps(h, ids, extra, next, pool[i + 1..k])
        {
          StepsFirst(h, ids, extra, sc, pool[i..k]);
          assert pool[i..k][1..] == pool[i + 1..k];
        }
      }
    }
  }

  lemma {:induction false} StepsFirst(h: Hashes, ids: map<nat, nat>, extra: bool, sc: Scan, es: seq<Entry>)
    requires Fits(ids, sc) && es != []
    ensures Steps(h, ids, extra, sc, es) == Steps(h, ids, extra, Step(h, ids, extra, sc, es[0]), es[1..])
  {
    hide Step;
    var n := |es| - 1;
    if n > 0 {
      StepsFirst(h, ids, extra, sc, es[..n]);
      assert es[..n][1..] == es[1..][..n - 1];
    } else {
      assert es[..n] == [] && es[1..] == [];
    }
  }

  /** What a pool does to one slot: nothing to one that was emptied; otherwise what stands there is the first match. */
  lemma {:induction false} SlotSteps(h: Hashes, ids: map<nat, nat>, extra: bool, sc: Scan, es: seq<Entry>, s: nat)
    requires Fits(ids, sc) && Injective(ids) && s in ids && (!sc.have[ids[s]] ==> sc.avail[ids[s]].None?)
    ensures var before, r, ms := sc.avail[ids[s]], Steps(h, ids, extra, sc, es), Matching(h, s, es);
      && r.have[ids[s]] == (sc.have[ids[s]] || ms != [])
      && r.avail[ids[s]] ==
           if before.Some? then Settled(h, extra, before.value, ms)
           else if sc.have[ids[s]] || ms == [] then None
           else Settled(h, extra, ms[0], ms[1..])
  {
    if es != [] {
      var n := |es| - 1;
      SlotSteps(h, ids, extra, sc, es[..n], s);
      hide Settled;
      var before, p := sc.avail[ids[s]], ids[s];
      var mid, ms := Steps(h, ids, extra, sc, es[..n]), Matching(h, s, es[..n]);
      var t := h.short(es[n].0);
      if t == s {
        if before.Some? {
          SettledMore(h, extra, before.value, ms, es[n].1);
        } else if !sc.have[p] && ms != [] {
          SettledMore(h, extra, ms[0], ms[1..], es[n].1);
          assert (ms + [es[n].1])[1..] == ms[1..] + [es[n].1];
        } else if !sc.have[p] {
          SettledAlone(h, extra, es[n].1);
          assert (ms + [es[n].1])[1..] == [];
        }
      } else {
        assert ms + [] == ms;
      }
    } else if sc.avail[ids[s]].Some? {
      SettledAlone(h, extra, sc.avail[ids[s]].value);
    }
  }

  lemma SettledAlone(h: Hashes, extra: bool, first: Tx)
    ensures Settled(h, extra, first, []) == Some(first)
  {
  }

  lemma SettledMore(h: Hashes, extra: bool, first: Tx, rest: seq<Tx>, t: Tx)
    ensures Settled(h, extra, first, rest + [t]) ==
      if Settled(h, extra, first, rest).None? || Clashes(h, extra, first, t) then None else Some(first)
  {
    var all := rest + [t];
    forall u | u in rest ensures u in all {}
    assert all[|rest|] == t && t in all;
    forall u | u in all ensures u in rest || u == t {}
  }

  /**
  Exactly what a slot gets from the parts of the two pools that are gone through: with two matches in the mempool
  nothing; with one, that one unless an extra match has another hash; with none, the first extra match unless another
  has another hash.
  */
  ghost predicate SlotIs(h: Hashes, slot: Option<Tx>, ms: seq<Tx>, es: seq<Tx>) {
    slot ==
      if |ms| >= 2 then None
      else if |ms| == 1 then (if forall t :: t in es ==> h.txHash(t) == h.txHash(ms[0]) then Some(ms[0]) else None)
      else if es != [] && forall t :: t in es ==> h.txHash(t) == h.txHash(es[0]) then Some(es[0])
      else None
  }

  lemma RebuildExactly(h: Hashes, ids: map<nat, nat>, base: Slots, pool: seq<Entry>, extra: seq<Entry>)
    returns (m: nat, x: nat)
    requires Injective(ids) && forall s :: s in ids ==> ids[s] < |base| && base[ids[s]].None?
    ensures m <= |pool| && x <= |extra|
    ensures forall s :: s in ids ==> SlotIs(h, Rebuild(h, ids, base, pool, extra)[ids[s]],
      Matching(h, s, pool[..m]), Matching(h, s, extra[..x]))
    ensures m == |pool| || (m > 0 && forall s :: s in ids ==> |Matching(h, s, pool[..m])| == 1)
    ensures x == |extra| || (x > 0 && forall s :: s in ids ==> Rebuild(h, ids, base, pool, extra)[ids[s]].Some?)
  {
    hide Steps, ScanFrom, Matching, Filled;
    var start := Scan(base, Nothing(|base|), 0);
    m := ScanEnds(h, ids, false, start, pool, 0);
    var mid := Steps(h, ids, false, start, pool[..m]);
    x := ScanEnds(h, ids, true, mid, extra, 0);
    assert pool[0..m] == pool[..m] && extra[0..x] == extra[..x];
    forall s | s in ids ensures SlotIs(h, Rebuild(h, ids, base, pool, extra)[ids[s]],
      Matching(h, s, pool[..m]), Matching(h, s, extra[..x]))
    {
      SlotSteps(h, ids, false, start, pool[..m], s);
      SlotSteps(h, ids, true, mid, extra[..x], s);
      SlotMeans(h, mid.avail[ids[s]], Rebuild(h, ids, base, pool, extra)[ids[s]],
        Matching(h, s, pool[..m]), Matching(h, s, extra[..x]));
    }
    StartCounts(ids, base);
    StepsCount(h, ids, false, start, pool[..m]);
    StepsCount(h, ids, true, mid, extra[..x]);
    if m < |pool| {
      AllFilled(ids, mid.avail);
      forall s | s in ids ensures |Matching(h, s, pool[..m])| == 1 {
        FilledHas(ids, mid.avail, s);
        SlotSteps(h, ids, false, start, pool[..m], s);
        OneMatch(h, mid.avail[ids[s]], Matching(h, s, pool[..m]));
      }
    }
    if x < |extra| {
      AllFilled(ids, Rebuild(h, ids, base, pool, extra));
      forall s | s in ids ensures Rebuild(h, ids, base, pool, extra)[ids[s]].Some? {
        FilledHas(ids, Rebuild(h, ids, base, pool, extra), s);
      }
    }
  }

  lemma OneMatch(h: Hashes, slot: Option<Tx>, ms: seq<Tx>)
    requires slot.Some? && slot == if ms == [] then None else Settled(h, false, ms[0], ms[1..])
    ensures |ms| == 1
  {
    if |ms| > 1 { ManyMatches(h, ms[0], ms[1..]); }
  }

  lemma ManyMatches(h: Hashes, first: Tx, rest: seq<Tx>)
    requires rest != []
    ensures Settled(h, false, first, rest).None?
  {
    assert rest[0] in rest;
  }

  lemma SlotMeans(h: Hashes, mid: Option<Tx>, slot: Option<Tx>, ms: seq<Tx>, es: seq<Tx>)
    requires mid == if ms == [] then None else Settled(h, false, ms[0], ms[1..])
    requires slot ==
      if mid.Some? then Settled(h, true, mid.value, es)
      else if ms != [] || es == [] then None
      else Settled(h, true, es[0], es[1..])
    ensures SlotIs(h, slot, ms, es)
  {
    if |ms| > 1 { ManyMatches(h, ms[0], ms[1..]); }
    if es != [] {
      assert es == [es[0]] + es[1..];
      assert forall t :: t in es <==> t == es[0] || t in es[1..];
    }
  }

  lemma StartCounts(ids: map<nat, nat>, base: Slots)
    requires forall s :: s in ids ==> ids[s] < |base| && base[ids[s]].None?
    ensures |Filled(ids, base)| == 0
  {
    assert Filled(ids, base) == {};
  }

  /** The count is that of the slots filled. */
  lemma {:induction false} StepsCount(h: Hashes, ids: map<nat, nat>, extra: bool, sc: Scan, es: seq<Entry>)
    requires Fits(ids, sc) && Injective(ids) && sc.count == |Filled(ids, sc.avail)|
    requires forall s :: s in ids && sc.avail[ids[s]].Some? ==> sc.have[ids[s]]
    ensures var r := Steps(h, ids, extra, sc, es);
      && r.count == |Filled(ids, r.avail)| && forall s :: s in ids && r.avail[ids[s]].Some? ==> r.have[ids[s]]
  {
    hide Filled;
    if es != [] {
      var n := |es| - 1;
      StepsCount(h, ids, extra, sc, es[..n]);
      var mid := Steps(h, ids, extra, sc, es[..n]);
      var s := h.short(es[n].0);
      if s in ids {
        FilledUpdate(ids, mid.avail, s, Some(es[n].1));
        FilledUpdate(ids, mid.avail, s, None);
        FilledHas(ids, mid.avail, s);
      }
    }
  }

  function TxsOf(pool: seq<Entry>): (r: seq<Tx>)
    ensures |r| == |pool| && forall i :: 0 <= i < |pool| ==> r[i] == pool[i].1
  {
    if pool == [] then [] else TxsOf(pool[..|pool| - 1]) + [pool[|pool| - 1].1]
  }

  /** Short ids tell apart all the transactions involved. */
  ghost predicate Separates(h: Hashes, txs: seq<Tx>) {
    forall a, b :: a in txs && b in txs && h.ShortOf(a) == h.ShortOf(b) ==> a == b
  }

  lemma StartOk(h: Hashes, shorttxids: seq<nat>, ids: map<nat, nat>, base: Slots, known: seq<Tx>)
    requires Bijection(shorttxids, base, ids)
    ensures var sc := Scan(base, Nothing(|base|), 0);
      ScanOk(h, ids, base, sc, known) && Kept(ids, sc) && Filled(ids, base) == {}
  {
    forall s | s in ids ensures ids[s] < |base| && base[ids[s]].None? {
      var i :| 0 <= i < |shorttxids| && shorttxids[i] == s;
    }
  }

  /** Whatever the pools hold, a slot filled from them has the right short id, and the prefilled slots are untouched. */
  lemma RebuildOk(h: Hashes, shorttxids: seq<nat>, ids: map<nat, nat>, base: Slots, pool: seq<Entry>, extra: seq<Entry>)
    requires Bijection(shorttxids, base, ids) && Labelled(h, pool) && Labelled(h, extra)
    requires forall s :: s in ids ==> ids[s] < |base|
    ensures var a := Rebuild(h, ids, base, pool, extra);
      && (forall p: nat :: p < |base| && p !in ids.Values ==> a[p] == base[p])
      && (forall s :: s in ids && a[ids[s]].Some? ==>
           h.ShortOf(a[ids[s]].value) == s && a[ids[s]].value in TxsOf(pool) + TxsOf(extra))
  {
    hide ScanFrom, Bijection, Filled;
    var known := TxsOf(pool) + TxsOf(extra);
    StartOk(h, shorttxids, ids, base, known);
    var sc := Scan(base, Nothing(|base|), 0);
    assert forall j :: 0 <= j < |pool| ==> pool[j].1 in known by { KnownOf(pool, extra); }
    assert forall j :: 0 <= j < |extra| ==> extra[j].1 in known by { KnownOf(pool, extra); }
    ScanFromOk(h, ids, false, base, sc, pool, 0, known);
    ScanFromOk(h, ids, true, base, ScanFrom(h, ids, false, sc, pool, 0), extra, 0, known);
  }

  lemma KnownOf(pool: seq<Entry>, extra: seq<Entry>)
    ensures forall j :: 0 <= j < |pool| ==> pool[j].1 in TxsOf(pool) + TxsOf(extra)
    ensures forall j :: 0 <= j < |extra| ==> extra[j].1 in TxsOf(pool) + TxsOf(extra)
  {
    hide TxsOf;
    var a, b := TxsOf(pool), TxsOf(extra);
    forall j | 0 <= j < |pool| ensures pool[j].1 in a + b { assert (a + b)[j] == pool[j].1; }
    forall j | 0 <= j < |extra| ensures extra[j].1 in a + b { assert (a + b)[|a| + j] == extra[j].1; }
  }

  /** Slots that are filled agree with the block. */
  ghost predicate Matches(a: Slots, vtx: seq<Tx>) {
    |a| == |vtx| && forall p :: 0 <= p < |a| && a[p].Some? ==> a[p].value == vtx[p]
  }

  /** Where an announcement puts things: the coinbase first, then one slot for each short id. */
  lemma AnnouncedSlots(h: Hashes, vtx: seq<Tx>, ids: map<nat, nat>)
    requires vtx != [] && !vtx[0].isNull
    ensures Place(Announce(h, vtx), 1).Some?
    ensures var base := Place(Announce(h, vtx), 1).value.0;
      && |base| == |vtx| && base[0] == Some(vtx[0])
      && (Bijection(Announce(h, vtx).shorttxids, base, ids) ==>
            && (forall p :: 1 <= p < |vtx| ==> h.ShortOf(vtx[p]) in ids && ids[h.ShortOf(vtx[p])] == p)
            && (forall s :: s in ids ==> 1 <= ids[s] < |vtx| && h.ShortOf(vtx[ids[s]]) == s))
  {
    var c := Announce(h, vtx);
    assert Place(c, 0) == Some((Empty(|vtx|), -1));
    var base := Place(c, 1).value.0;
    assert base == Empty(|vtx|)[0 := Some(vtx[0])];
    if Bijection(c.shorttxids, base, ids) {
      forall p | 1 <= p < |vtx| ensures h.ShortOf(vtx[p]) in ids && ids[h.ShortOf(vtx[p])] == p {
        assert c.shorttxids[p - 1] == h.ShortOf(vtx[p]);
        FreeOfUpdate(Empty(|vtx|), 0, vtx[0], p);
        FreeOfEmpty(|vtx|, p);
        FreeAtUnique(base, p - 1, p - 1, p, ids[h.ShortOf(vtx[p])]);
      }
      forall s | s in ids ensures 1 <= ids[s] < |vtx| && h.ShortOf(vtx[ids[s]]) == s {
        var i :| 0 <= i < |c.shorttxids| && c.shorttxids[i] == s;
        assert s == h.ShortOf(vtx[i + 1]);
      }
    }
  }

  /** What is rebuilt from the pools is what the block has there. */
  lemma RebuildMatches(h: Hashes, vtx: seq<Tx>, ids: map<nat, nat>, base: Slots, pool: seq<Entry>, extra: seq<Entry>)
    requires vtx != [] && Place(Announce(h, vtx), 1).Some? && base == Place(Announce(h, vtx), 1).value.0
    requires Bijection(Announce(h, vtx).shorttxids, base, ids) && Labelled(h, pool) && Labelled(h, extra)
    requires Separates(h, vtx + (TxsOf(pool) + TxsOf(extra)))
    ensures (forall s :: s in ids ==> ids[s] < |base|) && Matches(Rebuild(h, ids, base, pool, extra), vtx)
  {
    assert !vtx[0].isNull;
    AnnouncedSlots(h, vtx, ids);
    hide Place, Rebuild, Bijection;
    RebuildOk(h, Announce(h, vtx).shorttxids, ids, base, pool, extra);
    var a := Rebuild(h, ids, base, pool, extra);
    var all := vtx + (TxsOf(pool) + TxsOf(extra));
    forall p | 0 <= p < |a| && a[p].Some? ensures a[p].value == vtx[p] {
      if p > 0 {
        var s := h.ShortOf(vtx[p]);
        var x, y := a[p].value, vtx[p];
        assert ids[s] == p;
        assert x in all && y in all;
      } else {
        assert 0 !in ids.Values;
      }
    }
  }

  lemma PeacefulStart(h: Hashes, ids: map<nat, nat>, sc: Scan, pool: seq<Entry>)
    requires Fits(ids, sc) && Filled(ids, sc.avail) == {}
    ensures Peaceful(h, ids, false, sc, pool, 0)
  {
    forall s | s in ids ensures sc.avail[ids[s]].None? { assert s !in Filled(ids, sc.avail); }
  }

  /** Transactions with the same short id are the same, so an extra transaction never clashes. */
  lemma ExtraAgrees(h: Hashes, ids: map<nat, nat>, base: Slots, sc: Scan, extra: seq<Entry>, known: seq<Tx>)
    requires ScanOk(h, ids, base, sc, known) && Labelled(h, extra) && Separates(h, known)
    requires forall j :: 0 <= j < |extra| ==> extra[j].1 in known
    ensures Peaceful(h, ids, true, sc, extra, 0) && Agree(h, true, extra)
  {
    hide Filled;
  }

  /** The pool lists each transaction once. */
  ghost predicate Once(pool: seq<Entry>) {
    forall j, k :: 0 <= j < k < |pool| ==> pool[j].1 != pool[k].1
  }

  lemma OnceAgrees(h: Hashes, pool: seq<Entry>, known: seq<Tx>)
    requires Once(pool) && Labelled(h, pool) && Separates(h, known)
    requires forall j :: 0 <= j < |pool| ==> pool[j].1 in known
    ensures Agree(h, false, pool)
  {
    forall j, k | 0 <= j < k < |pool| ensures h.short(pool[j].0) == h.short(pool[k].0) ==> pool[j].1 == pool[k].1 {
    }
  }

  /** Every transaction of the block that is in a pool is filled in. */
  lemma RebuildFills(h: Hashes, shorttxids: seq<nat>, ids: map<nat, nat>, base: Slots, pool: seq<Entry>,
      extra: seq<Entry>, tx: Tx)
    requires Bijection(shorttxids, base, ids) && Labelled(h, pool) && Labelled(h, extra) && Once(pool)
    requires Separates(h, TxsOf(pool) + TxsOf(extra)) && tx in TxsOf(pool) + TxsOf(extra) && h.ShortOf(tx) in ids
    requires forall s :: s in ids ==> ids[s] < |base|
    ensures Rebuild(h, ids, base, pool, extra)[ids[h.ShortOf(tx)]].Some?
  {
    hide ScanFrom, Bijection, Filled, Peaceful, Agree, ScanOk, Kept;
    var known := TxsOf(pool) + TxsOf(extra);
    KnownOf(pool, extra);
    StartOk(h, shorttxids, ids, base, known);
    var sc := Scan(base, Nothing(|base|), 0);
    PeacefulStart(h, ids, sc, pool);
    OnceAgrees(h, pool, known);
    ScanFills(h, ids, false, base, sc, pool, 0, known);
    ScanFromOk(h, ids, false, base, sc, pool, 0, known);
    var sc1 := ScanFrom(h, ids, false, sc, pool, 0);
    ExtraAgrees(h, ids, base, sc1, extra, known);
    ScanFills(h, ids, true, base, sc1, extra, 0, known);
    var sc2 := ScanFrom(h, ids, true, sc1, extra, 0);
    EntryOf(pool, extra, tx);
    assert h.ShortOf(tx) in Filled(ids, sc2.avail);
    FilledHas(ids, sc2.avail, h.ShortOf(tx));
  }

  lemma EntryIn(pool: seq<Entry>, tx: Tx)
    requires tx in TxsOf(pool)
    ensures exists j :: 0 <= j < |pool| && pool[j].1 == tx
  {
    var k :| 0 <= k < |pool| && TxsOf(pool)[k] == tx;
    assert pool[k].1 == tx;
  }

  lemma EntryOf(pool: seq<Entry>, extra: seq<Entry>, tx: Tx)
    requires tx in TxsOf(pool) + TxsOf(extra)
    ensures (exists j :: 0 <= j < |pool| && pool[j].1 == tx) || exists j :: 0 <= j < |extra| && extra[j].1 == tx
  {
    if tx in TxsOf(pool) { EntryIn(pool, tx); } else { EntryIn(extra, tx); }
  }

  // ---------------------------------------------------------------- asking for what is missing

  /** The positions of the first `n` slots that are empty, in order. */
  function Missing(a: Slots, n: nat): (r: seq<nat>)
    requires n <= |a|
    ensures |r| == Free(a, n) && forall k :: 0 <= k < |r| ==> IsFreeAt(a, k, r[k]) && r[k] < n
  {
    if n == 0 then [] else Missing(a, n - 1) + if a[n - 1].None? then [n - 1] else []
  }

  predicate Increasing(l: seq<nat>) {
    forall j, k :: 0 <= j < k < |l| ==> l[j] < l[k]
  }

  lemma MissingIncreasing(a: Slots, n: nat)
    requires n <= |a|
    ensures Increasing(Missing(a, n))
  {
    var r := Missing(a, n);
    forall j, k | 0 <= j < k < |r| ensures r[j] < r[k] { FreeAtUnique(a, j, k, r[j], r[k]); }
  }

  /** The index after the `k`th. */
  function After(l: seq<nat>, k: nat): nat
    requires k <= |l|
  {
    if k == 0 then 0 else l[k - 1] + 1
  }

  /** Each index is written as its distance from the one after the previous. */
  function Differences(l: seq<nat>): (r: seq<int>)
    ensures |r| == |l|
  {
    if l == [] then [] else
      var k := |l| - 1;
      Differences(l[..k]) + [l[k] as int - After(l, k)]
  }

  /** The indexes read back from the first `n` differences, and the 16-bit offset for the next. */
  function Sums(d: seq<int>, n: nat): (r: Option<(seq<nat>, nat)>)
    requires n <= |d|
    ensures r.Some? ==> |r.value.0| == n && r.value.1 == After(r.value.0, n) % 65536
    ensures r.Some? ==> forall k :: 0 <= k < n ==> r.value.0[k] <= UINT16_MAX
  {
    if n == 0 then Some(([], 0)) else
      var prev := Sums(d, n - 1);
      if prev.None? || !(0 <= d[n - 1] <= UINT16_MAX) || d[n - 1] + prev.value.1 > UINT16_MAX then None
      else
        var index := d[n - 1] + prev.value.1;
        Some((prev.value.0 + [index], (index + 1) % 65536))
  }

  lemma {:induction false} DifferenceAt(l: seq<nat>, k: nat)
    requires k < |l|
    ensures Differences(l)[k] == l[k] as int - After(l, k)
  {
    if k < |l| - 1 {
      DifferenceAt(l[..|l| - 1], k);
      assert After(l[..|l| - 1], k) == After(l, k);
    }
  }

  lemma DifferenceBounds(l: seq<nat>, k: nat)
    requires Increasing(l) && k < |l| && l[k] <= UINT16_MAX
    ensures Differences(l)[k] == l[k] as int - After(l, k)
    ensures 0 <= Differences(l)[k] <= UINT16_MAX && After(l, k) <= UINT16_MAX
  {
    hide Differences;
    DifferenceAt(l, k);
    assert k > 0 ==> l[k - 1] < l[k];
  }

  lemma SumsZero(d: seq<int>)
    ensures Sums(d, 0) == Some(([], 0))
  {
  }

  lemma {:induction false} SumsNext(d: seq<int>, n: nat, prev: seq<nat>, x: nat)
    requires 0 < n <= |d| && Sums(d, n - 1).Some? && Sums(d, n - 1).value.0 == prev
    requires 0 <= d[n - 1] && After(prev, n - 1) <= UINT16_MAX && d[n - 1] + After(prev, n - 1) == x <= UINT16_MAX
    ensures Sums(d, n).Some? && Sums(d, n).value.0 == prev + [x]
  {
  }

  lemma {:induction false} SumsOfDifferences(l: seq<nat>, n: nat)
    requires Increasing(l) && n <= |l| && forall k :: 0 <= k < |l| ==> l[k] <= UINT16_MAX
    ensures Sums(Differences(l), n).Some? && Sums(Differences(l), n).value.0 == l[..n]
  {
    hide Increasing, Differences, Sums;
    var d := Differences(l);
    SumsZero(d);
    if n > 0 {
      SumsOfDifferences(l, n - 1);
      DifferenceBounds(l, n - 1);
      SumsNext(d, n, l[..n - 1], l[n - 1]);
      assert l[..n] == l[..n - 1] + [l[n - 1]];
    }
  }

  /** The request survives its encoding, and each difference fits 16 bits. */
  lemma {:induction false} RequestRoundTrip(l: seq<nat>)
    requires Increasing(l) && forall k :: 0 <= k < |l| ==> l[k] <= UINT16_MAX
    ensures Sums(Differences(l), |l|).Some? && Sums(Differences(l), |l|).value.0 == l
    ensures forall k :: 0 <= k < |l| ==> 0 <= Differences(l)[k] <= UINT16_MAX
  {
    hide Increasing, Differences, Sums;
    SumsOfDifferences(l, |l|);
    assert l[..|l|] == l;
    forall k | 0 <= k < |l| ensures 0 <= Differences(l)[k] <= UINT16_MAX { DifferenceBounds(l, k); }
  }

  /** Only increasing indexes have differences that can be read back. */
  lemma {:induction false} PositiveDifferences(l: seq<nat>)
    requires forall k :: 0 <= k < |l| ==> Differences(l)[k] >= 0
    ensures Increasing(l)
  {
    hide Increasing, Differences;
    if l == [] {
      IncreasingEmpty();
    } else {
      var n := |l| - 1;
      assert l == l[..n] + [l[n]];
      DifferencesAppend(l[..n], l[n]);
      assert Differences(l)[n] >= 0;
      forall k | 0 <= k < n ensures Differences(l[..n])[k] >= 0 { assert Differences(l)[k] >= 0; }
      PositiveDifferences(l[..n]);
      AppendIncreasing(l[..n], l[n]);
    }
  }

  /** 65535 occurs at most at the end. */
  ghost predicate EndsAtMax(l: seq<nat>) {
    forall k :: 0 <= k < |l| - 1 ==> l[k] != UINT16_MAX
  }

  lemma SumsPrefix(d: seq<int>, n: nat)
    requires 0 < n <= |d| && Sums(d, n).Some?
    ensures Sums(d, n - 1).Some?
    ensures var l, prev := Sums(d, n).value.0, Sums(d, n - 1).value.0;
      l == prev + [l[n - 1]] && l[n - 1] == d[n - 1] + After(prev, n - 1) % 65536 && d[n - 1] >= 0
  {
  }

  lemma {:induction false} DifferencesAppend(l: seq<nat>, x: nat)
    ensures Differences(l + [x]) == Differences(l) + [x as int - After(l, |l|)]
  {
    assert (l + [x])[..|l|] == l;
    assert After(l + [x], |l|) == After(l, |l|);
  }

  lemma EndsAtMaxAppend(l: seq<nat>, x: nat)
    requires EndsAtMax(l + [x])
    ensures EndsAtMax(l) && (l != [] ==> l[|l| - 1] != UINT16_MAX)
  {
    forall k | 0 <= k < |l| ensures l[k] != UINT16_MAX { assert (l + [x])[k] == l[k]; }
  }

  /** What is read back encodes to what was read, if 65535 occurs at most at the end. */
  lemma {:induction false} DifferencesOfSums(d: seq<int>, n: nat)
    requires n <= |d| && Sums(d, n).Some? && EndsAtMax(Sums(d, n).value.0)
    ensures Differences(Sums(d, n).value.0) == d[..n] && Increasing(Sums(d, n).value.0)
  {
    hide Sums, Differences, EndsAtMax, Increasing;
    SumsZero(d);
    if n == 0 {
      IncreasingEmpty();
    } else {
      SumsPrefix(d, n);
      var prev, x := Sums(d, n - 1).value.0, Sums(d, n).value.0[n - 1];
      EndsAtMaxAppend(prev, x);
      DifferencesOfSums(d, n - 1);
      AppendIncreasing(prev, x);
      DifferencesAppend(prev, x);
      assert d[..n] == d[..n - 1] + [d[n - 1]];
    }
  }

  lemma IncreasingEmpty()
    ensures Increasing([])
  {
  }

  lemma AppendIncreasing(l: seq<nat>, x: nat)
    requires Increasing(l) && (l != [] ==> l[|l| - 1] < x)
    ensures Increasing(l + [x])
  {
    forall j | 0 <= j < |l| ensures l[j] < x { assert j < |l| - 1 ==> l[j] < l[|l| - 1]; }
  }

  /** The sum of the first `n` numbers read. */
  function Total(d: seq<int>, n: nat): int
    requires n <= |d|
  {
    if n == 0 then 0 else Total(d, n - 1) + d[n - 1]
  }

  /** As long as no index but the last is 65535, an index is the sum so far plus its position. */
  lemma {:induction false} IndexIsTotal(d: seq<int>, n: nat)
    requires 0 < n <= |d| && Sums(d, n).Some? && EndsAtMax(Sums(d, n).value.0)
    ensures Sums(d, n).value.0[n - 1] == Total(d, n) + n - 1
  {
    hide Sums, EndsAtMax;
    SumsPrefix(d, n);
    var prev, x := Sums(d, n - 1).value.0, Sums(d, n).value.0[n - 1];
    EndsAtMaxAppend(prev, x);
    if n > 1 { IndexIsTotal(d, n - 1); }
  }

  lemma {:induction false} TotalGrows(d: seq<int>, m: nat, n: nat)
    requires m <= n <= |d| && Sums(d, n).Some?
    ensures Sums(d, m).Some? && Total(d, m) <= Total(d, n) && Sums(d, m).value.0 == Sums(d, n).value.0[..m]
  {
    hide Sums;
    if m < n {
      SumsPrefix(d, n);
      TotalGrows(d, m, n - 1);
      assert Sums(d, n).value.0[..m] == Sums(d, n - 1).value.0[..m];
    } else {
      assert Sums(d, n).value.0[..n] == Sums(d, n).value.0;
    }
  }

  /** The first index 65535 ends the range of the sum. */
  lemma {:induction false} MaxReached(d: seq<int>, k: nat)
    requires k < |d| - 1 && Sums(d, |d|).Some? && Sums(d, |d|).value.0[k] == UINT16_MAX
    ensures Total(d, |d|) + |d| > 65536
  {
    hide Sums, EndsAtMax;
    var l := Sums(d, |d|).value.0;
    TotalGrows(d, k + 1, |d|);
    if EndsAtMax(l[..k + 1]) {
      IndexIsTotal(d, k + 1);
    } else {
      var j := EarlierMax(l, k);
      MaxReached(d, j);
    }
  }

  lemma EarlierMax(l: seq<nat>, k: nat) returns (j: nat)
    requires k < |l| && !EndsAtMax(l[..k + 1])
    ensures j < k && l[j] == UINT16_MAX
  {
    j :| 0 <= j < k && l[..k + 1][j] == UINT16_MAX;
  }

  /**
  What is read back is in order, and encodes to what was read, if and only if the numbers on the wire add up to
  16 bits; behind 65535 the offset starts over.
  */
  lemma SumsIncreasing(d: seq<int>)
    requires Sums(d, |d|).Some?
    ensures Increasing(Sums(d, |d|).value.0) <==> Total(d, |d|) + |d| <= 65536
    ensures Total(d, |d|) + |d| <= 65536 ==> Differences(Sums(d, |d|).value.0) == d
  {
    hide Sums, Differences, Total;
    var l := Sums(d, |d|).value.0;
    assert d[..|d|] == d;
    if EndsAtMax(l) {
      DifferencesOfSums(d, |d|);
      TotalZero(d);
      if d != [] { IndexIsTotal(d, |d|); }
    } else {
      var k :| 0 <= k < |l| - 1 && l[k] == UINT16_MAX;
      assert l[k] >= l[k + 1];
      MaxReached(d, k);
    }
  }

  lemma TotalZero(d: seq<int>)
    ensures Total(d, 0) == 0
  {
  }

  /** Two numbers that are read without an error as indexes out of order. */
  lemma IndexesStartOver()
    ensures Sums([65535, 0], 2) == Some(([65535, 0], 1)) && !Increasing([65535, 0])
  {
    var d: seq<int> := [65535, 0];
    assert Sums(d, 0) == Some(([], 0));
    assert Sums(d, 1).value.0 == [65535] && Sums(d, 1).value.1 == 0;
    assert Sums(d, 2).value.0 == [65535, 0] && Sums(d, 2).value.1 == 1;
    assert [65535 as nat, 0][0] >= [65535 as nat, 0][1];
  }

  // ---------------------------------------------------------------- completing the block

  /** The block's first `n` transactions, and how many of the missing ones were used. */
  function Fill(a: Slots, missing: seq<Tx>, n: nat): (r: Option<(seq<Tx>, nat)>)
    requires n <= |a|
    ensures r.Some? ==> |r.value.0| == n && r.value.1 == Free(a, n) <= |missing|
  {
    if n == 0 then Some(([], 0)) else
      var prev := Fill(a, missing, n - 1);
      if prev.None? then None
      else if a[n - 1].Some? then Some((prev.value.0 + [a[n - 1].value], prev.value.1))
      else if |missing| <= prev.value.1 then None
      else Some((prev.value.0 + [missing[prev.value.1]], prev.value.1 + 1))
  }

  /** The answer to a request: the block's transactions at the indexes. */
  function Answer(vtx: seq<Tx>, indexes: seq<nat>): (r: seq<Tx>)
    requires forall k :: 0 <= k < |indexes| ==> indexes[k] < |vtx|
    ensures |r| == |indexes| && forall k :: 0 <= k < |indexes| ==> r[k] == vtx[indexes[k]]
  {
    if indexes == [] then [] else Answer(vtx, indexes[..|indexes| - 1]) + [vtx[indexes[|indexes| - 1]]]
  }

  /** An empty slot gets the transaction that was given for it. */
  lemma {:induction false} FillAt(a: Slots, missing: seq<Tx>, n: nat, p: nat)
    requires p < n <= |a| && a[p].None? && Fill(a, missing, n).Some?
    ensures Free(a, p) < |missing| && Fill(a, missing, n).value.0[p] == missing[Free(a, p)]
  {
    if p < n - 1 { FillAt(a, missing, n - 1, p); }
  }

  /** There are enough of the missing ones if there is one for every empty slot. */
  lemma {:induction false} FillWhen(a: Slots, missing: seq<Tx>, n: nat)
    requires n <= |a|
    ensures Fill(a, missing, n).Some? <==> Free(a, n) <= |missing|
  {
    if n > 0 { FillWhen(a, missing, n - 1); }
  }

  /** What stood in a slot stays there, and the empty ones get the missing ones in order. */
  ghost predicate Filling(a: Slots, missing: seq<Tx>, vtx: seq<Tx>) {
    |vtx| == |a| && forall p :: 0 <= p < |a| ==>
      if a[p].Some? then vtx[p] == a[p].value else Free(a, p) < |missing| && vtx[p] == missing[Free(a, p)]
  }

  lemma {:induction false} FillKeeps(a: Slots, missing: seq<Tx>, n: nat, p: nat)
    requires p < n <= |a| && a[p].Some? && Fill(a, missing, n).Some?
    ensures Fill(a, missing, n).value.0[p] == a[p].value
  {
    if p < n - 1 { FillKeeps(a, missing, n - 1, p); }
  }

  lemma FillIs(a: Slots, missing: seq<Tx>)
    requires Fill(a, missing, |a|).Some?
    ensures Filling(a, missing, Fill(a, missing, |a|).value.0)
  {
    forall p | 0 <= p < |a|
      ensures var tx := Fill(a, missing, |a|).value.0[p];
        if a[p].Some? then tx == a[p].value else Free(a, p) < |missing| && tx == missing[Free(a, p)]
    {
      hide Fill, Free;
      if a[p].Some? { FillKeeps(a, missing, |a|, p); } else { FillAt(a, missing, |a|, p); }
    }
  }

  /** The 16 bits of each index. */
  function LowBits(l: seq<nat>): (r: seq<nat>)
    ensures |r| == |l| && forall k :: 0 <= k < |l| ==> r[k] == l[k] % 65536
  {
    if l == [] then [] else LowBits(l[..|l| - 1]) + [l[|l| - 1] % 65536]
  }

  lemma SmallIndexes(l: seq<nat>)
    requires forall k :: 0 <= k < |l| ==> l[k] <= UINT16_MAX
    ensures LowBits(l) == l
  {
    assert forall k :: 0 <= k < |l| ==> l[k] % 65536 == l[k];
  }

  lemma MissingAt(a: Slots, p: nat)
    requires p < |a| && a[p].None?
    ensures Free(a, p) < |Missing(a, |a|)| && Missing(a, |a|)[Free(a, p)] == p
  {
    hide Missing;
    FreeMonotone(a, p + 1, |a|);
    FreeAtUnique(a, Free(a, p), Free(a, p), p, Missing(a, |a|)[Free(a, p)]);
  }

  lemma {:induction false} FillIsBlock(a: Slots, vtx: seq<Tx>, n: nat)
    requires Matches(a, vtx) && n <= |a|
    ensures Fill(a, Answer(vtx, Missing(a, |a|)), n) == Some((vtx[..n], Free(a, n)))
  {
    hide Missing, Answer;
    if n > 0 {
      FillIsBlock(a, vtx, n - 1);
      assert vtx[..n] == vtx[..n - 1] + [vtx[n - 1]];
      if a[n - 1].None? { MissingAt(a, n - 1); }
    }
  }

  /** Given what was asked for, the block is rebuilt exactly. */
  lemma FillCompletes(a: Slots, vtx: seq<Tx>)
    requires Matches(a, vtx)
    ensures var missing := Answer(vtx, Missing(a, |a|));
      Fill(a, missing, |a|) == Some((vtx, |missing|))
  {
    FillIsBlock(a, vtx, |a|);
    assert vtx[..|a|] == vtx;
  }
}
