/**
The receiving side of a compact block as the object of src/blockencodings.cpp, the two message codecs of
src/blockencodings.h, and a whole exchange. Positions are kept in 16 bits, so a block of more than 65536
transactions cannot be exchanged.
*/
module PartialBlock {
  import opened Wrappers
  import opened CompactBlock

  /** The announcement of a block. */
  method MakeCompact(h: Hashes, vtx: seq<Tx>) returns (c: Compact)
    requires vtx != []
    ensures c == Announce(h, vtx)
  {
    var shorttxids: seq<nat> := [];
    for i := 1 to |vtx|
      invariant shorttxids == ShortIds(h, vtx[1..i])
    {
      assert vtx[1..i + 1][..i - 1] == vtx[1..i];
      shorttxids := shorttxids + [h.short(h.txHash(vtx[i]))];
    }
    assert vtx[1..|vtx|] == vtx[1..];
    c := Compact(false, shorttxids, [Prefilled(0, vtx[0])]);
  }

  /** Writing a request. */
  method WriteRequest(indexes: seq<nat>) returns (stream: seq<int>)
    ensures stream == Differences(indexes)
  {
    stream := [];
    for i := 0 to |indexes|
      invariant stream == Differences(indexes[..i])
    {
      assert indexes[..i + 1] == indexes[..i] + [indexes[i]];
      DifferencesAppend(indexes[..i], indexes[i]);
      stream := stream + [indexes[i] as int - if i == 0 then 0 else indexes[i - 1] + 1];
    }
    assert indexes[..|indexes|] == indexes;
  }

  /** Reading the raw numbers of a request, the vector growing by at most 1000 at a time; None is an exception. */
  method ReadRaw(size: nat, stream: seq<int>) returns (r: Option<seq<int>>)
    ensures r ==
      if size <= |stream| && (forall k :: 0 <= k < size ==> 0 <= stream[k] <= UINT16_MAX) then Some(stream[..size])
      else None
  {
    var indexes: seq<int> := [];
    var i := 0;
    while |indexes| < size
      invariant i == |indexes| <= size && i <= |stream| && indexes == stream[..i]
      invariant forall k :: 0 <= k < i ==> 0 <= stream[k] <= UINT16_MAX
    {
      var target := if 1000 + |indexes| < size then 1000 + |indexes| else size;
      indexes := indexes + seq(target - |indexes|, _ => 0);
      while i < |indexes|
        invariant i <= |indexes| == target <= size && i <= |stream| && indexes[..i] == stream[..i]
        invariant forall k :: 0 <= k < i ==> 0 <= stream[k] <= UINT16_MAX
      {
        if i >= |stream| { return None; }
        if !(0 <= stream[i] <= UINT16_MAX) { return None; }
        indexes := indexes[i := stream[i]];
        assert indexes[..i + 1] == stream[..i + 1];
        i := i + 1;
      }
      assert indexes[..i] == indexes;
    }
    r := Some(indexes);
  }

  /** Turning differences into indexes, in place. */
  method Accumulate(raw: seq<int>) returns (r: Option<seq<nat>>)
    requires forall k :: 0 <= k < |raw| ==> 0 <= raw[k] <= UINT16_MAX
    ensures Sums(raw, |raw|).None? ==> r.None?
    ensures Sums(raw, |raw|).Some? ==> r.Some? && r.value == Sums(raw, |raw|).value.0
  {
    var indexes: seq<nat> := raw;
    var offset := 0;
    for j := 0 to |indexes|
      invariant |indexes| == |raw| && indexes[j..] == raw[j..]
      invariant Sums(raw, j).Some? && indexes[..j] == Sums(raw, j).value.0 && offset == Sums(raw, j).value.1
    {
      assert indexes[j] == indexes[j..][0] == raw[j];
      if indexes[j] + offset > UINT16_MAX {
        SumsFail(raw, j + 1);
        return None;
      }
      ghost var before := indexes;
      indexes := indexes[j := indexes[j] + offset];
      offset := (indexes[j] + 1) % 65536;
      assert indexes[..j + 1] == before[..j] + [indexes[j]];
      assert indexes[j + 1..] == before[j..][1..];
    }
    assert indexes[..|indexes|] == indexes;
    r := Some(indexes);
  }

  lemma {:induction false} SumsFail(d: seq<int>, n: nat)
    requires n <= |d| && Sums(d, n).None?
    ensures Sums(d, |d|).None?
    decreases |d| - n
  {
    if n < |d| { SumsFail(d, n + 1); }
  }

  /** The positions still missing, as 16-bit numbers. */
  method MissingIndexes(a: Slots) returns (indexes: seq<nat>)
    ensures indexes == LowBits(Missing(a, |a|))
  {
    indexes := [];
    for i := 0 to |a|
      invariant indexes == LowBits(Missing(a, i))
    {
      if a[i].None? {
        assert (Missing(a, i) + [i])[..|Missing(a, i)|] == Missing(a, i);
        indexes := indexes + [i % 65536];
      }
    }
  }

  /** The answer to a request; None if an index is outside the block. */
  method AnswerRequest(vtx: seq<Tx>, indexes: seq<nat>) returns (r: Option<seq<Tx>>)
    ensures r.Some? <==> forall k :: 0 <= k < |indexes| ==> indexes[k] < |vtx|
    ensures r.Some? ==> r.value == Answer(vtx, indexes)
  {
    var txn: seq<Tx> := [];
    for i := 0 to |indexes|
      invariant forall k :: 0 <= k < i ==> indexes[k] < |vtx|
      invariant txn == Answer(vtx, indexes[..i])
    {
      if indexes[i] >= |vtx| { return None; }
      assert indexes[..i + 1][..i] == indexes[..i];
      txn := txn + [vtx[indexes[i]]];
    }
    assert indexes[..|indexes|] == indexes;
    r := Some(txn);
  }

  /** All positions of 16 bits are sent along, and there are short ids besides. */
  predicate FillsOffsets(c: Compact) {
    |c.prefilled| == 65536 && c.shorttxids != []
  }

  datatype Mapping = Mapped | Crowded | StartsOver

  /** A hash bucket is too full, or two short ids are the same. */
  ghost predicate Rejected(c: Compact, crowded: nat -> bool) {
    || (exists i: nat :: i < |c.shorttxids| && crowded(i))
    || exists i, j :: 0 <= i < j < |c.shorttxids| && c.shorttxids[i] == c.shorttxids[j]
  }

  /** The transactions before the first that was not given have been moved out. */
  ghost predicate StoppedAt(a: Slots, missing: seq<Tx>, a': Slots) {
    exists q: nat :: q < |a| && a[q].None? && Free(a, q) == |missing| && a' == Empty(q) + a[q..]
  }

  class PartiallyDownloadedBlock {
    var headerNull: bool
    var txn_available: Slots
    var mempool_count: int

    constructor ()
      ensures headerNull && txn_available == [] && mempool_count == 0
    {
      headerNull, txn_available, mempool_count := true, [], 0;
    }

    /** InitData's first loop. */
    method PlacePrefilled(c: Compact) returns (ok: bool)
      modifies `txn_available
      ensures ok <==> Place(c, |c.prefilled|).Some?
      ensures ok ==> txn_available == Place(c, |c.prefilled|).value.0
    {
      txn_available := Empty(c.TxCount());
      var lastprefilledindex := -1;
      for i := 0 to |c.prefilled|
        invariant Place(c, i) == Some((txn_available, lastprefilledindex))
      {
        if c.prefilled[i].tx.isNull {
          PlaceFails(c, i + 1);
          return false;
        }
        lastprefilledindex := lastprefilledindex + c.prefilled[i].index + 1;
        if lastprefilledindex > UINT16_MAX || lastprefilledindex > |c.shorttxids| + i {
          PlaceFails(c, i + 1);
          return false;
        }
        txn_available := txn_available[lastprefilledindex := Some(c.prefilled[i].tx)];
      }
      ok := true;
    }

    /**
    InitData's second loop; `crowded` says after which entry a hash bucket holds more than 12. When the offset starts
    over, all the slots it reaches are filled, so the inner loop of the source does not end.
    */
    method MapShortIds(c: Compact, crowded: nat -> bool) returns (outcome: Mapping, ids: map<nat, nat>)
      requires Place(c, |c.prefilled|).Some? && txn_available == Place(c, |c.prefilled|).value.0
      ensures outcome == StartsOver <==> FillsOffsets(c)
      ensures outcome == Crowded <==> !FillsOffsets(c) && exists i: nat :: i < |c.shorttxids| && crowded(i)
      ensures outcome == Mapped ==> IdsOk(c.shorttxids, |c.shorttxids|, txn_available, ids)
      ensures outcome == StartsOver ==> forall offset :: 0 <= offset < 65536 ==> txn_available[offset].Some?
    {
      hide IdsOk, Free, IsFreeAt, Place;
      PlaceFree(c, |c.prefilled|);
      PlaceCount(c, |c.prefilled|);
      if FillsOffsets(c) { OffsetsFilled(c); }
      ids := map[];
      var index_offset := 0;
      IdsStart(c.shorttxids, txn_available);
      for i := 0 to |c.shorttxids|
        invariant 0 <= index_offset < 65536 && i + index_offset <= |txn_available|
        invariant Free(txn_available, i + index_offset) == i && (FillsOffsets(c) ==> i == 0)
        invariant IdsOk(c.shorttxids, i, txn_available, ids) && forall k: nat :: k < i ==> !crowded(k)
      {
        SlotAhead(txn_available, i + index_offset);
        while txn_available[i + index_offset].Some?
          invariant 0 <= index_offset < 65536 && i + index_offset < |txn_available|
          invariant Free(txn_available, i + index_offset) == i
          decreases |txn_available| - index_offset
        {
          SkipFilled(txn_available, i + index_offset);
          index_offset := (index_offset + 1) % 65536;
          if index_offset == 0 { return StartsOver, ids; }
        }
        TakeFree(txn_available, i + index_offset);
        IdsNext(c.shorttxids, i, txn_available, ids, i + index_offset);
        ids := ids[c.shorttxids[i] := (i + index_offset) % 65536];
        if crowded(i) { return Crowded, ids; }
      }
      outcome := Mapped;
    }

    /** One of InitData's two loops over a pool. */
    method ScanPool(h: Hashes, ids: map<nat, nat>, extra: bool, pool: seq<Entry>, have: seq<bool>)
      returns (have': seq<bool>)
      requires Fits(ids, Scan(txn_available, have, mempool_count))
      modifies `txn_available, `mempool_count
      ensures Scan(txn_available, have', mempool_count) ==
        ScanFrom(h, ids, extra, old(Scan(txn_available, have, mempool_count)), pool, 0)
    {
      have' := have;
      var i := 0;
      while i < |pool|
        invariant i <= |pool| && Fits(ids, Scan(txn_available, have', mempool_count))
        invariant ScanFrom(h, ids, extra, Scan(txn_available, have', mempool_count), pool, i) ==
          ScanFrom(h, ids, extra, old(Scan(txn_available, have, mempool_count)), pool, 0)
      {
        var shortid := h.short(pool[i].0);
        if shortid in ids {
          var p := ids[shortid];
          if !have'[p] {
            txn_available := txn_available[p := Some(pool[i].1)];
            have' := have'[p := true];
            mempool_count := mempool_count + 1;
          } else if txn_available[p].Some? && (!extra || h.txHash(txn_available[p].value) != h.txHash(pool[i].1)) {
            txn_available := txn_available[p := None];
            mempool_count := mempool_count - 1;
          }
        }
        if mempool_count == |ids| { return; }
        i := i + 1;
      }
    }

    /**
    The call does not return for an announcement that is not invalid and fills the offsets, and returns for all
    others. The short ids and the empty slots correspond one to one if and only if 16 bits suffice.
    */
    method InitData(h: Hashes, c: Compact, pool: seq<Entry>, extra: seq<Entry>, crowded: nat -> bool)
      returns (status: Status, ghost ids: map<nat, nat>)
      requires headerNull && txn_available == [] && mempool_count == 0
      modifies this
      ensures status == Invalid <==>
        c.headerNull || c.TxCount() == 0 || c.TxCount() > MAX_TRANSACTIONS || Place(c, |c.prefilled|).None?
      ensures status == Endless <==> status != Invalid && FillsOffsets(c)
      ensures status == Failed <==> status != Invalid && !FillsOffsets(c) && Rejected(c, crowded)
      ensures status != CheckBlockFailed
      ensures status == Good ==>
        var base := Place(c, |c.prefilled|).value.0;
        && (Bijection(c.shorttxids, base, ids) <==> c.TxCount() <= 65536)
        && (forall s :: s in ids ==> ids[s] <= UINT16_MAX && ids[s] < |base|)
        && txn_available == Rebuild(h, ids, base, pool, extra) && !headerNull
    {
      hide Place, ScanFrom, Free, LowBitsAt, IdsOk, Bijection;
      ids := map[];
      if c.headerNull || (|c.shorttxids| == 0 && |c.prefilled| == 0) { return Invalid, ids; }
      if |c.shorttxids| + |c.prefilled| > MAX_TRANSACTIONS { return Invalid, ids; }
      headerNull := c.headerNull;
      var ok := PlacePrefilled(c);
      if !ok { return Invalid, ids; }
      PlaceFree(c, |c.prefilled|);
      PlaceCount(c, |c.prefilled|);
      ghost var base := txn_available;
      var shorttxids: map<nat, nat>;
      var outcome;
      outcome, shorttxids := MapShortIds(c, crowded);
      if outcome == StartsOver { return Endless, ids; }
      if outcome == Crowded { return Failed, ids; }
      IdsDistinct(c.shorttxids, base, shorttxids);
      if |shorttxids| != |c.shorttxids| { return Failed, ids; }
      ids := shorttxids;
      if c.TxCount() <= 65536 {
        IdsBijection(c.shorttxids, base, ids);
      } else {
        NoBijection(c.shorttxids, base, ids, 65536);
      }
      IdsInRange(c.shorttxids, base, ids);
      var have_txn := Nothing(|txn_available|);
      have_txn := ScanPool(h, shorttxids, false, pool, have_txn);
      have_txn := ScanPool(h, shorttxids, true, extra, have_txn);
      status := Good;
    }

    /** `check` is CheckBlock: whether the block passes, and if not whether it may be corrupted. */
    method FillBlock(vtx_missing: seq<Tx>, check: seq<Tx> -> (bool, bool)) returns (status: Status, vtx: seq<Tx>)
      requires !headerNull
      modifies this
      ensures status == Invalid <==> |vtx_missing| != Free(old(txn_available), |old(txn_available)|)
      ensures |vtx_missing| < Free(old(txn_available), |old(txn_available)|) ==>
        !headerNull && StoppedAt(old(txn_available), vtx_missing, txn_available)
      ensures |vtx_missing| >= Free(old(txn_available), |old(txn_available)|) ==>
        headerNull && txn_available == [] && Filling(old(txn_available), vtx_missing, vtx)
      ensures status != Invalid ==>
        status == if check(vtx).0 then Good else if check(vtx).1 then Failed else CheckBlockFailed
      ensures var r := Fill(old(txn_available), vtx_missing, |old(txn_available)|);
        && (r.Some? <==> |vtx_missing| >= Free(old(txn_available), |old(txn_available)|))
        && (r.Some? ==> r.value == (vtx, Free(old(txn_available), |old(txn_available)|)))
    {
      hide Fill, StoppedAt, Empty, Free, Filling;
      ghost var a := txn_available;
      vtx := [];
      var tx_missing_offset := 0;
      FillNothing(a, vtx_missing);
      FillWhen(a, vtx_missing, |a|);
      for i := 0 to |txn_available|
        invariant txn_available == Empty(i) + a[i..] && !headerNull
        invariant Fill(a, vtx_missing, i) == Some((vtx, tx_missing_offset))
      {
        FillNext(a, vtx_missing, i);
        MovedOut(a, i);
        if txn_available[i].None? {
          if |vtx_missing| <= tx_missing_offset {
            FillFails(a, vtx_missing, i + 1);
            StoppedHere(a, vtx_missing, i);
            return Invalid, vtx;
          }
          vtx := vtx + [vtx_missing[tx_missing_offset]];
          tx_missing_offset := tx_missing_offset + 1;
        } else {
          vtx := vtx + [txn_available[i].value];
          txn_available := txn_available[i := None];
        }
      }
      headerNull := true;
      txn_available := [];
      FillIs(a, vtx_missing);
      if |vtx_missing| != tx_missing_offset { return Invalid, vtx; }
      var (valid, corruptionPossible) := check(vtx);
      if !valid {
        if corruptionPossible { return Failed, vtx; }
        return CheckBlockFailed, vtx;
      }
      status := Good;
    }
  }

  lemma FillNothing(a: Slots, missing: seq<Tx>)
    ensures Fill(a, missing, 0) == Some(([], 0)) && Empty(0) + a[0..] == a
  {
  }

  lemma FillNext(a: Slots, missing: seq<Tx>, i: nat)
    requires i < |a| && Fill(a, missing, i).Some?
    ensures var (vtx, used) := Fill(a, missing, i).value;
      Fill(a, missing, i + 1) ==
        if a[i].Some? then Some((vtx + [a[i].value], used))
        else if |missing| <= used then None else Some((vtx + [missing[used]], used + 1))
  {
  }

  lemma MovedOut(a: Slots, i: nat)
    requires i < |a|
    ensures (Empty(i) + a[i..])[i] == a[i] && (Empty(i) + a[i..])[i := None] == Empty(i + 1) + a[i + 1..]
    ensures a[i].None? ==> Empty(i) + a[i..] == Empty(i + 1) + a[i + 1..]
  {
  }

  lemma StoppedHere(a: Slots, missing: seq<Tx>, i: nat)
    requires i < |a| && Fill(a, missing, i).Some? && Fill(a, missing, i + 1).None?
    ensures StoppedAt(a, missing, Empty(i) + a[i..])
  {
  }

  lemma {:induction false} FillFails(a: Slots, missing: seq<Tx>, n: nat)
    requires n <= |a| && Fill(a, missing, n).None?
    ensures Fill(a, missing, |a|).None?
    decreases |a| - n
  {
    if n < |a| { FillFails(a, missing, n + 1); }
  }

  lemma IdsInRange(shorttxids: seq<nat>, a: Slots, ids: map<nat, nat>)
    requires IdsOk(shorttxids, |shorttxids|, a, ids)
    ensures forall s :: s in ids ==> ids[s] <= UINT16_MAX && ids[s] < |a|
  {
    forall s | s in ids ensures ids[s] <= UINT16_MAX && ids[s] < |a| {
      var i := IdIndex(shorttxids, a, ids, s);
      var p: nat :| IsFreeAt(a, i, p) && ids[s] == p % 65536;
    }
  }

  lemma {:induction false} FreeAfter(a: Slots, p: nat)
    requires p <= |a| && forall q :: p <= q < |a| ==> a[q].None?
    ensures Free(a, |a|) == Free(a, p) + (|a| - p)
    decreases |a| - p
  {
    if p < |a| {
      FreeAfter(a, p + 1);
      assert Free(a, p + 1) == Free(a, p) + 1;
    }
  }

  lemma {:induction false} NoneFree(a: Slots, p: nat, q: nat)
    requires q < p <= |a| && Free(a, p) == 0
    ensures a[q].Some?
  {
    if q < p - 1 { NoneFree(a, p - 1, q); }
  }

  /** All slots the 16-bit offset reaches before the first short id are filled. */
  lemma OffsetsFilled(c: Compact)
    requires FillsOffsets(c) && Place(c, |c.prefilled|).Some?
    ensures var a := Place(c, |c.prefilled|).value.0;
      |a| > 65536 && Free(a, 65536) == 0 && forall offset :: 0 <= offset < 65536 ==> a[offset].Some?
  {
    hide Place, Free;
    PlaceFree(c, |c.prefilled|);
    PlaceCount(c, |c.prefilled|);
    var (a, last) := Place(c, |c.prefilled|).value;
    FreeAfter(a, 65536);
    forall offset | 0 <= offset < 65536 ensures a[offset].Some? { NoneFree(a, 65536, offset); }
  }

  /** At the first short id the loop over offsets comes to an empty slot if and only if the shape does not occur. */
  lemma OffsetLoopEnds(c: Compact)
    requires Place(c, |c.prefilled|).Some? && c.shorttxids != []
    ensures var a := Place(c, |c.prefilled|).value.0;
      (exists offset :: 0 <= offset < 65536 && offset < |a| && a[offset].None?) <==> !FillsOffsets(c)
  {
    hide Place, Free;
    var (a, last) := Place(c, |c.prefilled|).value;
    if FillsOffsets(c) {
      OffsetsFilled(c);
    } else {
      PlaceFree(c, |c.prefilled|);
      PlaceCount(c, |c.prefilled|);
      var n := if |a| < 65536 then |a| else 65536;
      if forall offset :: 0 <= offset < n ==> a[offset].Some? {
        AllTaken(a, n);
        FreeAfter(a, n);
      }
    }
  }

  lemma {:induction false} AllTaken(a: Slots, p: nat)
    requires p <= |a| && forall q :: 0 <= q < p ==> a[q].Some?
    ensures Free(a, p) == 0
  {
    if p > 0 { AllTaken(a, p - 1); }
  }

  /** An announcement that passes every test and on which the loop does not end. */
  function Crammed(): Compact {
    Compact(false, [0], seq(65536, _ => Prefilled(0, Tx(false, 0))))
  }

  lemma {:induction false} CrammedPlaces(n: nat)
    requires n <= 65536
    ensures Place(Crammed(), n).Some? && Place(Crammed(), n).value.1 == n - 1
  {
    if n > 0 { CrammedPlaces(n - 1); }
  }

  lemma InitDataHangs()
    ensures var c := Crammed();
      && !c.headerNull && 0 < c.TxCount() <= MAX_TRANSACTIONS && Place(c, |c.prefilled|).Some? && FillsOffsets(c)
      && forall offset :: 0 <= offset < 65536 ==> Place(c, |c.prefilled|).value.0[offset].Some?
  {
    hide Place;
    CrammedPlaces(65536);
    OffsetsFilled(Crammed());
  }

  lemma IdsStart(shorttxids: seq<nat>, a: Slots)
    ensures Free(a, 0) == 0 && IdsOk(shorttxids, 0, a, map[])
  {
  }

  /** As long as not all empty slots are behind, there is a slot. */
  lemma SlotAhead(a: Slots, p: nat)
    requires p <= |a| && Free(a, p) < Free(a, |a|)
    ensures p < |a|
  {
  }

  lemma SkipFilled(a: Slots, p: nat)
    requires p < |a| && a[p].Some? && Free(a, p) < Free(a, |a|)
    ensures Free(a, p + 1) == Free(a, p) && p + 1 < |a| && p + 1 - Free(a, p) <= |a| - Free(a, |a|)
  {
    FilledUpTo(a, p + 1);
  }

  lemma TakeFree(a: Slots, p: nat)
    requires p < |a| && a[p].None?
    ensures Free(a, p + 1) == Free(a, p) + 1 && IsFreeAt(a, Free(a, p), p)
  {
  }

  /** There are no more filled slots before a position than altogether. */
  lemma {:induction false} FilledUpTo(a: Slots, p: nat)
    requires p <= |a|
    ensures p - Free(a, p) <= |a| - Free(a, |a|)
    decreases |a| - p
  {
    if p < |a| { FilledUpTo(a, p + 1); }
  }

  /** Positions are at most 65535, so more than 65536 transactions cannot be placed. */
  lemma {:induction false} PlaceCount(c: Compact, n: nat)
    requires n <= |c.prefilled| && Place(c, n).Some?
    ensures n <= Place(c, n).value.1 + 1 <= 65536
  {
    if n > 0 { PlaceCount(c, n - 1); }
  }

  /** The positions of the transactions that no pool has. */
  ghost predicate Unknown(vtx: seq<Tx>, pool: seq<Entry>, extra: seq<Entry>, p: nat) {
    1 <= p < |vtx| && vtx[p] !in TxsOf(pool) + TxsOf(extra)
  }

  lemma AskedIsUnknown(h: Hashes, vtx: seq<Tx>, ids: map<nat, nat>, base: Slots, pool: seq<Entry>, extra: seq<Entry>)
    requires vtx != [] && !vtx[0].isNull && Place(Announce(h, vtx), 1).Some?
    requires base == Place(Announce(h, vtx), 1).value.0
    requires Bijection(Announce(h, vtx).shorttxids, base, ids) && Labelled(h, pool) && Labelled(h, extra) && Once(pool)
    requires Separates(h, vtx + (TxsOf(pool) + TxsOf(extra))) && forall s :: s in ids ==> ids[s] < |base|
    ensures forall p: nat :: p in Missing(Rebuild(h, ids, base, pool, extra), |base|) <==> Unknown(vtx, pool, extra, p)
  {
    hide Place, Rebuild, Bijection, Missing;
    var a := Rebuild(h, ids, base, pool, extra);
    var known := TxsOf(pool) + TxsOf(extra);
    AnnouncedSlots(h, vtx, ids);
    RebuildOk(h, Announce(h, vtx).shorttxids, ids, base, pool, extra);
    RebuildMatches(h, vtx, ids, base, pool, extra);
    assert Separates(h, known);
    forall p: nat ensures p in Missing(a, |a|) <==> Unknown(vtx, pool, extra, p) {
      InMissing(a, p);
      if 1 <= p < |vtx| {
        assert ids[h.ShortOf(vtx[p])] == p;
        if vtx[p] in known { RebuildFills(h, Announce(h, vtx).shorttxids, ids, base, pool, extra, vtx[p]); }
      } else if p == 0 {
        assert 0 !in ids.Values;
      }
    }
  }

  lemma InMissing(a: Slots, p: nat)
    ensures p in Missing(a, |a|) <==> p < |a| && a[p].None?
  {
    hide Missing;
    if p < |a| && a[p].None? { MissingAt(a, p); }
  }

  /** Sending a request and getting the answer; None if the request cannot be read. */
  method Ask(a: Slots, vtx: seq<Tx>) returns (indexes: seq<nat>, answer: Option<seq<Tx>>)
    requires |a| == |vtx|
    ensures indexes == LowBits(Missing(a, |a|)) && forall k :: 0 <= k < |indexes| ==> indexes[k] < |vtx|
    ensures answer.Some? ==> answer.value == Answer(vtx, indexes)
    ensures |vtx| <= 65536 ==> indexes == Missing(a, |a|) && answer.Some?
  {
    hide Differences, Sums, Increasing, Missing, Answer, LowBits;
    indexes := MissingIndexes(a);
    LowBitsInRange(Missing(a, |a|), |vtx|);
    if |vtx| <= 65536 {
      SmallIndexes(Missing(a, |a|));
      MissingIncreasing(a, |a|);
      RequestRoundTrip(indexes);
    }
    var stream := WriteRequest(indexes);
    var raw := ReadRaw(|indexes|, stream);
    assert stream[..|indexes|] == stream;
    if raw.None? { return indexes, None; }
    PositiveDifferences(indexes);
    RequestRoundTrip(indexes);
    var received := Accumulate(raw.value);
    answer := AnswerRequest(vtx, received.value);
  }

  lemma LowBitsInRange(l: seq<nat>, n: nat)
    requires forall k :: 0 <= k < |l| ==> l[k] < n
    ensures forall k :: 0 <= k < |l| ==> LowBits(l)[k] <= UINT16_MAX && LowBits(l)[k] < n
  {
    forall k | 0 <= k < |l| ensures LowBits(l)[k] <= UINT16_MAX && LowBits(l)[k] < n { assert l[k] < n; }
  }

  /** All short ids get through: no hash bucket is crowded and no two are the same. */
  ghost predicate IdsWork(h: Hashes, vtx: seq<Tx>, crowded: nat -> bool) {
    && (forall i: nat :: i < |vtx| - 1 ==> !crowded(i))
    && forall i, j :: 1 <= i < j < |vtx| ==> h.ShortOf(vtx[i]) != h.ShortOf(vtx[j])
  }

  /**
  A whole exchange for one block. The receiver ends with the block, if it is one that CheckBlock accepts, if and only
  if the block has at most 65536 transactions and all short ids get through; and it asks for nothing that a pool has.
  */
  method Exchange(
    h: Hashes, vtx: seq<Tx>, pool: seq<Entry>, extra: seq<Entry>, crowded: nat -> bool,
    check: seq<Tx> -> (bool, bool)) returns (status: Status, received: seq<Tx>, asked: seq<nat>)
    requires vtx != [] && !vtx[0].isNull && Labelled(h, pool) && Labelled(h, extra)
    requires Separates(h, vtx + (TxsOf(pool) + TxsOf(extra)))
    ensures |vtx| <= 65536 && status == Good ==> received == vtx
    ensures |vtx| <= 65536 && status == Good && Once(pool) ==>
      forall p: nat :: p in asked <==> Unknown(vtx, pool, extra, p)
    ensures |vtx| <= 65536 && check(vtx).0 ==> (status == Good <==> IdsWork(h, vtx, crowded))
    ensures |vtx| > 65536 && vtx[0] !in vtx[1..] ==> !(status == Good && received == vtx)
  {
    hide Place, Bijection, Rebuild, Fill, Answer, Missing, LowBits;
    var c := MakeCompact(h, vtx);
    var pdb := new PartiallyDownloadedBlock();
    ghost var ids: map<nat, nat>;
    status, ids := pdb.InitData(h, c, pool, extra, crowded);
    asked, received := [], [];
    AnnouncedSlots(h, vtx, ids);
    if status != Good { return; }
    ghost var base := Place(c, 1).value.0;
    var a := pdb.txn_available;
    var answer;
    asked, answer := Ask(a, vtx);
    if |vtx| <= 65536 {
      RebuildMatches(h, vtx, ids, base, pool, extra);
      if Once(pool) { AskedIsUnknown(h, vtx, ids, base, pool, extra); }
      FillCompletes(a, vtx);
    } else {
      BeyondIsEmpty(h, vtx, ids, base, pool, extra);
    }
    if answer.None? { return Failed, [], asked; }
    status, received := pdb.FillBlock(answer.value, check);
    if |vtx| > 65536 && status == Good { WrongTransaction(a, vtx, asked, received); }
  }

  /** No position beyond 16 bits is filled from a pool. */
  lemma BeyondIsEmpty(
    h: Hashes, vtx: seq<Tx>, ids: map<nat, nat>, base: Slots, pool: seq<Entry>, extra: seq<Entry>)
    requires |vtx| > 65536 && !vtx[0].isNull && Place(Announce(h, vtx), 1).Some?
    requires base == Place(Announce(h, vtx), 1).value.0
    requires forall s :: s in ids ==> ids[s] <= UINT16_MAX && ids[s] < |base|
    ensures |base| == |vtx| && Rebuild(h, ids, base, pool, extra)[65536].None?
  {
    PlaceFree(Announce(h, vtx), 1);
    AnnouncedSlots(h, vtx, ids);
    assert Place(Announce(h, vtx), 1).value.1 <= UINT16_MAX;
    hide Place, Rebuild;
    RebuildElsewhere(h, ids, base, pool, extra, 65536);
  }

  /** Where position 65536 is missing, the first transaction is asked for and filled in. */
  lemma WrongTransaction(a: Slots, vtx: seq<Tx>, indexes: seq<nat>, received: seq<Tx>)
    requires |a| == |vtx| > 65536 && a[65536].None? && indexes == LowBits(Missing(a, |a|))
    requires forall k :: 0 <= k < |indexes| ==> indexes[k] < |vtx|
    requires Fill(a, Answer(vtx, indexes), |a|).Some? && received == Fill(a, Answer(vtx, indexes), |a|).value.0
    ensures vtx[0] !in vtx[1..] ==> received != vtx
  {
    hide Fill, Answer, Missing, LowBits;
    MissingAt(a, 65536);
    FillAt(a, Answer(vtx, indexes), |a|, 65536);
    assert received[65536] == vtx[0];
    assert vtx[65536] == vtx[1..][65535];
  }

  lemma {:induction false} PlaceFails(c: Compact, n: nat)
    requires n <= |c.prefilled| && Place(c, n).None?
    ensures Place(c, |c.prefilled|).None?
    decreases |c.prefilled| - n
  {
    if n < |c.prefilled| { PlaceFails(c, n + 1); }
  }

  lemma IdsNext(shorttxids: seq<nat>, i: nat, a: Slots, ids: map<nat, nat>, p: nat)
    requires i < |shorttxids| && IdsOk(shorttxids, i, a, ids) && IsFreeAt(a, i, p)
    ensures IdsOk(shorttxids, i + 1, a, ids[shorttxids[i] := p % 65536])
  {
    var ids' := ids[shorttxids[i] := p % 65536];
    assert LowBitsAt(a, i, p % 65536);
    hide LowBitsAt, IsFreeAt;
    forall s | s in ids' ensures exists j :: 0 <= j < i + 1 && shorttxids[j] == s && LowBitsAt(a, j, ids'[s]) {
      if s != shorttxids[i] {
        var j :| 0 <= j < i && shorttxids[j] == s && LowBitsAt(a, j, ids[s]);
      }
    }
  }
}
