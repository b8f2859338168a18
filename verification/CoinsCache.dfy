/**
The cache objects themselves: each `CoinsViewCache` mutates its own map and counter and calls its
base, and every method is proved to do to the linked objects what the value model does to a stack.
*/
module CoinsCache {
  import opened Wrappers
  import opened Coins
  import opened CoinsDisk

  class CoinsDb {
    var coins: Utxos
    var best: Hash
    var heads: seq<Hash>

    constructor (coins: Utxos, best: Hash)
      ensures Value() == Disk(coins, best, [])
    {
      this.coins, this.best, heads := coins, best, [];
    }

    function Value(): Disk
      reads this
    {
      Disk(coins, best, heads)
    }

    /**
    `full` says when the pending batch is large enough to be written, `crash` before which of the writes the process
    ends; a batch is written as a whole or not at all.
    */
    method BatchWrite(mapCoins: CoinsMap, hashBlock: Hash, full: CoinsMap -> bool, crash: nat -> bool)
      returns (finished: bool)
      requires MayWrite(Value(), hashBlock)
      modifies this
      ensures finished ==> Value() == Finished(old(Value()), mapCoins, hashBlock)
      ensures !finished ==> Interrupted(old(Value()), mapCoins, hashBlock, Value())
      ensures (forall n :: !crash(n)) ==> finished
    {
      hide Written, Split, PartOf, Interrupted;
      var old_tip := best;
      if old_tip == NullHash && |heads| == 2 { old_tip := heads[1]; }
      var batch: CoinsMap, rest := map[], mapCoins;
      var writes := 0;
      ghost var d := Value();
      ghost var seen: CoinsMap := map[];
      WrittenNothing(coins);
      SplitStart(mapCoins);
      NotInterrupted(d, mapCoins, hashBlock);
      while rest != map[]
        invariant Split(mapCoins, seen, rest) && PartOf(seen, mapCoins)
        invariant batch.Keys <= seen.Keys && Written(coins, batch) == Written(d.coins, seen)
        invariant Interrupted(d, mapCoins, hashBlock, Value())
        decreases |rest|
      {
        var o :| o in rest;
        var x := rest[o];
        StepOn(mapCoins, seen, rest, o);
        WrittenOne(d.coins, seen, o, x);
        if x.isDirty {
          WrittenOne(coins, batch, o, x);
          batch := batch[o := x];
        }
        seen := seen[o := x];
        rest := rest - {o};
        if full(batch) {
          if crash(writes) { return false; }
          coins, best, heads := Written(coins, batch), NullHash, [hashBlock, old_tip];
          writes, batch := writes + 1, map[];
          WrittenNothing(coins);
          NowUnderway(d, mapCoins, hashBlock, Value(), seen);
        }
      }
      AllDone(mapCoins, seen);
      if crash(writes) { return false; }
      coins, best, heads := Written(coins, batch), hashBlock, [];
      finished := true;
    }
  }

  datatype Backend = Stored(db: CoinsDb) | Layer(cache: CoinsViewCache)

  class CoinsViewCache {
    var cacheCoins: CoinsMap
    var cachedCoinsUsage: int
    const base: Backend
    var hashBlock: Hash
    ghost const depth: nat
    ghost const Repr: set<object>

    ghost predicate Linked()
      decreases depth
    {
      match base
      case Stored(db) => Repr == {this, db}
      case Layer(c) => Repr == {this} + c.Repr && this !in c.Repr && c.depth < depth && c.Linked()
    }

    /** The stack of values that this cache and everything below it hold. */
    ghost function Abs(): Stack
      requires Linked()
      reads Repr
      decreases depth
    {
      Cache(cacheCoins, cachedCoinsUsage, match base case Stored(db) => Db(db.coins) case Layer(c) => c.Abs())
    }

    ghost function BestBelow(): Hash
      requires Linked()
      reads Repr
      decreases depth, 0
    {
      match base case Stored(db) => db.best case Layer(c) => c.Best()
    }

    /** The best block of this cache: its own, or if it has none that of the base. */
    ghost function Best(): Hash
      requires Linked()
      reads Repr
      decreases depth, 1
    {
      if hashBlock != NullHash then hashBlock else BestBelow()
    }

    constructor OnDisk(db: CoinsDb)
      ensures Linked() && base == Stored(db) && Abs() == Cache(map[], 0, Db(db.coins)) && Best() == db.best
      ensures fresh(this)
    {
      cacheCoins, cachedCoinsUsage, hashBlock, base, depth := map[], 0, NullHash, Stored(db), 0;
      Repr := {this, db};
    }

    constructor OnCache(cache: CoinsViewCache)
      requires cache.Linked()
      ensures Linked() && base == Layer(cache) && Abs() == Cache(map[], 0, cache.Abs()) && Best() == cache.Best()
      ensures fresh(this)
    {
      cacheCoins, cachedCoinsUsage, hashBlock, base, depth := map[], 0, NullHash, Layer(cache), cache.depth + 1;
      Repr := {this} + cache.Repr;
    }

    method FetchCoin(o: OutPoint) returns (found: bool)
      requires Linked()
      modifies Repr
      ensures Abs() == Fetch(old(Abs()), o) && Best() == old(Best())
      ensures found == (o in cacheCoins)
      decreases depth, 0
    {
      if o in cacheCoins { return true; }
      var tmp: Option<Coin>;
      match base {
        case Stored(db) => tmp := Lookup(db.coins, o);
        case Layer(c) => tmp := c.GetCoin(o);
      }
      if tmp.None? { return false; }
      cacheCoins := cacheCoins[o := Entry(tmp.value, false, tmp.value.IsSpent())];
      cachedCoinsUsage := cachedCoinsUsage + tmp.value.DynamicMemoryUsage();
      return true;
    }

    method GetCoin(o: OutPoint) returns (coin: Option<Coin>)
      requires Linked()
      modifies Repr
      ensures (Abs(), coin) == Coins.GetCoin(old(Abs()), o) && Best() == old(Best())
      decreases depth, 1
    {
      var found := FetchCoin(o);
      coin := if found && !cacheCoins[o].coin.IsSpent() then Some(cacheCoins[o].coin) else None;
    }

    method AccessCoin(o: OutPoint) returns (coin: Coin)
      requires Linked()
      modifies Repr
      ensures (Abs(), coin) == Coins.AccessCoin(old(Abs()), o) && Best() == old(Best())
    {
      var found := FetchCoin(o);
      coin := if found then cacheCoins[o].coin else Empty;
    }

    method HaveCoin(o: OutPoint) returns (have: bool)
      requires Linked()
      modifies Repr
      ensures (Abs(), have) == Coins.HaveCoin(old(Abs()), o) && Best() == old(Best())
    {
      var found := FetchCoin(o);
      have := found && !cacheCoins[o].coin.IsSpent();
    }

    method AddCoin(o: OutPoint, coin: Coin, overwrite: bool, unspendable: bool) returns (threw: bool)
      requires Linked() && !coin.IsSpent()
      modifies this
      ensures (Abs(), threw) == Coins.AddCoin(old(Abs()), o, coin, overwrite, unspendable) && Best() == old(Best())
    {
      if unspendable { return false; }
      var inserted := o !in cacheCoins;
      if inserted { cacheCoins := cacheCoins[o := Entry(Empty, false, false)]; }
      var markFresh := false;
      if !inserted {
        cachedCoinsUsage := cachedCoinsUsage - cacheCoins[o].coin.DynamicMemoryUsage();
      }
      if !overwrite {
        if !cacheCoins[o].coin.IsSpent() {
          assert cacheCoins == old(cacheCoins)[o := old(cacheCoins)[o]];
          return true;
        }
        markFresh := !cacheCoins[o].isDirty;
      }
      cacheCoins := cacheCoins[o := Entry(coin, true, cacheCoins[o].isFresh || markFresh)];
      cachedCoinsUsage := cachedCoinsUsage + coin.DynamicMemoryUsage();
      assert cacheCoins == old(cacheCoins)[o := cacheCoins[o]];
      return false;
    }

    method SpendCoin(o: OutPoint) returns (ok: bool, moveout: Coin)
      requires Linked()
      modifies Repr
      ensures (Abs(), ok, moveout) == Coins.SpendCoin(old(Abs()), o) && Best() == old(Best())
    {
      var found := FetchCoin(o);
      if !found { return false, Empty; }
      cachedCoinsUsage := cachedCoinsUsage - cacheCoins[o].coin.DynamicMemoryUsage();
      moveout := cacheCoins[o].coin;
      if cacheCoins[o].isFresh {
        cacheCoins := cacheCoins - {o};
      } else {
        cacheCoins := cacheCoins[o := Entry(Empty, true, false)];
      }
      ok := true;
    }

    method Uncache(o: OutPoint)
      requires Linked()
      modifies this
      ensures Abs() == Coins.Uncache(old(Abs()), o) && Best() == old(Best())
    {
      if o in cacheCoins && !cacheCoins[o].isDirty && !cacheCoins[o].isFresh {
        cachedCoinsUsage := cachedCoinsUsage - cacheCoins[o].coin.DynamicMemoryUsage();
        cacheCoins := cacheCoins - {o};
      }
    }

    /** The best block; reading it keeps a copy in this cache and those it asks. */
    method GetBestBlock() returns (h: Hash)
      requires Linked()
      modifies Repr
      ensures h == Best() == old(Best()) && Abs() == old(Abs()) && (h != NullHash ==> hashBlock == h)
      decreases depth
    {
      if hashBlock == NullHash {
        match base {
          case Stored(db) => hashBlock := db.best;
          case Layer(c) => hashBlock := c.GetBestBlock();
        }
      }
      h := hashBlock;
    }

    method SetBestBlock(hashBlockIn: Hash)
      requires Linked()
      modifies this`hashBlock
      ensures hashBlock == hashBlockIn && Abs() == old(Abs()) && BestBelow() == old(BestBelow())
    {
      hashBlock := hashBlockIn;
    }

    /** One pass of BatchWrite's loop. */
    method WriteEntry(o: OutPoint, x: Entry) returns (ok: bool)
      modifies this`cacheCoins, this`cachedCoinsUsage
      ensures ok <==> !(x.isDirty && x.isFresh && o in old(cacheCoins) && !old(cacheCoins)[o].coin.IsSpent())
      ensures ok ==> cacheCoins == MergeInto(old(cacheCoins), o, x)
      ensures !ok ==> cacheCoins == old(cacheCoins) && cachedCoinsUsage == old(cachedCoinsUsage)
      ensures ok ==> cachedCoinsUsage - TotalUsage(cacheCoins) == old(cachedCoinsUsage - TotalUsage(cacheCoins))
    {
      ghost var was := cacheCoins;
      if x.isDirty {
        if o !in cacheCoins {
          if !(x.isFresh && x.coin.IsSpent()) {
            cacheCoins := cacheCoins[o := Entry(x.coin, true, x.isFresh)];
            cachedCoinsUsage := cachedCoinsUsage + x.coin.DynamicMemoryUsage();
            UsageAfterPut(was, o, cacheCoins[o]);
          } else {
            assert was - {o} == was;
          }
        } else {
          if x.isFresh && !cacheCoins[o].coin.IsSpent() { return false; }
          if cacheCoins[o].isFresh && x.coin.IsSpent() {
            UsageRemove(was, o);
            cachedCoinsUsage := cachedCoinsUsage - cacheCoins[o].coin.DynamicMemoryUsage();
            cacheCoins := cacheCoins - {o};
          } else {
            cachedCoinsUsage := cachedCoinsUsage - cacheCoins[o].coin.DynamicMemoryUsage();
            cacheCoins := cacheCoins[o := Entry(x.coin, true, cacheCoins[o].isFresh)];
            cachedCoinsUsage := cachedCoinsUsage + x.coin.DynamicMemoryUsage();
            UsageAfterPut(was, o, cacheCoins[o]);
          }
        }
      }
      return true;
    }

    /** BatchWrite's loop over the child's map, whatever order it is walked in; `left` is not yet erased from it. */
    method WriteEntries(mapCoins: CoinsMap) returns (ok: bool, left: CoinsMap)
      modifies this`cacheCoins, this`cachedCoinsUsage
      ensures ok <==> !Misapplied(old(cacheCoins), mapCoins)
      ensures ok ==> cacheCoins == Merge(old(cacheCoins), mapCoins) && left == map[]
      ensures !ok ==> Stopped(old(cacheCoins), mapCoins, left, cacheCoins)
      ensures cachedCoinsUsage - TotalUsage(cacheCoins) == old(cachedCoinsUsage - TotalUsage(cacheCoins))
    {
      hide *;
      var rest := mapCoins;
      ghost var e0, done: CoinsMap := cacheCoins, map[];
      MergeNothing(e0, mapCoins);
      while rest != map[]
        invariant Split(mapCoins, done, rest)
        invariant cacheCoins == Merge(e0, done) && !Misapplied(e0, done)
        invariant cachedCoinsUsage - TotalUsage(cacheCoins) == old(cachedCoinsUsage - TotalUsage(cacheCoins))
        decreases |rest|
      {
        var o :| o in rest;
        StepOn(mapCoins, done, rest, o);
        MergeOne(e0, done, o, rest[o]);
        MisappliedOne(e0, done, o, rest[o]);
        var written := WriteEntry(o, rest[o]);
        if !written {
          MisappliedGrows(e0, done[o := rest[o]], rest - {o}, mapCoins);
          StoppedHere(e0, mapCoins, done, rest, o);
          return false, rest;
        }
        done := done[o := rest[o]];
        rest := rest - {o};
      }
      AllDone(mapCoins, done);
      return true, map[];
    }

    /** `ok` is false when the "FRESH flag misapplied" logic_error is thrown. */
    method BatchWrite(mapCoins: CoinsMap, hashBlockIn: Hash) returns (ok: bool, left: CoinsMap)
      requires Linked()
      modifies this
      ensures ok <==> Coins.BatchWrite(old(Abs()), mapCoins).Some?
      ensures ok ==> Coins.BatchWrite(old(Abs()), mapCoins) == Some(Abs()) && left == map[]
      ensures !ok ==> Stopped(old(cacheCoins), mapCoins, left, cacheCoins)
      ensures hashBlock == if ok then hashBlockIn else old(hashBlock)
      ensures cachedCoinsUsage - TotalUsage(cacheCoins) == old(cachedCoinsUsage - TotalUsage(cacheCoins))
    {
      hide Stopped, Misapplied, Merge, TotalUsage;
      ok, left := WriteEntries(mapCoins);
      if ok { hashBlock := hashBlockIn; }
    }

    /** The database accepts the block; other bases accept any. */
    ghost predicate MayFlush()
      requires Linked()
      reads Repr
    {
      base.Stored? ==> MayWrite(base.db.Value(), hashBlock)
    }

    /**
    Push every modification to the base. `ok` is false when BatchWrite throws; then the entries it has written are
    gone from this cache, the one that is misapplied and the rest are still here, and the memory count is as before.
    The base gets this cache's block even if that is null; `full` cuts a write to the database into batches.
    */
    method Flush(full: CoinsMap -> bool) returns (ok: bool)
      requires Linked() && MayFlush()
      modifies Repr
      ensures ok <==> Coins.Flush(old(Abs())).Some?
      ensures ok ==> Coins.Flush(old(Abs())) == Some(Abs()) && hashBlock == old(hashBlock)
      ensures ok && hashBlock != NullHash ==> BestBelow() == Best() == old(Best())
      ensures ok ==> match base case Stored(db) => db.heads == [] case Layer(c) => c.hashBlock == hashBlock
      ensures !ok ==> base.Layer? && cachedCoinsUsage == old(cachedCoinsUsage)
      ensures !ok ==> Stopped(old(base.cache.cacheCoins), old(cacheCoins), cacheCoins, base.cache.cacheCoins)
    {
      hide Stopped, Misapplied, Merge, TotalUsage, Written;
      ok := true;
      match base {
        case Stored(db) => var finished := db.BatchWrite(cacheCoins, hashBlock, full, _ => false);
        case Layer(c) =>
          var left;
          ok, left := c.BatchWrite(cacheCoins, hashBlock);
          cacheCoins := left;
      }
      if !ok { return; }
      cacheCoins, cachedCoinsUsage := map[], 0;
    }
  }

  /** The entries already written and those still to come make up the whole map. */
  ghost predicate Split(all: CoinsMap, done: CoinsMap, rest: CoinsMap) {
    && (forall o :: o in rest ==> o in all && rest[o] == all[o] && o !in done)
    && (forall o :: o in done ==> o in all && done[o] == all[o])
    && (forall o :: o in all ==> o in done || o in rest)
  }

  /** The write came to a misapplied entry: the entries before it are merged, the others are left. */
  ghost predicate Stopped(e: CoinsMap, all: CoinsMap, left: CoinsMap, e': CoinsMap) {
    && Misapplied(e, left)
    && exists done :: Split(all, done, left) && !Misapplied(e, done) && e' == Merge(e, done)
  }

  lemma StoppedHere(e: CoinsMap, all: CoinsMap, done: CoinsMap, rest: CoinsMap, o: OutPoint)
    requires Split(all, done, rest) && !Misapplied(e, done) && o in rest && o !in done
    requires rest[o].isDirty && rest[o].isFresh && o in Merge(e, done) && !Merge(e, done)[o].coin.IsSpent()
    ensures Stopped(e, all, rest, Merge(e, done))
  {
    assert Some(Merge(e, done)[o]) == Merged(e, done, o);
    assert MisappliedAt(e, rest[o], o);
  }

  lemma StepOn(all: CoinsMap, done: CoinsMap, rest: CoinsMap, o: OutPoint)
    requires Split(all, done, rest) && o in rest
    ensures o !in done && Split(all, done[o := rest[o]], rest - {o})
    ensures PartOf(done, all) ==> PartOf(done[o := rest[o]], all)
    ensures |rest - {o}| < |rest|
  {
    var rest' := rest - {o};
    assert forall p :: p in rest <==> p in rest' || p == o;
    assert |rest'| < |rest| by {
      assert rest'.Keys == rest.Keys - {o};
    }
  }

  lemma AllDone(all: CoinsMap, done: CoinsMap)
    requires Split(all, done, map[])
    ensures done == all
  {
  }

  lemma SplitStart(all: CoinsMap)
    ensures Split(all, map[], all) && PartOf(map[], all)
  {
  }

  lemma NowUnderway(d: Disk, all: CoinsMap, hashBlock: Hash, d': Disk, done: CoinsMap)
    requires PartOf(done, all) && d' == Disk(Written(d.coins, done), NullHash, [hashBlock, OldTip(d)])
    ensures Interrupted(d, all, hashBlock, d')
  {
  }

  lemma MergeNothing(e: CoinsMap, all: CoinsMap)
    ensures Merge(e, map[]) == e && !Misapplied(e, map[]) && Split(all, map[], all)
  {
  }

  lemma MisappliedGrows(e: CoinsMap, done: CoinsMap, rest: CoinsMap, all: CoinsMap)
    requires Misapplied(e, done) && Split(all, done, rest)
    ensures Misapplied(e, all)
  {
    var p :| p in done && MisappliedAt(e, done[p], p);
    assert all[p] == done[p];
  }

  function MergeInto(e: CoinsMap, o: OutPoint, x: Entry): CoinsMap {
    match Merged(e, map[o := x], o)
    case None => e - {o}
    case Some(y) => e[o := y]
  }

  /** Merging one more entry touches that outpoint only. */
  lemma MergeOne(e: CoinsMap, done: CoinsMap, o: OutPoint, x: Entry)
    requires o !in done
    ensures o in Merge(e, done) <==> o in e
    ensures o in e ==> Merge(e, done)[o] == e[o]
    ensures Merge(e, done[o := x]) == MergeInto(Merge(e, done), o, x)
  {
    var big, small := Merge(e, done[o := x]), Merge(e, done);
    forall p | p != o
      ensures p in big <==> p in small
      ensures p in big ==> big[p] == small[p]
    {
      assert Merged(e, done[o := x], p) == Merged(e, done, p);
    }
    assert Merged(e, done[o := x], o) == Merged(small, map[o := x], o);
  }

  lemma MisappliedOne(e: CoinsMap, done: CoinsMap, o: OutPoint, x: Entry)
    requires o !in done
    ensures Misapplied(e, done[o := x]) <==>
      Misapplied(e, done) || (x.isDirty && x.isFresh && o in e && !e[o].coin.IsSpent())
  {
    if Misapplied(e, done) {
      var p :| p in done && MisappliedAt(e, done[p], p);
      assert done[o := x][p] == done[p];
    }
    if MisappliedAt(e, x, o) { assert done[o := x][o] == x; }
  }
}
