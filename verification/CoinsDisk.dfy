/**
The database below the caches (src/txdb.cpp): a flush is written in several batches, each of them atomic, and marked
as under way from the first to the last, so that it can be completed after a crash between any two of them, by
replaying the blocks that it was writing (src/validation.cpp).
*/
module CoinsDisk {
  import opened Wrappers
  import opened Coins

  type Hash = nat

  /** The null hash, and what reading a missing record gives. */
  const NullHash: Hash := 0

  /** The coins, the best block and the head blocks. */
  datatype Disk = Disk(coins: Utxos, best: Hash, heads: seq<Hash>)

  /** The block that a flush starts from; during a replay it is the second head block. */
  function OldTip(d: Disk): Hash {
    if d.best != NullHash then d.best else if |d.heads| == 2 then d.heads[1] else NullHash
  }

  /** What BatchWrite asserts: a block, and during a replay the block that was being written. */
  predicate MayWrite(d: Disk, hashBlock: Hash) {
    hashBlock != NullHash && (d.best == NullHash && |d.heads| == 2 ==> d.heads[0] == hashBlock)
  }

  function Finished(d: Disk, all: CoinsMap, hashBlock: Hash): Disk {
    Disk(Written(d.coins, all), hashBlock, [])
  }

  predicate PartOf(done: CoinsMap, all: CoinsMap) {
    forall o :: o in done ==> o in all && done[o] == all[o]
  }

  /** A crash came before the first batch, or after it: then some of the changes are there, and the marks. */
  ghost predicate Interrupted(d: Disk, all: CoinsMap, hashBlock: Hash, d': Disk) {
    d' == d || Underway(d, all, hashBlock, d')
  }

  ghost predicate Underway(d: Disk, all: CoinsMap, hashBlock: Hash, d': Disk) {
    && d'.best == NullHash && d'.heads == [hashBlock, OldTip(d)]
    && exists done :: PartOf(done, all) && d'.coins == Written(d.coins, done)
  }

  lemma WrittenOne(coins: Utxos, done: CoinsMap, o: OutPoint, x: Entry)
    requires o !in done
    ensures Written(coins, done[o := x]) ==
      if !x.isDirty then Written(coins, done)
      else if x.coin.IsSpent() then Written(coins, done) - {o}
      else Written(coins, done)[o := x.coin]
  {
  }

  lemma WrittenNothing(coins: Utxos)
    ensures Written(coins, map[]) == coins
  {
  }

  // ---------------------------------------------------------------- flushes that are started again

  /** Every change of a map leads to the coins `t`. */
  ghost predicate Toward(all: CoinsMap, t: Utxos) {
    forall o :: o in all && all[o].isDirty ==> Lookup(t, o) == if all[o].coin.IsSpent() then None else Some(all[o].coin)
  }

  /** The map changes every outpoint at which the coins differ from `t`. */
  ghost predicate Covers(all: CoinsMap, coins: Utxos, t: Utxos) {
    forall o :: Lookup(coins, o) != Lookup(t, o) ==> o in all && all[o].isDirty
  }

  /** At every outpoint the coins are those of `start` or those of `t`. */
  ghost predicate Mixed(coins: Utxos, start: Utxos, t: Utxos) {
    forall o :: Lookup(coins, o) == Lookup(start, o) || Lookup(coins, o) == Lookup(t, o)
  }

  lemma WrittenAt(coins: Utxos, all: CoinsMap, o: OutPoint)
    ensures Lookup(Written(coins, all), o) ==
      if o in all && all[o].isDirty then (if all[o].coin.IsSpent() then None else Some(all[o].coin))
      else Lookup(coins, o)
  {
  }

  lemma MixedStill(coins: Utxos, start: Utxos, t: Utxos, all: CoinsMap, done: CoinsMap)
    requires Mixed(coins, start, t) && Toward(all, t) && PartOf(done, all)
    ensures Mixed(Written(coins, done), start, t)
  {
    hide Written;
    forall o
      ensures Lookup(Written(coins, done), o) == Lookup(start, o) || Lookup(Written(coins, done), o) == Lookup(t, o)
    {
      WrittenAt(coins, done, o);
      assert o in done ==> done[o] == all[o];
    }
  }

  lemma MixedReaches(coins: Utxos, start: Utxos, t: Utxos, all: CoinsMap)
    requires Mixed(coins, start, t) && Toward(all, t) && Covers(all, start, t)
    ensures Written(coins, all) == t
  {
    hide Written;
    forall o ensures Lookup(Written(coins, all), o) == Lookup(t, o) {
      WrittenAt(coins, all, o);
    }
    SameLookups(Written(coins, all), t);
  }

  /** After a crash a flush of the same block may be started, from the same old block, and the coins are still mixed. */
  lemma Resumable(d: Disk, all: CoinsMap, hashBlock: Hash, d': Disk, start: Utxos, t: Utxos)
    requires MayWrite(d, hashBlock) && Interrupted(d, all, hashBlock, d') && Toward(all, t) && Mixed(d.coins, start, t)
    ensures MayWrite(d', hashBlock) && OldTip(d') == OldTip(d) && Mixed(d'.coins, start, t)
  {
    hide Written, Mixed, Toward;
    if d' != d {
      var done :| PartOf(done, all) && d'.coins == Written(d.coins, done);
      MixedStill(d.coins, start, t, all, done);
    }
  }

  /**
  However often flushes toward the same coins are interrupted, each with a map of its own, the next one may be
  started; and one that covers all that had to change at first ends with exactly those coins.
  */
  lemma {:induction false} Restarts(ds: seq<Disk>, alls: seq<CoinsMap>, hashBlock: Hash, t: Utxos)
    requires |ds| == |alls| > 0 && MayWrite(ds[0], hashBlock) && forall k :: 0 <= k < |ds| ==> Toward(alls[k], t)
    requires forall k :: 0 <= k < |ds| - 1 ==> Interrupted(ds[k], alls[k], hashBlock, ds[k + 1])
    ensures var n := |ds| - 1;
      && MayWrite(ds[n], hashBlock) && OldTip(ds[n]) == OldTip(ds[0]) && Mixed(ds[n].coins, ds[0].coins, t)
      && (Covers(alls[n], ds[0].coins, t) ==> Finished(ds[n], alls[n], hashBlock) == Disk(t, hashBlock, []))
  {
    hide Interrupted, MayWrite, OldTip, Toward, Written, Covers, Mixed;
    var n := |ds| - 1;
    if n == 0 {
      MixedAtFirst(ds[0].coins, t);
    } else {
      Restarts(ds[..n], alls[..n], hashBlock, t);
      assert Interrupted(ds[n - 1], alls[n - 1], hashBlock, ds[n - 1 + 1]);
      Resumable(ds[n - 1], alls[n - 1], hashBlock, ds[n], ds[0].coins, t);
    }
    if Covers(alls[n], ds[0].coins, t) { MixedReaches(ds[n].coins, ds[0].coins, t, alls[n]); }
  }

  lemma MixedAtFirst(start: Utxos, t: Utxos)
    ensures Mixed(start, start, t)
  {
  }

  lemma NotInterrupted(d: Disk, all: CoinsMap, hashBlock: Hash)
    ensures Interrupted(d, all, hashBlock, d)
  {
  }

  // ---------------------------------------------------------------- replaying blocks

  /** What disconnecting and connecting blocks asks of a cache, in order. */
  datatype Change = Write(o: OutPoint, coin: Coin, unspendable: bool) | Erase(o: OutPoint)

  /** AddCoin asserts that the coin is not spent. */
  predicate NoneSpent(changes: seq<Change>) {
    forall i :: 0 <= i < |changes| && changes[i].Write? ==> !changes[i].coin.IsSpent()
  }

  function ApplyOne(v: Utxos, c: Change): Utxos {
    match c
    case Write(o, coin, u) => if u then v else v[o := coin]
    case Erase(o) => v - {o}
  }

  /** The effect of the blocks on the coins. */
  function Apply(v: Utxos, changes: seq<Change>): Utxos
    decreases |changes|
  {
    if changes == [] then v else Apply(ApplyOne(v, changes[0]), changes[1..])
  }

  /** Writing asks for the coin first, and says whether it overwrites one. */
  ghost function ReplayOne(s: Stack, c: Change): Stack
    requires s.Cache?
  {
    match c
    case Write(o, coin, u) =>
      var (s1, a) := Step(s, Have(0, o));
      if s1.Cache? then Step(s1, Add(o, coin, a == Yes(true), u)).0 else s1
    case Erase(o) => Step(s, Spend(o)).0
  }

  ghost function ReplayOn(s: Stack, changes: seq<Change>): Stack
    decreases |changes|
  {
    if changes == [] || !s.Cache? then s else ReplayOn(ReplayOne(s, changes[0]), changes[1..])
  }

  /** The changes that a replay on the coins of the database leaves in its cache. */
  ghost function Replayed(coins: Utxos, changes: seq<Change>): CoinsMap {
    var s := ReplayOn(Cache(map[], 0, Db(coins)), changes);
    if s.Cache? then s.entries else map[]
  }

  lemma ReplayOneAgrees(s: Stack, c: Change)
    requires Inv(s) && s.Cache? && s.base.Db? && (c.Write? ==> !c.coin.IsSpent())
    ensures var s' := ReplayOne(s, c);
      Inv(s') && s'.Cache? && s'.base.Db? && Views(s') == [ApplyOne(View(s), c), View(s.base)]
    ensures c.Write? ==>
      var (s1, a) := Step(s, Have(0, c.o));
      s1.Cache? && Step(s1, Add(c.o, c.coin, a == Yes(true), c.unspendable)).1 == Nothing
  {
    hide Step, Inv, View;
    ViewsShape(s);
    ViewsShape(s.base);
    assert Views(s) == [View(s), View(s.base)];
    match c
    case Write(o, coin, u) =>
      StepAgrees(s, Have(0, o));
      var (s1, a) := Step(s, Have(0, o));
      StepAgrees(s1, Add(o, coin, a == Yes(true), u));
      DepthTwo(ReplayOne(s, c));
    case Erase(o) =>
      StepAgrees(s, Spend(o));
      DepthTwo(ReplayOne(s, c));
  }

  lemma DepthTwo(s: Stack)
    requires |Views(s)| == 2
    ensures s.Cache? && s.base.Db? && Views(s) == [View(s), View(s.base)]
  {
    ViewsShape(s);
    ViewsShape(s.base);
  }

  lemma {:induction false} ReplayAgrees(s: Stack, changes: seq<Change>)
    requires Inv(s) && s.Cache? && s.base.Db? && NoneSpent(changes)
    ensures var s' := ReplayOn(s, changes);
      Inv(s') && s'.Cache? && s'.base.Db? && View(s') == Apply(View(s), changes) && View(s'.base) == View(s.base)
    decreases |changes|
  {
    hide ReplayOne, ApplyOne, Inv, View;
    if changes != [] {
      var s1 := ReplayOne(s, changes[0]);
      ReplayOneAgrees(s, changes[0]);
      DepthTwo(s1);
      ReplayAgrees(s1, changes[1..]);
    }
  }

  predicate Touches(c: Change, o: OutPoint) {
    c.o == o && (c.Write? ==> !c.unspendable)
  }

  predicate Touched(changes: seq<Change>, o: OutPoint) {
    exists i :: 0 <= i < |changes| && Touches(changes[i], o)
  }

  /** Writing and deleting do not depend on what was there. */
  lemma {:induction false} ApplyAt(v: Utxos, w: Utxos, changes: seq<Change>, o: OutPoint)
    ensures Lookup(v, o) == Lookup(w, o) || Touched(changes, o) ==>
      Lookup(Apply(v, changes), o) == Lookup(Apply(w, changes), o)
    ensures !Touched(changes, o) ==> Lookup(Apply(v, changes), o) == Lookup(v, o)
    decreases |changes|
  {
    if changes != [] {
      var c, rest := changes[0], changes[1..];
      ApplyAt(ApplyOne(v, c), ApplyOne(w, c), rest, o);
      if i :| 0 <= i < |rest| && Touches(rest[i], o) { assert Touches(changes[i + 1], o); }
      if i :| 0 <= i < |changes| && Touches(changes[i], o) { assert i > 0 ==> Touches(rest[i - 1], o); }
    }
  }

  /** Replaying blocks on any mixture of the coins before and after them gives the coins after them. */
  lemma ReplayRestores(v: Utxos, start: Utxos, changes: seq<Change>)
    requires Mixed(v, start, Apply(start, changes))
    ensures Apply(v, changes) == Apply(start, changes)
  {
    hide Apply, Touched;
    forall o ensures Lookup(Apply(v, changes), o) == Lookup(Apply(start, changes), o) {
      ApplyAt(v, start, changes, o);
      ApplyAt(start, v, changes, o);
    }
    SameLookups(Apply(v, changes), Apply(start, changes));
  }

  /** The replay's own map leads to the coins after the blocks, and holds all that is missing from them. */
  lemma ReplayedMap(coins: Utxos, start: Utxos, changes: seq<Change>)
    requires Clean(coins) && NoneSpent(changes) && Mixed(coins, start, Apply(start, changes))
    ensures Toward(Replayed(coins, changes), Apply(start, changes))
    ensures Written(coins, Replayed(coins, changes)) == Apply(start, changes)
  {
    hide ReplayOn, Apply, Mixed, Overlay;
    var s := Cache(map[], 0, Db(coins));
    EmptyCache(Db(coins));
    ReplayAgrees(s, changes);
    ReplayRestores(coins, start, changes);
    FlushedLayer(ReplayOn(s, changes), coins, Apply(start, changes));
  }

  lemma FlushedLayer(s: Stack, coins: Utxos, t: Utxos)
    requires Inv(s) && s.Cache? && View(s) == t && View(s.base) == coins && Clean(coins)
    ensures Toward(s.entries, t) && Written(coins, s.entries) == t
  {
    hide Written, Overlay;
    var e := s.entries;
    WrittenIsOverlay(coins, e);
    forall o | o in e && e[o].isDirty
      ensures Lookup(t, o) == if e[o].coin.IsSpent() then None else Some(e[o].coin)
    {
      OverlayAt(e, coins, o);
    }
  }

  lemma {:induction false} ApplyClean(v: Utxos, changes: seq<Change>)
    requires Clean(v) && NoneSpent(changes)
    ensures Clean(Apply(v, changes))
    decreases |changes|
  {
    if changes != [] { ApplyClean(ApplyOne(v, changes[0]), changes[1..]); }
  }

  lemma MixedClean(coins: Utxos, start: Utxos, t: Utxos)
    requires Mixed(coins, start, t) && Clean(start) && Clean(t)
    ensures Clean(coins)
  {
    forall o | o in coins ensures !coins[o].IsSpent() {
      assert Lookup(coins, o) == Some(coins[o]);
      assert o in start ==> Lookup(start, o) == Some(start[o]);
      assert o in t ==> Lookup(t, o) == Some(t[o]);
    }
  }

  /** A flush toward the effect of the blocks crashed, and so did every replay of them on what it found. */
  ghost predicate Crashes(ds: seq<Disk>, first: CoinsMap, hashBlock: Hash, changes: seq<Change>) {
    && |ds| > 1
    && Toward(first, Apply(ds[0].coins, changes)) && Interrupted(ds[0], first, hashBlock, ds[1])
    && forall k :: 0 < k < |ds| - 1 ==> Interrupted(ds[k], Replayed(ds[k].coins, changes), hashBlock, ds[k + 1])
  }

  lemma {:induction false} CrashesMix(ds: seq<Disk>, first: CoinsMap, hashBlock: Hash, changes: seq<Change>)
    requires Crashes(ds, first, hashBlock, changes) && MayWrite(ds[0], hashBlock)
    requires Clean(ds[0].coins) && NoneSpent(changes)
    ensures var d := ds[|ds| - 1];
      && MayWrite(d, hashBlock) && OldTip(d) == OldTip(ds[0])
      && Clean(d.coins) && Mixed(d.coins, ds[0].coins, Apply(ds[0].coins, changes))
    decreases |ds|
  {
    hide Interrupted, MayWrite, OldTip, Toward, Mixed, Apply, Replayed, Clean, NoneSpent;
    var n, t := |ds| - 1, Apply(ds[0].coins, changes);
    ApplyClean(ds[0].coins, changes);
    if n == 1 {
      MixedAtFirst(ds[0].coins, t);
      Resumable(ds[0], first, hashBlock, ds[1], ds[0].coins, t);
    } else {
      CrashesMix(ds[..n], first, hashBlock, changes);
      ReplayedMap(ds[n - 1].coins, ds[0].coins, changes);
      assert Interrupted(ds[n - 1], Replayed(ds[n - 1].coins, changes), hashBlock, ds[n - 1 + 1]);
      Resumable(ds[n - 1], Replayed(ds[n - 1].coins, changes), hashBlock, ds[n], ds[0].coins, t);
    }
    MixedClean(ds[n].coins, ds[0].coins, t);
  }

  /** After any number of crashes a replay may run, and leaves exactly the coins after the blocks, and their tip. */
  lemma Recovers(ds: seq<Disk>, first: CoinsMap, hashBlock: Hash, changes: seq<Change>)
    requires Crashes(ds, first, hashBlock, changes) && MayWrite(ds[0], hashBlock)
    requires Clean(ds[0].coins) && NoneSpent(changes)
    ensures var d := ds[|ds| - 1];
      && MayWrite(d, hashBlock)
      && Finished(d, Replayed(d.coins, changes), hashBlock) == Disk(Apply(ds[0].coins, changes), hashBlock, [])
  {
    hide Interrupted, MayWrite, Toward, Written, Mixed, Apply, Replayed, Clean, NoneSpent;
    CrashesMix(ds, first, hashBlock, changes);
    ReplayedMap(ds[|ds| - 1].coins, ds[0].coins, changes);
  }
}
