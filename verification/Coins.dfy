/**
The layered UTXO cache (src/coins.cpp, src/coins.h): write-back caches stacked on a coin database.
The first module works on values: one function per operation, the layer invariant, and the proof
that a stack of any depth answers like one plain map per layer.
*/
module Coins {
  import opened Wrappers

  datatype OutPoint = OutPoint(hash: nat, n: nat)

  /** An unspent output; `value == -1` is the null output of a spent coin. */
  datatype Coin = Coin(value: int, script: seq<nat>, height: nat, coinBase: bool) {
    predicate IsSpent() { value == -1 }

    // Scripts of up to 28 bytes live inside the object; longer ones cost one allocation.
    function DynamicMemoryUsage(): nat {
      if |script| <= 28 then 0 else (|script| + 31) / 16 * 16
    }
  }

  const Empty := Coin(-1, [], 0, false)

  datatype Entry = Entry(coin: Coin, isDirty: bool, isFresh: bool)

  type CoinsMap = map<OutPoint, Entry>

  /** A plain map of unspent coins: what a view means. */
  type Utxos = map<OutPoint, Coin>

  datatype Stack =
    | Db(coins: Utxos)
    | Cache(entries: CoinsMap, usage: int, base: Stack)

  // ---------------------------------------------------------------- meaning

  function Access(v: Utxos, o: OutPoint): Coin {
    if o in v then v[o] else Empty
  }

  function Lookup(v: Utxos, o: OutPoint): Option<Coin> {
    if o in v then Some(v[o]) else None
  }

  function Seen(e: CoinsMap, v: Utxos, o: OutPoint): Coin {
    if o in e then e[o].coin else Access(v, o)
  }

  function Overlay(e: CoinsMap, v: Utxos): Utxos {
    map o | o in e.Keys + v.Keys && !Seen(e, v, o).IsSpent() :: Seen(e, v, o)
  }

  /** The unspent coins a stack stands for. */
  function View(s: Stack): Utxos {
    match s
    case Db(coins) => coins
    case Cache(e, _, b) => Overlay(e, View(b))
  }

  /** The view of every layer, top first, down to the database. */
  function Views(s: Stack): seq<Utxos> {
    match s
    case Db(coins) => [coins]
    case Cache(_, _, b) => [View(s)] + Views(b)
  }

  // ---------------------------------------------------------------- invariant

  predicate Clean(v: Utxos) {
    forall o :: o in v ==> !v[o].IsSpent()
  }

  /** What DIRTY, FRESH and a spent coin promise about one entry over the parent's view. */
  predicate EntryOk(x: Entry, v: Utxos, o: OutPoint) {
    && (x.isFresh ==> o !in v)
    && (!x.isDirty ==> Lookup(v, o) == Some(x.coin))
    && (x.coin.IsSpent() ==> x.coin == Empty && x.isDirty && !x.isFresh)
  }

  predicate LayerOk(e: CoinsMap, v: Utxos) {
    forall o :: o in e ==> EntryOk(e[o], v, o)
  }

  ghost function TotalUsage(e: CoinsMap): nat {
    if e == map[] then 0 else
      var o :| o in e;
      e[o].coin.DynamicMemoryUsage() + TotalUsage(e - {o})
  }

  ghost predicate Inv(s: Stack) {
    match s
    case Db(coins) => Clean(coins)
    case Cache(e, u, b) => Inv(b) && LayerOk(e, View(b)) && u == TotalUsage(e)
  }

  lemma {:induction false} UsageRemove(e: CoinsMap, o: OutPoint)
    requires o in e
    ensures TotalUsage(e) == e[o].coin.DynamicMemoryUsage() + TotalUsage(e - {o})
    decreases |e|
  {
    var p :| p in e && TotalUsage(e) == e[p].coin.DynamicMemoryUsage() + TotalUsage(e - {p});
    if p != o {
      UsageRemove(e - {p}, o);
      UsageRemove(e - {o}, p);
      assert e - {p} - {o} == e - {o} - {p};
    }
  }

  lemma UsagePut(e: CoinsMap, o: OutPoint, x: Entry)
    ensures TotalUsage(e[o := x]) == TotalUsage(e - {o}) + x.coin.DynamicMemoryUsage()
  {
    UsageRemove(e[o := x], o);
    assert e[o := x] - {o} == e - {o};
  }

  lemma {:induction false} ViewClean(s: Stack)
    requires Inv(s)
    ensures Clean(View(s))
  {
  }

  lemma OverlayPut(e: CoinsMap, v: Utxos, o: OutPoint, x: Entry)
    ensures Overlay(e[o := x], v) ==
      if x.coin.IsSpent() then Overlay(e, v) - {o} else Overlay(e, v)[o := x.coin]
  {
    assert forall p :: p != o ==> Seen(e[o := x], v, p) == Seen(e, v, p);
  }

  lemma OverlayErase(e: CoinsMap, v: Utxos, o: OutPoint)
    ensures o !in v ==> Overlay(e - {o}, v) == Overlay(e, v) - {o}
    ensures o in e && Clean(v) && Lookup(v, o) == Some(e[o].coin) ==> Overlay(e - {o}, v) == Overlay(e, v)
  {
    assert forall p :: p != o ==> Seen(e - {o}, v, p) == Seen(e, v, p);
  }

  lemma UnspentIn(v: Utxos, o: OutPoint)
    requires Clean(v) && o in v
    ensures !v[o].IsSpent()
  {
  }

  lemma OverlayAt(e: CoinsMap, v: Utxos, o: OutPoint)
    requires Clean(v)
    ensures Lookup(Overlay(e, v), o) == (if Seen(e, v, o).IsSpent() then None else Some(Seen(e, v, o)))
  {
  }

  lemma OverlayFill(e: CoinsMap, v: Utxos, o: OutPoint, x: Entry)
    requires Clean(v) && o !in e && Lookup(v, o) == Some(x.coin)
    ensures Overlay(e[o := x], v) == Overlay(e, v)
  {
    assert forall p :: Seen(e[o := x], v, p) == Seen(e, v, p);
  }

  // ---------------------------------------------------------------- reading

  /** FetchCoin: find the entry in the top cache, pulling it up from the base if need be. */
  function Fetch(s: Stack, o: OutPoint): (s': Stack)
    requires s.Cache?
    ensures s'.Cache?
    decreases s, 0
  {
    if o in s.entries then s
    else
      var (b, found) := GetCoin(s.base, o);
      match found
      case None => Cache(s.entries, s.usage, b)
      case Some(c) =>
        Cache(s.entries[o := Entry(c, false, c.IsSpent())], s.usage + c.DynamicMemoryUsage(), b)
  }

  /** GetCoin: `None` is the false return. */
  function GetCoin(s: Stack, o: OutPoint): (Stack, Option<Coin>)
    decreases s, 1
  {
    match s
    case Db(coins) => (s, Lookup(coins, o))
    case Cache(_, _, _) =>
      var s' := Fetch(s, o);
      (s', if o in s'.entries && !s'.entries[o].coin.IsSpent() then Some(s'.entries[o].coin) else None)
  }

  function AccessCoin(s: Stack, o: OutPoint): (Stack, Coin)
    requires s.Cache?
  {
    var s' := Fetch(s, o);
    (s', if o in s'.entries then s'.entries[o].coin else Empty)
  }

  function HaveCoin(s: Stack, o: OutPoint): (Stack, bool)
    requires s.Cache?
  {
    var s' := Fetch(s, o);
    (s', o in s'.entries && !s'.entries[o].coin.IsSpent())
  }

  /** Reading fills caches at every level below, yet changes no view and answers like the view. */
  lemma {:induction false} GetCoinReadsTheView(s: Stack, o: OutPoint)
    requires Inv(s)
    ensures var (s', r) := GetCoin(s, o);
      && Inv(s') && Views(s') == Views(s) && View(s') == View(s)
      && r == Lookup(View(s), o)
    decreases s, 1
  {
    if s.Cache? { FetchReadsTheView(s, o); }
  }

  lemma {:induction false} FetchReadsTheView(s: Stack, o: OutPoint)
    requires Inv(s) && s.Cache?
    ensures var s' := Fetch(s, o);
      && Inv(s') && Views(s') == Views(s) && View(s') == View(s)
      && (if o in s'.entries then s'.entries[o].coin == Access(View(s), o) else o !in View(s))
      && s'.entries ==
           if o in s.entries || o !in View(s) then s.entries else s.entries[o := Entry(View(s)[o], false, false)]
    decreases s, 0
  {
    hide Overlay, TotalUsage, Clean;
    ViewClean(s.base);
    OverlayAt(s.entries, View(s.base), o);
    if o !in s.entries {
      GetCoinReadsTheView(s.base, o);
      var s' := Fetch(s, o);
      if o in View(s.base) {
        UsageAfterPut(s.entries, o, s'.entries[o]);
        OverlayFill(s.entries, View(s.base), o, s'.entries[o]);
        UnspentIn(View(s.base), o);
      }
    }
  }

  // ---------------------------------------------------------------- updating the top layer

  /** AddCoin; the flag tells whether the "replaces non-pruned entry" logic_error was thrown. */
  function AddCoin(s: Stack, o: OutPoint, c: Coin, overwrite: bool, unspendable: bool): (Stack, bool)
    requires s.Cache?
  {
    if unspendable then (s, false) else
      var was := if o in s.entries then s.entries[o] else Entry(Empty, false, false);
      var usage := s.usage - (if o in s.entries then was.coin.DynamicMemoryUsage() else 0);
      if !overwrite && !was.coin.IsSpent() then
        (s.(entries := s.entries[o := was], usage := usage), true)
      else
        var markFresh := !overwrite && !was.isDirty;
        (s.(entries := s.entries[o := Entry(c, true, was.isFresh || markFresh)],
            usage := usage + c.DynamicMemoryUsage()), false)
  }

  lemma UsageAfterPut(e: CoinsMap, o: OutPoint, x: Entry)
    ensures TotalUsage(e[o := x]) ==
      TotalUsage(e) - (if o in e then e[o].coin.DynamicMemoryUsage() else 0) + x.coin.DynamicMemoryUsage()
  {
    UsagePut(e, o, x);
    if o in e { UsageRemove(e, o); } else { assert e - {o} == e; }
  }

  /** A legal AddCoin never throws and sets exactly that outpoint in the top view. */
  lemma AddCoinUpdatesTheView(s: Stack, o: OutPoint, c: Coin, overwrite: bool, unspendable: bool)
    requires Inv(s) && s.Cache? && !c.IsSpent()
    requires overwrite || o !in View(s)
    ensures var (s', threw) := AddCoin(s, o, c, overwrite, unspendable);
      && !threw && Inv(s') && s'.Cache? && s'.base == s.base
      && View(s') == (if unspendable then View(s) else View(s)[o := c])
  {
    ViewClean(s.base);
    if !unspendable {
      var s' := AddCoin(s, o, c, overwrite, unspendable).0;
      UsageAfterPut(s.entries, o, s'.entries[o]);
      OverlayPut(s.entries, View(s.base), o, s'.entries[o]);
    }
  }

  /**
  The caller's duty is exact: when AddCoin goes through, the layer invariant survives if and only if
  the caller allowed an overwrite or the view really had no coin there.
  */
  lemma AddCoinDutyIsExact(s: Stack, o: OutPoint, c: Coin, overwrite: bool)
    requires Inv(s) && s.Cache? && !c.IsSpent()
    ensures var (s', threw) := AddCoin(s, o, c, overwrite, false);
      !threw ==> (Inv(s') <==> overwrite || o !in View(s))
  {
    ViewClean(s.base);
    if overwrite || o !in View(s) { AddCoinUpdatesTheView(s, o, c, overwrite, false); }
  }

  /** SpendCoin: the boolean result and the coin moved out (`Empty` when there was no entry). */
  function SpendCoin(s: Stack, o: OutPoint): (Stack, bool, Coin)
    requires s.Cache?
  {
    var s' := Fetch(s, o);
    if o !in s'.entries then (s', false, Empty) else (SpendEntry(s', o), true, s'.entries[o].coin)
  }

  function SpendEntry(s: Stack, o: OutPoint): (s': Stack)
    requires s.Cache? && o in s.entries
    ensures s'.Cache? && s'.base == s.base
  {
    var usage := s.usage - s.entries[o].coin.DynamicMemoryUsage();
    if s.entries[o].isFresh then s.(entries := s.entries - {o}, usage := usage)
    else s.(entries := s.entries[o := Entry(Empty, true, false)], usage := usage)
  }

  lemma SpendEntryUpdatesTheView(s: Stack, o: OutPoint)
    requires Inv(s) && s.Cache? && o in s.entries
    ensures Inv(SpendEntry(s, o)) && View(SpendEntry(s, o)) == View(s) - {o}
  {
    var s' := SpendEntry(s, o);
    if s.entries[o].isFresh {
      UsageRemove(s.entries, o);
      OverlayErase(s.entries, View(s.base), o);
    } else {
      UsageAfterPut(s.entries, o, s'.entries[o]);
      OverlayPut(s.entries, View(s.base), o, s'.entries[o]);
    }
  }

  /** Spending removes exactly that outpoint from the top view and hands out what was there. */
  lemma SpendCoinUpdatesTheView(s: Stack, o: OutPoint)
    requires Inv(s) && s.Cache?
    ensures var (s', ok, moved) := SpendCoin(s, o);
      && Inv(s') && s'.Cache? && Views(s'.base) == Views(s.base)
      && View(s') == View(s) - {o}
      && moved == Access(View(s), o)
      && (o in View(s) ==> ok)
  {
    hide Overlay, LayerOk, TotalUsage, Clean, Fetch, GetCoin, SpendEntry;
    FetchReadsTheView(s, o);
    var f := Fetch(s, o);
    assert Views(f)[1..] == Views(f.base) && Views(s)[1..] == Views(s.base);
    if o in f.entries { SpendEntryUpdatesTheView(f, o); }
  }

  /**
  SpendCoin's boolean is not the plain map's: it is also true for an entry that is cached as spent.
  It agrees with "there was an unspent coin" exactly when the top cache holds no spent entry there.
  */
  lemma SpendCoinAnswer(s: Stack, o: OutPoint)
    requires Inv(s) && s.Cache?
    ensures (SpendCoin(s, o).1 <==> o in View(s)) <==> !(o in s.entries && s.entries[o].coin.IsSpent())
  {
    FetchReadsTheView(s, o);
    ViewClean(s);
  }

  lemma SpendCoinSays(s: Stack, o: OutPoint)
    requires Inv(s) && s.Cache?
    ensures SpendCoin(s, o).1 <==> o in View(s) || (o in s.entries && s.entries[o].coin.IsSpent())
  {
    SpendCoinAnswer(s, o);
    ViewClean(s);
    OverlayAt(s.entries, View(s.base), o);
  }

  /** A coin that is added and spent in one cache leaves nothing behind: that is what FRESH is for. */
  lemma ShortLived(s: Stack, o: OutPoint, c: Coin)
    requires Inv(s) && s.Cache? && o !in View(s) && o !in s.entries && !c.IsSpent()
    ensures AddCoin(s, o, c, false, false).0.Cache? && SpendCoin(AddCoin(s, o, c, false, false).0, o) == (s, true, c)
  {
    var s1 := AddCoin(s, o, c, false, false).0;
    assert s1.entries - {o} == s.entries;
  }

  /** The failing case occurs: spending a coin of the database twice reports success twice. */
  lemma SpendTwiceSucceedsTwice(o: OutPoint, c: Coin)
    requires !c.IsSpent()
    ensures var s := Cache(map[], 0, Db(map[o := c]));
      var (s1, ok1, _) := SpendCoin(s, o);
      Inv(s) && ok1 && o !in View(s1) && SpendCoin(s1, o).1
  {
    var s := Cache(map[], 0, Db(map[o := c]));
    assert GetCoin(s.base, o) == (s.base, Some(c));
    var s1 := SpendCoin(s, o).0;
    assert o in s1.entries && s1.entries[o].coin == Empty;
  }

  // ---------------------------------------------------------------- uncaching and flushing

  function Uncache(s: Stack, o: OutPoint): (s': Stack)
    requires s.Cache?
  {
    if o in s.entries && !s.entries[o].isDirty && !s.entries[o].isFresh then
      s.(entries := s.entries - {o}, usage := s.usage - s.entries[o].coin.DynamicMemoryUsage())
    else s
  }

  lemma UncacheKeepsTheView(s: Stack, o: OutPoint)
    requires Inv(s) && s.Cache?
    ensures Inv(Uncache(s, o)) && View(Uncache(s, o)) == View(s) && Views(Uncache(s, o)) == Views(s)
    ensures Uncache(s, o).Cache?
    ensures o in Uncache(s, o).entries <==> o in s.entries && (s.entries[o].isDirty || s.entries[o].isFresh)
  {
    ViewClean(s.base);
    if Uncache(s, o) != s {
      UsageRemove(s.entries, o);
      OverlayErase(s.entries, View(s.base), o);
    }
  }

  /** What BatchWrite leaves at one outpoint of the parent. */
  function Merged(e: CoinsMap, child: CoinsMap, o: OutPoint): Option<Entry> {
    if o !in child || !child[o].isDirty then
      if o in e then Some(e[o]) else None
    else if o !in e then
      if child[o].isFresh && child[o].coin.IsSpent() then None
      else Some(Entry(child[o].coin, true, child[o].isFresh))
    else if e[o].isFresh && child[o].coin.IsSpent() then None
    else Some(Entry(child[o].coin, true, e[o].isFresh))
  }

  function Merge(e: CoinsMap, child: CoinsMap): CoinsMap {
    map o | o in e.Keys + child.Keys && Merged(e, child, o).Some? :: Merged(e, child, o).value
  }

  /** The "FRESH flag misapplied" condition for which BatchWrite throws. */
  predicate Misapplied(e: CoinsMap, child: CoinsMap) {
    exists o :: o in child && MisappliedAt(e, child[o], o)
  }

  predicate MisappliedAt(e: CoinsMap, x: Entry, o: OutPoint) {
    x.isDirty && x.isFresh && o in e && !e[o].coin.IsSpent()
  }

  function Written(coins: Utxos, child: CoinsMap): Utxos {
    map o | o in coins.Keys + child.Keys &&
            (if o in child && child[o].isDirty then !child[o].coin.IsSpent() else o in coins)
      :: if o in child && child[o].isDirty then child[o].coin else coins[o]
  }

  /** BatchWrite into a parent; `None` is the logic_error. */
  ghost function BatchWrite(b: Stack, child: CoinsMap): Option<Stack> {
    match b
    case Db(coins) => Some(Db(Written(coins, child)))
    case Cache(e, u, bb) =>
      if Misapplied(e, child) then None
      else Some(Cache(Merge(e, child), u - TotalUsage(e) + TotalUsage(Merge(e, child)), bb))
  }

  ghost function Flush(s: Stack): Option<Stack>
    requires s.Cache?
  {
    match BatchWrite(s.base, s.entries)
    case None => None
    case Some(b) => Some(Cache(map[], 0, b))
  }

  /** Why FRESH may travel down: a child layer that keeps its promises can always be merged. */
  lemma MergeKeepsPromises(child: CoinsMap, e: CoinsMap, v: Utxos)
    requires Clean(v) && LayerOk(e, v) && LayerOk(child, Overlay(e, v))
    ensures !Misapplied(e, child)
    ensures LayerOk(Merge(e, child), v)
    ensures Overlay(Merge(e, child), v) == Overlay(child, Overlay(e, v))
  {
    forall o | o in child
      ensures !(child[o].isDirty && child[o].isFresh && o in e && !e[o].coin.IsSpent())
    {
      OverlayAt(e, v, o);
    }
    MergedPromises(child, e, v);
    MergedView(child, e, v);
  }

  lemma MergedPromises(child: CoinsMap, e: CoinsMap, v: Utxos)
    requires Clean(v) && LayerOk(e, v) && LayerOk(child, Overlay(e, v))
    ensures LayerOk(Merge(e, child), v)
  {
    hide Overlay, Clean;
    var m := Merge(e, child);
    forall o | o in m ensures EntryOk(m[o], v, o) {
      OverlayAt(e, v, o);
      if o in v { UnspentIn(v, o); }
      assert Some(m[o]) == Merged(e, child, o);
    }
  }

  lemma MergedView(child: CoinsMap, e: CoinsMap, v: Utxos)
    requires Clean(v) && LayerOk(e, v) && LayerOk(child, Overlay(e, v))
    ensures Overlay(Merge(e, child), v) == Overlay(child, Overlay(e, v))
  {
    OverlayClean(e, v);
    var x, y := Overlay(Merge(e, child), v), Overlay(child, Overlay(e, v));
    forall o ensures Lookup(x, o) == Lookup(y, o) {
      MergedLookup(child, e, v, o);
    }
    SameLookups(x, y);
  }

  lemma SameLookups(x: Utxos, y: Utxos)
    requires forall o :: Lookup(x, o) == Lookup(y, o)
    ensures x == y
  {
    forall o ensures o in x <==> o in y ensures o in x ==> x[o] == y[o] {
      assert Lookup(x, o) == Lookup(y, o);
    }
  }

  lemma OverlayClean(e: CoinsMap, v: Utxos)
    ensures Clean(Overlay(e, v))
  {
  }

  lemma MergedLookup(child: CoinsMap, e: CoinsMap, v: Utxos, o: OutPoint)
    requires Clean(v) && LayerOk(e, v) && LayerOk(child, Overlay(e, v)) && Clean(Overlay(e, v))
    ensures Lookup(Overlay(Merge(e, child), v), o) == Lookup(Overlay(child, Overlay(e, v)), o)
  {
    hide Overlay, Clean;
    OverlayAt(e, v, o);
    OverlayAt(Merge(e, child), v, o);
    OverlayAt(child, Overlay(e, v), o);
  }

  lemma WrittenIsOverlay(coins: Utxos, child: CoinsMap)
    requires Clean(coins) && LayerOk(child, coins)
    ensures Written(coins, child) == Overlay(child, coins) && Clean(Written(coins, child))
  {
    forall o
      ensures o in Written(coins, child) <==> o in Overlay(child, coins)
    {
    }
  }

  /** Writing a well-formed child into a stack never throws and overlays the child on its view. */
  lemma BatchWriteOverlays(b: Stack, child: CoinsMap)
    requires Inv(b) && LayerOk(child, View(b))
    ensures BatchWrite(b, child).Some? && |Views(b)| >= 1
    ensures var b' := BatchWrite(b, child).value;
      && Inv(b') && View(b') == Overlay(child, View(b))
      && Views(b') == Views(b)[0 := Overlay(child, View(b))]
  {
    hide Overlay, Merge, Merged, Misapplied, Written, LayerOk, TotalUsage, Clean;
    match b
    case Db(coins) =>
      WrittenIsOverlay(coins, child);
    case Cache(e, u, bb) =>
      ViewClean(bb);
      MergeKeepsPromises(child, e, View(bb));
  }

  /** A new cache, or one just flushed, shows the view below it. */
  lemma EmptyCache(b: Stack)
    requires Inv(b)
    ensures Inv(Cache(map[], 0, b)) && View(Cache(map[], 0, b)) == View(b)
    ensures Views(Cache(map[], 0, b)) == [View(b)] + Views(b)
  {
    ViewClean(b);
    assert Overlay(map[], View(b)) == View(b);
  }

  /** Flushing never throws, empties the layer and moves the layer's view into its parent. */
  lemma FlushPushesTheView(s: Stack)
    requires Inv(s) && s.Cache?
    ensures Flush(s).Some? && |Views(s)| >= 2
    ensures var s' := Flush(s).value;
      && Inv(s') && s'.Cache? && s'.entries == map[] && s'.usage == 0
      && View(s') == View(s)
      && Views(s') == Views(s)[1 := View(s)]
  {
    BatchWriteOverlays(s.base, s.entries);
    EmptyCache(BatchWrite(s.base, s.entries).value);
  }

  // ---------------------------------------------------------------- whole runs

  /** One call; `k` counts layers from the top, so that any cache may be read, uncached or flushed. */
  /** Nor does one that was flushed to the cache below in between: the two writes cancel out. */
  lemma ShortLivedBelow(e: CoinsMap, o: OutPoint, c: Coin)
    requires o !in e && !c.IsSpent()
    ensures var e1 := Merge(e, map[o := Entry(c, true, true)]);
      && !Misapplied(e, map[o := Entry(c, true, true)]) && o in e1
      && !Misapplied(e1, map[o := Entry(Empty, true, false)]) && Merge(e1, map[o := Entry(Empty, true, false)]) == e
      && Merge(e, map[o := Entry(Empty, true, true)]) == e
  {
    var e1 := Merge(e, map[o := Entry(c, true, true)]);
    assert e1 == e[o := Entry(c, true, true)];
  }

  datatype Op =
    | Get(k: nat, o: OutPoint)
    | Have(k: nat, o: OutPoint)
    | AccessAt(k: nat, o: OutPoint)
    | Add(o: OutPoint, coin: Coin, overwrite: bool, unspendable: bool)
    | Spend(o: OutPoint)
    | Drop(k: nat, o: OutPoint)
    | FlushAt(k: nat)
    | Push
    | Discard

  datatype Answer =
    | Nothing | Found(c: Option<Coin>) | Yes(b: bool) | TheCoin(coin: Coin) | Moved(b: bool, coin: Coin) | Threw

  ghost function Step(s: Stack, op: Op): (Stack, Answer)
    requires s.Cache?
    decreases s
  {
    if Below(op) && s.base.Cache? then
      var (b, a) := Step(s.base, Lower(op));
      (s.(base := b), a)
    else
    match op
    case Get(_, o) => var (s', r) := GetCoin(s, o); (s', Found(r))
    case Have(_, o) => var (s', r) := HaveCoin(s, o); (s', Yes(r))
    case AccessAt(_, o) => var (s', c) := AccessCoin(s, o); (s', TheCoin(c))
    case Add(o, c, w, u) => var (s', t) := AddCoin(s, o, c, w, u); (s', if t then Threw else Nothing)
    case Spend(o) => var (s', b, c) := SpendCoin(s, o); (s', Moved(b, c))
    case Drop(_, o) => (Uncache(s, o), Nothing)
    case FlushAt(_) => (match Flush(s) case None => (s, Threw) case Some(s') => (s', Nothing))
    case Push => (Cache(map[], 0, s), Nothing)
    case Discard => (s.base, Nothing)
  }

  predicate Below(op: Op) {
    (op.Get? || op.Have? || op.AccessAt? || op.Drop? || op.FlushAt?) && op.k > 0
  }

  function Lower(op: Op): Op
    requires Below(op)
  {
    op.(k := op.k - 1)
  }

  /** The top cache holds an entry for the spent outpoint that is spent already. */
  ghost predicate HeldSpent(s: Stack, op: Op) {
    op.Spend? && s.Cache? && op.o in s.entries && s.entries[op.o].coin.IsSpent()
  }

  /** The same call on plain maps, one per layer. */
  function PlainStep(vs: seq<Utxos>, op: Op): seq<Utxos>
    requires |vs| >= 2 && Allowed(vs, op)
  {
    match op
    case Add(o, c, _, u) => if u then vs else vs[0 := vs[0][o := c]]
    case Spend(o) => vs[0 := vs[0] - {o}]
    case FlushAt(k) => vs[k + 1 := vs[k]]
    case Push => [vs[0]] + vs
    case Discard => vs[1..]
    case _ => vs
  }

  /** Its answer; SpendCoin says "yes" also for an outpoint that is held as spent. */
  function PlainAnswer(vs: seq<Utxos>, op: Op, heldSpent: bool): Answer
    requires |vs| >= 2 && Allowed(vs, op)
  {
    match op
    case Get(k, o) => Found(Lookup(vs[k], o))
    case Have(k, o) => Yes(o in vs[k])
    case AccessAt(k, o) => TheCoin(Access(vs[k], o))
    case Spend(o) => Moved(o in vs[0] || heldSpent, Access(vs[0], o))
    case _ => Nothing
  }

  /** What the callers owe: an existing cache layer, an unspent coin, no silent overwrite. */
  predicate Allowed(vs: seq<Utxos>, op: Op) {
    match op
    case Add(o, c, w, _) => |vs| >= 2 && !c.IsSpent() && (w || o !in vs[0])
    case Spend(_) => true
    case Push => true
    case Discard => |vs| >= 3
    case _ => op.k + 1 < |vs|
  }

  lemma {:induction false} ViewsShape(s: Stack)
    ensures |Views(s)| >= 1 && Views(s)[0] == View(s)
    ensures s.Cache? <==> |Views(s)| >= 2
  {
    if s.Cache? { ViewsShape(s.base); }
  }

  lemma {:induction false} StepAgrees(s: Stack, op: Op)
    requires Inv(s) && s.Cache? && Allowed(Views(s), op)
    ensures |Views(s)| >= 2
    ensures var (s', a) := Step(s, op);
      && Inv(s') && s'.Cache? && Views(s') == PlainStep(Views(s), op)
      && a == PlainAnswer(Views(s), op, HeldSpent(s, op))
    decreases s
  {
    hide Overlay, LayerOk, TotalUsage, Clean, Fetch, GetCoin, AddCoin, SpendCoin, Flush, Uncache;
    ViewsShape(s);
    ViewsShape(s.base);
    if Below(op) {
      assert Views(s)[op.k] == Views(s.base)[op.k - 1];
      StepAgrees(s.base, Lower(op));
      var (b, a) := Step(s.base, Lower(op));
      PlainStepBelow(View(s), Views(s.base), op);
      ViewsShape(b);
      Rebase(s, b);
    } else {
      match op
      case Get(_, o) => GetCoinReadsTheView(s, o);
      case Have(_, o) =>
        FetchReadsTheView(s, o);
        ViewClean(s);
        if o in View(s) { UnspentIn(View(s), o); }
      case AccessAt(_, o) => FetchReadsTheView(s, o);
      case Add(o, c, w, u) =>
        AddCoinUpdatesTheView(s, o, c, w, u);
        var s' := AddCoin(s, o, c, w, u).0;
        assert Views(s') == (if u then Views(s) else Views(s)[0 := View(s)[o := c]]);
      case Spend(o) =>
        SpendCoinUpdatesTheView(s, o);
        SpendCoinSays(s, o);
        assert Views(SpendCoin(s, o).0) == Views(s)[0 := View(s) - {o}];
      case Drop(_, o) => UncacheKeepsTheView(s, o);
      case FlushAt(_) => FlushPushesTheView(s);
      case Push => EmptyCache(s);
      case Discard =>
    }
  }

  /** A lower layer may be replaced by one with the same view. */
  lemma Rebase(s: Stack, b: Stack)
    requires Inv(s) && s.Cache? && Inv(b) && View(b) == View(s.base)
    ensures Inv(s.(base := b)) && Views(s.(base := b)) == [View(s)] + Views(b)
  {
  }

  /** On plain maps, a call on a lower layer ignores the map above it. */
  lemma PlainStepBelow(v: Utxos, vs: seq<Utxos>, op: Op)
    requires |vs| >= 2 && Below(op) && Allowed(vs, Lower(op))
    ensures PlainStep([v] + vs, op) == [v] + PlainStep(vs, Lower(op)) && PlainStep(vs, Lower(op))[0] == vs[0]
    ensures forall h, g :: PlainAnswer([v] + vs, op, h) == PlainAnswer(vs, Lower(op), g)
  {
    if op.FlushAt? {
      var k := op.k;
      assert ([v] + vs)[k + 1 := vs[k - 1]] == [v] + vs[k := vs[k - 1]];
    }
  }

  ghost function Run(s: Stack, ops: seq<Op>): (Stack, seq<Answer>)
    requires s.Cache?
    decreases |ops|
  {
    if ops == [] then (s, []) else
      var (s1, a) := Step(s, ops[0]);
      if !s1.Cache? then (s, [a]) else
        var (s2, rest) := Run(s1, ops[1..]);
        (s2, [a] + rest)
  }

  /** Which of the calls spend an outpoint that is held as spent. */
  ghost function HeldAlong(s: Stack, ops: seq<Op>): (r: seq<bool>)
    requires s.Cache?
    ensures |r| == |ops|
    decreases |ops|
  {
    if ops == [] then [] else
      var s1 := Step(s, ops[0]).0;
      [HeldSpent(s, ops[0])] + if s1.Cache? then HeldAlong(s1, ops[1..]) else seq(|ops| - 1, _ => false)
  }

  predicate AllAllowed(vs: seq<Utxos>, ops: seq<Op>)
    requires |vs| >= 2
    decreases |ops|
  {
    ops != [] ==>
      && Allowed(vs, ops[0])
      && AllAllowed(PlainStep(vs, ops[0]), ops[1..])
  }

  function PlainRun(vs: seq<Utxos>, ops: seq<Op>, held: seq<bool>): (seq<Utxos>, seq<Answer>)
    requires |vs| >= 2 && AllAllowed(vs, ops) && |held| == |ops|
    decreases |ops|
  {
    if ops == [] then (vs, []) else
      var (vs', rest) := PlainRun(PlainStep(vs, ops[0]), ops[1..], held[1..]);
      (vs', [PlainAnswer(vs, ops[0], held[0])] + rest)
  }

  /**
  Any run over a stack of any depth gives the answers of the plain maps and ends in their state;
  `Threw` is no answer of the plain maps, so no logic_error is ever raised.
  */
  lemma {:induction false} RunAgrees(s: Stack, ops: seq<Op>)
    requires Inv(s) && s.Cache? && |Views(s)| >= 2 && AllAllowed(Views(s), ops)
    ensures var (s', answers) := Run(s, ops);
      Inv(s') && (Views(s'), answers) == PlainRun(Views(s), ops, HeldAlong(s, ops))
    decreases |ops|
  {
    hide Inv, Step, PlainStep, PlainAnswer, Allowed, HeldSpent;
    if ops != [] {
      StepAgrees(s, ops[0]);
      var (s1, _) := Step(s, ops[0]);
      ViewsShape(s1);
      RunAgrees(s1, ops[1..]);
      assert HeldAlong(s, ops)[1..] == HeldAlong(s1, ops[1..]);
    }
  }
}
