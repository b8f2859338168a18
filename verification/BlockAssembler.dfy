/**
Block assembly (src/miner.cpp, src/miner.h): greedy selection of transaction packages from the
mempool, with a side table of ancestor totals patched as ancestors enter the block. The mempool is
any acyclic graph. Fee rates are compared by exact products, and ties fall either way.
*/
module BlockAssembler {
  import opened Numbers

  type Tx = nat

  /** A mempool entry: its own figures and the totals over itself and its unconfirmed ancestors. */
  datatype Entry = Entry(
    ancestors: set<Tx>, size: nat, weight: nat, sigOps: nat, fee: nat, modFee: int,
    countWithAncestors: nat, sizeWithAncestors: nat, sigOpsWithAncestors: nat, modFeesWithAncestors: int)

  type Pool = map<Tx, Entry>

  /** `ancestors` is the transitive closure of an acyclic parent relation; vsize rounds weight / 4 up. */
  ghost predicate WellFormed(pool: Pool) {
    forall t :: t in pool ==> WellFormedAt(pool, t)
  }

  ghost predicate WellFormedAt(pool: Pool, t: Tx)
    requires t in pool
  {
    && t !in pool[t].ancestors && pool[t].ancestors <= pool.Keys
    && (forall a :: a in pool[t].ancestors ==> pool[a].ancestors <= pool[t].ancestors)
    && 0 < pool[t].size && pool[t].weight <= 4 * pool[t].size
    && pool[t].countWithAncestors == |pool[t].ancestors| + 1
    && pool[t].sizeWithAncestors == WithAncestors(pool, t, Size(pool))
    && pool[t].sigOpsWithAncestors == WithAncestors(pool, t, SigOps(pool))
    && pool[t].modFeesWithAncestors == pool[t].modFee + ModFees(pool, pool[t].ancestors)
  }

  const MAX_BLOCK_SIGOPS_COST := 80000
  const MAX_CONSECUTIVE_FAILURES := 1000
  const COINBASE_WEIGHT := 4000
  const COINBASE_SIGOPS := 400

  // ---------------------------------------------------------------- sums over sets of transactions

  type Measure = Tx -> nat

  function Size(pool: Pool): Measure { (t: Tx) => if t in pool then pool[t].size else 0 }
  function Weight(pool: Pool): Measure { (t: Tx) => if t in pool then pool[t].weight else 0 }
  function SigOps(pool: Pool): Measure { (t: Tx) => if t in pool then pool[t].sigOps else 0 }

  function Fee(pool: Pool): Measure { (t: Tx) => if t in pool then pool[t].fee else 0 }

  ghost function Total(s: set<Tx>, f: Measure): nat {
    if s == {} then 0 else
      var t :| t in s;
      f(t) + Total(s - {t}, f)
  }

  lemma {:induction false} TotalRemove(s: set<Tx>, t: Tx, f: Measure)
    requires t in s
    ensures Total(s, f) == f(t) + Total(s - {t}, f)
    decreases |s|
  {
    var u :| u in s && Total(s, f) == f(u) + Total(s - {u}, f);
    if u != t {
      TotalRemove(s - {u}, t, f);
      TotalRemove(s - {t}, u, f);
      assert s - {u} - {t} == s - {t} - {u};
    }
  }

  lemma TotalAdd(s: set<Tx>, t: Tx, f: Measure)
    requires t !in s
    ensures Total(s + {t}, f) == f(t) + Total(s, f)
  {
    TotalRemove(s + {t}, t, f);
    assert s + {t} - {t} == s;
  }

  lemma {:induction false} TotalUnion(a: set<Tx>, b: set<Tx>, f: Measure)
    requires a !! b
    ensures Total(a + b, f) == Total(a, f) + Total(b, f)
    decreases |b|
  {
    if b == {} {
      assert a + b == a;
    } else {
      var t :| t in b;
      TotalUnion(a, b - {t}, f);
      TotalRemove(b, t, f);
      TotalAdd(a + (b - {t}), t, f);
      assert a + b == a + (b - {t}) + {t};
    }
  }

  lemma TotalSubset(a: set<Tx>, b: set<Tx>, f: Measure)
    requires a <= b
    ensures Total(b - a, f) == Total(b, f) - Total(a, f)
  {
    TotalUnion(a, b - a, f);
    assert a + (b - a) == b;
  }

  lemma SizeFacts(pool: Pool, t: Tx)
    requires WellFormed(pool)
    ensures Weight(pool)(t) <= 4 * Size(pool)(t) && (t in pool ==> pool[t].size > 0)
  {
    hide Total, Extra;
    assert t in pool ==> WellFormedAt(pool, t);
  }

  lemma {:induction false} WeightWithinSize(pool: Pool, s: set<Tx>)
    requires WellFormed(pool)
    ensures Total(s, Weight(pool)) <= 4 * Total(s, Size(pool))
    decreases |s|
  {
    hide WellFormed, Weight, Size;
    if s != {} {
      var t :| t in s;
      TotalRemove(s, t, Weight(pool));
      TotalRemove(s, t, Size(pool));
      SizeFacts(pool, t);
      WeightWithinSize(pool, s - {t});
    }
  }

  /** By how much a fee was modified. */
  function Delta(pool: Pool, t: Tx): int { if t in pool then pool[t].modFee - pool[t].fee else 0 }

  /** By how much the modified fees of some transactions exceed their plain fees. */
  ghost function Extra(pool: Pool, s: set<Tx>): int {
    if s == {} then 0 else
      var t :| t in s;
      Delta(pool, t) + Extra(pool, s - {t})
  }

  ghost function ModFees(pool: Pool, s: set<Tx>): int { Total(s, Fee(pool)) + Extra(pool, s) }

  lemma {:induction false} ExtraRemove(pool: Pool, s: set<Tx>, t: Tx)
    requires t in s
    ensures Extra(pool, s) == Delta(pool, t) + Extra(pool, s - {t})
    decreases |s|
  {
    hide Delta;
    var u :| u in s && Extra(pool, s) == Delta(pool, u) + Extra(pool, s - {u});
    if u != t {
      ExtraRemove(pool, s - {u}, t);
      ExtraRemove(pool, s - {t}, u);
      assert s - {u} - {t} == s - {t} - {u};
    }
  }

  lemma {:induction false} ExtraUnion(pool: Pool, a: set<Tx>, b: set<Tx>)
    requires a !! b
    ensures Extra(pool, a + b) == Extra(pool, a) + Extra(pool, b)
    decreases |b|
  {
    hide Delta;
    if b == {} {
      assert a + b == a;
    } else {
      var t :| t in b;
      ExtraUnion(pool, a, b - {t});
      ExtraRemove(pool, b, t);
      ExtraRemove(pool, a + b, t);
      assert a + b - {t} == a + (b - {t});
    }
  }

  // ---------------------------------------------------------------- packages

  /** The part of a package not yet in the block. */
  function Missing(pool: Pool, t: Tx, inBlock: set<Tx>): set<Tx>
    requires t in pool
  {
    pool[t].ancestors - inBlock + {t}
  }

  ghost function WithAncestors(pool: Pool, t: Tx, f: Measure): nat
    requires t in pool
  {
    f(t) + Total(pool[t].ancestors, f)
  }

  /** A cached total covers what the package would really add. */
  lemma MissingTotal(pool: Pool, t: Tx, inBlock: set<Tx>, f: Measure)
    requires t in pool && t !in pool[t].ancestors
    ensures Total(Missing(pool, t, inBlock), f) ==
      WithAncestors(pool, t, f) - Total(pool[t].ancestors * inBlock, f)
  {
    var a := pool[t].ancestors;
    TotalAdd(a - inBlock, t, f);
    TotalSubset(a * inBlock, a, f);
    assert a - a * inBlock == a - inBlock;
  }

  // ---------------------------------------------------------------- the modified-entry table

  datatype ModEntry = ModEntry(size: int, fees: int, sigOps: int)

  type ModTable = map<Tx, ModEntry>

  /** What an entry's totals were before any ancestor was subtracted. */
  ghost function StartSize(pool: Pool, m: ModTable, t: Tx): int
    requires t in pool
  {
    if t in m then m[t].size else WithAncestors(pool, t, Size(pool))
  }

  ghost function StartSigOps(pool: Pool, m: ModTable, t: Tx): int
    requires t in pool
  {
    if t in m then m[t].sigOps else WithAncestors(pool, t, SigOps(pool))
  }

  /**
  The first ancestor counts with its modified fee, as the entry is created; every further one, and any ancestor of
  an entry that was there already, with its plain fee.
  */
  ghost predicate FeesPatched(pool: Pool, m0: ModTable, m: ModTable, t: Tx, seen: set<Tx>)
    requires t in pool
  {
    t in m ==>
      if t in m0 then m[t].fees == m0[t].fees - Total(seen, Fee(pool))
      else exists x ::
        && x in seen && x in pool
        && m[t].fees == pool[t].modFeesWithAncestors - Total(seen, Fee(pool)) - (pool[x].modFee - pool[x].fee)
  }

  /** Entry `t` of `m` is that of `m0` less the transactions of `seen`; untouched entries stay out. */
  ghost predicate PatchedAt(pool: Pool, m0: ModTable, m: ModTable, t: Tx, seen: set<Tx>)
    requires t in pool
  {
    && (t in m <==> t in m0 || seen != {})
    && (t in m ==> m[t].size == StartSize(pool, m0, t) - Total(seen, Size(pool)))
    && (t in m ==> m[t].sigOps == StartSigOps(pool, m0, t) - Total(seen, SigOps(pool)))
    && FeesPatched(pool, m0, m, t, seen)
  }

  ghost predicate Patched(pool: Pool, m0: ModTable, m: ModTable, seen: map<Tx, set<Tx>>) {
    && seen.Keys == pool.Keys && m.Keys <= pool.Keys
    && forall t :: t in pool ==> PatchedAt(pool, m0, m, t, seen[t])
  }

  /** Every cached total is at least what the package still lacks, and no entry is in the block. */
  ghost predicate TableOk(pool: Pool, m: ModTable, inBlock: set<Tx>) {
    forall t :: t in m ==> t in pool && t !in inBlock && Covers(pool, m[t], t, inBlock)
  }

  ghost predicate Covers(pool: Pool, e: ModEntry, t: Tx, inBlock: set<Tx>)
    requires t in pool
  {
    && e.size >= Total(Missing(pool, t, inBlock), Size(pool))
    && e.sigOps >= Total(Missing(pool, t, inBlock), SigOps(pool))
  }

  ghost predicate Closed(pool: Pool, inBlock: set<Tx>) {
    inBlock <= pool.Keys && forall t :: t in inBlock ==> pool[t].ancestors <= inBlock
  }

  /** One more ancestor taken off an entry, or off one that is created for it. */
  ghost predicate Less(pool: Pool, m: ModTable, t: Tx, it: Tx, e: ModEntry)
    requires t in pool && it in pool
  {
    && e.size == (if t in m then m[t].size else WithAncestors(pool, t, Size(pool))) - pool[it].size
    && e.sigOps == (if t in m then m[t].sigOps else WithAncestors(pool, t, SigOps(pool))) - pool[it].sigOps
    && e.fees == if t in m then m[t].fees - pool[it].fee else pool[t].modFeesWithAncestors - pool[it].modFee
  }

  lemma PatchOneAt(pool: Pool, m0: ModTable, m: ModTable, seen: set<Tx>, t: Tx, it: Tx, e: ModEntry)
    requires t in pool && it in pool && it !in seen && PatchedAt(pool, m0, m, t, seen) && Less(pool, m, t, it, e)
    ensures PatchedAt(pool, m0, m[t := e], t, seen + {it})
  {
    hide FeesPatched;
    TotalAdd(seen, it, Size(pool));
    TotalAdd(seen, it, SigOps(pool));
    PatchFees(pool, m0, m, seen, t, it, e);
  }

  lemma PatchFees(pool: Pool, m0: ModTable, m: ModTable, seen: set<Tx>, t: Tx, it: Tx, e: ModEntry)
    requires t in pool && it in pool && it !in seen && FeesPatched(pool, m0, m, t, seen) && Less(pool, m, t, it, e)
    requires t in m <==> t in m0 || seen != {}
    ensures FeesPatched(pool, m0, m[t := e], t, seen + {it})
  {
    TotalAdd(seen, it, Fee(pool));
    assert seen == {} ==> Total(seen, Fee(pool)) == 0;
    hide Total, WithAncestors;
    if t in m && t !in m0 {
      var x :| x in seen && x in pool &&
        m[t].fees == pool[t].modFeesWithAncestors - Total(seen, Fee(pool)) - (pool[x].modFee - pool[x].fee);
      assert x in seen + {it};
    } else {
      assert it in seen + {it};
    }
  }

  lemma PatchOne(pool: Pool, m0: ModTable, m: ModTable, seen: map<Tx, set<Tx>>, t: Tx, it: Tx, e: ModEntry)
    requires Patched(pool, m0, m, seen) && t in pool && it in pool && it !in seen[t] && Less(pool, m, t, it, e)
    ensures Patched(pool, m0, m[t := e], seen[t := seen[t] + {it}])
  {
    hide PatchedAt, WithAncestors, Less;
    PatchOneAt(pool, m0, m, seen[t], t, it, e);
    forall u | u in pool && u != t ensures PatchedAt(pool, m0, m[t := e], u, seen[u]) {
      PatchedElsewhere(pool, m0, m, t, e, u, seen[u]);
    }
  }

  lemma PatchedElsewhere(pool: Pool, m0: ModTable, m: ModTable, t: Tx, e: ModEntry, u: Tx, seen: set<Tx>)
    requires u in pool && u != t && PatchedAt(pool, m0, m, u, seen)
    ensures PatchedAt(pool, m0, m[t := e], u, seen)
  {
    hide Total;
  }

  /** One transaction's descendants (itself included), as CalculateDescendants finds them. */
  function Descendants(pool: Pool, it: Tx): set<Tx> {
    set t | t in pool && (t == it || it in pool[t].ancestors)
  }

  /** Which ancestors each transaction outside `added` has had subtracted after `done`. */
  ghost function SeenBy(pool: Pool, added: set<Tx>, done: set<Tx>): map<Tx, set<Tx>> {
    map t | t in pool :: if t in added then {} else pool[t].ancestors * done
  }

  /** The same in the middle of one transaction's descendants. */
  ghost function SeenPart(pool: Pool, added: set<Tx>, done: set<Tx>, it: Tx, part: set<Tx>): map<Tx, set<Tx>> {
    map t | t in pool :: if t in added then {} else pool[t].ancestors * if t in part then done + {it} else done
  }

  lemma SeenStart(pool: Pool, added: set<Tx>, done: set<Tx>, it: Tx)
    ensures SeenPart(pool, added, done, it, {}) == SeenBy(pool, added, done)
  {
  }

  lemma SeenStep(pool: Pool, added: set<Tx>, done: set<Tx>, it: Tx, part: set<Tx>, desc: Tx)
    requires desc in Descendants(pool, it) && desc !in part && it !in done && it in added
    ensures var seen := SeenPart(pool, added, done, it, part);
      && desc in seen && it !in seen[desc]
      && SeenPart(pool, added, done, it, part + {desc}) ==
         if desc in added then seen else seen[desc := seen[desc] + {it}]
  {
    if desc !in added {
      assert pool[desc].ancestors * (done + {it}) == pool[desc].ancestors * done + {it};
    }
  }

  lemma SeenEnd(pool: Pool, added: set<Tx>, done: set<Tx>, it: Tx)
    ensures SeenPart(pool, added, done, it, Descendants(pool, it)) == SeenBy(pool, added, done + {it})
  {
    forall t | t in pool && t !in Descendants(pool, it)
      ensures pool[t].ancestors * done == pool[t].ancestors * (done + {it})
    {
    }
  }

  method UpdatePackagesForAdded(pool: Pool, alreadyAdded: set<Tx>, table: ModTable) returns (m: ModTable)
    requires WellFormed(pool) && alreadyAdded <= pool.Keys && table.Keys <= pool.Keys && table.Keys !! alreadyAdded
    ensures Patched(pool, table, m, SeenBy(pool, alreadyAdded, alreadyAdded))
  {
    hide Patched, WellFormed, SeenBy;
    m := table;
    var todo := alreadyAdded;
    PatchedStart(pool, alreadyAdded, table);
    while todo != {}
      invariant todo <= alreadyAdded
      invariant Patched(pool, table, m, SeenBy(pool, alreadyAdded, alreadyAdded - todo))
      decreases todo
    {
      var it :| it in todo;
      m := SubtractFrom(pool, alreadyAdded, table, m, it, alreadyAdded - todo);
      assert alreadyAdded - (todo - {it}) == alreadyAdded - todo + {it};
      todo := todo - {it};
    }
    assert alreadyAdded - todo == alreadyAdded;
  }

  lemma PatchedStart(pool: Pool, added: set<Tx>, table: ModTable)
    requires table.Keys <= pool.Keys
    ensures Patched(pool, table, table, SeenBy(pool, added, added - added))
  {
    forall t | t in pool ensures PatchedAt(pool, table, table, t, SeenBy(pool, added, added - added)[t]) {
      assert SeenBy(pool, added, added - added)[t] == {};
    }
  }

  lemma CachedTotals(pool: Pool, t: Tx)
    requires WellFormed(pool) && t in pool
    ensures pool[t].sizeWithAncestors == WithAncestors(pool, t, Size(pool))
    ensures pool[t].sigOpsWithAncestors == WithAncestors(pool, t, SigOps(pool))
  {
  }

  /** The inner loop: subtract one added transaction from all its descendants outside the added set. */
  method SubtractFrom(pool: Pool, alreadyAdded: set<Tx>, ghost table: ModTable, m0: ModTable, it: Tx,
      ghost done: set<Tx>)
    returns (m: ModTable)
    requires WellFormed(pool) && it in alreadyAdded && alreadyAdded <= pool.Keys && it !in done
    requires Patched(pool, table, m0, SeenBy(pool, alreadyAdded, done))
    ensures Patched(pool, table, m, SeenBy(pool, alreadyAdded, done + {it}))
  {
    hide Patched, WellFormed, SeenBy, SeenPart, WithAncestors;
    m := m0;
    var rest := Descendants(pool, it);
    ghost var part := {};
    SeenStart(pool, alreadyAdded, done, it);
    while rest != {}
      invariant part !! rest && part + rest == Descendants(pool, it)
      invariant Patched(pool, table, m, SeenPart(pool, alreadyAdded, done, it, part))
      decreases rest
    {
      var desc :| desc in rest;
      SeenStep(pool, alreadyAdded, done, it, part, desc);
      if desc !in alreadyAdded {
        var e;
        if desc !in m {
          var d := pool[desc];
          e := ModEntry(d.sizeWithAncestors - pool[it].size, d.modFeesWithAncestors - pool[it].modFee,
                        d.sigOpsWithAncestors - pool[it].sigOps);
          CachedTotals(pool, desc);
        } else {
          e := ModEntry(m[desc].size - pool[it].size, m[desc].fees - pool[it].fee, m[desc].sigOps - pool[it].sigOps);
        }
        PatchOne(pool, table, m, SeenPart(pool, alreadyAdded, done, it, part), desc, it, e);
        m := m[desc := e];
      }
      part, rest := part + {desc}, rest - {desc};
    }
    assert part == Descendants(pool, it);
    SeenEnd(pool, alreadyAdded, done, it);
  }

  lemma CoverStep(pool: Pool, t: Tx, inBlock: set<Tx>, added: set<Tx>, f: Measure)
    requires t in pool && t !in pool[t].ancestors && inBlock !! added
    ensures Total(Missing(pool, t, inBlock + added), f) ==
      Total(Missing(pool, t, inBlock), f) - Total(pool[t].ancestors * added, f)
    ensures Total(Missing(pool, t, inBlock), f) <= WithAncestors(pool, t, f)
  {
    var a := pool[t].ancestors;
    MissingTotal(pool, t, inBlock, f);
    MissingTotal(pool, t, inBlock + added, f);
    TotalUnion(a * inBlock, a * added, f);
    assert a * (inBlock + added) == a * inBlock + a * added;
  }

  /** After patching, the side table again covers what every entry's package lacks. */
  lemma PatchedTableOk(pool: Pool, m0: ModTable, m: ModTable, inBlock: set<Tx>, added: set<Tx>)
    requires WellFormed(pool) && Closed(pool, inBlock) && added <= pool.Keys && inBlock !! added
    requires TableOk(pool, m0, inBlock) && m0.Keys !! added
    requires Patched(pool, m0, m, SeenBy(pool, added, added))
    ensures TableOk(pool, m, inBlock + added)
  {
    forall t | t in m
      ensures t in pool && t !in inBlock + added && Covers(pool, m[t], t, inBlock + added)
    {
      PatchedEntryOk(pool, m0, m, inBlock, added, t);
    }
  }

  lemma PatchedEntryOk(pool: Pool, m0: ModTable, m: ModTable, inBlock: set<Tx>, added: set<Tx>, t: Tx)
    requires WellFormed(pool) && Closed(pool, inBlock) && added <= pool.Keys && inBlock !! added
    requires TableOk(pool, m0, inBlock) && m0.Keys !! added
    requires Patched(pool, m0, m, SeenBy(pool, added, added)) && t in m
    ensures t in pool && t !in inBlock + added && Covers(pool, m[t], t, inBlock + added)
  {
    hide *;
    SeenOf(pool, m0, m, added, t);
    if t in m0 { InTable(pool, m0, inBlock, t); }
    OutsideBlock(pool, m0, m, inBlock, added, t);
    GraphFacts(pool, t);
    CoversStill(pool, m0, m, inBlock, added, t);
  }

  lemma SeenOf(pool: Pool, m0: ModTable, m: ModTable, added: set<Tx>, t: Tx)
    requires Patched(pool, m0, m, SeenBy(pool, added, added)) && t in m
    ensures t in pool && PatchedAt(pool, m0, m, t, if t in added then {} else pool[t].ancestors * added)
  {
    hide PatchedAt;
  }

  lemma InTable(pool: Pool, m: ModTable, inBlock: set<Tx>, t: Tx)
    requires TableOk(pool, m, inBlock) && t in m
    ensures t in pool && t !in inBlock && Covers(pool, m[t], t, inBlock)
  {
    hide Covers;
  }

  lemma OutsideBlock(pool: Pool, m0: ModTable, m: ModTable, inBlock: set<Tx>, added: set<Tx>, t: Tx)
    requires Closed(pool, inBlock) && inBlock !! added && t in pool
    requires t in m0 ==> t !in inBlock && t !in added
    requires t in m && PatchedAt(pool, m0, m, t, if t in added then {} else pool[t].ancestors * added)
    ensures t !in inBlock + added
  {
    hide StartSize, StartSigOps, Total;
  }

  lemma CoversStill(pool: Pool, m0: ModTable, m: ModTable, inBlock: set<Tx>, added: set<Tx>, t: Tx)
    requires t in pool && t !in pool[t].ancestors && t !in added && inBlock !! added
    requires t in m0 ==> Covers(pool, m0[t], t, inBlock)
    requires t in m && PatchedAt(pool, m0, m, t, pool[t].ancestors * added)
    ensures Covers(pool, m[t], t, inBlock + added)
  {
    hide Total, WithAncestors, Missing;
    CoverStep(pool, t, inBlock, added, Size(pool));
    CoverStep(pool, t, inBlock, added, SigOps(pool));
  }

  /**
  While nothing has failed the table is exact: it holds precisely the transactions with ancestors in
  the block, each with the totals its package lacks.
  */
  ghost predicate Exact(pool: Pool, m: ModTable, inBlock: set<Tx>) {
    forall t :: t in pool && t !in inBlock ==> ExactAt(pool, m, t, inBlock)
  }

  ghost predicate ExactAt(pool: Pool, m: ModTable, t: Tx, inBlock: set<Tx>)
    requires t in pool
  {
    if t in m then
      && m[t].size == Total(Missing(pool, t, inBlock), Size(pool))
      && m[t].sigOps == Total(Missing(pool, t, inBlock), SigOps(pool))
      && FeesPatched(pool, map[], m, t, pool[t].ancestors * inBlock)
    else pool[t].ancestors !! inBlock
  }

  /** No transaction's fee was modified. */
  ghost predicate Unprioritised(pool: Pool) {
    forall t :: t in pool ==> pool[t].modFee == pool[t].fee
  }

  lemma UnprioritisedExtra(pool: Pool, s: set<Tx>)
    requires Unprioritised(pool)
    ensures Extra(pool, s) == 0
  {
    ExtraOfEqual(pool, s, 0);
  }

  /** What several calls take off an entry is what one would. */
  lemma FeesCompose(pool: Pool, m1: ModTable, m2: ModTable, t: Tx, s1: set<Tx>, s2: set<Tx>)
    requires t in pool && FeesPatched(pool, map[], m1, t, s1) && FeesPatched(pool, m1, m2, t, s2)
    requires s1 !! s2 && (t !in m1 ==> s1 == {})
    ensures FeesPatched(pool, map[], m2, t, s1 + s2)
  {
    hide Total;
    TotalUnion(s1, s2, Fee(pool));
    assert s1 == {} ==> s1 + s2 == s2;
    if t in m2 && t in m1 {
      var x :| x in s1 && x in pool &&
        m1[t].fees == pool[t].modFeesWithAncestors - Total(s1, Fee(pool)) - (pool[x].modFee - pool[x].fee);
      assert x in s1 + s2;
    }
  }

  lemma ExactStep(pool: Pool, m0: ModTable, m: ModTable, inBlock: set<Tx>, added: set<Tx>, t: Tx)
    requires t in pool && t !in pool[t].ancestors && t !in added && inBlock !! added && ExactAt(pool, m0, t, inBlock)
    requires PatchedAt(pool, m0, m, t, pool[t].ancestors * added)
    ensures ExactAt(pool, m, t, inBlock + added)
  {
    hide Total, WithAncestors, Missing;
    CoverStep(pool, t, inBlock, added, Size(pool));
    CoverStep(pool, t, inBlock, added, SigOps(pool));
    var a := pool[t].ancestors;
    assert t in m0 || a * inBlock == {};
    assert a * inBlock + a * added == a * (inBlock + added);
    if t in m0 {
      FeesCompose(pool, m0, m, t, a * inBlock, a * added);
    } else {
      FeesStart(pool, m0, m, t, a * added);
      assert a * (inBlock + added) == a * added;
      NothingMissing(pool, t, inBlock, Size(pool));
      NothingMissing(pool, t, inBlock, SigOps(pool));
      assert forall x :: x in pool[t].ancestors && x in added ==> x in pool[t].ancestors * added;
    }
  }

  lemma FeesStart(pool: Pool, m0: ModTable, m: ModTable, t: Tx, seen: set<Tx>)
    requires t in pool && t !in m0 && FeesPatched(pool, m0, m, t, seen)
    ensures FeesPatched(pool, map[], m, t, seen)
  {
  }

  lemma NothingMissing(pool: Pool, t: Tx, inBlock: set<Tx>, f: Measure)
    requires t in pool && t !in pool[t].ancestors && pool[t].ancestors !! inBlock
    ensures Total(Missing(pool, t, inBlock), f) == WithAncestors(pool, t, f)
  {
    MissingTotal(pool, t, inBlock, f);
    assert pool[t].ancestors * inBlock == {};
  }

  lemma PatchedExact(pool: Pool, m0: ModTable, m: ModTable, inBlock: set<Tx>, added: set<Tx>)
    requires WellFormed(pool) && inBlock !! added && Exact(pool, m0, inBlock)
    requires Patched(pool, m0 - added, m, SeenBy(pool, added, added))
    ensures Exact(pool, m, inBlock + added)
  {
    forall t | t in pool && t !in inBlock + added ensures ExactAt(pool, m, t, inBlock + added) {
      SeenAt(pool, m0 - added, m, added, t);
      assert ExactAt(pool, m0, t, inBlock);
      hide *;
      GraphFacts(pool, t);
      ExactErased(pool, m0, inBlock, added, t);
      ExactStep(pool, m0 - added, m, inBlock, added, t);
    }
  }

  lemma ExactErased(pool: Pool, m0: ModTable, inBlock: set<Tx>, added: set<Tx>, t: Tx)
    requires t in pool && t !in added && ExactAt(pool, m0, t, inBlock)
    ensures ExactAt(pool, m0 - added, t, inBlock)
  {
    hide Total;
  }

  lemma SeenAt(pool: Pool, m0: ModTable, m: ModTable, added: set<Tx>, t: Tx)
    requires Patched(pool, m0, m, SeenBy(pool, added, added)) && t in pool && t !in added
    ensures PatchedAt(pool, m0, m, t, pool[t].ancestors * added)
  {
    hide PatchedAt;
  }

  // ---------------------------------------------------------------- modified fees

  /**
  The fees of an entry once ancestors are in the block, however they came there: the modified fees of what the block
  lacks, and besides what all of those ancestors but one were modified by.
  */
  lemma ExactFees(pool: Pool, m: ModTable, inBlock: set<Tx>, t: Tx)
    requires WellFormed(pool) && t in pool && t in m && ExactAt(pool, m, t, inBlock)
    ensures var seen := pool[t].ancestors * inBlock;
      exists x :: x in seen && m[t].fees == ModFees(pool, Missing(pool, t, inBlock)) + Extra(pool, seen - {x})
  {
    hide WellFormed, Total, Extra, Missing;
    ModFeesCached(pool, t);
    GraphFacts(pool, t);
    var seen := pool[t].ancestors * inBlock;
    ModFeesLeft(pool, t, inBlock);
    var x :| x in seen && x in pool &&
      m[t].fees == pool[t].modFeesWithAncestors - Total(seen, Fee(pool)) - (pool[x].modFee - pool[x].fee);
    ExtraRemove(pool, seen, x);
  }

  lemma ModFeesCached(pool: Pool, t: Tx)
    requires WellFormed(pool) && t in pool
    ensures pool[t].modFeesWithAncestors == pool[t].modFee + ModFees(pool, pool[t].ancestors)
  {
  }

  lemma ModFeesLeft(pool: Pool, t: Tx, inBlock: set<Tx>)
    requires t in pool && t !in pool[t].ancestors
    ensures ModFees(pool, Missing(pool, t, inBlock)) ==
      pool[t].modFee + ModFees(pool, pool[t].ancestors) - ModFees(pool, pool[t].ancestors * inBlock)
  {
    var a := pool[t].ancestors;
    MissingTotal(pool, t, inBlock, Fee(pool));
    ExtraRemove(pool, Missing(pool, t, inBlock), t);
    assert Missing(pool, t, inBlock) - {t} == a - inBlock;
    ExtraUnion(pool, a * inBlock, a - inBlock);
    assert a * inBlock + (a - inBlock) == a;
  }

  /** The fees an entry can have once the ancestors `seen` are in the block. */
  ghost predicate CanCost(pool: Pool, t: Tx, seen: set<Tx>, fees: int)
    requires t in pool
  {
    FeesPatched(pool, map[], map[t := ModEntry(0, fees, 0)], t, seen)
  }

  /** What it comes to if `x` was the first. */
  lemma CostFrom(pool: Pool, t: Tx, inBlock: set<Tx>, x: Tx)
    requires WellFormed(pool) && t in pool && x in pool[t].ancestors * inBlock
    ensures x in pool
    ensures var seen := pool[t].ancestors * inBlock;
      pool[t].modFeesWithAncestors - Total(seen, Fee(pool)) - (pool[x].modFee - pool[x].fee) ==
      ModFees(pool, Missing(pool, t, inBlock)) + Extra(pool, seen - {x})
  {
    hide WellFormed, Total, Extra, Missing;
    ModFeesCached(pool, t);
    GraphFacts(pool, t);
    ModFeesLeft(pool, t, inBlock);
    ExtraRemove(pool, pool[t].ancestors * inBlock, x);
  }

  lemma CostIs(pool: Pool, t: Tx, inBlock: set<Tx>, fees: int)
    requires WellFormed(pool) && t in pool
    ensures var seen := pool[t].ancestors * inBlock;
      CanCost(pool, t, seen, fees) <==>
      exists x :: x in seen && fees == ModFees(pool, Missing(pool, t, inBlock)) + Extra(pool, seen - {x})
  {
    hide WellFormed, Total, Extra, Missing, ModFees;
    forall x | x in pool[t].ancestors * inBlock
      ensures x in pool
      ensures pool[t].modFeesWithAncestors - Total(pool[t].ancestors * inBlock, Fee(pool)) -
              (pool[x].modFee - pool[x].fee) ==
        ModFees(pool, Missing(pool, t, inBlock)) + Extra(pool, pool[t].ancestors * inBlock - {x})
    {
      CostFrom(pool, t, inBlock, x);
    }
  }

  lemma {:induction false} ExtraOfEqual(pool: Pool, s: set<Tx>, d: int)
    requires forall x :: x in s ==> Delta(pool, x) == d
    ensures Extra(pool, s) == |s| * d
    decreases |s|
  {
    if s != {} {
      var x :| x in s;
      ExtraRemove(pool, s, x);
      ExtraOfEqual(pool, s - {x}, d);
      assert |s| * d == (|s| - 1) * d + d;
    }
  }

  lemma OthersUnmodified(pool: Pool, s: set<Tx>)
    ensures (forall x :: x in s ==> Extra(pool, s - {x}) == 0) <==>
      |s| <= 1 || forall x :: x in s ==> Delta(pool, x) == 0
  {
    hide Extra, Delta;
    if forall x :: x in s ==> Extra(pool, s - {x}) == 0 {
      forall x | x in s ensures Delta(pool, x) == Extra(pool, s) { ExtraRemove(pool, s, x); }
      ExtraOfEqual(pool, s, Extra(pool, s));
      SmallOrZero(|s|, Extra(pool, s));
    } else {
      var x :| x in s && Extra(pool, s - {x}) != 0;
      assert |s - {x}| == |s| - 1;
      NoExtra(pool, s - {x});
    }
  }

  lemma SmallOrZero(n: nat, d: int)
    requires n * d == d
    ensures n <= 1 || d == 0
  {
    assert (n - 1) * d == 0;
  }

  lemma NoExtra(pool: Pool, s: set<Tx>)
    requires Extra(pool, s) != 0
    ensures s != {} && exists x :: x in s && Delta(pool, x) != 0
  {
    if forall x :: x in s ==> Delta(pool, x) == 0 { ExtraOfEqual(pool, s, 0); }
  }

  /**
  Whichever ancestor came first, the fees are the modified fees of what the block lacks if and only if at most one
  ancestor is in the block or none of those that are was modified.
  */
  lemma FeesRight(pool: Pool, t: Tx, inBlock: set<Tx>)
    requires WellFormed(pool) && t in pool
    ensures var seen := pool[t].ancestors * inBlock;
      (forall fees :: CanCost(pool, t, seen, fees) ==> fees == ModFees(pool, Missing(pool, t, inBlock))) <==>
      |seen| <= 1 || forall x :: x in seen ==> pool[x].modFee == pool[x].fee
  {
    hide WellFormed, Extra, ModFees, Missing, CanCost, Total;
    GraphFacts(pool, t);
    var seen := pool[t].ancestors * inBlock;
    var due := ModFees(pool, Missing(pool, t, inBlock));
    OthersUnmodified(pool, seen);
    forall fees ensures CanCost(pool, t, seen, fees) <==>
      exists x :: x in seen && fees == due + Extra(pool, seen - {x})
    {
      CostIs(pool, t, inBlock, fees);
    }
    forall x | x in seen ensures CanCost(pool, t, seen, due + Extra(pool, seen - {x})) {
      CostIs(pool, t, inBlock, due + Extra(pool, seen - {x}));
    }
  }

  /** Two parents whose fees were raised by one, and their child. */
  const Raised: Pool := map[
    0 := Entry({}, 1, 4, 0, 10, 11, 1, 1, 0, 11),
    1 := Entry({}, 1, 4, 0, 10, 11, 1, 1, 0, 11),
    2 := Entry({0, 1}, 1, 4, 0, 10, 10, 3, 3, 0, 32)]

  lemma TotalOfTwo(a: Tx, b: Tx, f: Measure)
    requires a != b
    ensures Total({a, b}, f) == f(a) + f(b) && Total({a}, f) == f(a) && Total({}, f) == 0
  {
    TotalAdd({a}, b, f);
    TotalAdd({}, a, f);
    assert {a} + {b} == {a, b} && {} + {a} == {a};
  }

  lemma ExtraOfTwo(pool: Pool, a: Tx, b: Tx)
    requires a != b
    ensures Extra(pool, {a, b}) == Delta(pool, a) + Delta(pool, b)
    ensures Extra(pool, {a}) == Delta(pool, a) && Extra(pool, {b}) == Delta(pool, b) && Extra(pool, {}) == 0
  {
    ExtraRemove(pool, {a, b}, a);
    ExtraRemove(pool, {a}, a);
    ExtraRemove(pool, {b}, b);
    assert {a, b} - {a} == {b} && {a} - {a} == {} && {b} - {b} == {};
  }

  /** It is a mempool that the code can have. */
  lemma RaisedWellFormed()
    ensures WellFormed(Raised)
  {
    hide WellFormedAt;
    RaisedParent(0);
    RaisedParent(1);
    RaisedChild();
    assert forall t :: t in Raised ==> t == 0 || t == 1 || t == 2;
  }

  lemma RaisedParent(t: Tx)
    requires t == 0 || t == 1
    ensures WellFormedAt(Raised, t)
  {
    hide Total, Extra, Size, SigOps, Fee, Delta;
    assert Raised[t] == Entry({}, 1, 4, 0, 10, 11, 1, 1, 0, 11);
    TotalOfTwo(0, 1, Size(Raised));
    TotalOfTwo(0, 1, SigOps(Raised));
    TotalOfTwo(0, 1, Fee(Raised));
    ExtraOfTwo(Raised, 0, 1);
    assert Size(Raised)(t) == 1 && SigOps(Raised)(t) == 0 by { MeasuresOf(t); }
  }

  lemma RaisedChild()
    ensures WellFormedAt(Raised, 2)
  {
    hide Total, Extra, Size, SigOps, Fee, Delta;
    assert Raised[2] == Entry({0, 1}, 1, 4, 0, 10, 10, 3, 3, 0, 32);
    TotalOfTwo(0, 1, Size(Raised));
    TotalOfTwo(0, 1, SigOps(Raised));
    TotalOfTwo(0, 1, Fee(Raised));
    ExtraOfTwo(Raised, 0, 1);
    MeasuresOf(0);
    MeasuresOf(1);
    MeasuresOf(2);
    assert |{0, 1}| == 2;
  }

  lemma MeasuresOf(t: Tx)
    requires t == 0 || t == 1 || t == 2
    ensures Size(Raised)(t) == 1 && SigOps(Raised)(t) == 0 && Fee(Raised)(t) == 10
    ensures Delta(Raised, t) == if t == 2 then 0 else 1
  {
  }

  /** With both parents in the block, in one package or in two, the child's entry says 11, where 10 is left. */
  lemma FeesOff(m: ModTable)
    requires Exact(Raised, m, {0, 1})
    ensures 2 in m && m[2].fees == 11 && ModFees(Raised, Missing(Raised, 2, {0, 1})) == 10
  {
    hide WellFormed, ExactAt, Total, Extra, ModFees, Missing;
    RaisedWellFormed();
    RaisedListed(m);
    ExactFees(Raised, m, {0, 1}, 2);
    assert Raised[2].ancestors * {0, 1} == {0, 1};
    assert {0, 1} - {0} == {1} && {0, 1} - {1} == {0};
    ExtraOfTwo(Raised, 0, 1);
    RaisedLeft();
  }

  /** There is such a table. */
  lemma RaisedTable()
    ensures Exact(Raised, map[2 := ModEntry(1, 11, 0)], {0, 1})
  {
    hide Total;
    var m := map[2 := ModEntry(1, 11, 0)];
    assert Raised[2].ancestors * {0, 1} == {0, 1} && Missing(Raised, 2, {0, 1}) == {2};
    TotalOfTwo(0, 1, Fee(Raised));
    TotalOfTwo(2, 3, Size(Raised));
    TotalOfTwo(2, 3, SigOps(Raised));
    assert 0 in {0, 1} && m[2].fees == Raised[2].modFeesWithAncestors - 20 - (Raised[0].modFee - Raised[0].fee);
    assert FeesPatched(Raised, map[], m, 2, {0, 1});
  }

  lemma RaisedListed(m: ModTable)
    requires Exact(Raised, m, {0, 1})
    ensures 2 in m && ExactAt(Raised, m, 2, {0, 1})
  {
    hide Total, Missing, FeesPatched;
    assert ExactAt(Raised, m, 2, {0, 1});
    assert 0 in Raised[2].ancestors && 0 in {0, 1};
  }

  lemma RaisedLeft()
    ensures ModFees(Raised, Missing(Raised, 2, {0, 1})) == 10
  {
    assert Missing(Raised, 2, {0, 1}) == {2};
    TotalOfTwo(2, 3, Fee(Raised));
    ExtraOfTwo(Raised, 2, 3);
  }

  // ---------------------------------------------------------------- a valid order

  function SetOf(s: seq<Tx>): set<Tx> { set t | t in s }

  /** No transaction twice, and each after all its mempool ancestors. */
  predicate Ordered(pool: Pool, s: seq<Tx>) {
    && (forall i, j :: 0 <= i < j < |s| ==> s[i] != s[j])
    && (forall i :: 0 <= i < |s| ==> s[i] in pool && pool[s[i]].ancestors <= SetOf(s[..i]))
  }

  predicate ByAncestorCount(pool: Pool, s: seq<Tx>) {
    && (forall t :: t in s ==> t in pool)
    && forall i, j :: 0 <= i < j < |s| ==>
         s[i] != s[j] && pool[s[i]].countWithAncestors <= pool[s[j]].countWithAncestors
  }

  lemma GraphFacts(pool: Pool, t: Tx)
    requires WellFormed(pool) && t in pool
    ensures t !in pool[t].ancestors && pool[t].ancestors <= pool.Keys
    ensures pool[t].countWithAncestors == |pool[t].ancestors| + 1
    ensures forall a :: a in pool[t].ancestors ==> pool[a].ancestors <= pool[t].ancestors
  {
  }

  lemma CountsGrow(pool: Pool, a: Tx, t: Tx)
    requires WellFormed(pool) && t in pool && a in pool[t].ancestors
    ensures a in pool && pool[a].countWithAncestors < pool[t].countWithAncestors
  {
    hide WellFormed;
    GraphFacts(pool, t);
    GraphFacts(pool, a);
    var small, big := pool[a].ancestors, pool[t].ancestors;
    assert |small + {a}| == |small| + 1;
    SubsetSize(small + {a}, big);
  }

  lemma {:induction false} MinExists(pool: Pool, s: set<Tx>)
    requires s != {} && s <= pool.Keys
    ensures exists t :: t in s && forall u :: u in s ==> pool[t].countWithAncestors <= pool[u].countWithAncestors
    decreases |s|
  {
    var t :| t in s;
    if s - {t} != {} {
      MinExists(pool, s - {t});
      var m :| m in s - {t} && forall u :: u in s - {t} ==> pool[m].countWithAncestors <= pool[u].countWithAncestors;
      var best := if pool[t].countWithAncestors <= pool[m].countWithAncestors then t else m;
      assert best in s && forall u :: u in s ==> pool[best].countWithAncestors <= pool[u].countWithAncestors;
    } else {
      assert s == {t};
    }
  }

  /** Sort by ancestor count; ties may fall either way. */
  method SortForBlock(pool: Pool, package: set<Tx>) returns (sorted: seq<Tx>)
    requires package <= pool.Keys
    ensures SetOf(sorted) == package && ByAncestorCount(pool, sorted)
  {
    sorted := [];
    var rest := package;
    while rest != {}
      invariant SetOf(sorted) !! rest && SetOf(sorted) + rest == package
      invariant ByAncestorCount(pool, sorted)
      invariant forall t, u :: t in sorted && u in rest ==> pool[t].countWithAncestors <= pool[u].countWithAncestors
      decreases rest
    {
      MinExists(pool, rest);
      var t :| t in rest && forall u :: u in rest ==> pool[t].countWithAncestors <= pool[u].countWithAncestors;
      sorted := sorted + [t];
      rest := rest - {t};
    }
  }

  lemma AncestorBefore(pool: Pool, vtx: seq<Tx>, sorted: seq<Tx>, k: nat, a: Tx)
    requires WellFormed(pool) && ByAncestorCount(pool, sorted) && k < |sorted|
    requires a in pool[sorted[k]].ancestors && a in SetOf(vtx) + SetOf(sorted)
    ensures a in (vtx + sorted)[..|vtx| + k]
  {
    hide WellFormed;
    var s := vtx + sorted;
    if a in vtx {
      var i :| 0 <= i < |vtx| && vtx[i] == a;
      assert s[i] == a;
    } else {
      CountsGrow(pool, a, sorted[k]);
      var i :| 0 <= i < |sorted| && sorted[i] == a;
      assert s[|vtx| + i] == a && i < k;
    }
  }

  /** Ancestor-count order is a valid block order for a package whose other ancestors are in the block. */
  lemma SortedIsValid(pool: Pool, vtx: seq<Tx>, sorted: seq<Tx>)
    requires WellFormed(pool) && Ordered(pool, vtx) && ByAncestorCount(pool, sorted)
    requires SetOf(vtx) !! SetOf(sorted)
    requires forall t :: t in sorted ==> pool[t].ancestors <= SetOf(vtx) + SetOf(sorted)
    ensures Ordered(pool, vtx + sorted)
  {
    hide WellFormed;
    var s := vtx + sorted;
    forall i | 0 <= i < |s| ensures s[i] in pool && pool[s[i]].ancestors <= SetOf(s[..i]) {
      if i < |vtx| {
        assert s[..i] == vtx[..i];
      } else {
        var k := i - |vtx|;
        assert sorted[k] in sorted;
        forall a | a in pool[sorted[k]].ancestors ensures a in s[..i] {
          AncestorBefore(pool, vtx, sorted, k, a);
        }
      }
    }
    forall i, j | 0 <= i < j < |s| ensures s[i] != s[j] {
      if i < |vtx| <= j {
        assert s[i] in SetOf(vtx) && s[j] in SetOf(sorted);
      }
    }
  }

  // ---------------------------------------------------------------- fee rates

  /** The totals the mempool keeps for a package. */
  function Cached(pool: Pool, t: Tx): ModEntry
    requires t in pool
  {
    ModEntry(pool[t].sizeWithAncestors, pool[t].modFeesWithAncestors, pool[t].sigOpsWithAncestors)
  }

  /** The totals used for a package: the side table's, or else the mempool's. */
  function FigureOf(pool: Pool, table: ModTable, t: Tx): ModEntry
    requires t in table || t in pool
  {
    if t in table then table[t] else Cached(pool, t)
  }

  /** CompareModifiedEntry, but for ties: a higher fee rate, without dividing. */
  predicate Higher(a: ModEntry, b: ModEntry) { a.fees * b.size > b.fees * a.size }

  predicate AtLeast(a: ModEntry, b: ModEntry) { a.fees * b.size >= b.fees * a.size }

  lemma OneIsAtLeast(a: ModEntry, b: ModEntry)
    ensures AtLeast(a, b) || AtLeast(b, a)
    ensures Higher(a, b) ==> AtLeast(a, b)
    ensures !Higher(a, b) ==> AtLeast(b, a)
  {
  }

  lemma SameIsAtLeast(a: ModEntry)
    ensures AtLeast(a, a)
  {
  }

  lemma AtLeastTransitive(a: ModEntry, b: ModEntry, c: ModEntry)
    requires a.size > 0 && b.size > 0 && c.size > 0 && AtLeast(a, b) && AtLeast(b, c)
    ensures AtLeast(a, c)
  {
    CrossMultiply(a.fees, a.size, b.fees, b.size, c.fees, c.size);
  }

  lemma CrossMultiply(fa: int, sa: int, fb: int, sb: int, fc: int, sc: int)
    requires sa > 0 && sb > 0 && sc > 0 && fa * sb >= fb * sa && fb * sc >= fc * sb
    ensures fa * sc >= fc * sa
  {
    var x, y := fa * sc, fc * sa;
    assert (fa * sb) * sc >= (fb * sa) * sc by { MulMonotone(fb * sa, fa * sb, sc); }
    assert (fb * sc) * sa >= (fc * sb) * sa by { MulMonotone(fc * sb, fb * sc, sa); }
    assert (fa * sb) * sc == x * sb && (fb * sa) * sc == (fb * sc) * sa && (fc * sb) * sa == y * sb;
    if x < y { MulStrict(x, y, sb); }
  }

  lemma {:induction false} BestExists(table: ModTable, s: set<Tx>)
    requires s != {} && s <= table.Keys && forall t :: t in table ==> table[t].size > 0
    ensures exists t :: t in s && forall u :: u in s ==> AtLeast(table[t], table[u])
    decreases |s|
  {
    hide AtLeast;
    var t :| t in s;
    SameIsAtLeast(table[t]);
    if s - {t} == {} {
      assert s == {t};
    } else {
      BestExists(table, s - {t});
      var b :| b in s - {t} && forall u :: u in s - {t} ==> AtLeast(table[b], table[u]);
      OneIsAtLeast(table[b], table[t]);
      if AtLeast(table[b], table[t]) {
        assert forall u :: u in s ==> AtLeast(table[b], table[u]);
      } else {
        forall u | u in s ensures AtLeast(table[t], table[u]) {
          if u != t { AtLeastTransitive(table[t], table[b], table[u]); }
        }
      }
    }
  }

  /** The mempool's order by ancestor score. */
  ghost predicate ByScore(pool: Pool, order: seq<Tx>) {
    forall i, j :: 0 <= i < j < |order| && order[i] in pool && order[j] in pool ==>
      AtLeast(Cached(pool, order[i]), Cached(pool, order[j]))
  }

  ghost function PackageFee(pool: Pool, inBlock: set<Tx>, t: Tx): nat
    requires t in pool
  {
    Total(Missing(pool, t, inBlock), Fee(pool))
  }

  ghost function PackageSize(pool: Pool, inBlock: set<Tx>, t: Tx): nat
    requires t in pool
  {
    Total(Missing(pool, t, inBlock), Size(pool))
  }

  /** No transaction left has a package with a higher fee rate. */
  ghost predicate BestLeft(pool: Pool, inBlock: set<Tx>, t: Tx) {
    && t in pool && t !in inBlock
    && forall u :: u in pool && u !in inBlock ==>
      PackageFee(pool, inBlock, t) * PackageSize(pool, inBlock, u) >=
      PackageFee(pool, inBlock, u) * PackageSize(pool, inBlock, t)
  }

  ghost predicate Underpaid(pool: Pool, inBlock: set<Tx>, t: Tx, minFee: int -> int) {
    t in pool && PackageFee(pool, inBlock, t) < minFee(PackageSize(pool, inBlock, t))
  }

  lemma SizesPositive(pool: Pool, table: ModTable, inBlock: set<Tx>)
    requires WellFormed(pool) && TableOk(pool, table, inBlock)
    ensures forall t :: t in table ==> table[t].size > 0
    ensures forall t :: t in pool ==> pool[t].sizeWithAncestors > 0
  {
    forall t | t in table ensures table[t].size > 0 {
      assert Covers(pool, table[t], t, inBlock);
      hide WellFormed, TableOk;
      PackageHasSize(pool, t, inBlock);
    }
    forall t | t in pool ensures pool[t].sizeWithAncestors > 0 {
      CachedTotals(pool, t);
      assert pool[t].size > 0;
    }
  }

  lemma PackageHasSize(pool: Pool, t: Tx, inBlock: set<Tx>)
    requires WellFormed(pool) && t in pool
    ensures Total(Missing(pool, t, inBlock), Size(pool)) > 0
  {
    assert pool[t].size > 0;
    hide WellFormed;
    TotalRemove(Missing(pool, t, inBlock), t, Size(pool));
  }

  /** While the table is exact and no fee was modified, the totals used are the true ones. */
  lemma ExactFigure(pool: Pool, table: ModTable, inBlock: set<Tx>, t: Tx)
    requires WellFormed(pool) && Exact(pool, table, inBlock) && Unprioritised(pool) && t in pool && t !in inBlock
    ensures FigureOf(pool, table, t).size == PackageSize(pool, inBlock, t)
    ensures FigureOf(pool, table, t).fees == PackageFee(pool, inBlock, t)
  {
    hide WellFormed, Total, Extra, WithAncestors, Missing, Unprioritised;
    assert ExactAt(pool, table, t, inBlock);
    hide FeesPatched;
    CachedTotals(pool, t);
    GraphFacts(pool, t);
    if t in table {
      TableFees(pool, table, inBlock, t);
    } else {
      NothingMissing(pool, t, inBlock, Size(pool));
      CachedFees(pool, t, inBlock);
    }
  }

  lemma TableFees(pool: Pool, table: ModTable, inBlock: set<Tx>, t: Tx)
    requires WellFormed(pool) && Unprioritised(pool) && t in pool && t in table && ExactAt(pool, table, t, inBlock)
    ensures table[t].fees == PackageFee(pool, inBlock, t)
  {
    hide WellFormed, Total, Extra, Missing, Unprioritised, ExactAt;
    ExactFees(pool, table, inBlock, t);
    var seen := pool[t].ancestors * inBlock;
    var x :| x in seen && table[t].fees == ModFees(pool, Missing(pool, t, inBlock)) + Extra(pool, seen - {x});
    UnprioritisedExtra(pool, seen - {x});
    UnprioritisedExtra(pool, Missing(pool, t, inBlock));
  }

  lemma CachedFees(pool: Pool, t: Tx, inBlock: set<Tx>)
    requires WellFormed(pool) && Unprioritised(pool) && t in pool && pool[t].ancestors !! inBlock
    ensures pool[t].modFeesWithAncestors == PackageFee(pool, inBlock, t)
  {
    hide WellFormed, Total, Extra, Missing;
    ModFeesCached(pool, t);
    GraphFacts(pool, t);
    assert pool[t].modFee == pool[t].fee;
    UnprioritisedExtra(pool, pool[t].ancestors);
    NothingMissing(pool, t, inBlock, Fee(pool));
  }

  /** What Choose picks is at least as good as everything left, in the side table or ahead in the order. */
  lemma BestOfAll(pool: Pool, order: seq<Tx>, mi: nat, table: ModTable, inBlock: set<Tx>, iter: Tx)
    requires WellFormed(pool) && TableOk(pool, table, inBlock) && Exact(pool, table, inBlock) && Unprioritised(pool)
    requires SetOf(order) == pool.Keys && ByScore(pool, order) && mi <= |order| && Listed(order, mi, inBlock, table)
    requires iter in pool && iter !in inBlock
    requires forall t :: t in table ==> AtLeast(FigureOf(pool, table, iter), table[t])
    requires mi < |order| ==> order[mi] in pool && AtLeast(FigureOf(pool, table, iter), Cached(pool, order[mi]))
    ensures BestLeft(pool, inBlock, iter)
  {
    SizesPositive(pool, table, inBlock);
    forall u | u in pool && u !in inBlock
      ensures PackageFee(pool, inBlock, iter) * PackageSize(pool, inBlock, u) >=
              PackageFee(pool, inBlock, u) * PackageSize(pool, inBlock, iter)
    {
      BetterThan(pool, order, mi, table, inBlock, iter, u);
    }
  }

  lemma BetterThan(pool: Pool, order: seq<Tx>, mi: nat, table: ModTable, inBlock: set<Tx>, iter: Tx, u: Tx)
    requires WellFormed(pool) && Exact(pool, table, inBlock) && Unprioritised(pool) && u in pool && u !in inBlock
    requires SetOf(order) == pool.Keys && ByScore(pool, order) && mi <= |order| && Listed(order, mi, inBlock, table)
    requires iter in pool && iter !in inBlock
    requires forall t :: t in table ==> table[t].size > 0 && AtLeast(FigureOf(pool, table, iter), table[t])
    requires forall t :: t in pool ==> pool[t].sizeWithAncestors > 0
    requires mi < |order| ==> order[mi] in pool && AtLeast(FigureOf(pool, table, iter), Cached(pool, order[mi]))
    ensures PackageFee(pool, inBlock, iter) * PackageSize(pool, inBlock, u) >=
            PackageFee(pool, inBlock, u) * PackageSize(pool, inBlock, iter)
  {
    ExactFigure(pool, table, inBlock, iter);
    ExactFigure(pool, table, inBlock, u);
    hide WellFormed, Exact, Unprioritised, PackageFee, PackageSize;
    var best := FigureOf(pool, table, iter);
    assert AtLeast(best, FigureOf(pool, table, u)) by {
      hide AtLeast;
      if u !in table {
        assert u in SetOf(order);
        var j :| 0 <= j < |order| && order[j] == u;
        assert j >= mi;
        if j > mi { AtLeastTransitive(best, Cached(pool, order[mi]), Cached(pool, u)); }
      }
    }
  }

  lemma UnderpaidIs(pool: Pool, table: ModTable, inBlock: set<Tx>, t: Tx, minFee: int -> int)
    requires WellFormed(pool) && Exact(pool, table, inBlock) && Unprioritised(pool) && t in pool && t !in inBlock
    ensures var figure := FigureOf(pool, table, t);
      figure.fees < minFee(figure.size) <==> Underpaid(pool, inBlock, t, minFee)
  {
    hide WellFormed, Exact, Unprioritised, Total;
    ExactFigure(pool, table, inBlock, t);
  }

  // ---------------------------------------------------------------- the assembler

  /** The recorded fees of the block, in order. */
  function Fees(pool: Pool, s: seq<Tx>): int
    requires forall t :: t in s ==> t in pool
  {
    if s == [] then 0 else
      assert s[|s| - 1] in s;
      Fees(pool, s[..|s| - 1]) + pool[s[|s| - 1]].fee
  }

  class Assembler {
    const pool: Pool
    const nBlockMaxWeight: nat
    const minFee: int -> int        // blockMinFeeRate.GetFee
    const finalTx: Tx -> bool       // the locktime and witness checks on one transaction

    var inBlock: set<Tx>
    var vtx: seq<Tx>                // without the coinbase placeholder
    var nBlockWeight: nat
    var nBlockSigOpsCost: nat
    var nBlockTx: nat
    var nFees: int

    /** The counters are those of the block, which lists its transactions in a valid order. */
    ghost predicate Valid()
      reads this
    {
      && WellFormed(pool) && nBlockMaxWeight >= COINBASE_WEIGHT
      && Ordered(pool, vtx) && SetOf(vtx) == inBlock && Closed(pool, inBlock) && Tallied()
    }

    ghost predicate Tallied()
      reads this
    {
      && nBlockWeight == COINBASE_WEIGHT + Total(inBlock, Weight(pool))
      && nBlockSigOpsCost == COINBASE_SIGOPS + Total(inBlock, SigOps(pool))
      && nBlockTx == |vtx| && (forall t :: t in vtx ==> t in pool) && nFees == Fees(pool, vtx)
    }

    lemma ValidFacts()
      requires Valid()
      ensures WellFormed(pool) && Closed(pool, inBlock)
      ensures nBlockWeight == COINBASE_WEIGHT + Total(inBlock, Weight(pool))
      ensures nBlockSigOpsCost == COINBASE_SIGOPS + Total(inBlock, SigOps(pool))
    {
      hide WellFormed, Closed, Total;
    }

    /** A block that holds anything is strictly inside both limits. */
    predicate WithinLimits()
      reads this
    {
      && nBlockWeight <= nBlockMaxWeight && nBlockSigOpsCost < MAX_BLOCK_SIGOPS_COST
      && (vtx != [] ==> nBlockWeight < nBlockMaxWeight)
    }

    constructor (pool: Pool, maxWeight: nat, maxBlockWeight: nat, minFee: int -> int, finalTx: Tx -> bool)
      requires WellFormed(pool) && maxBlockWeight >= 4000
      ensures Valid() && WithinLimits() && vtx == []
      ensures this.pool == pool && this.minFee == minFee && this.finalTx == finalTx
      ensures nBlockMaxWeight >= 4000 && (nBlockMaxWeight > 4000 ==> nBlockMaxWeight <= maxBlockWeight - 4000)
      ensures if 4000 <= maxWeight <= maxBlockWeight - 4000 then nBlockMaxWeight == maxWeight
              else nBlockMaxWeight == 4000 || nBlockMaxWeight == maxBlockWeight - 4000 <= maxWeight
      ensures maxWeight >= maxBlockWeight - 4000 >= 4000 ==> nBlockMaxWeight == maxBlockWeight - 4000
    {
      hide WellFormed, Total, Ordered, Closed, SetOf;
      this.pool, this.minFee, this.finalTx := pool, minFee, finalTx;
      var limit := if maxBlockWeight - 4000 < maxWeight then maxBlockWeight - 4000 else maxWeight;
      nBlockMaxWeight := if limit < 4000 then 4000 else limit;
      inBlock, vtx, nBlockWeight, nBlockSigOpsCost, nBlockTx, nFees :=
        {}, [], COINBASE_WEIGHT, COINBASE_SIGOPS, 0, 0;
      EmptyBlock(pool);
    }

    // 4 is WITNESS_SCALE_FACTOR
    predicate TestPackage(packageSize: int, packageSigOpsCost: int)
      reads this
    {
      && nBlockWeight + 4 * packageSize < nBlockMaxWeight
      && nBlockSigOpsCost + packageSigOpsCost < MAX_BLOCK_SIGOPS_COST
    }

    method TestPackageTransactions(package: set<Tx>) returns (ok: bool)
      ensures ok <==> forall t :: t in package ==> finalTx(t)
    {
      var rest := package;
      while rest != {}
        invariant rest <= package && forall t :: t in package - rest ==> finalTx(t)
        decreases rest
      {
        var t :| t in rest;
        if !finalTx(t) { return false; }
        rest := rest - {t};
      }
      return true;
    }

    method OnlyUnconfirmed(testSet: set<Tx>) returns (r: set<Tx>)
      ensures r == testSet - inBlock
    {
      r := testSet;
      var rest := testSet;
      while rest != {}
        invariant rest <= testSet && r == testSet - (inBlock - rest)
        decreases rest
      {
        var t :| t in rest;
        if t in inBlock { r := r - {t}; }
        rest := rest - {t};
      }
    }

    method AddToBlock(t: Tx)
      requires t in pool
      modifies this
      ensures old(Tallied()) && t !in old(inBlock) ==> Tallied()
      ensures vtx == old(vtx) + [t] && inBlock == old(inBlock) + {t}
      ensures nBlockWeight == old(nBlockWeight) + pool[t].weight
      ensures nBlockSigOpsCost == old(nBlockSigOpsCost) + pool[t].sigOps
      ensures nBlockTx == old(nBlockTx) + 1 && nFees == old(nFees) + pool[t].fee
    {
      if t !in inBlock {
        TotalAdd(inBlock, t, Weight(pool));
        TotalAdd(inBlock, t, SigOps(pool));
      }
      assert (vtx + [t])[..|vtx|] == vtx;
      hide Total;
      vtx := vtx + [t];
      nBlockWeight := nBlockWeight + pool[t].weight;
      nBlockTx := nBlockTx + 1;
      nBlockSigOpsCost := nBlockSigOpsCost + pool[t].sigOps;
      nFees := nFees + pool[t].fee;
      inBlock := inBlock + {t};
    }

    /** Put a sorted package into the block and take it out of the side table. */
    method AddSorted(sorted: seq<Tx>, table: ModTable) returns (m: ModTable)
      requires Valid() && ByAncestorCount(pool, sorted) && SetOf(sorted) !! inBlock
      requires forall t :: t in sorted ==> pool[t].ancestors <= inBlock + SetOf(sorted)
      modifies this
      ensures Valid() && vtx == old(vtx) + sorted && inBlock == old(inBlock) + SetOf(sorted)
      ensures m == table - SetOf(sorted)
    {
      hide Tallied, SetOf, WellFormed;
      m := table;
      SortedIsValid(pool, vtx, sorted);
      ClosedAgain(pool, inBlock, sorted);
      assert sorted[..0] == [] && SetOf([]) == {} by { NothingYet(); }
      for i := 0 to |sorted|
        invariant vtx == old(vtx) + sorted[..i] && inBlock == old(inBlock) + SetOf(sorted[..i])
        invariant m == table - SetOf(sorted[..i]) && Tallied()
      {
        Prefix(sorted, i);
        AddToBlock(sorted[i]);
        m := m - {sorted[i]};
      }
      assert sorted[..|sorted|] == sorted;
      SetOfPlus(old(vtx), sorted);
    }

    /** The package passed every test: sort it, add it, patch the entries that depend on it. */
    method AddPackage(iter: Tx, ancestors: set<Tx>, table: ModTable) returns (m: ModTable)
      requires Valid() && iter in pool && iter !in inBlock && ancestors == Missing(pool, iter, inBlock)
      requires TableOk(pool, table, inBlock)
      requires nBlockWeight + Total(ancestors, Weight(pool)) < nBlockMaxWeight
      requires nBlockSigOpsCost + Total(ancestors, SigOps(pool)) < MAX_BLOCK_SIGOPS_COST
      modifies this
      ensures Valid() && WithinLimits() && old(vtx) <= vtx
      ensures inBlock == old(inBlock) + ancestors && TableOk(pool, m, inBlock)
      ensures Exact(pool, table, old(inBlock)) ==> Exact(pool, m, inBlock)
      ensures table.Keys <= m.Keys + inBlock
    {
      hide WellFormed, TableOk, Missing, Ordered, Closed, ByAncestorCount, SetOf, Patched, SeenBy, Exact;
      PackageFacts(pool, iter, inBlock);
      Erase(pool, table, inBlock, ancestors);
      var sorted := SortForBlock(pool, ancestors);
      SetOfMembers(sorted);
      TotalUnion(inBlock, ancestors, Weight(pool));
      TotalUnion(inBlock, ancestors, SigOps(pool));
      hide Total, PatchedAt;
      var erased := AddSorted(sorted, table);
      m := UpdatePackagesForAdded(pool, ancestors, erased);
      PatchedTableOk(pool, erased, m, old(inBlock), ancestors);
      if Exact(pool, table, old(inBlock)) { PatchedExact(pool, table, m, old(inBlock), ancestors); }
      StaysListed(pool, erased, m, ancestors);
    }

    /** The better of the next entry in mempool order and the best entry of the side table. */
    method Choose(order: seq<Tx>, mi: nat, table: ModTable) returns (iter: Tx, fUsingModified: bool, next: nat)
      requires mi <= |order| && (mi < |order| || table != map[])
      requires mi < |order| ==> order[mi] in pool && order[mi] !in table && pool[order[mi]].sizeWithAncestors > 0
      requires forall t :: t in table ==> table[t].size > 0
      ensures if fUsingModified then iter in table && next == mi
              else mi < |order| && iter == order[mi] && next == mi + 1
      ensures iter in table || iter in pool
      ensures forall t :: t in table ==> AtLeast(FigureOf(pool, table, iter), table[t])
      ensures mi < |order| ==> AtLeast(FigureOf(pool, table, iter), Cached(pool, order[mi]))
    {
      hide AtLeast;
      fUsingModified, next := false, mi;
      if table != map[] {
        BestExists(table, table.Keys);
        var modit :| modit in table && forall t :: t in table ==> AtLeast(table[modit], table[t]);
        if mi == |order| {
          return modit, true, mi;
        }
        iter := order[mi];
        OneIsAtLeast(table[modit], Cached(pool, iter));
        SameIsAtLeast(Cached(pool, iter));
        if Higher(table[modit], Cached(pool, iter)) {
          return modit, true, mi;
        }
        forall t | t in table ensures AtLeast(Cached(pool, iter), table[t]) {
          AtLeastTransitive(Cached(pool, iter), table[modit], table[t]);
        }
      } else {
        iter := order[mi];
        SameIsAtLeast(Cached(pool, iter));
      }
      next := mi + 1;
    }

    method Figures(iter: Tx, fUsingModified: bool, table: ModTable) returns (size: int, fees: int, sigOps: int)
      requires iter in pool && (fUsingModified <==> iter in table)
      ensures ModEntry(size, fees, sigOps) == FigureOf(pool, table, iter)
    {
      size, fees := pool[iter].sizeWithAncestors, pool[iter].modFeesWithAncestors;
      sigOps := pool[iter].sigOpsWithAncestors;
      if fUsingModified {
        size, fees, sigOps := table[iter].size, table[iter].fees, table[iter].sigOps;
      }
    }

    /** The side table for whatever the block already holds. */
    method InitialTable() returns (m: ModTable)
      requires Valid()
      ensures TableOk(pool, m, inBlock) && Exact(pool, m, inBlock)
    {
      hide WellFormed, TableOk, Exact, Closed, Patched, SeenBy, Valid;
      ValidFacts();
      StartTable(pool, inBlock);
      m := UpdatePackagesForAdded(pool, inBlock, map[]);
      PatchedTableOk(pool, map[], m, {}, inBlock);
      PatchedExact(pool, map[], m, {}, inBlock);
      assert {} + inBlock == inBlock;
    }

    method EraseFailed(table: ModTable, iter: Tx) returns (m: ModTable)
      requires TableOk(pool, table, inBlock) && iter in table
      ensures m == table - {iter} && TableOk(pool, m, inBlock) && |m| < |table|
    {
      m := table - {iter};
      Erase(pool, table, inBlock, {iter});
      EraseOne(table, iter);
    }

    /** Test one package and, if it passes, add it. */
    method TryPackage(iter: Tx, packageSize: int, packageSigOpsCost: int, table: ModTable)
      returns (outcome: Outcome, m: ModTable)
      requires Valid() && WithinLimits() && TableOk(pool, table, inBlock) && iter in pool && iter !in inBlock
      requires packageSize >= Total(Missing(pool, iter, inBlock), Size(pool))
      requires packageSigOpsCost >= Total(Missing(pool, iter, inBlock), SigOps(pool))
      modifies this
      ensures Valid() && WithinLimits() && old(vtx) <= vtx && TableOk(pool, m, inBlock)
      ensures outcome == Added <==>
        && old(TestPackage(packageSize, packageSigOpsCost))
        && forall u :: u in pool[iter].ancestors - old(inBlock) + {iter} ==> finalTx(u)
      ensures outcome != LowFee && (outcome == TooBig <==> !old(TestPackage(packageSize, packageSigOpsCost)))
      ensures outcome != Added ==> m == table && unchanged(this)
      ensures outcome == Added ==> inBlock == old(inBlock) + Missing(pool, iter, old(inBlock)) && iter in inBlock
      ensures outcome == Added && Exact(pool, table, old(inBlock)) ==> Exact(pool, m, inBlock)
      ensures table.Keys <= m.Keys + inBlock && old(inBlock) <= inBlock
    {
      hide Valid, WithinLimits, TableOk, Exact, Missing, Total, Size, Weight, SigOps;
      m := table;
      if !TestPackage(packageSize, packageSigOpsCost) { return TooBig, m; }
      var ancestors := OnlyUnconfirmed(pool[iter].ancestors);
      ancestors := ancestors + {iter};
      var allFinal := TestPackageTransactions(ancestors);
      if !allFinal { return NotFinal, m; }
      ValidFacts();
      MissingIs(pool, iter, inBlock);
      WeightWithinSize(pool, ancestors);
      m := AddPackage(iter, ancestors, m);
      return Added, m;
    }

    lemma CandidateFits(table: ModTable, iter: Tx, size: int, sigOps: int)
      requires Valid() && AllFit(pool, nBlockMaxWeight, finalTx) && Exact(pool, table, inBlock)
      requires iter in pool && iter !in inBlock
      requires size == FigureOf(pool, table, iter).size && sigOps == FigureOf(pool, table, iter).sigOps
      ensures TestPackage(size, sigOps)
      ensures forall u :: u in pool[iter].ancestors - inBlock + {iter} ==> finalTx(u)
    {
      hide Valid, AllFit, Exact, Total, WellFormed, Closed;
      ValidFacts();
      EverythingFits(pool, table, inBlock, iter, nBlockMaxWeight, finalTx);
    }

    /** Nothing has failed, and the block and the side table account for the order up to `mi`. */
    ghost predicate OnTrack(order: seq<Tx>, mi: nat, table: ModTable)
      requires mi <= |order|
      reads this
    {
      Exact(pool, table, inBlock) && Listed(order, mi, inBlock, table)
    }

    ghost predicate Fitting() {
      AllFit(pool, nBlockMaxWeight, finalTx)
    }

    ghost predicate Ranked(order: seq<Tx>) {
      Fitting() && Unprioritised(pool) && ByScore(pool, order)
    }

    /** The next candidate with its figures. */
    method Next(order: seq<Tx>, mi: nat, table: ModTable)
      returns (iter: Tx, fUsingModified: bool, next: nat, size: int, fees: int, sigOps: int)
      requires Valid() && TableOk(pool, table, inBlock) && SetOf(order) == pool.Keys
      requires mi <= |order| && (mi < |order| || table != map[])
      requires mi < |order| ==> order[mi] in pool && order[mi] !in table && order[mi] !in inBlock
      ensures iter in pool && iter !in inBlock
      ensures if fUsingModified then iter in table && next == mi
              else mi < |order| && iter == order[mi] && next == mi + 1
      ensures size >= Total(Missing(pool, iter, inBlock), Size(pool))
      ensures sigOps >= Total(Missing(pool, iter, inBlock), SigOps(pool))
      ensures Fitting() && OnTrack(order, mi, table) ==>
        TestPackage(size, sigOps) && forall u :: u in pool[iter].ancestors - inBlock + {iter} ==> finalTx(u)
      ensures Ranked(order) && OnTrack(order, mi, table) ==>
        BestLeft(pool, inBlock, iter) && (fees < minFee(size) <==> Underpaid(pool, inBlock, iter, minFee))
      ensures !fUsingModified ==> ModEntry(size, fees, sigOps) == Cached(pool, iter)
    {
      hide WellFormed, TableOk, Missing, Closed, SetOf, Total, Size, SigOps, Valid, Listed, Exact, AllFit;
      hide Unprioritised, ByScore, BestLeft, AtLeast, Underpaid;
      ValidFacts();
      SizesPositive(pool, table, inBlock);
      iter, fUsingModified, next := Choose(order, mi, table);
      Candidate(pool, table, inBlock, iter);
      size, fees, sigOps := Figures(iter, fUsingModified, table);
      if Fitting() && OnTrack(order, mi, table) { CandidateFits(table, iter, size, sigOps); }
      if Ranked(order) && OnTrack(order, mi, table) {
        BestOfAll(pool, order, mi, table, inBlock, iter);
        UnderpaidIs(pool, table, inBlock, iter, minFee);
      }
    }

    // ---------------------------------------------------------------- the record of a run

    /** Room for a package on top of a block. */
    ghost predicate Fits(before: set<Tx>, figure: ModEntry) {
      && COINBASE_WEIGHT + Total(before, Weight(pool)) + 4 * figure.size < nBlockMaxWeight
      && COINBASE_SIGOPS + Total(before, SigOps(pool)) + figure.sigOps < MAX_BLOCK_SIGOPS_COST
    }

    /** What decides about a candidate: first the minimum fee, then the room, then whether all it needs is final. */
    ghost predicate Decided(x: Try)
      requires x.t in pool
    {
      x.outcome ==
        if x.figure.fees < minFee(x.figure.size) then LowFee
        else if !Fits(x.before, x.figure) then TooBig
        else if exists u :: u in Missing(pool, x.t, x.before) && !finalTx(u) then NotFinal
        else Added
    }

    /** The figures of a candidate cover what it lacks; one that is not from the side table has the mempool's. */
    ghost predicate TryOk(x: Try) {
      && x.t in pool && x.t !in x.before && x.figure.size >= PackageSize(pool, x.before, x.t)
      && x.figure.sigOps >= Total(Missing(pool, x.t, x.before), SigOps(pool))
      && (!x.modified ==> x.figure == Cached(pool, x.t)) && Decided(x)
    }

    /** From one block to another: each candidate was tried on what the one before left, and only those added stay. */
    ghost predicate Tried(start: set<Tx>, tries: seq<Try>, end: set<Tx>)
      decreases |tries|
    {
      if tries == [] then start == end else
        var x := tries[|tries| - 1];
        && TryOk(x) && Tried(start, tries[..|tries| - 1], x.before)
        && end == if x.outcome == Added then x.before + Missing(pool, x.t, x.before) else x.before
    }

    /** More than a thousand were too big since one was added, the last of them for a block that is nearly full. */
    ghost predicate GivesUp(tries: seq<Try>) {
      tries != [] &&
      var x := tries[|tries| - 1];
      && x.outcome == TooBig && TooBigs(tries) > 1000
      && COINBASE_WEIGHT + Total(x.before, Weight(pool)) > nBlockMaxWeight - 4000
    }

    ghost predicate Stops(tries: seq<Try>) {
      GivesUp(tries) || (tries != [] && tries[|tries| - 1].outcome == LowFee)
    }

    /** Nothing stopped the loop before. */
    ghost predicate NotBefore(tries: seq<Try>) {
      forall k :: 0 <= k < |tries| ==> !Stops(tries[..k])
    }

    /** What the loop's variables say about the record. */
    ghost predicate Booked(start: set<Tx>, tries: seq<Try>, now: set<Tx>, order: seq<Tx>, mi: nat, table: ModTable,
        failed: set<Tx>)
      requires mi <= |order|
    {
      && Tried(start, tries, now) && NotBefore(tries) && !Stops(tries) && Fresh(tries)
      && (forall j :: 0 <= j < |tries| && tries[j].modified ==> tries[j].t in now || tries[j].t in failed)
      && (forall t :: t in failed ==> Failed(tries, t))
      && (forall j :: 0 <= j < mi ==> order[j] in now || order[j] in table || Failed(tries, order[j]))
    }

    lemma BookedFirst(start: set<Tx>, order: seq<Tx>)
      ensures forall table: ModTable :: Booked(start, [], start, order, 0, table, {})
      ensures TooBigs([]) == 0 && Adds([]) == 0 && BestFirst([]) && NoneFailed([])
    {
    }

    lemma BookedSkip(start: set<Tx>, tries: seq<Try>, now: set<Tx>, order: seq<Tx>, mi: nat, table: ModTable,
        failed: set<Tx>)
      requires mi < |order| && Booked(start, tries, now, order, mi, table, failed)
      requires order[mi] in table || order[mi] in now || order[mi] in failed
      ensures Booked(start, tries, now, order, mi + 1, table, failed)
    {
    }

    lemma BookedListed(start: set<Tx>, tries: seq<Try>, now: set<Tx>, order: seq<Tx>, mi: nat, table: ModTable,
        failed: set<Tx>)
      requires mi <= |order| && Booked(start, tries, now, order, mi, table, failed) && NoneFailed(tries)
      ensures Listed(order, mi, now, table)
    {
      hide Tried, NotBefore, Stops, Fresh;
    }

    /** One more candidate, whatever comes of it. */
    lemma RecordTry(start: set<Tx>, tries: seq<Try>, order: seq<Tx>, mi: nat, table: ModTable, failed: set<Tx>, x: Try)
      requires mi <= |order| && Booked(start, tries, x.before, order, mi, table, failed) && TryOk(x)
      requires !x.modified ==> x.t !in failed
      ensures Tried(start, tries + [x],
        if x.outcome == Added then x.before + Missing(pool, x.t, x.before) else x.before)
      ensures NotBefore(tries + [x]) && Fresh(tries + [x])
      ensures TooBigs(tries + [x]) ==
        (if x.outcome == Added then 0 else if x.outcome == TooBig then TooBigs(tries) + 1 else TooBigs(tries))
      ensures Adds(tries + [x]) == Adds(tries) + if x.outcome == Added then 1 else 0
      ensures forall t :: Failed(tries, t) ==> Failed(tries + [x], t)
    {
      hide TryOk, Stops;
      TryIn(x);
      var all := tries + [x];
      assert all[..|tries|] == tries;
      forall k | 0 <= k < |all| ensures !Stops(all[..k]) {
        assert all[..k] == if k < |tries| then tries[..k] else tries;
      }
      forall t | Failed(tries, t) ensures Failed(all, t) {
        var k :| 0 <= k < |tries| && FailedAt(tries[k], t);
        assert all[k] == tries[k];
      }
    }

    /** The books after a candidate: kept if the loop goes on, and closed if it stops. */
    lemma BookedPass(start: set<Tx>, tries: seq<Try>, order: seq<Tx>, mi: nat, table: ModTable, failed: set<Tx>, x: Try,
        next: nat, table': ModTable)
      requires mi <= next <= mi + 1 && next <= |order| && Booked(start, tries, x.before, order, mi, table, failed)
      requires TryOk(x) && (!x.modified ==> x.t !in failed) && (next > mi ==> order[mi] == x.t)
      requires x.outcome == Added ==> table.Keys <= table'.Keys + (x.before + Missing(pool, x.t, x.before))
      requires x.outcome == TooBig || x.outcome == NotFinal ==> table' == if x.modified then table - {x.t} else table
      ensures var now := if x.outcome == Added then x.before + Missing(pool, x.t, x.before) else x.before;
        && Tried(start, tries + [x], now) && NotBefore(tries + [x]) && Fresh(tries + [x])
        && (!Stops(tries + [x]) ==> Booked(start, tries + [x], now, order, next, table',
              if x.modified && x.outcome != Added then failed + {x.t} else failed))
      ensures TooBigs(tries + [x]) ==
        (if x.outcome == Added then 0 else if x.outcome == TooBig then TooBigs(tries) + 1 else TooBigs(tries))
      ensures Adds(tries + [x]) == Adds(tries) + if x.outcome == Added then 1 else 0
      ensures Stops(tries + [x]) <==> GivesUp(tries + [x]) || x.outcome == LowFee
      ensures GivesUp(tries + [x]) <==>
        && x.outcome == TooBig && TooBigs(tries) + 1 > 1000
        && COINBASE_WEIGHT + Total(x.before, Weight(pool)) > nBlockMaxWeight - 4000
    {
      hide Tried, TryOk, Fresh, NotBefore, TooBigs, Adds, Total;
      RecordTry(start, tries, order, mi, table, failed, x);
      TryIn(x);
      if x.outcome == TooBig || x.outcome == NotFinal { assert FailedAt((tries + [x])[|tries|], x.t); }
    }

    lemma TryIn(x: Try)
      requires TryOk(x)
      ensures x.t in pool && x.t in Missing(pool, x.t, x.before) && x.t !in x.before
    {
    }

    lemma DecidedLow(x: Try)
      requires x.t in pool && x.t !in x.before && x.figure.size >= PackageSize(pool, x.before, x.t)
      requires x.figure.sigOps >= Total(Missing(pool, x.t, x.before), SigOps(pool))
      requires !x.modified ==> x.figure == Cached(pool, x.t)
      requires x.outcome == LowFee && x.figure.fees < minFee(x.figure.size)
      ensures TryOk(x)
    {
    }

    lemma BookedEnds(start: set<Tx>, tries: seq<Try>, now: set<Tx>, order: seq<Tx>, mi: nat, table: ModTable,
        failed: set<Tx>)
      requires mi <= |order| && Booked(start, tries, now, order, mi, table, failed)
      ensures Tried(start, tries, now) && NotBefore(tries) && Fresh(tries) && !GivesUp(tries)
      ensures tries != [] ==> tries[|tries| - 1].outcome != LowFee
    {
      hide Tried, NotBefore, Fresh, GivesUp;
    }

    lemma DecidedBy(x: Try)
      requires x.t in pool && x.t !in x.before && x.figure.size >= PackageSize(pool, x.before, x.t)
      requires x.figure.sigOps >= Total(Missing(pool, x.t, x.before), SigOps(pool))
      requires !x.modified ==> x.figure == Cached(pool, x.t)
      requires x.figure.fees >= minFee(x.figure.size) && x.outcome != LowFee
      requires x.outcome == Added <==>
        Fits(x.before, x.figure) && forall u :: u in Missing(pool, x.t, x.before) ==> finalTx(u)
      requires x.outcome == TooBig <==> !Fits(x.before, x.figure)
      ensures TryOk(x)
    {
      hide Total, Missing;
    }

    /** If nothing stopped the loop and all is walked, what is left out failed when it was tried. */
    lemma LeftOutFailed(start: set<Tx>, tries: seq<Try>, now: set<Tx>, order: seq<Tx>, failed: set<Tx>)
      requires Booked(start, tries, now, order, |order|, map[], failed) && SetOf(order) == pool.Keys
      ensures forall t :: t in pool && t !in now ==> Failed(tries, t)
    {
      hide Tried, Stops, Fresh, NotBefore, Failed;
      forall t | t in pool && t !in now ensures Failed(tries, t) { assert t in SetOf(order); }
    }

    /** Every candidate was the best left, and was added unless it paid too little. */
    ghost predicate BestFirst(tries: seq<Try>) {
      forall k :: 0 <= k < |tries| ==>
        && BestLeft(pool, tries[k].before, tries[k].t)
        && tries[k].outcome == if Underpaid(pool, tries[k].before, tries[k].t, minFee) then LowFee else Added
    }

    lemma BestFirstMore(tries: seq<Try>, x: Try)
      requires BestFirst(tries) && BestLeft(pool, x.before, x.t)
      requires x.outcome == if Underpaid(pool, x.before, x.t, minFee) then LowFee else Added
      ensures BestFirst(tries + [x])
    {
      hide BestLeft, Underpaid;
    }

    /** One candidate: choose it, test it, and add it if it passes; one of the side table that fails leaves it. */
    method Consider(order: seq<Tx>, mi: nat, table: ModTable) returns (next: nat, m: ModTable, x: Try)
      requires Valid() && WithinLimits() && TableOk(pool, table, inBlock) && SetOf(order) == pool.Keys
      requires mi <= |order| && (mi < |order| || table != map[])
      requires mi < |order| ==> order[mi] in pool && order[mi] !in table && order[mi] !in inBlock
      modifies this
      ensures Valid() && WithinLimits() && old(vtx) <= vtx && TableOk(pool, m, inBlock)
      ensures TryOk(x) && x.before == old(inBlock)
      ensures inBlock == if x.outcome == Added then x.before + Missing(pool, x.t, x.before) else x.before
      ensures if x.modified then x.t in table && next == mi else mi < |order| && x.t == order[mi] && next == mi + 1
      ensures x.outcome != Added ==> m == if x.modified && x.outcome != LowFee then table - {x.t} else table
      ensures x.outcome == Added ==> table.Keys <= m.Keys + inBlock && x.t in inBlock
      ensures old(Fitting() && OnTrack(order, mi, table)) ==>
        x.outcome == LowFee || (x.outcome == Added && Exact(pool, m, inBlock))
      ensures old(Ranked(order) && OnTrack(order, mi, table)) ==>
        && BestLeft(pool, x.before, x.t)
        && x.outcome == if Underpaid(pool, x.before, x.t, minFee) then LowFee else Added
    {
      hide Ordered, Tallied, WellFormed, TableOk, Closed, SetOf, Patched, SeenBy, Total, Size, Weight, SigOps;
      hide Valid, WithinLimits, Listed, Exact, AllFit, Unprioritised, ByScore, BestLeft, Underpaid, TryOk, Missing;
      ValidFacts();
      m := table;
      var iter, fUsingModified, packageSize, packageFees, packageSigOpsCost;
      iter, fUsingModified, next, packageSize, packageFees, packageSigOpsCost := Next(order, mi, table);
      assert iter !in inBlock;
      MissingIs(pool, iter, inBlock);
      x := Try(iter, inBlock, ModEntry(packageSize, packageFees, packageSigOpsCost), fUsingModified, LowFee);
      if packageFees < minFee(packageSize) {
        DecidedLow(x);
        return;
      }
      var outcome;
      outcome, m := TryPackage(iter, packageSize, packageSigOpsCost, m);
      x := x.(outcome := outcome);
      DecidedBy(x);
      if outcome != Added && fUsingModified {
        m := EraseFailed(m, iter);
      }
    }

    /** What holds between two passes of the loop. */
    ghost predicate Going(start: set<Tx>, tries: seq<Try>, order: seq<Tx>, w: Walk)
      reads this
    {
      && Valid() && WithinLimits() && TableOk(pool, w.mapModifiedTx, inBlock) && w.mi <= |order|
      && Booked(start, tries, inBlock, order, w.mi, w.mapModifiedTx, w.failedTx)
      && w.nConsecutiveFailed == TooBigs(tries) && w.nPackagesSelected == Adds(tries)
      && (Fitting() ==> Exact(pool, w.mapModifiedTx, inBlock) && NoneFailed(tries))
      && (Ranked(order) ==> BestFirst(tries))
    }

    lemma GoingFirst(order: seq<Tx>, table: ModTable)
      requires Valid() && WithinLimits() && TableOk(pool, table, inBlock) && Exact(pool, table, inBlock)
      ensures Going(inBlock, [], order, Walk(0, table, {}, 0, 0))
    {
      hide Valid, WithinLimits, TableOk, Exact, Booked, Fitting, Ranked;
      BookedFirst(inBlock, order);
    }

    lemma GoingOn(start: set<Tx>, tries: seq<Try>, order: seq<Tx>, w: Walk)
      requires Going(start, tries, order, w) && w.mi < |order| && (w.Skips(order[w.mi]) || order[w.mi] in inBlock)
      ensures Going(start, tries, order, w.(mi := w.mi + 1))
    {
      hide Valid, WithinLimits, TableOk, Exact, Fitting, Ranked, Booked;
      BookedSkip(start, tries, inBlock, order, w.mi, w.mapModifiedTx, w.failedTx);
    }

    lemma GoingEnds(start: set<Tx>, tries: seq<Try>, order: seq<Tx>, w: Walk)
      requires Going(start, tries, order, w) && !w.More(order) && SetOf(order) == pool.Keys
      ensures Valid() && WithinLimits() && Tried(start, tries, inBlock) && NotBefore(tries) && Fresh(tries)
      ensures w.nPackagesSelected == Adds(tries) && !GivesUp(tries)
      ensures tries != [] ==> tries[|tries| - 1].outcome != LowFee
      ensures forall t :: t in pool && t !in inBlock ==> Failed(tries, t)
      ensures (Fitting() ==> inBlock == pool.Keys) && (Ranked(order) ==> BestFirst(tries))
    {
      hide Valid, WithinLimits, TableOk, Exact, Fitting, Ranked, Booked, Tried, NotBefore, Fresh, GivesUp, Failed;
      ValidFacts();
      LeftOutFailed(start, tries, inBlock, order, w.failedTx);
      BookedEnds(start, tries, inBlock, order, w.mi, w.mapModifiedTx, w.failedTx);
      if Fitting() { NoneLeftOut(pool, tries, inBlock); }
    }

    lemma GoingFacts(start: set<Tx>, tries: seq<Try>, order: seq<Tx>, w: Walk)
      requires Going(start, tries, order, w)
      ensures Valid() && WithinLimits() && TableOk(pool, w.mapModifiedTx, inBlock) && w.mi <= |order|
      ensures Booked(start, tries, inBlock, order, w.mi, w.mapModifiedTx, w.failedTx)
      ensures w.nConsecutiveFailed == TooBigs(tries) && w.nPackagesSelected == Adds(tries)
      ensures Fitting() ==> OnTrack(order, w.mi, w.mapModifiedTx) && NoneFailed(tries)
      ensures Ranked(order) ==> Fitting() && BestFirst(tries)
    {
      hide Valid, WithinLimits, TableOk, Exact, Fitting, Booked, BestFirst, NoneFailed, Listed;
      if Fitting() { BookedListed(start, tries, inBlock, order, w.mi, w.mapModifiedTx, w.failedTx); }
    }

    lemma GoingAgain(start: set<Tx>, tries: seq<Try>, order: seq<Tx>, w: Walk)
      requires Valid() && WithinLimits() && TableOk(pool, w.mapModifiedTx, inBlock) && w.mi <= |order|
      requires Booked(start, tries, inBlock, order, w.mi, w.mapModifiedTx, w.failedTx)
      requires w.nConsecutiveFailed == TooBigs(tries) && w.nPackagesSelected == Adds(tries)
      requires Fitting() ==> Exact(pool, w.mapModifiedTx, inBlock) && NoneFailed(tries)
      requires Ranked(order) ==> BestFirst(tries)
      ensures Going(start, tries, order, w)
    {
      hide Valid, WithinLimits, TableOk, Exact, Fitting, Ranked, Booked, BestFirst, NoneFailed;
    }

    lemma GoodPass(order: seq<Tx>, tries: seq<Try>, x: Try)
      requires Fitting() ==> NoneFailed(tries) && (x.outcome == LowFee || x.outcome == Added)
      requires Ranked(order) ==>
        && BestFirst(tries) && BestLeft(pool, x.before, x.t)
        && x.outcome == if Underpaid(pool, x.before, x.t, minFee) then LowFee else Added
      ensures Fitting() ==> NoneFailed(tries + [x])
      ensures Ranked(order) ==> BestFirst(tries + [x])
    {
      hide BestLeft, Underpaid, BestFirst, NoneFailed, Fitting, Ranked;
      if Ranked(order) { BestFirstMore(tries, x); }
      if Fitting() { NoneFailedMore(tries, x); }
    }

    /** One pass over a candidate; `stop` is Exhausted unless it is the last. */
    method Pass(order: seq<Tx>, w: Walk, ghost start: set<Tx>, ghost tries: seq<Try>)
      returns (w': Walk, stop: Stop, ghost x: Try)
      requires Going(start, tries, order, w) && SetOf(order) == pool.Keys && w.More(order)
      requires w.mi < |order| ==> order[w.mi] in pool && order[w.mi] !in inBlock && !w.Skips(order[w.mi])
      modifies this
      ensures w'.mi <= |order|
      ensures Valid() && WithinLimits() && old(vtx) <= vtx
      ensures stop == Exhausted ==> Going(start, tries + [x], order, w')
      ensures stop == Exhausted ==>
        || |pool.Keys - inBlock| < old(|pool.Keys - inBlock|)
        || (inBlock == old(inBlock) && w'.mi > w.mi)
        || (inBlock == old(inBlock) && w'.mi == w.mi && |w'.mapModifiedTx| < |w.mapModifiedTx|)
      ensures stop != Exhausted ==>
        && Tried(start, tries + [x], inBlock) && NotBefore(tries + [x]) && Fresh(tries + [x])
        && w'.nPackagesSelected == Adds(tries + [x]) && (Fitting() ==> stop == FeeTooLow)
        && (Ranked(order) ==> BestFirst(tries + [x]))
      ensures stop == FeeTooLow <==> x.outcome == LowFee
      ensures stop == GaveUp <==> GivesUp(tries + [x])
    {
      hide Ordered, Tallied, WellFormed, TableOk, Missing, Closed, SetOf, Patched, SeenBy, Total, Size, Weight, SigOps;
      hide Valid, WithinLimits, Listed, Exact, AllFit, BestLeft, Underpaid, OnTrack, Fitting, Ranked, Going;
      hide Booked, TryOk, Tried, GivesUp, Stops, NotBefore, Fresh, Failed, BestFirst, TooBigs, Adds, NoneFailed;
      GoingFacts(start, tries, order, w);
      var mi, table, tried := Consider(order, w.mi, w.mapModifiedTx);
      x, w', stop := tried, w.(mi := mi, mapModifiedTx := table), Exhausted;
      BookedPass(start, tries, order, w.mi, w.mapModifiedTx, w.failedTx, x, mi, table);
      GoodPass(order, tries, x);
      if tried.outcome == LowFee {
        stop := FeeTooLow;
      } else if tried.outcome == Added {
        w' := w'.(nConsecutiveFailed := 0, nPackagesSelected := w.nPackagesSelected + 1);
        TryIn(x);
        Shrinks(pool.Keys, x.before, inBlock, x.t);
      } else {
        if tried.modified {
          EraseOne(w.mapModifiedTx, x.t);
          w' := w'.(failedTx := w.failedTx + {tried.t});
        }
        if tried.outcome == TooBig {
          ValidFacts();
          w' := w'.(nConsecutiveFailed := w.nConsecutiveFailed + 1);
          if w'.nConsecutiveFailed > MAX_CONSECUTIVE_FAILURES && nBlockWeight > nBlockMaxWeight - 4000 {
            stop := GaveUp;
          }
        }
      }
      if stop == Exhausted { GoingAgain(start, tries + [x], order, w'); }
    }

    /**
    The selection loop. `order` lists the mempool by ancestor score. It ends, the assertion that the chosen transaction
    is not in the block holds, and the block stays valid and within its limits. `tries` are the candidates, each with
    the block before it, the figures used and what came of it: these decide by the minimum fee, the room and finality,
    the block grows by exactly the packages that pass, and the loop stops at the first that pays too little or gives up
    when it says it may; otherwise whatever is left out failed a test when it was tried. If everything fits and no fee
    was modified, every candidate has the highest fee rate of all that are left, and is added unless it pays too little.
    */
    method AddPackageTxs(order: seq<Tx>) returns (nPackagesSelected: nat, stop: Stop, ghost tries: seq<Try>)
      requires Valid() && WithinLimits() && SetOf(order) == pool.Keys
      modifies this
      ensures Valid() && WithinLimits() && old(vtx) <= vtx
      ensures Tried(old(inBlock), tries, inBlock) && NotBefore(tries) && Fresh(tries)
      ensures nPackagesSelected == Adds(tries)
      ensures stop == FeeTooLow <==> tries != [] && tries[|tries| - 1].outcome == LowFee
      ensures stop == GaveUp <==> GivesUp(tries)
      ensures stop == Exhausted ==> forall t :: t in pool && t !in inBlock ==> Failed(tries, t)
      ensures Fitting() ==> stop != GaveUp && (stop == Exhausted ==> inBlock == pool.Keys)
      ensures Ranked(order) ==> BestFirst(tries)
    {
      hide Ordered, Tallied, WellFormed, TableOk, Missing, Closed, SetOf, Patched, SeenBy, Total, Size, Weight, SigOps;
      hide Valid, WithinLimits, Listed, Exact, AllFit, Unprioritised, ByScore, BestLeft, Underpaid, OnTrack, Fitting;
      hide Booked, TryOk, Tried, GivesUp, Stops, NotBefore, Fresh, Failed, BestFirst, TooBigs, Adds, NoneFailed;
      hide Going;
      ghost var start := inBlock;
      tries := [];
      OrderInPool(pool, order);
      var mapModifiedTx := InitialTable();
      var w := Walk(0, mapModifiedTx, {}, 0, 0);
      GoingFirst(order, mapModifiedTx);
      while w.More(order)
        invariant Going(start, tries, order, w) && w.mi <= |order| && old(vtx) <= vtx
        decreases |pool.Keys - inBlock|, |order| - w.mi, |w.mapModifiedTx|
      {
        if w.mi < |order| && (w.Skips(order[w.mi]) || order[w.mi] in inBlock) {
          GoingOn(start, tries, order, w);
          w := w.(mi := w.mi + 1);
          continue;
        }
        ghost var x;
        w, stop, x := Pass(order, w, start, tries);
        tries := tries + [x];
        if stop != Exhausted { return w.nPackagesSelected, stop, tries; }
      }
      GoingEnds(start, tries, order, w);
      return w.nPackagesSelected, Exhausted, tries;
    }
  }

  /** Where the loop is: the place in the mempool's order, the side table, what failed from it, and two counters. */
  datatype Walk = Walk(
    mi: nat, mapModifiedTx: ModTable, failedTx: set<Tx>, nConsecutiveFailed: nat, nPackagesSelected: nat)
  {
    predicate More(order: seq<Tx>) { mi < |order| || mapModifiedTx != map[] }

    predicate Skips(t: Tx) { t in mapModifiedTx || t in failedTx }
  }

  datatype Outcome = Added | TooBig | NotFinal | LowFee

  /** A candidate with the block before it, the figures used, whether they are the side table's, and what came of it. */
  datatype Try = Try(t: Tx, before: set<Tx>, figure: ModEntry, modified: bool, outcome: Outcome)

  /** How many were too big since one was added. */
  function TooBigs(tries: seq<Try>): nat {
    if tries == [] then 0 else
      match tries[|tries| - 1].outcome
      case Added => 0
      case TooBig => TooBigs(tries[..|tries| - 1]) + 1
      case _ => TooBigs(tries[..|tries| - 1])
  }

  function Adds(tries: seq<Try>): nat {
    if tries == [] then 0
    else Adds(tries[..|tries| - 1]) + if tries[|tries| - 1].outcome == Added then 1 else 0
  }

  predicate FailedAt(x: Try, t: Tx) { x.t == t && (x.outcome == TooBig || x.outcome == NotFinal) }

  ghost predicate Failed(tries: seq<Try>, t: Tx) { exists k :: 0 <= k < |tries| && FailedAt(tries[k], t) }

  ghost predicate NoneFailed(tries: seq<Try>) {
    forall k :: 0 <= k < |tries| ==> tries[k].outcome != TooBig && tries[k].outcome != NotFinal
  }

  /** With the mempool's figures nothing is tried that was tried with the side table's. */
  ghost predicate Fresh(tries: seq<Try>) {
    forall j, k :: 0 <= j < k < |tries| && tries[j].modified && !tries[k].modified ==> tries[j].t != tries[k].t
  }

  /** Why the loop ended. */
  datatype Stop = Exhausted | FeeTooLow | GaveUp

  /** The whole mempool is final and fits into an empty block. */
  ghost predicate AllFit(pool: Pool, maxWeight: nat, finalTx: Tx -> bool) {
    && (forall t :: t in pool ==> finalTx(t))
    && COINBASE_WEIGHT + 4 * Total(pool.Keys, Size(pool)) < maxWeight
    && COINBASE_SIGOPS + Total(pool.Keys, SigOps(pool)) < MAX_BLOCK_SIGOPS_COST
  }

  /** Every mempool entry already walked past is in the block or waits in the side table. */
  ghost predicate Listed(order: seq<Tx>, mi: nat, inBlock: set<Tx>, table: ModTable)
    requires mi <= |order|
  {
    forall j :: 0 <= j < mi ==> order[j] in inBlock || order[j] in table
  }

  lemma NoneFailedMore(tries: seq<Try>, x: Try)
    requires NoneFailed(tries) && x.outcome != TooBig && x.outcome != NotFinal
    ensures NoneFailed(tries + [x])
  {
  }

  lemma NoneLeftOut(pool: Pool, tries: seq<Try>, inBlock: set<Tx>)
    requires Closed(pool, inBlock) && NoneFailed(tries) && forall t :: t in pool && t !in inBlock ==> Failed(tries, t)
    ensures inBlock == pool.Keys
  {
  }

  /** If everything fits and nothing failed so far, the next candidate passes both tests. */
  lemma EverythingFits(pool: Pool, m: ModTable, inBlock: set<Tx>, t: Tx, maxWeight: nat, finalTx: Tx -> bool)
    requires WellFormed(pool) && Closed(pool, inBlock) && AllFit(pool, maxWeight, finalTx) && Exact(pool, m, inBlock)
    requires t in pool && t !in inBlock
    ensures forall u :: u in pool[t].ancestors - inBlock + {t} ==> finalTx(u)
    ensures var size := FigureOf(pool, m, t).size;
      COINBASE_WEIGHT + Total(inBlock, Weight(pool)) + 4 * size < maxWeight
    ensures var sigOps := FigureOf(pool, m, t).sigOps;
      COINBASE_SIGOPS + Total(inBlock, SigOps(pool)) + sigOps < MAX_BLOCK_SIGOPS_COST
  {
    PackageFacts(pool, t, inBlock);
    assert ExactAt(pool, m, t, inBlock);
    CachedTotals(pool, t);
    hide Exact, WellFormed, Closed;
    var p := Missing(pool, t, inBlock);
    if t !in m {
      GraphFacts(pool, t);
      NothingMissing(pool, t, inBlock, Size(pool));
      NothingMissing(pool, t, inBlock, SigOps(pool));
    }
    WeightWithinSize(pool, inBlock);
    FitsInside(pool, inBlock, p, Size(pool));
    FitsInside(pool, inBlock, p, SigOps(pool));
  }

  lemma FitsInside(pool: Pool, a: set<Tx>, b: set<Tx>, f: Measure)
    requires a !! b && a <= pool.Keys && b <= pool.Keys
    ensures Total(a, f) + Total(b, f) <= Total(pool.Keys, f)
  {
    TotalUnion(a, b, f);
    TotalSubset(a + b, pool.Keys, f);
  }

  lemma StaysListed(pool: Pool, m0: ModTable, m: ModTable, added: set<Tx>)
    requires Patched(pool, m0, m, SeenBy(pool, added, added)) && m0.Keys <= pool.Keys
    ensures m0.Keys <= m.Keys
  {
    hide StartSize, StartSigOps, Total;
    forall t | t in m0 ensures t in m {
      assert PatchedAt(pool, m0, m, t, SeenBy(pool, added, added)[t]);
    }
  }

  lemma MissingIs(pool: Pool, t: Tx, inBlock: set<Tx>)
    requires t in pool
    ensures Missing(pool, t, inBlock) == pool[t].ancestors - inBlock + {t}
  {
  }

  lemma SetOfMembers(s: seq<Tx>)
    ensures forall t :: t in s <==> t in SetOf(s)
  {
  }

  lemma OrderInPool(pool: Pool, order: seq<Tx>)
    requires SetOf(order) == pool.Keys
    ensures forall i :: 0 <= i < |order| ==> order[i] in pool
  {
    forall i | 0 <= i < |order| ensures order[i] in pool {
      assert order[i] in SetOf(order);
    }
  }

  lemma StartTable(pool: Pool, inBlock: set<Tx>)
    requires Closed(pool, inBlock)
    ensures Closed(pool, {}) && TableOk(pool, map[], {}) && inBlock <= pool.Keys && Exact(pool, map[], {})
    ensures var none: ModTable := map[]; none - inBlock == none
  {
  }

  /** Whatever is picked is outside the block, and its cached totals cover what it still lacks. */
  lemma Candidate(pool: Pool, m: ModTable, inBlock: set<Tx>, t: Tx)
    requires WellFormed(pool) && TableOk(pool, m, inBlock) && (t in m || t in pool)
    ensures t in pool && (t in m ==> t !in inBlock)
    ensures t in m ==> m[t].size >= Total(Missing(pool, t, inBlock), Size(pool))
    ensures t in m ==> m[t].sigOps >= Total(Missing(pool, t, inBlock), SigOps(pool))
    ensures pool[t].sizeWithAncestors >= Total(Missing(pool, t, inBlock), Size(pool))
    ensures pool[t].sigOpsWithAncestors >= Total(Missing(pool, t, inBlock), SigOps(pool))
  {
    hide Total;
    MissingTotal(pool, t, inBlock, Size(pool));
    MissingTotal(pool, t, inBlock, SigOps(pool));
    if t in m { assert Covers(pool, m[t], t, inBlock); }
  }

  lemma Erase(pool: Pool, m: ModTable, inBlock: set<Tx>, p: set<Tx>)
    requires TableOk(pool, m, inBlock)
    ensures TableOk(pool, m - p, inBlock) && (m - p).Keys !! p && (m - p).Keys <= pool.Keys
  {
    hide Covers;
  }

  lemma EraseOne(m: ModTable, t: Tx)
    requires t in m
    ensures |m - {t}| < |m|
  {
    assert (m - {t}).Keys == m.Keys - {t};
  }

  lemma Shrinks(all: set<Tx>, before: set<Tx>, after: set<Tx>, t: Tx)
    requires before <= after && t in all && t !in before && t in after
    ensures |all - after| < |all - before|
  {
    SubsetSize(all - after, all - before - {t});
  }

  lemma PackageFacts(pool: Pool, t: Tx, inBlock: set<Tx>)
    requires WellFormed(pool) && Closed(pool, inBlock) && t in pool && t !in inBlock
    ensures var p := Missing(pool, t, inBlock);
      && p <= pool.Keys && p !! inBlock
      && (forall u :: u in p ==> pool[u].ancestors <= inBlock + p)
  {
    hide WellFormed, Closed;
    GraphFacts(pool, t);
    var p := Missing(pool, t, inBlock);
    var anc := pool[t].ancestors;
    assert inBlock + p == inBlock + anc + {t};
    forall u | u in p ensures pool[u].ancestors <= inBlock + p {
      assert u == t || u in anc;
    }
  }

  lemma EmptyBlock(pool: Pool)
    ensures Ordered(pool, []) && SetOf([]) == {} && Closed(pool, {})
    ensures Total({}, Weight(pool)) == 0 && Total({}, SigOps(pool)) == 0
  {
  }

  lemma NothingYet()
    ensures SetOf([]) == {}
  {
  }

  lemma SetOfPlus(a: seq<Tx>, b: seq<Tx>)
    ensures SetOf(a + b) == SetOf(a) + SetOf(b)
  {
  }

  lemma Prefix(sorted: seq<Tx>, i: nat)
    requires i < |sorted| && forall j, k :: 0 <= j < k < |sorted| ==> sorted[j] != sorted[k]
    ensures sorted[..i + 1] == sorted[..i] + [sorted[i]]
    ensures SetOf(sorted[..i + 1]) == SetOf(sorted[..i]) + {sorted[i]}
    ensures sorted[i] !in SetOf(sorted[..i]) && sorted[i] in SetOf(sorted)
  {
  }

  lemma ClosedAgain(pool: Pool, inBlock: set<Tx>, sorted: seq<Tx>)
    requires Closed(pool, inBlock) && forall t :: t in sorted ==> t in pool
    requires forall t :: t in sorted ==> pool[t].ancestors <= inBlock + SetOf(sorted)
    ensures Closed(pool, inBlock + SetOf(sorted))
  {
  }
}
