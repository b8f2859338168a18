/**
What the cuckoo cache keeps (src/cuckoocache.h): a map from the elements that may not be collected to whether they are
of the living epoch. Inserts, erasures and ageing do to it what they would do to a plain map, as long as every insert
finds room, so an element is found until it is erased or has aged twice.
*/
module CuckooKept {
  import opened Cuckoo

  /** A slot that may not be collected holds the element, with this epoch flag. */
  ghost predicate Keeps(c: Cache, x: Element, young: bool)
    requires Shaped(c)
  {
    exists i :: 0 <= i < |c.table| && c.table[i] == x && !c.collect[i] && c.epoch[i] == young
  }

  /** Nothing was stored where there is no element. */
  ghost predicate Solid(c: Cache)
    requires Shaped(c)
  {
    forall i :: 0 <= i < |c.table| && !c.collect[i] ==> c.table[i] != Default
  }

  ghost predicate Sound(H: Hashes, c: Cache)
    requires Shaped(c)
  {
    Placed(H, c.table) && Solid(c)
  }

  lemma KeepsOnce(H: Hashes, c: Cache, i: nat, young: bool)
    requires Shaped(c) && Sound(H, c) && i < |c.table| && c.table[i] != Default
    ensures Keeps(c, c.table[i], young) <==> !c.collect[i] && c.epoch[i] == young
  {
    hide Locs;
  }

  // ---------------------------------------------------------------- one insert

  function Wrote(c: Cache, loc: nat, e: Element, collect: bool, young: bool): Cache
    requires Shaped(c) && loc < |c.table|
  {
    c.(table := c.table[loc := e], collect := c.collect[loc := collect], epoch := c.epoch[loc := young])
  }

  /** Writing into one slot: the new element is kept as said, and what was there is not kept any more. */
  lemma KeepsWritten(H: Hashes, c: Cache, loc: nat, e: Element, collect: bool, young: bool, x: Element, y: bool)
    requires Shaped(c) && Sound(H, c) && loc < |c.table| && e != Default && x != Default
    requires e in c.table ==> c.table[loc] == e
    ensures var r := Wrote(c, loc, e, collect, young);
      Shaped(r) && (Keeps(r, x, y) <==>
        if x == e then !collect && y == young else x != c.table[loc] && Keeps(c, x, y))
  {
    hide Locs;
    var r := Wrote(c, loc, e, collect, young);
    if i :| 0 <= i < |c.table| && r.table[i] == x && !r.collect[i] && r.epoch[i] == y {
      if i != loc { assert c.table[i] == x && !c.collect[i] && c.epoch[i] == y; }
    }
    if x == e {
      assert r.table[loc] == e && r.collect[loc] == collect && r.epoch[loc] == young;
    } else if i :| 0 <= i < |c.table| && c.table[i] == x && !c.collect[i] && c.epoch[i] == y {
      if i != loc { assert r.table[i] == x && !r.collect[i] && r.epoch[i] == y; }
    }
  }

  lemma SwapSound(H: Hashes, c: Cache, e: Element, loc: nat, young: bool)
    requires Shaped(c) && Sound(H, c) && e != Default && e !in c.table
    requires loc in Locs(H, |c.table|, e) && loc < |c.table|
    ensures Sound(H, Swapped(c, e, loc, young)) && Sound(H, Put(c, loc, e, young))
    ensures c.table[loc] != Default ==> c.table[loc] !in c.table[loc := e]
  {
    hide Locs, Placed;
    StorePlaced(H, c.table, loc, e);
  }

  /** Displacement keeps the element in hand besides all that was kept, but for the lost one if it comes to no room. */
  lemma {:induction false} DisplaceKept(H: Hashes, c: Cache, e: Element, last: nat, lastEpoch: bool, depth: nat,
      x: Element, y: bool)
    requires Shaped(c) && Sound(H, c) && e != Default && e !in c.table && x != Default
    ensures var r := Displace(H, c, e, last, lastEpoch, depth);
      && Sound(H, r)
      && (Keeps(r, x, y) <==>
            && (MeetsFree(H, c, e, last, lastEpoch, depth) || x != Lost(H, c, e, last, lastEpoch, depth))
            && if x == e then y == lastEpoch else Keeps(c, x, y))
    decreases depth
  {
    hide Locs, Free, NextLoc, Displace, Target, Lost, MeetsFree, Keeps, Sound;
    DisplaceUnfold(H, c, e, last, lastEpoch, depth);
    LostUnfold(H, c, e, last, lastEpoch, depth);
    MeetsUnfold(H, c, e, last, lastEpoch, depth);
    if depth == 0 {
      KeptIsHeld(H, c, e, y);
    } else {
      var loc := Target(H, c, e, last);
      SwapSound(H, c, e, loc, lastEpoch);
      TargetCollect(H, c, e, last);
      if Free(c.collect, Locs(H, |c.table|, e)).Some? {
        KeepsWritten(H, c, loc, e, false, lastEpoch, x, y);
        Garbage(H, c, loc, y);
      } else {
        var next := c.table[loc];
        assert next != Default by { SolidAt(H, c, loc); }
        DisplaceKept(H, Swapped(c, e, loc, lastEpoch), next, loc, c.epoch[loc], depth - 1, x, y);
        KeepsWritten(H, c, loc, e, c.collect[loc], lastEpoch, x, y);
        assert c.collect[loc := c.collect[loc]] == c.collect;
        KeepsThere(H, c, loc, y);
      }
    }
  }

  lemma SolidAt(H: Hashes, c: Cache, loc: nat)
    requires Shaped(c) && Sound(H, c) && loc < |c.table| && !c.collect[loc]
    ensures c.table[loc] != Default
  {
  }

  lemma KeptIsHeld(H: Hashes, c: Cache, x: Element, y: bool)
    requires Shaped(c) && x !in c.table
    ensures !Keeps(c, x, y)
  {
  }

  lemma Garbage(H: Hashes, c: Cache, loc: nat, y: bool)
    requires Shaped(c) && Sound(H, c) && loc < |c.table| && c.collect[loc]
    ensures c.table[loc] != Default ==> !Keeps(c, c.table[loc], y)
  {
    if c.table[loc] != Default { KeepsOnce(H, c, loc, y); }
  }

  lemma KeepsThere(H: Hashes, c: Cache, loc: nat, y: bool)
    requires Shaped(c) && Sound(H, c) && loc < |c.table| && !c.collect[loc]
    ensures Keeps(c, c.table[loc], y) <==> y == c.epoch[loc]
  {
    KeepsOnce(H, c, loc, y);
  }

  lemma MeetsUnfold(H: Hashes, c: Cache, e: Element, last: nat, lastEpoch: bool, depth: nat)
    requires Shaped(c)
    ensures var loc := Target(H, c, e, last);
      MeetsFree(H, c, e, last, lastEpoch, depth) <==> (depth > 0 &&
        (Free(c.collect, Locs(H, |c.table|, e)).Some? ||
         MeetsFree(H, Swapped(c, e, loc, lastEpoch), c.table[loc], loc, c.epoch[loc], depth - 1)))
  {
  }

  /** Whether an insert leaves everything in place that it should. */
  predicate HasRoom(H: Hashes, c: Cache, e: Element)
    requires Shaped(c)
  {
    e in c.table || FindsRoom(H, c, e)
  }

  /**
  Insert, for every element but the default: if it is held or room is found, it is kept in the living epoch and so is
  everything else that was kept after the epoch check; otherwise exactly one element is missing from these.
  */
  lemma InsertKept(H: Hashes, c: Cache, e: Element, x: Element, y: bool)
    requires Shaped(c) && Sound(H, c) && e != Default && x != Default
    ensures Sound(H, Insert(H, c, e))
    ensures HasRoom(H, c, e) ==>
      (Keeps(Insert(H, c, e), x, y) <==> if x == e then y else Keeps(EpochCheck(c), x, y))
    ensures !HasRoom(H, c, e) ==>
      var lost := Lost(H, EpochCheck(c), e, Invalid, true, EpochCheck(c).depthLimit);
      (Keeps(Insert(H, c, e), x, y) <==> x != lost && if x == e then y else Keeps(EpochCheck(c), x, y))
  {
    hide Locs, Displace, EpochCheck, MeetsFree, Lost, Keeps, Sound, Holding;
    var c1 := EpochCheck(c);
    CheckSound(H, c);
    HeldExactly(H, c1, e);
    match Holding(c1.table, Locs(H, |c1.table|, e), e)
    case Some(loc) =>
      KeepsWritten(H, c1, loc, e, false, true, x, y);
      assert c1.table[loc := e] == c1.table;
      FlagsSound(H, c1, loc, false, true);
    case None =>
      DisplaceKept(H, c1, e, Invalid, true, c1.depthLimit, x, y);
  }

  lemma HeldExactly(H: Hashes, c: Cache, e: Element)
    requires Shaped(c) && Sound(H, c) && e != Default
    ensures Holding(c.table, Locs(H, |c.table|, e), e).Some? <==> e in c.table
  {
    hide Locs;
    HeldOnce(H, c, e);
  }

  lemma FlagsSound(H: Hashes, c: Cache, loc: nat, collect: bool, young: bool)
    requires Shaped(c) && Sound(H, c) && loc < |c.table| && (collect || c.table[loc] != Default)
    ensures Shaped(c.(collect := c.collect[loc := collect], epoch := c.epoch[loc := young]))
    ensures Sound(H, c.(collect := c.collect[loc := collect], epoch := c.epoch[loc := young]))
  {
    hide Placed;
  }

  // ---------------------------------------------------------------- epochs

  lemma CheckSound(H: Hashes, c: Cache)
    requires Shaped(c) && Sound(H, c)
    ensures Sound(H, EpochCheck(c))
  {
    hide Placed, LiveUpTo;
  }

  /** A new epoch begins when as many elements are alive as an epoch has; the old ones go, the young grow old. */
  lemma CheckKept(c: Cache, x: Element, y: bool)
    requires Shaped(c)
    ensures Keeps(EpochCheck(c), x, y) <==>
      if c.counter == 0 && Live(c) >= c.epochSize then !y && Keeps(c, x, true) else Keeps(c, x, y)
  {
    hide LiveUpTo;
    if c.counter == 0 && Live(c) >= c.epochSize {
      var r := Age(c);
      if i :| 0 <= i < |c.table| && c.table[i] == x && !c.collect[i] && c.epoch[i] {
        assert r.table[i] == x && !r.collect[i] && !r.epoch[i];
      }
      if i :| 0 <= i < |r.table| && r.table[i] == x && !r.collect[i] && r.epoch[i] == y {
        assert c.table[i] == x && !c.collect[i] && c.epoch[i];
      }
    }
  }

  // ---------------------------------------------------------------- the plain map

  /** The kept elements, with whether they are young, and the countdown to the next scan. */
  datatype Plain = Plain(kept: map<Element, bool>, counter: nat, epochSize: nat)

  function Young(kept: map<Element, bool>): set<Element> { set x | x in kept && kept[x] }

  function PlainCheck(p: Plain): Plain {
    if p.counter != 0 then p.(counter := p.counter - 1)
    else if |Young(p.kept)| >= p.epochSize then
      p.(kept := map x | x in p.kept && p.kept[x] :: false, counter := p.epochSize)
    else p.(counter := Max(1, Max(p.epochSize / 16, p.epochSize - |Young(p.kept)|)))
  }

  function PlainStep(p: Plain, op: Op): Plain {
    match op
    case Ins(e) => var p1 := PlainCheck(p); p1.(kept := p1.kept[e := true])
    case Look(e, erase) => if erase then p.(kept := p.kept - {e}) else p
  }

  function PlainRun(p: Plain, ops: seq<Op>): Plain
    decreases |ops|
  {
    if ops == [] then p else PlainRun(PlainStep(p, ops[0]), ops[1..])
  }

  ghost predicate Shows(c: Cache, kept: map<Element, bool>)
    requires Shaped(c)
  {
    && Default !in kept
    && forall x, y :: x != Default ==> (Keeps(c, x, y) <==> x in kept && kept[x] == y)
  }

  ghost predicate Agrees(H: Hashes, c: Cache, p: Plain)
    requires Shaped(c)
  {
    Sound(H, c) && Shows(c, p.kept) && c.counter == p.counter && c.epochSize == p.epochSize
  }

  /** The living elements of the first slots. */
  ghost function LiveSet(c: Cache, n: nat): set<Element>
    requires Shaped(c) && n <= |c.table|
  {
    set i | 0 <= i < n && !c.collect[i] && c.epoch[i] :: c.table[i]
  }

  lemma {:induction false} LiveCounts(H: Hashes, c: Cache, n: nat)
    requires Shaped(c) && Sound(H, c) && n <= |c.table|
    ensures LiveUpTo(c.collect, c.epoch, n) == |LiveSet(c, n)|
  {
    hide Locs;
    if n > 0 {
      LiveCounts(H, c, n - 1);
      if c.epoch[n - 1] && !c.collect[n - 1] {
        assert c.table[n - 1] !in LiveSet(c, n - 1);
        assert LiveSet(c, n) == LiveSet(c, n - 1) + {c.table[n - 1]};
      } else {
        assert LiveSet(c, n) == LiveSet(c, n - 1);
      }
    }
  }

  lemma LiveIsYoung(H: Hashes, c: Cache, kept: map<Element, bool>)
    requires Shaped(c) && Sound(H, c) && Shows(c, kept)
    ensures Live(c) == |Young(kept)|
  {
    hide Placed;
    LiveCounts(H, c, |c.table|);
    forall x ensures x in LiveSet(c, |c.table|) <==> x in Young(kept) {
      assert x in LiveSet(c, |c.table|) <==> Keeps(c, x, true);
    }
    assert LiveSet(c, |c.table|) == Young(kept);
  }

  lemma CheckAgrees(H: Hashes, c: Cache, p: Plain)
    requires Shaped(c) && Agrees(H, c, p)
    ensures Agrees(H, EpochCheck(c), PlainCheck(p))
  {
    hide Sound, Keeps, LiveUpTo;
    LiveIsYoung(H, c, p.kept);
    CheckSound(H, c);
    forall x, y | x != Default
      ensures Keeps(EpochCheck(c), x, y) <==> x in PlainCheck(p).kept && PlainCheck(p).kept[x] == y
    {
      CheckKept(c, x, y);
    }
  }

  lemma InsertAgrees(H: Hashes, c: Cache, p: Plain, e: Element)
    requires Shaped(c) && Agrees(H, c, p) && e != Default && HasRoom(H, c, e)
    ensures Agrees(H, Insert(H, c, e), PlainStep(p, Ins(e)))
  {
    hide Sound, Keeps, HasRoom, Insert, EpochCheck, PlainCheck;
    CheckAgrees(H, c, p);
    InsertCounter(H, c, e);
    InsertKept(H, c, e, e, true);
    var p1 := PlainStep(p, Ins(e));
    forall x, y | x != Default ensures Keeps(Insert(H, c, e), x, y) <==> x in p1.kept && p1.kept[x] == y {
      InsertKept(H, c, e, x, y);
    }
  }

  lemma InsertCounter(H: Hashes, c: Cache, e: Element)
    requires Shaped(c)
    ensures var r, c1 := Insert(H, c, e), EpochCheck(c);
      r.counter == c1.counter && r.epochSize == c1.epochSize
  {
    hide Locs, Displace, EpochCheck, Holding;
    DisplaceLive(H, EpochCheck(c), e, Invalid, true, EpochCheck(c).depthLimit);
  }

  lemma LookAgrees(H: Hashes, c: Cache, p: Plain, e: Element, erase: bool)
    requires Shaped(c) && Agrees(H, c, p)
    ensures Agrees(H, Contains(H, c, e, erase).0, PlainStep(p, Look(e, erase)))
    ensures e in p.kept ==> Contains(H, c, e, erase).1
  {
    hide Locs, Keeps, Sound, Holding;
    if e != Default { HeldExactly(H, c, e); }
    match Holding(c.table, Locs(H, |c.table|, e), e)
    case Some(loc) =>
      if erase {
        Erased(H, c, p, loc);
        assert c.epoch[loc := c.epoch[loc]] == c.epoch;
      }
    case None =>
      PlainIsHeld(H, c, p, e);
  }

  lemma PlainIsHeld(H: Hashes, c: Cache, p: Plain, e: Element)
    requires Shaped(c) && Agrees(H, c, p)
    ensures e in p.kept ==> e in c.table
    ensures e !in p.kept ==> p.kept - {e} == p.kept
  {
    hide Sound;
    if e in p.kept { assert Keeps(c, e, p.kept[e]); }
  }

  lemma Erased(H: Hashes, c: Cache, p: Plain, loc: nat)
    requires Shaped(c) && Agrees(H, c, p) && loc < |c.table|
    ensures var r := c.(collect := c.collect[loc := true], epoch := c.epoch[loc := c.epoch[loc]]);
      Shaped(r) && Sound(H, r) && Shows(r, p.kept - {c.table[loc]})
  {
    hide Sound, Keeps;
    var e := c.table[loc];
    FlagsSound(H, c, loc, true, c.epoch[loc]);
    var r, kept := c.(collect := c.collect[loc := true], epoch := c.epoch[loc := c.epoch[loc]]), p.kept - {e};
    forall x, y | x != Default ensures Keeps(r, x, y) <==> x in kept && kept[x] == y {
      if e != Default {
        KeepsWritten(H, c, loc, e, true, c.epoch[loc], x, y);
        assert c.table[loc := e] == c.table;
      } else {
        EraseNothing(H, c, loc, x, y);
      }
    }
  }

  lemma EraseNothing(H: Hashes, c: Cache, loc: nat, x: Element, y: bool)
    requires Shaped(c) && Sound(H, c) && loc < |c.table| && c.table[loc] == Default
    ensures c.(collect := c.collect[loc := true], epoch := c.epoch[loc := c.epoch[loc]]) == c
  {
    hide Placed;
    assert c.collect[loc];
    assert c.collect[loc := true] == c.collect && c.epoch[loc := c.epoch[loc]] == c.epoch;
  }

  // ---------------------------------------------------------------- whole runs

  /** Every insert of a run is of an element, and is held already or finds room. */
  predicate RoomAlong(H: Hashes, c: Cache, ops: seq<Op>)
    requires Shaped(c)
    decreases |ops|
  {
    ops != [] ==>
      && (ops[0].Ins? ==> ops[0].e != Default && HasRoom(H, c, ops[0].e))
      && RoomAlong(H, Step(H, c, ops[0]), ops[1..])
  }

  /** As long as every insert finds room, the cache keeps what the plain map keeps, and finds all of it. */
  lemma {:induction false} RunAgrees(H: Hashes, c: Cache, p: Plain, ops: seq<Op>)
    requires Shaped(c) && Agrees(H, c, p) && RoomAlong(H, c, ops)
    ensures Agrees(H, Run(H, c, ops), PlainRun(p, ops))
    ensures forall e :: e in PlainRun(p, ops).kept ==> Contains(H, Run(H, c, ops), e, false).1
    decreases |ops|
  {
    hide Insert, Contains, PlainStep, HasRoom, Agrees;
    if ops == [] {
      forall e | e in p.kept ensures Contains(H, c, e, false).1 { LookAgrees(H, c, p, e, false); }
    } else {
      match ops[0] {
        case Ins(e) => InsertAgrees(H, c, p, e);
        case Look(e, erase) => LookAgrees(H, c, p, e, erase);
      }
      RunAgrees(H, Step(H, c, ops[0]), PlainStep(p, ops[0]), ops[1..]);
    }
  }

  lemma SetupAgrees(H: Hashes, newSize: uint32, depthLimit: nat)
    ensures var c := Setup(newSize, depthLimit);
      Shaped(c) && Agrees(H, c, Plain(map[], c.epochSize, c.epochSize))
  {
    hide Locs;
    var c := Setup(newSize, depthLimit);
    forall x, y ensures !Keeps(c, x, y) {}
  }

  // ---------------------------------------------------------------- how long an element is found

  function Inserts(ops: seq<Op>): nat
    decreases |ops|
  {
    if ops == [] then 0 else (if ops[0].Ins? then 1 else 0) + Inserts(ops[1..])
  }

  /** After an element became old, a scan comes only when the countdown has run; `j` inserts are done since it came. */
  lemma {:induction false} KeptAwhile(p: Plain, ops: seq<Op>, e: Element, j: nat)
    requires e in p.kept && (p.kept[e] || p.counter + j >= p.epochSize + 1)
    requires Look(e, true) !in ops && j + Inserts(ops) <= p.epochSize + 1
    ensures e in PlainRun(p, ops).kept
    decreases |ops|
  {
    if ops != [] {
      hide Young;
      var p1 := PlainStep(p, ops[0]);
      assert ops[0] != Look(e, true);
      KeptAwhile(p1, ops[1..], e, if ops[0].Ins? then j + 1 else j);
    }
  }

  /**
  From any state the cache can be in: an element that was inserted is found during as many further inserts as an epoch
  has, and one more, unless it is erased, as long as every insert finds room.
  */
  lemma FoundForAnEpoch(H: Hashes, c: Cache, p: Plain, e: Element, ops: seq<Op>)
    requires Shaped(c) && Agrees(H, c, p) && RoomAlong(H, c, [Ins(e)] + ops)
    requires Look(e, true) !in ops && Inserts(ops) <= c.epochSize + 1
    ensures Contains(H, Run(H, Insert(H, c, e), ops), e, false).1
  {
    hide Insert, Contains, Agrees, HasRoom;
    var all := [Ins(e)] + ops;
    assert all[1..] == ops && Step(H, c, all[0]) == Insert(H, c, e);
    InsertAgrees(H, c, p, e);
    SizeAgrees(H, c, p);
    var p1 := PlainStep(p, Ins(e));
    KeptAwhile(p1, ops, e, 0);
    RunAgrees(H, Insert(H, c, e), p1, ops);
  }

  lemma SizeAgrees(H: Hashes, c: Cache, p: Plain)
    requires Shaped(c) && Agrees(H, c, p)
    ensures c.epochSize == p.epochSize == PlainCheck(p).epochSize
  {
  }
}
