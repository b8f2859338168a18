/** The rolling bloom filter as the object of src/bloom.cpp, over an array of words. */
module RollingBloomFilter {
  import opened RollingBloom

  class CRollingBloomFilter {
    const hash: Hash
    const nEntriesPerGeneration: nat
    const nHashFuncs: nat
    const data: array<bv64>
    var nEntriesThisGeneration: nat
    var nGeneration: nat
    var nTweak: nat
    /** The keys inserted since the last reset. */
    ghost var log: seq<Key>

    ghost function F(): Filter
      reads this, data
    {
      Filter(nEntriesPerGeneration, nEntriesThisGeneration, nGeneration, nHashFuncs, nTweak, data[..])
    }

    ghost function Start(): Filter
      reads this, data
    {
      Filter(nEntriesPerGeneration, 0, 1, nHashFuncs, nTweak, Zeros(data.Length))
    }

    /** The object is where inserting the log since reset leads. */
    ghost predicate Valid()
      reads this, data
    {
      Shape(data[..]) && F() == Run(hash, Start(), log, |log|)
    }

    /** The number of hash functions and of words come from floating-point formulas and are arguments here. */
    constructor (hash: Hash, nElements: nat, nHashFuncs: nat, words: nat, tweak: nat)
      requires words > 0
      ensures Valid() && log == [] && nEntriesPerGeneration == (nElements + 1) / 2 && fresh(data)
      ensures this.nHashFuncs == nHashFuncs && this.hash == hash && data.Length == 2 * words && nTweak == tweak
    {
      this.hash := hash;
      nEntriesPerGeneration := (nElements + 1) / 2;
      this.nHashFuncs := nHashFuncs;
      data := new bv64[2 * words](_ => 0);
      nEntriesThisGeneration, nGeneration, nTweak, log := 0, 1, tweak, [];
      new;
      assert data[..] == Zeros(2 * words);
    }

    method Reset(tweak: nat)
      requires Valid()
      modifies this, data
      ensures Valid() && log == [] && nTweak == tweak
      ensures nHashFuncs > 0 ==> forall key :: !Contains(hash, F(), key)
    {
      nTweak := tweak;
      nEntriesThisGeneration := 0;
      nGeneration := 1;
      for k := 0 to data.Length
        invariant data[..k] == Zeros(k) && nTweak == tweak && nEntriesThisGeneration == 0 && nGeneration == 1
      {
        data[k] := 0;
        assert data[..k + 1] == data[..k] + [0];
      }
      log := [];
      assert data[..] == data[..data.Length];
      forall key | nHashFuncs > 0 ensures !Contains(hash, F(), key) { ZerosLabel(hash, F(), key); }
    }

    /** The wiping loop of insert. */
    method WipeGeneration()
      requires Shape(data[..])
      modifies data
      ensures data[..] == Wipe(old(data[..]), nGeneration, data.Length)
    {
      hide Wiped;
      ghost var before := data[..];
      var p := 0;
      while p < data.Length
        invariant p <= data.Length && p % 2 == 0 && data[..] == Wipe(before, nGeneration, p)
      {
        var (v1, v2) := Wiped(data[p], data[p + 1], nGeneration);
        data[p] := v1;
        data[p + 1] := v2;
        p := p + 2;
      }
    }

    method MarkCell(c: Cell)
      requires c.w + 1 < data.Length
      modifies data
      ensures data[..] == Mark(old(data[..]), c, nGeneration)
    {
      hide Written;
      data[c.w] := Written(data[c.w], c.b, nGeneration % 2 == 1);
      data[c.w + 1] := Written(data[c.w + 1], c.b, nGeneration / 2 == 1);
    }

    /** The marking loop of insert. */
    method MarkCells(key: Key)
      requires Shape(data[..])
      modifies data
      ensures F() == MarkKey(hash, old(F()), key, nHashFuncs)
    {
      hide Mark, CellOf;
      ghost var f := F();
      for n := 0 to nHashFuncs
        invariant F() == MarkKey(hash, f, key, n)
      {
        MarkCell(CellOf(hash(n, nTweak, key), data.Length));
      }
    }

    /** Afterwards at least the last nElements keys, and this one among them, are found. */
    method Insert(key: Key)
      requires Valid()
      modifies this, data
      ensures Valid() && log == old(log) + [key] && F() == RollingBloom.Insert(hash, old(F()), key)
    {
      hide Wipe, MarkKey;
      ghost var f := F();
      if nEntriesThisGeneration == nEntriesPerGeneration {
        nEntriesThisGeneration := 0;
        nGeneration := nGeneration + 1;
        if nGeneration == 4 { nGeneration := 1; }
        WipeGeneration();
      }
      nEntriesThisGeneration := nEntriesThisGeneration + 1;
      MarkCells(key);
      RunAppend(hash, Start(), log, key);
      log := log + [key];
    }

    /** Whether every cell of the key is set; true for every recent key. */
    method ContainsKey(key: Key) returns (found: bool)
      requires Valid()
      ensures found <==> Contains(hash, F(), key)
      ensures forall i ::
        0 <= i < |log| && |log| - i <= 2 * nEntriesPerGeneration + nEntriesThisGeneration && log[i] == key ==> found
    {
      hide Run;
      ghost var f := F();
      RecentFound(hash, Start(), log, key);
      for n := 0 to nHashFuncs
        invariant forall k: nat :: k < n ==> LabelAt(f.data, CellN(hash, f, key, k)) != 0
      {
        var c := CellOf(hash(n, nTweak, key), data.Length);
        LabelZero(data[c.w], data[c.w + 1], c.b);
        if !On(Or(data[c.w], data[c.w + 1]), c.b) {
          assert LabelAt(f.data, CellN(hash, f, key, n)) == 0;
          return false;
        }
      }
      return true;
    }
  }

  function Zeros(n: nat): (r: seq<bv64>)
    ensures |r| == n && forall k :: 0 <= k < n ==> r[k] == 0
  {
    if n == 0 then [] else Zeros(n - 1) + [0]
  }

  lemma ZerosLabel(h: Hash, f: Filter, key: Key)
    requires Shape(f.data) && f.nHashFuncs > 0 && forall k :: 0 <= k < |f.data| ==> f.data[k] == 0
    ensures !Contains(h, f, key)
  {
    hide On;
    var c := CellN(h, f, key, 0);
    ConstantOn(c.b);
    assert LabelAt(f.data, c) == 0;
  }

  /** The test on both words together sees whether the cell is set. */
  lemma LabelZero(w1: bv64, w2: bv64, b: bv6)
    ensures On(Or(w1, w2), b) <==> Label(w1, w2, b) != 0
  {
    hide On, Or;
    OrOn(w1, w2, b);
  }

  lemma {:induction false} RunPrefix(h: Hash, f: Filter, log: seq<Key>, key: Key, n: nat)
    requires Shape(f.data) && n <= |log|
    ensures Run(h, f, log + [key], n) == Run(h, f, log, n)
  {
    hide RollingBloom.Insert;
    if n > 0 { RunPrefix(h, f, log, key, n - 1); }
  }

  lemma RunAppend(h: Hash, f: Filter, log: seq<Key>, key: Key)
    requires Shape(f.data)
    ensures Run(h, f, log + [key], |log| + 1) == RollingBloom.Insert(h, Run(h, f, log, |log|), key)
  {
    hide RollingBloom.Insert;
    RunPrefix(h, f, log, key, |log|);
  }

  lemma RecentFound(h: Hash, f: Filter, log: seq<Key>, key: Key)
    requires Cleared(f)
    ensures var f' := Run(h, f, log, |log|);
      (exists i :: 0 <= i < |log| && |log| - i <= 2 * f.per + f'.cur && log[i] == key) ==> Contains(h, f', key)
  {
    hide Run, Contains;
    var f' := Run(h, f, log, |log|);
    if i :| 0 <= i < |log| && |log| - i <= 2 * f.per + f'.cur && log[i] == key {
      NoFalseNegatives(h, f, log, i);
    }
  }
}
