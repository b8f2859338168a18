/**
CPartialMerkleTree as an object: the recursive traversals append to or consume its vectors, and the
flag bits are packed eight to a byte for the wire.
*/
module PartialMerkleTree {
  import opened Numbers
  import opened PartialMerkle
  import opened PackedBits

  // ---------------------------------------------------------------- shifts

  lemma HalveQuotient(a: nat, p: nat, w: nat)
    requires p > 0 && w * p <= a < w * p + p
    ensures (a + p) / (2 * p) == (w + 1) / 2
  {
    var q := (w + 1) / 2;
    var d := 2 * p;
    var k := q * p;
    assert w * p == (if w % 2 == 0 then 2 * k else 2 * k - p) by {
      if w % 2 == 0 { TwiceTimes(q, p); } else { assert w + 1 == 2 * q; TwiceTimes(q, p); PlusOneTimes(w, p); }
    }
    assert q * d == 2 * k && (q + 1) * d == 2 * k + d by { TimesTwice(q, p); PlusOneTimes(q, d); }
    QuotientIs(a + p, q, d);
  }

  lemma TwiceTimes(q: nat, p: nat)
    ensures (2 * q) * p == 2 * (q * p)
  {
  }

  lemma TimesTwice(q: nat, p: nat)
    ensures q * (2 * p) == 2 * (q * p)
  {
  }

  lemma PlusOneTimes(q: nat, d: nat)
    ensures (q + 1) * d == q * d + d
  {
  }

  /** CalcTreeWidth's shift expression is the repeated halving. */
  lemma {:induction false} WidthFormula(n: nat, h: nat)
    ensures Width(n, h) == (n + Pow2(h) - 1) / Pow2(h)
  {
    if h > 0 {
      var p, w := Pow2(h - 1), Width(n, h - 1);
      WidthFormula(n, h - 1);
      DivBounds(n + p - 1, p);
      PlusOneTimes(w, p);
      HalveQuotient(n + p - 1, p, w);
    }
  }

  /** The leaves under a node are those from pos << h up to (pos + 1) << h, cut at n. */
  lemma {:induction false} LeafFormula(n: nat, h: nat, pos: nat)
    requires pos < Width(n, h)
    ensures Lo(h, pos) == pos * Pow2(h)
    ensures Hi(n, h, pos) == (if (pos + 1) * Pow2(h) < n then (pos + 1) * Pow2(h) else n)
    decreases h
  {
    if h > 0 {
      var p := Pow2(h - 1);
      TwiceTimes(pos, p);
      TimesTwice(pos, p);
      TwiceTimes(pos + 1, p);
      TimesTwice(pos + 1, p);
      LeafFormula(n, h - 1, 2 * pos);
      if Two(n, h, pos) {
        LeafFormula(n, h - 1, 2 * pos + 1);
      } else {
        LastLeaf(n, h - 1, 2 * pos);
        PlusOneTimes(2 * pos + 1, p);
      }
    }
  }

  // ---------------------------------------------------------------- bits in bytes

  method PackBits(bits: seq<bool>) returns (bytes: seq<bv8>)
    ensures |bytes| == (|bits| + 7) / 8
    ensures forall p :: 0 <= p < 8 * |bytes| ==> BitAt(bytes, p) == (p < |bits| && bits[p])
  {
    bytes := seq((|bits| + 7) / 8, _ => 0 as bv8);
    Filled(bytes, false);
    for q := 0 to |bits|
      invariant |bytes| == (|bits| + 7) / 8
      invariant forall p :: 0 <= p < 8 * |bytes| ==> BitAt(bytes, p) == (p < q && bits[p])
    {
      hide BitAt, SetBit;
      ghost var was := bytes;
      bytes := bytes[q / 8 := SetBit(bytes[q / 8], q % 8, bits[q])];
      forall p | 0 <= p < 8 * |bytes| ensures BitAt(bytes, p) == (p < q + 1 && bits[p]) {
        SetAt(was, q, bits[q], p);
      }
    }
  }

  method UnpackBits(bytes: seq<bv8>) returns (bits: seq<bool>)
    ensures |bits| == 8 * |bytes|
    ensures forall p :: 0 <= p < |bits| ==> bits[p] == BitAt(bytes, p)
  {
    bits := [];
    for p := 0 to 8 * |bytes|
      invariant |bits| == p
      invariant forall q :: 0 <= q < p ==> bits[q] == BitAt(bytes, q)
    {
      bits := bits + [BitAt(bytes, p)];
    }
  }

  /** What the receiver unpacks is the sender's bits, padded: the form RoundTrip is stated for. */
  method Transmit(bits: seq<bool>) returns (received: seq<bool>)
    ensures OnWire(bits, received)
  {
    var bytes := PackBits(bits);
    received := UnpackBits(bytes);
  }

  // ---------------------------------------------------------------- the object

  lemma RightChild(H: PairHash, h: nat, pos: nat, tx: seq<Hash>, m: seq<bool>)
    requires |m| == |tx| && pos < Width(|tx|, h) && h > 0
    ensures if 2 * pos + 1 < Width(|tx|, h - 1)
            then Right(H, h, pos, tx, m) == Build(H, h - 1, 2 * pos + 1, tx, m)
            else Right(H, h, pos, tx, m) == Encoded([], [])
  {
  }

  class CPartialMerkleTree {
    var nTransactions: nat
    var vBits: seq<bool>
    var vHash: seq<Hash>
    var fBad: bool
    const H: PairHash

    function Value(): Tree
      reads this
    {
      Tree(nTransactions, vBits, vHash, fBad)
    }

    constructor Empty(H: PairHash)
      ensures this.H == H && Value() == Tree(0, [], [], true)
    {
      this.H := H;
      nTransactions, vBits, vHash, fBad := 0, [], [], true;
    }

    constructor FromTxids(H: PairHash, vTxid: seq<Hash>, vMatch: seq<bool>)
      requires |vTxid| >= 1 && |vMatch| == |vTxid|
      ensures this.H == H && Value() == PartialMerkle.FromTxids(H, vTxid, vMatch)
    {
      this.H := H;
      nTransactions, vBits, vHash, fBad := |vTxid|, [], [], false;
      new;
      var nHeight := TreeHeight();
      TraverseAndBuild(nHeight, 0, vTxid, vMatch);
    }

    method CalcTreeWidth(height: nat) returns (width: nat)
      ensures width == Width(nTransactions, height)
    {
      WidthFormula(nTransactions, height);
      width := (nTransactions + Pow2(height) - 1) / Pow2(height);
    }

    method TreeHeight() returns (nHeight: nat)
      ensures nHeight == Height(nTransactions)
    {
      nHeight := 0;
      var width := CalcTreeWidth(nHeight);
      while width > 1
        invariant width == Width(nTransactions, nHeight)
        invariant HeightFrom(nTransactions, nHeight) == Height(nTransactions)
        decreases width
      {
        nHeight := nHeight + 1;
        width := CalcTreeWidth(nHeight);
      }
    }

    method ParentOfMatch(height: nat, pos: nat, vMatch: seq<bool>) returns (found: bool)
      requires |vMatch| == nTransactions && pos < Width(nTransactions, height)
      ensures Hi(nTransactions, height, pos) <= nTransactions
      ensures found == AnyMatch(vMatch, Lo(height, pos), Hi(nTransactions, height, pos))
    {
      LeavesNonempty(nTransactions, height, pos);
      LeafFormula(nTransactions, height, pos);
      found := false;
      var p := pos * Pow2(height);
      while p < (pos + 1) * Pow2(height) && p < nTransactions
        invariant Lo(height, pos) <= p <= Hi(nTransactions, height, pos)
        invariant found == AnyMatch(vMatch, Lo(height, pos), p)
        decreases nTransactions - p
      {
        found := found || vMatch[p];
        p := p + 1;
      }
    }

    method TraverseAndBuild(height: nat, pos: nat, vTxid: seq<Hash>, vMatch: seq<bool>)
      requires |vTxid| == |vMatch| == nTransactions && pos < Width(nTransactions, height)
      modifies this`vBits, this`vHash
      ensures vBits == old(vBits) + Build(H, height, pos, vTxid, vMatch).bits
      ensures vHash == old(vHash) + Build(H, height, pos, vTxid, vMatch).hashes
      decreases height
    {
      hide *;
      LeavesNonempty(nTransactions, height, pos);
      var fParentOfMatch := ParentOfMatch(height, pos, vMatch);
      vBits := vBits + [fParentOfMatch];
      if height == 0 || !fParentOfMatch {
        vHash := vHash + [CalcHash(H, height, pos, vTxid)];
        BuildStored(H, height, pos, vTxid, vMatch);
      } else {
        Children(nTransactions, height, pos);
        BuildFork(H, height, pos, vTxid, vMatch);
        TraverseAndBuild(height - 1, pos * 2, vTxid, vMatch);
        var width := CalcTreeWidth(height - 1);
        RightChild(H, height, pos, vTxid, vMatch);
        if pos * 2 + 1 < width {
          TraverseAndBuild(height - 1, pos * 2 + 1, vTxid, vMatch);
        }
        ghost var l, r := Build(H, height - 1, pos * 2, vTxid, vMatch), Right(H, height, pos, vTxid, vMatch);
        assert vBits == old(vBits) + [true] + l.bits + r.bits == old(vBits) + ([true] + (l.bits + r.bits));
        assert vHash == old(vHash) + l.hashes + r.hashes == old(vHash) + (l.hashes + r.hashes);
      }
    }

    method TraverseAndExtract(height: nat, pos: nat, nBitsUsed: nat, nHashUsed: nat, vMatch: seq<Hash>,
        vnIndex: seq<nat>)
      returns (hash: Hash, bitsUsed: nat, hashUsed: nat, matches: seq<Hash>, index: seq<nat>)
      modifies this`fBad
      ensures (hash, Cursor(bitsUsed, hashUsed, fBad, matches, index)) ==
        Extract(H, height, pos, nTransactions, vBits, vHash, Cursor(nBitsUsed, nHashUsed, old(fBad), vMatch, vnIndex))
      decreases height
    {
      hash, bitsUsed, hashUsed, matches, index := 0, nBitsUsed, nHashUsed, vMatch, vnIndex;
      if bitsUsed >= |vBits| {
        fBad := true;
        return;
      }
      var fParentOfMatch := vBits[bitsUsed];
      bitsUsed := bitsUsed + 1;
      if height == 0 || !fParentOfMatch {
        if hashUsed >= |vHash| {
          fBad := true;
          return;
        }
        hash := vHash[hashUsed];
        hashUsed := hashUsed + 1;
        if height == 0 && fParentOfMatch {
          matches, index := matches + [hash], index + [pos];
        }
      } else {
        var left;
        left, bitsUsed, hashUsed, matches, index :=
          TraverseAndExtract(height - 1, pos * 2, bitsUsed, hashUsed, matches, index);
        var right := left;
        var width := CalcTreeWidth(height - 1);
        if pos * 2 + 1 < width {
          right, bitsUsed, hashUsed, matches, index :=
            TraverseAndExtract(height - 1, pos * 2 + 1, bitsUsed, hashUsed, matches, index);
          if right == left { fBad := true; }
        }
        hash := H(left, right);
      }
    }

    method ExtractMatches(vnIndex: seq<nat>, maxTx: nat) returns (root: Hash, vMatch: seq<Hash>, index: seq<nat>)
      modifies this`fBad
      ensures (root, vMatch, index, fBad) == PartialMerkle.ExtractMatches(H, old(Value()), vnIndex, maxTx)
    {
      root, vMatch, index := 0, [], vnIndex;
      if nTransactions == 0 || nTransactions > maxTx || |vHash| > nTransactions || |vBits| < |vHash| { return; }
      var nHeight := TreeHeight();
      var hash, bitsUsed, hashUsed;
      hash, bitsUsed, hashUsed, vMatch, index := TraverseAndExtract(nHeight, 0, 0, 0, vMatch, index);
      if fBad || (bitsUsed + 7) / 8 != (|vBits| + 7) / 8 || hashUsed != |vHash| { return; }
      root := hash;
    }
  }
}
