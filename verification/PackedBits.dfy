/** Bits stored eight to a byte, least significant first. */
module PackedBits {
  function Mask(k: nat): bv8
    requires k < 8
  {
    if k == 0 then 1 else if k == 1 then 2 else if k == 2 then 4 else if k == 3 then 8
    else if k == 4 then 16 else if k == 5 then 32 else if k == 6 then 64 else 128
  }

  predicate Bit(b: bv8, k: nat)
    requires k < 8
  {
    b & Mask(k) != 0
  }

  function SetBit(b: bv8, k: nat, on: bool): bv8
    requires k < 8
  {
    b | (if on then Mask(k) else 0)
  }

  function ClearBit(b: bv8, k: nat): bv8
    requires k < 8
  {
    b & !Mask(k)
  }

  predicate BitAt(bytes: seq<bv8>, p: nat)
    requires p < 8 * |bytes|
  {
    Bit(bytes[p / 8], p % 8)
  }

  lemma SetBitIs(b: bv8, k: nat, on: bool, j: nat)
    requires k < 8 && j < 8
    ensures Bit(SetBit(b, k, on), j) <==> Bit(b, j) || (on && j == k)
  {
    var m, n := Mask(k), Mask(j);
    assert m == n <==> j == k;
    assert m & n != 0 <==> m == n;
    hide Mask;
    assert (b | m) & n == (b & n) | (m & n);
    assert b | 0 == b;
  }

  lemma ClearBitIs(b: bv8, k: nat, j: nat)
    requires k < 8 && j < 8
    ensures Bit(ClearBit(b, k), j) <==> Bit(b, j) && j != k
  {
  }

  lemma ConstantBits(j: nat)
    requires j < 8
    ensures !Bit(0, j) && Bit(0xFF, j)
  {
  }

  lemma SetAt(bytes: seq<bv8>, q: nat, on: bool, p: nat)
    requires q < 8 * |bytes| && p < 8 * |bytes|
    ensures BitAt(bytes[q / 8 := SetBit(bytes[q / 8], q % 8, on)], p) == (BitAt(bytes, p) || (on && p == q))
  {
    hide Bit, SetBit, ClearBit;
    SetBitIs(bytes[q / 8], q % 8, on, p % 8);
    assert p == q <==> p / 8 == q / 8 && p % 8 == q % 8;
  }

  lemma ClearAt(bytes: seq<bv8>, q: nat, p: nat)
    requires q < 8 * |bytes| && p < 8 * |bytes|
    ensures BitAt(bytes[q / 8 := ClearBit(bytes[q / 8], q % 8)], p) == (BitAt(bytes, p) && p != q)
  {
    hide Bit, SetBit, ClearBit;
    ClearBitIs(bytes[q / 8], q % 8, p % 8);
    assert p == q <==> p / 8 == q / 8 && p % 8 == q % 8;
  }

  /** All bits of `n` equal bytes. */
  lemma Filled(bytes: seq<bv8>, ones: bool)
    requires forall i :: 0 <= i < |bytes| ==> bytes[i] == if ones then 0xFF else 0
    ensures forall p :: 0 <= p < 8 * |bytes| ==> BitAt(bytes, p) == ones
  {
    hide Bit;
    forall p | 0 <= p < 8 * |bytes| ensures BitAt(bytes, p) == ones {
      ConstantBits(p % 8);
    }
  }
}
