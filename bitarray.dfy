/**
 * A packed array of booleans: bit `idx` lives in byte `idx / CHAR_BIT` at
 * offset `idx % CHAR_BIT`. The program keeps one such array per cell as the
 * row of its adjacency relation.
 */
module BitArray {

  /** Bits per byte (CHAR_BIT). */
  const CharBit: nat := 8

  /** The byte with only bit `offset` set: `1 << offset`. */
  function Mask(offset: nat): bv8
    requires offset < CharBit
  {
    (1 as bv8) << offset
  }

  /** Whether bit `idx` of the packed array is set (BitArray_test). */
  function Test(bytes: seq<bv8>, idx: nat): bool
    requires idx / CharBit < |bytes|
  {
    bytes[idx / CharBit] & Mask(idx % CharBit) != 0
  }

  /** The packed array with bit `idx` set (what BitArray_set leaves behind). */
  function Set(bytes: seq<bv8>, idx: nat): (r: seq<bv8>)
    requires idx / CharBit < |bytes|
    ensures |r| == |bytes| && Test(r, idx)
  {
    bytes[idx / CharBit := bytes[idx / CharBit] | Mask(idx % CharBit)]
  }

  /** The packed array with bit `idx` cleared (what BitArray_unset leaves behind). */
  function Unset(bytes: seq<bv8>, idx: nat): (r: seq<bv8>)
    requires idx / CharBit < |bytes|
    ensures |r| == |bytes| && !Test(r, idx)
  {
    bytes[idx / CharBit := bytes[idx / CharBit] & !Mask(idx % CharBit)]
  }

  /** Setting bit k of a byte changes no other bit and makes bit k set. */
  lemma OrMask(x: bv8, k: nat, l: nat)
    requires k < CharBit && l < CharBit
    ensures ((x | Mask(k)) & Mask(l) != 0) <==> (k == l || x & Mask(l) != 0)
  {
  }

  /** Clearing bit k of a byte changes no other bit and makes bit k clear. */
  lemma AndNotMask(x: bv8, k: nat, l: nat)
    requires k < CharBit && l < CharBit
    ensures ((x & !Mask(k)) & Mask(l) != 0) <==> (k != l && x & Mask(l) != 0)
  {
  }

  /** After `Set(bytes, i)`, bit i is set and every other bit is as before. */
  lemma TestSet(bytes: seq<bv8>, i: nat, j: nat)
    requires i / CharBit < |bytes| && j / CharBit < |bytes|
    ensures Test(Set(bytes, i), j) <==> (i == j || Test(bytes, j))
  {
    if i / CharBit == j / CharBit {
      OrMask(bytes[i / CharBit], i % CharBit, j % CharBit);
    }
  }

  /** After `Unset(bytes, i)`, bit i is clear and every other bit is as before. */
  lemma TestUnset(bytes: seq<bv8>, i: nat, j: nat)
    requires i / CharBit < |bytes| && j / CharBit < |bytes|
    ensures Test(Unset(bytes, i), j) <==> (i != j && Test(bytes, j))
  {
    if i / CharBit == j / CharBit {
      AndNotMask(bytes[i / CharBit], i % CharBit, j % CharBit);
    }
  }

  /** A byte is determined by its eight bits. */
  lemma ByteFromBits(x: bv8, y: bv8)
    requires forall k: nat :: k < CharBit ==> (x & Mask(k) != 0 <==> y & Mask(k) != 0)
    ensures x == y
  {
    assert x & Mask(0) != 0 <==> y & Mask(0) != 0;
    assert x & Mask(1) != 0 <==> y & Mask(1) != 0;
    assert x & Mask(2) != 0 <==> y & Mask(2) != 0;
    assert x & Mask(3) != 0 <==> y & Mask(3) != 0;
    assert x & Mask(4) != 0 <==> y & Mask(4) != 0;
    assert x & Mask(5) != 0 <==> y & Mask(5) != 0;
    assert x & Mask(6) != 0 <==> y & Mask(6) != 0;
    assert x & Mask(7) != 0 <==> y & Mask(7) != 0;
  }

  /** Two packed arrays of the same length that agree on every bit are equal. */
  lemma SameBits(s: seq<bv8>, t: seq<bv8>)
    requires |s| == |t|
    requires forall idx: nat :: idx < CharBit * |s| ==> (Test(s, idx) <==> Test(t, idx))
    ensures s == t
  {
    forall p | 0 <= p < |s|
      ensures s[p] == t[p]
    {
      forall k: nat | k < CharBit
        ensures s[p] & Mask(k) != 0 <==> t[p] & Mask(k) != 0
      {
        var idx: nat := CharBit * p + k;
        assert idx / CharBit == p && idx % CharBit == k;
        assert Test(s, idx) <==> Test(t, idx);
      }
      ByteFromBits(s[p], t[p]);
    }
  }

  /** BitArray_set: sets bit `idx` of the array in place. */
  method SetBit(arr: array<bv8>, idx: nat)
    requires idx / CharBit < arr.Length
    modifies arr
    ensures arr[..] == Set(old(arr[..]), idx)
  {
    var block := idx / CharBit;
    var offset := idx % CharBit;
    arr[block] := arr[block] | Mask(offset);
  }

  /** BitArray_unset: clears bit `idx` of the array in place. */
  method UnsetBit(arr: array<bv8>, idx: nat)
    requires idx / CharBit < arr.Length
    modifies arr
    ensures arr[..] == Unset(old(arr[..]), idx)
  {
    var block := idx / CharBit;
    var offset := idx % CharBit;
    arr[block] := arr[block] & !Mask(offset);
  }
}
