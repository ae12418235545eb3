/** rnabloom's `BloomFilter` over precomputed hash values: `numHash` bits,
    chosen by `getIndex` from a caller's `long` hash values, are set by `add`
    and tested by `lookup`. */
module BloomFilters {
  import opened BitBuffers

  /** Java's `long`. */
  newtype i64 = x: int | -0x8000_0000_0000_0000 <= x < 0x8000_0000_0000_0000

  /** `(hashVal >>> 1) % size`: the unsigned shift reads the 64 bits as an
      unsigned number and halves it, so the dividend is never negative. */
  function GetIndex(hashVal: i64, size: int): (r: int)
    requires size > 0
    ensures 0 <= r < size
  {
    var unsigned: int := if hashVal < 0 then hashVal as int + 0x1_0000_0000_0000_0000 else hashVal as int;
    (unsigned / 2) % size
  }

  /** The shift drops the lowest bit and moves the sign bit down to bit 62. */
  lemma GetIndexShift(hashVal: i64, size: int)
    requires size > 0
    ensures hashVal >= 0 ==> GetIndex(hashVal, size) == (hashVal as int / 2) % size
    ensures hashVal < 0 ==> GetIndex(hashVal, size) == (0x4000_0000_0000_0000 + (hashVal as int + 0x8000_0000_0000_0000) / 2) % size
  {
  }

  class BloomFilter {
    const bitArray: UnsafeBitBuffer
    const numHash: int
    const size: nat

    ghost predicate Valid()
      reads this, bitArray
    {
      size > 0 && bitArray.size == size && bitArray.Valid()
    }

    /** `BloomFilter(size, numHash, hashFunction)` with a fresh, clear buffer. */
    constructor (size: nat, numHash: int)
      requires size > 0
      ensures Valid() && this.size == size && this.numHash == numHash
      ensures fresh(bitArray) && fresh(bitArray.bytes)
      ensures forall i :: 0 <= i < 8 * bitArray.bytes.Length ==> !BitAt(bitArray.bytes[..], i)
    {
      this.size := size;
      this.numHash := numHash;
      bitArray := new UnsafeBitBuffer(size);
    }

    /** The number of hash values `add` and `lookup` consume. */
    function Count(): nat
      reads this
    {
      if numHash < 0 then 0 else numHash
    }

    /** The bit indices of the first `numHash` hash values. */
    function Indices(hashVals: seq<i64>): (idx: seq<nat>)
      reads this, bitArray
      requires Valid() && |hashVals| >= numHash
      ensures |idx| == Count()
      ensures forall k :: 0 <= k < |idx| ==> idx[k] < size <= 8 * bitArray.bytes.Length
    {
      var n := Count();
      seq(n, k requires 0 <= k < n => GetIndex(hashVals[k], size) as nat)
    }

    /** `lookup(hashVals)` as a property of the bits: the bit of each of the
        first `numHash` hash values is set. */
    ghost predicate Contains(bits: seq<bv8>, hashVals: seq<i64>)
      reads this, bitArray
      requires Valid() && |hashVals| >= numHash && |bits| == bitArray.bytes.Length
    {
      forall k :: 0 <= k < numHash ==> BitAt(bits, GetIndex(hashVals[k], size))
    }

    /** `add(hashVals)`: sets the bit of each of the first `numHash` values. */
    method Add(hashVals: seq<i64>)
      requires Valid() && |hashVals| >= numHash
      modifies bitArray.bytes
      ensures bitArray.bytes[..] == SetBits(old(bitArray.bytes[..]), Indices(hashVals))
    {
      ghost var before := bitArray.bytes[..];
      var h := 0;
      while h < numHash
        invariant 0 <= h <= Count()
        invariant bitArray.bytes[..] == SetBits(before, Indices(hashVals)[..h])
      {
        bitArray.Set(GetIndex(hashVals[h], size));
        TakeOneMore(Indices(hashVals), h);
        h := h + 1;
      }
      assert Indices(hashVals)[..h] == Indices(hashVals);
    }

    /** `lookup(hashVals)`: stops at the first clear bit. Entries past
        `numHash` are not read. */
    method Lookup(hashVals: seq<i64>) returns (found: bool)
      requires Valid() && |hashVals| >= numHash
      ensures found <==> Contains(bitArray.bytes[..], hashVals)
    {
      var h := 0;
      while h < numHash
        invariant 0 <= h <= Count()
        invariant forall k :: 0 <= k < h ==> bitArray.Get(GetIndex(hashVals[k], size))
      {
        if !bitArray.Get(GetIndex(hashVals[h], size)) {
          return false;
        }
        h := h + 1;
      }
      return true;
    }

    /** `lookupThenAdd(hashVals)` as written: it calls `getAndSet(h)` on the
        loop counter itself, so it tests and sets bits `0 .. numHash - 1`
        whatever `hashVals` holds. Each `getAndSet` runs before `&&`. */
    method LookupThenAdd(hashVals: seq<i64>) returns (found: bool)
      requires Valid() && numHash <= 8 * bitArray.bytes.Length
      modifies bitArray.bytes
      ensures found <==> forall h :: 0 <= h < numHash ==> BitAt(old(bitArray.bytes[..]), h)
      ensures bitArray.bytes[..] == SetBits(old(bitArray.bytes[..]), Counter(Count()))
    {
      ghost var before := bitArray.bytes[..];
      ghost var idx := Counter(Count());
      found := true;
      for h := 0 to Count()
        invariant found == AllSet(before, idx, h)
        invariant bitArray.bytes[..] == SetBits(before, idx[..h])
      {
        TestAndSetStep(before, idx, h);
        var isSet := bitArray.GetAndSet(h);
        found := isSet && found;
        TakeOneMore(idx, h);
      }
      assert idx[..Count()] == idx;
      AllSetCounter(before, Count());
    }

    /** `lookupThenAdd` with the hash values' indices, as `add` and `lookup`
        use them: true iff `lookup` was true before, and afterwards the
        filter holds what `add` would have set. */
    method LookupThenAddByIndex(hashVals: seq<i64>) returns (found: bool)
      requires Valid() && |hashVals| >= numHash
      modifies bitArray.bytes
      ensures found <==> Contains(old(bitArray.bytes[..]), hashVals)
      ensures bitArray.bytes[..] == SetBits(old(bitArray.bytes[..]), Indices(hashVals))
      ensures Contains(bitArray.bytes[..], hashVals)
    {
      ghost var before := bitArray.bytes[..];
      ghost var idx := Indices(hashVals);
      found := true;
      for h := 0 to Count()
        invariant found == AllSet(before, idx, h)
        invariant bitArray.bytes[..] == SetBits(before, idx[..h])
      {
        var i := GetIndex(hashVals[h], size);
        TestAndSetStep(before, idx, h);
        var isSet := bitArray.GetAndSet(i);
        found := isSet && found;
        TakeOneMore(idx, h);
      }
      assert idx[..Count()] == idx;
      ContainsIsAllSet(this, before, hashVals);
      AddThenContains(this, before, hashVals);
    }

    /** `getNumHash()`. */
    function GetNumHash(): (k: int)
      reads this
      ensures k == numHash
    {
      numHash
    }

    /** `equivalent(bf)`: same size, same number of hash functions and the same
        bits, so both filters answer every lookup alike. */
    predicate Equivalent(other: BloomFilter): (b: bool)
      reads this, other, bitArray, other.bitArray, bitArray.bytes, other.bitArray.bytes
      ensures b && Valid() && other.Valid() ==> (
        && numHash == other.numHash
        && forall hashVals: seq<i64> | |hashVals| >= numHash ::
             Contains(bitArray.bytes[..], hashVals) <==> other.Contains(other.bitArray.bytes[..], hashVals))
    {
      size == other.size && numHash == other.numHash && bitArray.bytes[..] == other.bitArray.bytes[..]
    }
  }

  /** The raw indices `0 .. n - 1` that `lookupThenAdd` uses. */
  function Counter(n: nat): (c: seq<nat>)
    ensures |c| == n && forall k :: 0 <= k < n ==> c[k] == k
  {
    seq(n, k requires 0 <= k < n => k)
  }

  /** `AllSet` on the raw indices: the bits `0 .. n - 1` are all set. */
  lemma AllSetCounter(bits: seq<bv8>, n: nat)
    requires n <= 8 * |bits|
    ensures AllSet(bits, Counter(n), n) <==> forall j :: 0 <= j < n ==> BitAt(bits, j)
  {
    var c := Counter(n);
    AllSetBits(bits, c, n);
    if forall j :: 0 <= j < n ==> BitAt(bits, j) {
      forall k | 0 <= k < n
        ensures BitAt(bits, c[k])
      {
        assert c[k] == k;
      }
    } else {
      var j :| 0 <= j < n && !BitAt(bits, j);
      assert c[j] == j;
    }
  }

  /** No false negatives: once a key's hash values are added, every bit that
      `lookup` tests is set, whatever was set before. */
  lemma AddThenContains(f: BloomFilter, bits: seq<bv8>, hashVals: seq<i64>)
    requires f.Valid() && |hashVals| >= f.numHash && |bits| == f.bitArray.bytes.Length
    ensures f.Contains(SetBits(bits, f.Indices(hashVals)), hashVals)
  {
    var idx := f.Indices(hashVals);
    forall k | 0 <= k < f.numHash
      ensures BitAt(SetBits(bits, idx), GetIndex(hashVals[k], f.size))
    {
      assert idx[k] == GetIndex(hashVals[k], f.size);
      BitAtSetBits(bits, idx, idx[k]);
    }
  }

  /** `Contains` is `AllSet` on the filter's indices. */
  lemma ContainsIsAllSet(f: BloomFilter, bits: seq<bv8>, hashVals: seq<i64>)
    requires f.Valid() && |hashVals| >= f.numHash && |bits| == f.bitArray.bytes.Length
    ensures f.Contains(bits, hashVals) == AllSet(bits, f.Indices(hashVals), f.Count())
  {
    var idx := f.Indices(hashVals);
    AllSetBits(bits, idx, f.Count());
    assert forall k :: 0 <= k < f.numHash ==> idx[k] == GetIndex(hashVals[k], f.size);
  }

  /** Adding never turns a true lookup false. */
  lemma AddKeepsContains(f: BloomFilter, bits: seq<bv8>, added: seq<i64>, hashVals: seq<i64>)
    requires f.Valid() && |added| >= f.numHash && |hashVals| >= f.numHash
    requires |bits| == f.bitArray.bytes.Length && f.Contains(bits, hashVals)
    ensures f.Contains(SetBits(bits, f.Indices(added)), hashVals)
  {
    forall k | 0 <= k < f.numHash
      ensures BitAt(SetBits(bits, f.Indices(added)), GetIndex(hashVals[k], f.size))
    {
      SetBitsMonotone(bits, f.Indices(added), GetIndex(hashVals[k], f.size));
    }
  }

  /** A filter that is not the same shape is never equivalent. */
  lemma EquivalentNeedsShape(f: BloomFilter, g: BloomFilter)
    requires f.size != g.size || f.numHash != g.numHash
    ensures !f.Equivalent(g)
  {
  }

  /** Add a key, then look it up: the answer is true. */
  method AddThenLookup(f: BloomFilter, hashVals: seq<i64>) returns (found: bool)
    requires f.Valid() && |hashVals| >= f.numHash
    modifies f.bitArray.bytes
    ensures found
  {
    f.Add(hashVals);
    AddThenContains(f, old(f.bitArray.bytes[..]), hashVals);
    found := f.Lookup(hashVals);
  }

  /** `lookupThenAdd` as written misses the key's bits: with 16 bits, one hash
      function and the hash value 10, `getIndex` picks bit 5, but the method
      sets bit 0, so a `lookup` of the same value right after is still false. */
  lemma LookupThenAddMissesKey()
    ensures GetIndex(10, 16) == 5
    ensures !BitAt(SetBits([0, 0], Counter(1)), 5)
    ensures BitAt(SetBits([0, 0], [GetIndex(10, 16) as nat]), 5)
  {
    assert Counter(1) == [0];
    BitAtSetBits([0, 0], [0], 5);
    BitAtSetBits([0, 0], [5], 5);
  }
}
