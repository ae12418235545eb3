/** A bit vector stored in a byte buffer: bit `i` is bit `i % 8` of byte
    `i / 8`, as in rnabloom's `UnsafeBitBuffer`. The bit-level meaning of a
    byte sequence is given by pure functions; the class keeps its bytes in an
    array and its methods are specified through those functions. */
module BitBuffers {

  /** Number of bytes that hold `size` bits: `size / 8`, plus one for a
      partial last byte. */
  function NumBytes(size: nat): (n: nat)
    ensures size <= 8 * n < size + 8
  {
    size / 8 + (if size % 8 > 0 then 1 else 0)
  }

  /** The single-bit mask `1 << k` of a byte. */
  function Mask(k: nat): bv8
    requires k < 8
  {
    (1 as bv8) << k
  }

  /** Or-ing the mask of bit `k` into a byte sets bit `k` and keeps the others. */
  lemma OrMask(b: bv8, k: nat, j: nat)
    requires k < 8 && j < 8
    ensures ((b | Mask(k)) & Mask(j) != 0) == (j == k || b & Mask(j) != 0)
  {
  }

  /** Or-ing in a bit that is already set leaves the byte as it was. */
  lemma OrMaskSet(b: bv8, k: nat)
    requires k < 8 && b & Mask(k) != 0
    ensures b | Mask(k) == b
  {
  }

  /** Bit `i` of a byte sequence. */
  predicate BitAt(bs: seq<bv8>, i: nat)
    requires i < 8 * |bs|
  {
    ByteBit(bs[i / 8], i % 8)
  }

  /** Bit `k` of one byte. */
  predicate ByteBit(b: bv8, k: nat)
    requires k < 8
  {
    b & Mask(k) != 0
  }

  /** The byte sequence with bit `i` set: the mask is or-ed into byte `i / 8`. */
  function SetBit(bs: seq<bv8>, i: nat): (r: seq<bv8>)
    requires i < 8 * |bs|
    ensures |r| == |bs|
  {
    bs[i / 8 := bs[i / 8] | Mask(i % 8)]
  }

  /** Setting bit `i` makes bit `i` true and changes no other bit. */
  lemma BitAtSetBit(bs: seq<bv8>, i: nat, j: nat)
    requires i < 8 * |bs| && j < 8 * |bs|
    ensures BitAt(SetBit(bs, i), j) == (j == i || BitAt(bs, j))
  {
    if j / 8 == i / 8 {
      OrMask(bs[i / 8], i % 8, j % 8);
      assert j % 8 == i % 8 <==> j == i;
    } else {
      assert SetBit(bs, i)[j / 8] == bs[j / 8];
    }
  }

  /** Setting a bit that is already set changes nothing. */
  lemma SetBitWhenSet(bs: seq<bv8>, i: nat)
    requires i < 8 * |bs| && BitAt(bs, i)
    ensures SetBit(bs, i) == bs
  {
    var n := i / 8;
    OrMaskSet(bs[n], i % 8);
    assert bs[n := bs[n]] == bs;
  }

  /** Sets the bits `idx[0]`, `idx[1]`, ... in that order. */
  function SetBits(bs: seq<bv8>, idx: seq<nat>): (r: seq<bv8>)
    requires forall k :: 0 <= k < |idx| ==> idx[k] < 8 * |bs|
    ensures |r| == |bs|
  {
    if |idx| == 0 then bs else SetBit(SetBits(bs, idx[..|idx| - 1]), idx[|idx| - 1])
  }

  /** A prefix one longer is the prefix and the next element. */
  lemma TakeOneMore<T>(s: seq<T>, n: nat)
    requires n < |s|
    ensures s[..n + 1] == s[..n] + [s[n]]
  {
  }

  /** After setting the bits of `idx`, a bit is set iff it was set before or
      it is one of `idx`. */
  lemma {:induction false} BitAtSetBits(bs: seq<bv8>, idx: seq<nat>, j: nat)
    requires forall k :: 0 <= k < |idx| ==> idx[k] < 8 * |bs|
    requires j < 8 * |bs|
    ensures BitAt(SetBits(bs, idx), j) == (j in idx || BitAt(bs, j))
  {
    if |idx| > 0 {
      var init := idx[..|idx| - 1];
      BitAtSetBits(bs, init, j);
      BitAtSetBit(SetBits(bs, init), idx[|idx| - 1], j);
      assert idx == init + [idx[|idx| - 1]];
    }
  }

  /** Setting bits never clears one. */
  lemma SetBitsMonotone(bs: seq<bv8>, idx: seq<nat>, j: nat)
    requires forall k :: 0 <= k < |idx| ==> idx[k] < 8 * |bs|
    requires j < 8 * |bs| && BitAt(bs, j)
    ensures BitAt(SetBits(bs, idx), j)
  {
    BitAtSetBits(bs, idx, j);
  }

  /** The bits that a test-and-set over `idx` reads, one per index. */
  function Tests(bs: seq<bv8>, idx: seq<nat>): (t: seq<bool>)
    requires forall k :: 0 <= k < |idx| ==> idx[k] < 8 * |bs|
    ensures |t| == |idx|
    ensures forall k :: 0 <= k < |idx| ==> t[k] == BitAt(bs, idx[k])
  {
    seq(|idx|, k requires 0 <= k < |idx| => BitAt(bs, idx[k]))
  }

  /** The first `n` bits listed in `idx` are all set. */
  predicate AllSet(bs: seq<bv8>, idx: seq<nat>, n: nat)
    requires n <= |idx| && forall k :: 0 <= k < |idx| ==> idx[k] < 8 * |bs|
  {
    forall k :: 0 <= k < n ==> Tests(bs, idx)[k]
  }

  /** `AllSet` spelled out bit by bit. */
  lemma AllSetBits(bs: seq<bv8>, idx: seq<nat>, n: nat)
    requires n <= |idx| && forall k :: 0 <= k < |idx| ==> idx[k] < 8 * |bs|
    ensures AllSet(bs, idx, n) <==> forall k :: 0 <= k < n ==> BitAt(bs, idx[k])
  {
    var t := Tests(bs, idx);
    assert forall k :: 0 <= k < n ==> (t[k] <==> BitAt(bs, idx[k]));
  }

  /** Conjoining tests whose outcome depends only on the index: a repeated
      index can read as true without changing the conjunction, because its
      first occurrence already decided it. */
  lemma ConjunctionStep(t: seq<bool>, idx: seq<nat>, n: nat)
    requires n < |t| == |idx|
    requires forall j, k :: 0 <= j < |idx| && 0 <= k < |idx| && idx[j] == idx[k] ==> t[j] == t[k]
    ensures ((idx[n] in idx[..n] || t[n]) && (forall k :: 0 <= k < n ==> t[k])) == (forall k :: 0 <= k < n + 1 ==> t[k])
  {
    if idx[n] in idx[..n] && !t[n] {
      var j :| 0 <= j < n && idx[..n][j] == idx[n];
      assert !t[j];
    }
  }

  /** One step of a test-and-set over `idx`: once the first `n` bits of `idx`
      are set, reading bit `idx[n]` and conjoining it with the earlier reads
      gives whether the first `n + 1` bits were all set originally. */
  lemma TestAndSetStep(bs: seq<bv8>, idx: seq<nat>, n: nat)
    requires n < |idx| && forall k :: 0 <= k < |idx| ==> idx[k] < 8 * |bs|
    ensures (BitAt(SetBits(bs, idx[..n]), idx[n]) && AllSet(bs, idx, n)) == AllSet(bs, idx, n + 1)
  {
    BitAtSetBits(bs, idx[..n], idx[n]);
    ConjunctionStep(Tests(bs, idx), idx, n);
  }

  /** `UnsafeBitBuffer`: `size` bits over `NumBytes(size)` bytes. */
  class UnsafeBitBuffer {
    const size: nat
    const bytes: array<bv8>

    ghost predicate Valid()
      reads this
    {
      bytes.Length == NumBytes(size)
    }

    /** The byte count is `size / 8`, rounded up; every bit starts clear. */
    constructor (size: nat)
      ensures this.size == size && Valid() && fresh(bytes)
      ensures forall i :: 0 <= i < 8 * bytes.Length ==> !BitAt(bytes[..], i)
    {
      this.size := size;
      bytes := new bv8[NumBytes(size)](_ => 0);
    }

    /** `get(i)`: reads bit `i % 8` of byte `i / 8`; changes nothing. */
    function Get(i: nat): (b: bool)
      reads bytes
      requires i < 8 * bytes.Length
      ensures b == BitAt(bytes[..], i)
    {
      bytes[i / 8] & Mask(i % 8) != 0
    }

    /** `set(i)`: or-s the mask of bit `i` into its byte. */
    method Set(i: nat)
      requires i < 8 * bytes.Length
      modifies bytes
      ensures bytes[..] == SetBit(old(bytes[..]), i)
    {
      bytes[i / 8] := bytes[i / 8] | Mask(i % 8);
    }

    /** `getAndSet(i)`: returns the previous bit `i` and sets it, writing the
        byte only when the bit was clear. */
    method GetAndSet(i: nat) returns (isSet: bool)
      requires i < 8 * bytes.Length
      modifies bytes
      ensures isSet == BitAt(old(bytes[..]), i)
      ensures bytes[..] == SetBit(old(bytes[..]), i)
    {
      var byteIndex := i / 8;
      var mask := Mask(i % 8);
      isSet := bytes[byteIndex] & mask != 0;
      if !isSet {
        bytes[byteIndex] := bytes[byteIndex] | mask;
      } else {
        SetBitWhenSet(bytes[..], i);
      }
    }

    /** `size()`: the bit count given to the constructor. */
    function Size(): (s: nat)
      reads this
      requires Valid()
      ensures s == size && s <= 8 * bytes.Length
    {
      size
    }
  }
}
