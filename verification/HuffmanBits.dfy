/** Packing bits into bytes and back, one buffer at a time (huffman/huffman.cpp, BitVec and
    BitStream). Bit k of a byte has the weight of 2 to the k; a file is a sequence of bytes. */
module HuffmanBits {
  import HuffmanOptimality

  const BUF_SZ: nat := 4096
  const BUF_BITS: nat := 8 * BUF_SZ

  type Byte = b: int | 0 <= b < 256

  // ----- single bits of a byte

  function BitOf(b: nat, k: nat): bool {
    if k == 0 then b % 2 == 1 else BitOf(b / 2, k - 1)
  }

  /** The value of `b | 1 << k`. */
  function WithBit(b: nat, k: nat): nat {
    if k == 0 then b / 2 * 2 + 1 else 2 * WithBit(b / 2, k - 1) + b % 2
  }

  lemma {:induction false} WithBitSets(b: nat, k: nat, l: nat)
    ensures BitOf(WithBit(b, k), l) == (k == l || BitOf(b, l))
  {
    if k > 0 && l > 0 { WithBitSets(b / 2, k - 1, l - 1); }
  }

  lemma {:induction false} WithBitFits(b: nat, k: nat, n: nat)
    requires b < HuffmanOptimality.Pow2(n) && k < n
    ensures WithBit(b, k) < HuffmanOptimality.Pow2(n)
  {
    if k > 0 { WithBitFits(b / 2, k - 1, n - 1); }
  }

  lemma WithBitIsByte(b: Byte, k: nat)
    requires k < 8
    ensures WithBit(b, k) < 256
  {
    hide WithBit;
    assert HuffmanOptimality.Pow2(8) == 256 by {
      assert HuffmanOptimality.Pow2(2) == 4;
      assert HuffmanOptimality.Pow2(4) == 16;
      assert HuffmanOptimality.Pow2(6) == 64;
    }
    WithBitFits(b, k, 8);
  }

  lemma {:induction false} ZeroHasNoBit(k: nat)
    ensures !BitOf(0, k)
  {
    if k > 0 { ZeroHasNoBit(k - 1); }
  }

  // ----- bit sequences

  /** Bit `k` of a sequence of bytes. */
  ghost predicate BitAt(bytes: seq<Byte>, k: nat)
    requires k < 8 * |bytes|
  {
    BitOf(bytes[k / 8], k % 8)
  }

  /** The bits from position `at` on are `bits`. */
  ghost predicate Holds(bytes: seq<Byte>, at: nat, bits: seq<bool>) {
    at + |bits| <= 8 * |bytes| && forall k: nat :: k < |bits| ==> BitAt(bytes, at + k) == bits[k]
  }

  /** The bits, filled up to whole bytes. */
  ghost predicate Packs(bytes: seq<Byte>, bits: seq<bool>) {
    |bytes| == (|bits| + 7) / 8 && Holds(bytes, 0, bits)
  }

  lemma BitAtFront(a: seq<Byte>, b: seq<Byte>, k: nat)
    requires k < 8 * |a|
    ensures k < 8 * |a + b| && BitAt(a + b, k) == BitAt(a, k)
  {
    hide BitOf;
  }

  lemma BitAtBack(a: seq<Byte>, b: seq<Byte>, k: nat)
    requires 8 * |a| <= k < 8 * |a + b|
    ensures k - 8 * |a| < 8 * |b| && BitAt(a + b, k) == BitAt(b, k - 8 * |a|)
  {
    hide BitOf;
    assert (k - 8 * |a|) / 8 == k / 8 - |a| && (k - 8 * |a|) % 8 == k % 8;
  }

  lemma PacksAppend(a: seq<Byte>, x: seq<bool>, b: seq<Byte>, y: seq<bool>)
    requires Packs(a, x) && Packs(b, y) && |x| % 8 == 0
    ensures Packs(a + b, x + y)
  {
    hide BitAt;
    forall k: nat | k < |x + y| ensures BitAt(a + b, 0 + k) == (x + y)[k] {
      if k < |x| {
        assert BitAt(a, 0 + k) == x[k];
        BitAtFront(a, b, k);
      } else {
        assert BitAt(b, 0 + (k - |x|)) == y[k - |x|];
        BitAtBack(a, b, k);
      }
    }
  }

  /** A buffer of bits waiting to be written. */
  class BitVec {
    const vec: array<Byte>
    var bitIdx: nat
    ghost var bits: seq<bool>

    ghost predicate Valid()
      reads this, vec
    {
      && vec.Length == BUF_SZ && bitIdx == |bits| <= BUF_BITS
      && forall k: nat :: k < BUF_BITS ==> BitAt(vec[..], k) == (k < |bits| && bits[k])
    }

    constructor ()
      ensures Valid() && bits == [] && fresh(vec)
    {
      vec := new Byte[BUF_SZ](_ => 0);
      bitIdx, bits := 0, [];
      new;
      forall k: nat | k < BUF_BITS ensures !BitAt(vec[..], k) { ZeroHasNoBit(k % 8); }
    }

    predicate Full()
      reads this
    {
      bitIdx / 8 >= BUF_SZ
    }

    method Add(bit: bool)
      requires Valid() && !Full()
      modifies this, vec
      ensures Valid() && bits == old(bits) + [bit]
    {
      hide BitOf, WithBit;
      var i, b := bitIdx / 8, bitIdx % 8;
      ghost var v := vec[..];
      if bit {
        WithBitIsByte(vec[i], b);
        vec[i] := WithBit(vec[i], b);
      }
      ghost var n := bitIdx;
      bitIdx, bits := bitIdx + 1, bits + [bit];
      forall k: nat | k < BUF_BITS ensures BitAt(vec[..], k) == (k < |bits| && bits[k]) {
        assert BitAt(v, k) == (k < |old(bits)| && old(bits)[k]);
        if bit { WithBitSets(v[i], b, k % 8); }
      }
    }

    /** Writes the used bytes to the file and empties the buffer. */
    method Output(file: seq<Byte>) returns (file': seq<Byte>, n: nat)
      requires Valid()
      modifies this, vec
      ensures Valid() && bits == []
      ensures n == |old(bits)| && file <= file' && Packs(file'[|file|..], old(bits))
    {
      hide BitOf;
      var i, b := bitIdx / 8, bitIdx % 8;
      if b > 0 { i := i + 1; }
      ghost var bytes := vec[..i];
      file' := file + vec[..i];
      assert file'[|file|..] == bytes;
      forall k: nat | k < |bits| ensures BitAt(bytes, 0 + k) == bits[k] {
        assert BitAt(vec[..], k) == bits[k];
      }
      n := bitIdx;
      bitIdx, bits := 0, [];
      forall k | 0 <= k < vec.Length { vec[k] := 0; }
      forall k: nat | k < BUF_BITS ensures !BitAt(vec[..], k) { ZeroHasNoBit(k % 8); }
    }
  }

  lemma WholeBytes(nbits: nat, size: nat, n: nat)
    requires 0 < nbits <= 8 * size
    ensures var bytes := nbits / 8 + (if nbits % 8 > 0 then 1 else 0); 0 < bytes <= size
    ensures n * 8 / 8 == n && n * 8 % 8 == 0
  {}

  lemma HoldsLength(bytes: seq<Byte>, at: nat, bits: seq<bool>)
    requires Holds(bytes, at, bits)
    ensures at + |bits| <= 8 * |bytes|
  {}

  lemma HoldsBytes(bytes: seq<Byte>, at: nat, bits: seq<bool>, skip: nat)
    requires Holds(bytes, at, bits) && 8 * skip <= at
    ensures skip <= |bytes| && Holds(bytes[skip..], at - 8 * skip, bits)
  {
    hide BitOf;
    forall k: nat | k < |bits| ensures BitAt(bytes[skip..], at - 8 * skip + k) == bits[k] {
      assert BitAt(bytes, at + k) == bits[k];
      assert (at - 8 * skip + k) / 8 == (at + k) / 8 - skip && (at - 8 * skip + k) % 8 == (at + k) % 8;
    }
  }

  lemma HoldsTail(bytes: seq<Byte>, at: nat, bits: seq<bool>)
    requires Holds(bytes, at, bits) && bits != []
    ensures BitAt(bytes, at) == bits[0] && Holds(bytes, at + 1, bits[1..])
  {
    hide BitOf, BitAt;
    assert BitAt(bytes, at + 0) == bits[0];
    forall k: nat | k < |bits| - 1 ensures BitAt(bytes, at + 1 + k) == bits[1..][k] {
      assert BitAt(bytes, at + (k + 1)) == bits[k + 1];
    }
  }

  /** Reads a given number of bits from a file, refilling its buffer when it is used up. */
  class BitStream {
    var file: seq<Byte>             // what the file holds behind the read position
    var remainBits: int
    const buf: array<Byte>
    var currIdx: nat
    var endIdx: nat
    ghost var bits: seq<bool>       // what is still to be delivered

    ghost predicate Valid()
      reads this, buf
    {
      && buf.Length == BUF_SZ && endIdx % 8 == 0 && currIdx <= endIdx <= BUF_BITS
      && remainBits == |bits| && Holds(buf[..endIdx / 8] + file, currIdx, bits)
    }

    constructor (file: seq<Byte>, nbits: nat, ghost bits: seq<bool>)
      requires |bits| == nbits && Holds(file, 0, bits)
      ensures Valid() && this.bits == bits && fresh(buf)
    {
      this.file, remainBits, this.bits := file, nbits, bits;
      buf := new Byte[BUF_SZ](_ => 0);
      currIdx, endIdx := 0, 0;
      new;
      assert buf[..0] + file == file;
    }

    predicate Empty()
      requires Valid()
      reads this, buf
      ensures Empty() <==> bits == []
    {
      remainBits <= 0
    }

    method Get() returns (bit: bool)
      requires Valid() && bits != []
      modifies this, buf
      ensures Valid() && bit == old(bits)[0] && bits == old(bits)[1..]
    {
      hide BitOf, Holds;
      if currIdx == endIdx { Refill(); }
      var i, b := currIdx / 8, currIdx % 8;
      ghost var bytes := buf[..endIdx / 8] + file;
      HoldsTail(bytes, currIdx, bits);
      assert bytes[i] == buf[i];
      currIdx, remainBits, bits := currIdx + 1, remainBits - 1, bits[1..];
      bit := BitOf(buf[i], b);
    }

    /** Reads the next chunk: all that is left, or a full buffer. */
    method Refill()
      requires Valid() && bits != [] && currIdx == endIdx
      modifies this, buf
      ensures Valid() && bits == old(bits) && currIdx < endIdx
    {
      hide Holds;
      ghost var bytes := buf[..endIdx / 8] + file;
      HoldsBytes(bytes, currIdx, bits, endIdx / 8);
      assert bytes[endIdx / 8..] == file;
      HoldsLength(file, 0, bits);
      var bytesleft := remainBits / 8;
      if remainBits % 8 > 0 { bytesleft := bytesleft + 1; }
      var nbytes := if bytesleft < BUF_SZ then bytesleft else BUF_SZ;
      WholeBytes(remainBits, |file|, nbytes);
      ghost var was := file;
      forall k | 0 <= k < nbytes { buf[k] := file[k]; }
      file := file[nbytes..];
      currIdx, endIdx := 0, nbytes * 8;
      assert buf[..nbytes] + file == was;
    }
  }
}
