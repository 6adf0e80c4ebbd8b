/** The marshalling buffers of the RPC library (mit_6.824/rpc/rpc.cc, lines 777-871 and 902-1012;
    mit_6.824/rpc/marshall.h). */
module Marshall {

  type byte = x: int | 0 <= x < 256

  const DEFAULT_RPC_SZ := 1024

  /** Five 4-byte fields and the 4 bytes that the channel fills in. */
  const RPC_HEADER_SZ := 24

  // ----- encodings

  const B1 := 0x100
  const B2 := 0x1_0000
  const B3 := 0x100_0000
  const B4 := 0x1_0000_0000

  /** Big-endian. */
  function EncInt(x: nat): (bs: seq<byte>)
    requires x < B4
    ensures |bs| == 4
  {
    [x / B3 % 256, x / B2 % 256, x / B1 % 256, x % 256]
  }

  function EncLong(x: nat): seq<byte>
    requires x < B4 * B4
  {
    EncInt(x / B4) + EncInt(x % B4)
  }

  function EncBool(b: bool): seq<byte> {
    if b then [1] else [0]
  }

  /** The length is cut to 32 bits. */
  function EncString(s: seq<byte>): seq<byte> {
    EncInt(|s| % B4) + s
  }

  // ----- decodings

  /** What an unmarshall object has left, and whether it is still ok. */
  datatype Reader = Reader(rest: seq<byte>, ok: bool)

  /** Past the end the byte is 0 and the reader is no longer ok. */
  function DecByte(r: Reader): (byte, Reader) {
    if r.rest == [] then (0, r.(ok := false)) else (r.rest[0], r.(rest := r.rest[1..]))
  }

  function DecInt(r: Reader): (x: (nat, Reader)) {
    var (a, r1) := DecByte(r);
    var (b, r2) := DecByte(r1);
    var (c, r3) := DecByte(r2);
    var (d, r4) := DecByte(r3);
    (a * B3 + b * B2 + c * B1 + d, r4)
  }

  function DecLong(r: Reader): (nat, Reader) {
    var (h, r1) := DecInt(r);
    var (l, r2) := DecInt(r1);
    (h * B4 + l, r2)
  }

  function DecBool(r: Reader): (bool, Reader) {
    var (b, r1) := DecByte(r);
    (b != 0, r1)
  }

  /** A string that is not there in full is left empty. */
  function DecString(r: Reader): (seq<byte>, Reader) {
    var (n, r1) := DecInt(r);
    if !r1.ok then ([], r1)
    else if n > |r1.rest| then ([], r1.(ok := false))
    else (r1.rest[..n], r1.(rest := r1.rest[n..]))
  }

  /** The program's test on a length: index and length are added in 32 bits before the sum is
      compared with the size of the buffer. */
  predicate LengthPasses(ind: nat, n: nat, size: nat) {
    (ind + n) % B4 <= size
  }

  lemma PresentPasses(ind: nat, n: nat, size: nat)
    requires ind + n <= size
    ensures LengthPasses(ind, n, size)
  {
    assert (ind + n) % B4 <= ind + n;
  }

  /** That is the exact test if and only if the sum stays below 2^32. */
  lemma LengthTestIsExactWhen(ind: nat, n: nat, size: nat)
    requires ind <= size < B4 / 2 && n < B4
    ensures (LengthPasses(ind, n, size) <==> ind + n <= size) <==> ind + n < B4
  {
    if ind + n >= B4 { assert (ind + n) % B4 == ind + n - B4; }
  }

  /** A string comes next whose length passes the test although it is not there in full. */
  ghost predicate Overread(r: Reader, size: nat)
    requires |r.rest| <= size
  {
    var (n, r1) := DecInt(r);
    r1.ok && n > |r1.rest| && LengthPasses(size - |r1.rest|, n, size)
  }

  lemma OverreadFails(r: Reader, size: nat)
    requires |r.rest| <= size && Overread(r, size)
    ensures !DecString(r).1.ok
  {}

  /** For instance the length 2^32 - 1, at the beginning of any buffer. */
  lemma AllOnesOverread(rest: seq<byte>)
    requires |rest| < B4 / 2
    ensures var bytes := [255, 255, 255, 255] + rest;
            Overread(Reader(bytes, true), |bytes|) && !DecString(Reader(bytes, true)).1.ok
  {
    hide DecInt;
    assert EncInt(B4 - 1) == [255, 255, 255, 255];
    IntBack(B4 - 1, rest);
  }

  // ----- round trips

  lemma IntParts(x: nat)
    requires x < B4
    ensures (x / B3 % 256) * B3 + (x / B2 % 256) * B2 + (x / B1 % 256) * B1 + x % 256 == x
  {}

  lemma ByteBack(b: byte, rest: seq<byte>)
    ensures DecByte(Reader([b] + rest, true)) == (b, Reader(rest, true))
  {
    assert ([b] + rest)[1..] == rest;
  }

  lemma IntBack(x: nat, rest: seq<byte>)
    requires x < B4
    ensures DecInt(Reader(EncInt(x) + rest, true)) == (x, Reader(rest, true))
  {
    hide DecByte;
    var bs := EncInt(x);
    Four(bs, rest);
    ByteBack(bs[0], [bs[1]] + ([bs[2]] + ([bs[3]] + rest)));
    ByteBack(bs[1], [bs[2]] + ([bs[3]] + rest));
    ByteBack(bs[2], [bs[3]] + rest);
    ByteBack(bs[3], rest);
    IntParts(x);
  }

  lemma Four(bs: seq<byte>, rest: seq<byte>)
    requires |bs| == 4
    ensures bs + rest == [bs[0]] + ([bs[1]] + ([bs[2]] + ([bs[3]] + rest)))
  {}

  lemma LongBack(x: nat, rest: seq<byte>)
    requires x < B4 * B4
    ensures DecLong(Reader(EncLong(x) + rest, true)) == (x, Reader(rest, true))
  {
    hide DecInt, EncInt;
    assert EncLong(x) + rest == EncInt(x / B4) + (EncInt(x % B4) + rest);
    IntBack(x / B4, EncInt(x % B4) + rest);
    IntBack(x % B4, rest);
  }

  lemma BoolBack(b: bool, rest: seq<byte>)
    ensures DecBool(Reader(EncBool(b) + rest, true)) == (b, Reader(rest, true))
  {
    hide DecByte;
    ByteBack(if b then 1 else 0, rest);
  }

  lemma StringBack(s: seq<byte>, rest: seq<byte>)
    requires |s| < B4
    ensures DecString(Reader(EncString(s) + rest, true)) == (s, Reader(rest, true))
  {
    hide DecInt, EncInt;
    assert EncString(s) + rest == EncInt(|s|) + (s + rest);
    IntBack(|s|, s + rest);
    assert (s + rest)[..|s|] == s && (s + rest)[|s|..] == rest;
  }

  // ----- the buffers

  lemma AppendFour(w: seq<byte>, a: byte, b: byte, c: byte, d: byte)
    ensures w + [a] + [b] + [c] + [d] == w + [a, b, c, d]
  {}

  lemma SliceJoin(s: seq<byte>, i: nat, j: nat, k: nat)
    requires i <= j <= k <= |s|
    ensures s[i..k] == s[i..j] + s[j..k]
  {}

  /** memcpy. */
  method CopyInto(p: seq<byte>, a: array<byte>, at: nat)
    requires at + |p| <= a.Length
    modifies a
    ensures a[..at] == old(a[..at]) && a[at..at + |p|] == p
  {
    for i := 0 to |p|
      invariant forall j :: 0 <= j < at ==> a[j] == old(a[j])
      invariant forall j :: at <= j < at + i ==> a[j] == p[j - at]
    {
      a[at + i] := p[i];
    }
  }

  class Writer {
    var buf: array<byte>
    var ind: nat

    ghost predicate Valid()
      reads this
    {
      RPC_HEADER_SZ <= ind <= buf.Length
    }

    /** What has been written, without the header. */
    ghost function Content(): seq<byte>
      reads this, buf
      requires Valid()
    {
      buf[RPC_HEADER_SZ..ind]
    }

    constructor ()
      ensures Valid() && Content() == [] && fresh(buf)
    {
      buf := new byte[DEFAULT_RPC_SZ];
      ind := RPC_HEADER_SZ;
    }

    /** realloc: a longer buffer with the same beginning. */
    method Grow(capa: nat)
      requires Valid() && capa >= buf.Length
      modifies this`buf
      ensures Valid() && fresh(buf) && buf.Length == capa && buf[..ind] == old(buf[..ind])
      ensures Content() == old(Content())
    {
      var bigger, from, n := new byte[capa], buf, ind;
      for i := 0 to n
        invariant buf == from && forall j :: 0 <= j < i ==> bigger[j] == from[j]
      {
        bigger[i] := from[i];
      }
      buf := bigger;
    }

    method RawByte(x: byte)
      requires Valid()
      modifies this, buf
      ensures Valid() && (buf == old(buf) || fresh(buf)) && Content() == old(Content()) + [x]
    {
      if ind >= buf.Length { Grow(buf.Length * 2); }
      buf[ind] := x;
      ind := ind + 1;
    }

    /** The capacity doubles, or grows by the length if that is more: it is always enough. */
    method RawBytes(p: seq<byte>)
      requires Valid()
      modifies this, buf
      ensures Valid() && (buf == old(buf) || fresh(buf)) && Content() == old(Content()) + p
    {
      var n := |p|;
      if ind + n > buf.Length { Grow(if buf.Length > n then 2 * buf.Length else buf.Length + n); }
      CopyInto(p, buf, ind);
      SliceJoin(buf[..], RPC_HEADER_SZ, ind, ind + n);
      ind := ind + n;
    }

    method PutInt(x: nat)
      requires Valid() && x < B4
      modifies this, buf
      ensures Valid() && (buf == old(buf) || fresh(buf)) && Content() == old(Content()) + EncInt(x)
    {
      ghost var was := Content();
      RawByte(x / B3 % 256);
      RawByte(x / B2 % 256);
      RawByte(x / B1 % 256);
      RawByte(x % 256);
      AppendFour(was, x / B3 % 256, x / B2 % 256, x / B1 % 256, x % 256);
    }

    method PutLong(x: nat)
      requires Valid() && x < B4 * B4
      modifies this, buf
      ensures Valid() && (buf == old(buf) || fresh(buf)) && Content() == old(Content()) + EncLong(x)
    {
      hide EncInt;
      PutInt(x / B4);
      PutInt(x % B4);
    }

    method PutBool(b: bool)
      requires Valid()
      modifies this, buf
      ensures Valid() && (buf == old(buf) || fresh(buf)) && Content() == old(Content()) + EncBool(b)
    {
      RawByte(if b then 1 else 0);
    }

    method PutString(s: seq<byte>)
      requires Valid()
      modifies this, buf
      ensures Valid() && (buf == old(buf) || fresh(buf)) && Content() == old(Content()) + EncString(s)
    {
      hide EncInt;
      PutInt(|s| % B4);
      RawBytes(s);
    }
  }

  class Scanner {
    const buf: seq<byte>
    var ind: nat
    var ok: bool
    var outside: bool    // a string was read past the end of the buffer

    ghost predicate Valid()
      reads this
    {
      ind <= |buf|
    }

    ghost function Left(): Reader
      reads this
      requires Valid()
    {
      Reader(buf[ind..], ok)
    }

    constructor (content: seq<byte>)
      ensures Valid() && Left() == Reader(content, true) && !outside && buf == content
    {
      buf, ind, ok, outside := content, 0, true, false;
    }

    predicate OkDone()
      reads this
      requires Valid()
      ensures OkDone() <==> Left() == Reader([], true)
    {
      ok && ind == |buf|
    }

    method RawByte() returns (b: byte)
      requires Valid()
      modifies this`ind, this`ok
      ensures Valid() && (b, Left()) == DecByte(old(Left()))
    {
      b := 0;
      if ind >= |buf| {
        ok := false;
      } else {
        b := buf[ind];
        assert buf[ind..][1..] == buf[ind + 1..];
        ind := ind + 1;
      }
    }

    method GetInt() returns (x: nat)
      requires Valid()
      modifies this`ind, this`ok
      ensures Valid() && (x, Left()) == DecInt(old(Left()))
    {
      hide DecByte;
      var a := RawByte();
      var b := RawByte();
      var c := RawByte();
      var d := RawByte();
      x := a * B3 + b * B2 + c * B1 + d;
    }

    method GetLong() returns (x: nat)
      requires Valid()
      modifies this`ind, this`ok
      ensures Valid() && (x, Left()) == DecLong(old(Left()))
    {
      hide DecInt;
      var h := GetInt();
      var l := GetInt();
      x := h * B4 + l;
    }

    method GetBool() returns (b: bool)
      requires Valid()
      modifies this`ind, this`ok
      ensures Valid() && (b, Left()) == DecBool(old(Left()))
    {
      hide DecByte;
      var x := RawByte();
      b := x != 0;
    }

    /** Reads a length and as many bytes. Where the test lets through a length that the buffer does
        not hold, the program reads outside of the buffer, and nothing is said of what it gets. */
    method GetString() returns (s: seq<byte>)
      requires Valid()
      modifies this
      ensures Valid() && outside == (old(outside) || Overread(old(Left()), |buf|))
      ensures !Overread(old(Left()), |buf|) ==> (s, Left()) == DecString(old(Left()))
    {
      hide DecInt;
      s := [];
      var n := GetInt();
      if ok {
        if !LengthPasses(ind, n, |buf|) {
          ok := false;
          if ind + n <= |buf| { PresentPasses(ind, n, |buf|); }
        } else if ind + n > |buf| {
          outside := true;
        } else {
          s := buf[ind..ind + n];
          assert buf[ind..][..n] == s && buf[ind..][n..] == buf[ind + n..];
          ind := ind + n;
        }
      }
    }
  }
}
