/** core_md5 and the string codecs of all.js against RFC 1321. */
module Md5Strings {
  import opened Basics
  import opened JsWord
  import opened Rfc1321
  import opened Md5

  /** A JavaScript array write: an index past the end leaves holes, which act as 0. */
  function Put(x: seq<int>, i: nat, v: int): seq<int> {
    if i < |x| then x[i := v] else x + seq(i - |x|, k => 0) + [v]
  }

  lemma PutAt(x: seq<int>, i: nat, v: int, j: nat)
    ensures At(Put(x, i, v), j) == if i == j then v else At(x, j)
  {
  }

  /** The array after the two writes with which core_md5 starts. */
  function Padded(x: seq<int>, len: nat): seq<int>
    requires len < 0x8000_0000
  {
    var y := Put(x, len / 32, Or(At(x, len / 32), Shl(128, len % 32)));
    Put(y, (len + 64) / 512 * 16 + 14, len)
  }

  /** The registers after the blocks that start at words 0, 16, .. below 16 * b. */
  function Chain(x: seq<int>, b: nat): Quad {
    if b == 0 then INITIAL else Compress(Chain(x, b - 1), BlockAt(x, 16 * (b - 1)))
  }

  method CoreMd5(x0: seq<int>, len: nat) returns (digest: seq<int>)
    requires len < 0x8000_0000
    ensures |digest| == 4
    ensures Pattern4(digest[0], digest[1], digest[2], digest[3])
        == Chain(Padded(x0, len), (|Padded(x0, len)| + 15) / 16)
  {
    hide *;
    Indices(len);
    PaddedIs(x0, len);
    var x := Put(x0, Sar(len, 5), Or(At(x0, Sar(len, 5)), Shl(128, len % 32)));
    x := Put(x, Shl(Shr(len + 64, 9), 4) + 14, len);
    InitialPattern(x);
    var a := 1732584193;
    var b := -271733879;
    var c := -1732584194;
    var d := 271733878;
    var i := 0;
    while i < |x|
      invariant 0 <= i < |x| + 16 && i % 16 == 0
      invariant Pattern4(a, b, c, d) == Chain(x, i / 16)
    {
      var olda, oldb, oldc, oldd := a, b, c, d;
      ghost var q := Pattern4(a, b, c, d);
      StartBlock(q, x, i);
      a, b, c, d := Round1(q, x, i, a, b, c, d);
      a, b, c, d := Round2(q, x, i, a, b, c, d);
      a, b, c, d := Round3(q, x, i, a, b, c, d);
      a, b, c, d := Round4(q, x, i, a, b, c, d);
      EndBlock(q, x, i, olda, oldb, oldc, oldd, a, b, c, d);
      a := SafeAdd(a, olda);
      b := SafeAdd(b, oldb);
      c := SafeAdd(c, oldc);
      d := SafeAdd(d, oldd);
      i := i + 16;
    }
    digest := [a, b, c, d];
  }

  lemma PaddedIs(x: seq<int>, len: nat)
    requires len < 0x8000_0000
    ensures Padded(x, len)
         == Put(Put(x, len / 32, Or(At(x, len / 32), Shl(128, len % 32))), (len + 64) / 512 * 16 + 14, len)
  {
  }

  lemma Indices(len: nat)
    requires len < 0x8000_0000
    ensures Sar(len, 5) == len / 32
    ensures Shl(Shr(len + 64, 9), 4) == (len + 64) / 512 * 16
  {
    assert Pow2(5 % 32) == 32 && Pow2(9 % 32) == 512 && Pow2(4 % 32) == 16;
    var s := (len + 64) / 512;
    assert Shr(len + 64, 9) == s;
    assert Shl(s, 4) == ToInt32(s * 16);
  }

  lemma InitialPattern(x: seq<int>)
    ensures Pattern4(1732584193, -271733879, -1732584194, 271733878) == Chain(x, 0)
  {
  }

  lemma StartBlock(q: Quad, x: seq<int>, i: nat)
    ensures Steps(q, BlockAt(x, i), 0) == q
  {
  }

  lemma EndBlock(q: Quad, x: seq<int>, i: nat, olda: int, oldb: int, oldc: int, oldd: int, a: int, b: int,
        c: int, d: int)
    requires i % 16 == 0 && q == Chain(x, i / 16) == Pattern4(olda, oldb, oldc, oldd)
    requires Steps(q, BlockAt(x, i), 64) == Pattern4(a, b, c, d)
    ensures Pattern4(SafeAdd(a, olda), SafeAdd(b, oldb), SafeAdd(c, oldc), SafeAdd(d, oldd)) == Chain(x, (i + 16) / 16)
  {
    hide SafeAdd, BlockAt, Steps, ToUint32, INITIAL, Chain;
    SumRegister(a, olda);
    SumRegister(b, oldb);
    SumRegister(c, oldc);
    SumRegister(d, oldd);
    ChainUnfold(x, i);
  }

  lemma ChainUnfold(x: seq<int>, i: nat)
    requires i % 16 == 0
    ensures Chain(x, (i + 16) / 16) == Compress(Chain(x, i / 16), BlockAt(x, i))
  {
    hide Compress, BlockAt, INITIAL;
    var b := i / 16;
    assert 16 * b == i && (i + 16) / 16 == b + 1 && b + 1 - 1 == b;
  }

  lemma SumRegister(x: int, y: int)
    ensures ToUint32(SafeAdd(x, y)) == (ToUint32(x) + ToUint32(y)) % 0x1_0000_0000
  {
    SafeAddIs(x, y);
    hide SafeAdd;
  }

  // ---- A word array holds a byte string, four bytes to a word.

  ghost predicate SameWords(x: seq<int>, m: seq<Byte>) {
    forall w: nat :: ToUint32(At(x, w)) == WordOf(m, w)
  }

  ghost predicate Holds(x: seq<int>, m: seq<Byte>) {
    |x| == (|m| + 3) / 4 && SameWords(x, m)
  }

  function Radix(j: nat): nat
    requires j < 4
  {
    if j == 0 then 1 else if j == 1 then 0x100 else if j == 2 then 0x1_0000 else 0x100_0000
  }

  lemma WordAppend(m: seq<Byte>, b: Byte, w: nat)
    ensures WordOf(m + [b], w) == WordOf(m, w) + (if w == |m| / 4 then b * Radix(|m| % 4) else 0)
    ensures w == |m| / 4 ==> WordOf(m, w) < Radix(|m| % 4)
    ensures w > |m| / 4 ==> WordOf(m, w) == 0
  {
  }

  /** `x[i >> 5] |= byte << (i % 32)` appends a byte. */
  function OrByte(x: seq<int>, n: nat, b: int): seq<int> {
    Put(x, n / 4, Or(At(x, n / 4), Shl(b, 8 * (n % 4))))
  }

  lemma AppendByte(x: seq<int>, m: seq<Byte>, b: Byte)
    requires SameWords(x, m)
    ensures SameWords(OrByte(x, |m|, b), m + [b])
  {
    hide ToUint32, Or, Shl, WordOf, At, Put;
    var n := |m|;
    var y := OrByte(x, n, b);
    forall w: nat
      ensures ToUint32(At(y, w)) == WordOf(m + [b], w)
    {
      WordAppend(m, b, w);
      PutAt(x, n / 4, Or(At(x, n / 4), Shl(b, 8 * (n % 4))), w);
      if w == n / 4 {
        OrInByte(At(x, w), b, n % 4);
      }
    }
  }

  lemma OrInByte(v: int, b: Byte, j: nat)
    requires j < 4 && ToUint32(v) < Radix(j)
    ensures ToUint32(Or(v, Shl(b, 8 * j))) == ToUint32(v) + b * Radix(j)
  {
    hide *;
    RadixIsPow2(j);
    ShlByte(b, j);
    BitPatterns(v, Shl(b, 8 * j));
    OrSum(b, ToUint32(v), 8 * j);
  }

  lemma RadixIsPow2(j: nat)
    requires j < 4
    ensures Radix(j) == Pow2(8 * j) && 256 * Radix(j) <= 0x1_0000_0000
  {
    Pow2Values();
    Pow2Add(8, 16);
    assert j == 0 || j == 1 || j == 2 || j == 3;
  }

  lemma RadixBound(b: Byte, j: nat)
    requires j < 4
    ensures b * Radix(j) < 0x1_0000_0000
  {
    MulMono(b, 255, Radix(j));
  }

  lemma ShlByte(b: Byte, j: nat)
    requires j < 4
    ensures ToUint32(Shl(b, 8 * j)) == b * Pow2(8 * j) < 0x1_0000_0000
  {
    hide ToInt32, ToUint32, Pow2, Radix;
    RadixIsPow2(j);
    Pow2Values();
    var p := Radix(j);
    RadixBound(b, j);
    WrapPattern(b * p);
    Pattern(b * p);
    Pattern(b);
  }

  lemma {:induction false} ChainIsBlocks(x: seq<int>, m: seq<Byte>, b: nat)
    requires SameWords(x, m)
    ensures Chain(x, b) == Blocks(m, b)
  {
    hide ToUint32, At, WordOf, Compress, BlockAt, BlockOf, INITIAL;
    if b > 0 {
      ChainIsBlocks(x, m, b - 1);
      assert BlockAt(x, 16 * (b - 1)) == BlockOf(m, b - 1);
    }
  }

  lemma PadWords(m: seq<Byte>, w: nat)
    requires 8 * |m| < 0x8000_0000
    ensures var last := (|m| + 8) / 64 * 16 + 14;
            WordOf(Pad(m), w) == (if w == last then 8 * |m| else WordOf(m + [0x80], w))
    ensures (|m| + 8) / 64 * 16 + 14 > |m| / 4
  {
    hide Pad, LittleEndian, ByteAt;
    var n := |m|;
    var last := (n + 8) / 64 * 16 + 14;
    var tail := LittleEndian(8 * n, 8);
    PadBytes(m, 4 * w);
    PadBytes(m, 4 * w + 1);
    PadBytes(m, 4 * w + 2);
    PadBytes(m, 4 * w + 3);
    assert WordOf(Pad(m), w) == if w < last then WordOf(m + [0x80], w) else WordOf(tail, w - last);
    if w >= last {
      LengthBytes(8 * n);
      WordAppend(m, 0x80, w);
    }
  }

  lemma ZerosFit(n: nat)
    ensures n + 1 + (55 - n) % 64 == 4 * ((n + 8) / 64 * 16 + 14)
  {
    var q, r := (n + 8) / 64, (n + 8) % 64;
    ModUnique(55 - n, 64, -q, 63 - r);
  }

  lemma PadBytes(m: seq<Byte>, j: nat)
    requires 8 * |m| < 0x8000_0000
    ensures var n, last := |m|, (|m| + 8) / 64 * 16 + 14;
      ByteAt(Pad(m), j) == if j < 4 * last then ByteAt(m + [0x80], j) else ByteAt(LittleEndian(8 * n, 8), j - 4 * last)
  {
    hide LittleEndian;
    ZerosFit(|m|);
    var z := m + [0x80] + Zeros(|m|);
    assert Pad(m) == z + LittleEndian(8 * |m|, 8);
  }

  /** A length below 2^32 fills the low-order word; the high-order word is 0. */
  lemma LengthBytes(v: nat)
    requires v < 0x1_0000_0000
    ensures WordOf(LittleEndian(v, 8), 0) == v
    ensures forall w: nat | w > 0 :: WordOf(LittleEndian(v, 8), w) == 0
  {
    var r1 := LittleEndian(v / 256, 7);
    var r2 := LittleEndian(v / 256 / 256, 6);
    var r3 := LittleEndian(v / 256 / 256 / 256, 5);
    var r4 := LittleEndian(v / 256 / 256 / 256 / 256, 4);
    assert LittleEndian(v, 8) == [v % 256] + r1 && r1 == [v / 256 % 256] + r2;
    assert r2 == [v / 256 / 256 % 256] + r3 && r3 == [v / 256 / 256 / 256 % 256] + r4;
    assert v / 256 / 256 / 256 / 256 == 0;
    assert r4 == [0, 0, 0, 0];
  }

  lemma PaddedHolds(x: seq<int>, m: seq<Byte>)
    requires Holds(x, m) && 8 * |m| < 0x8000_0000
    ensures SameWords(Padded(x, 8 * |m|), Pad(m))
    ensures (|Padded(x, 8 * |m|)| + 15) / 16 == |Pad(m)| / 64
    ensures |Padded(x, 8 * |m|)| % 16 == 15
  {
    hide ToUint32, Or, Shl, WordOf, At, Pad;
    var n := |m|;
    var y := OrByte(x, n, 0x80);
    var last := (n + 8) / 64 * 16 + 14;
    AppendByte(x, m, 0x80);
    PadLength(m);
    PadWords(m, 0);
    assert 8 * n % 32 == 8 * (n % 4) && 8 * n / 32 == n / 4 && (8 * n + 64) / 512 == (n + 8) / 64;
    assert |y| <= last;
    var z := Put(y, last, 8 * n);
    assert Padded(x, 8 * n) == z && |z| == last + 1;
    forall w: nat
      ensures ToUint32(At(z, w)) == WordOf(Pad(m), w)
    {
      PadWords(m, w);
      PutAt(y, last, 8 * n, w);
      Pattern(8 * n);
    }
  }
}
