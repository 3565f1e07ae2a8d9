/** RFC 2104, section 2, with MD5 as the hash and a block of 64 bytes. */
module Rfc2104 {
  import opened JsWord
  import opened Rfc1321

  function XorByte(x: Byte, y: Byte): Byte {
    Pow2Values();
    BitwiseBound(XorOp, x, y, 8);
    Bitwise(XorOp, x, y)
  }

  function XorEach(m: seq<Byte>, b: Byte): (r: seq<Byte>)
    ensures |r| == |m|
  {
    seq<Byte>(|m|, i requires 0 <= i < |m| => XorByte(m[i], b))
  }

  /** The key, hashed when it is longer than a block, filled up with zero bytes. */
  function KeyBlock(key: seq<Byte>): (r: seq<Byte>)
    ensures |r| == 64
  {
    var k := if |key| > 64 then Digest(key) else key;
    seq<Byte>(64, i requires 0 <= i < 64 => ByteAt(k, i))
  }

  function Hmac(key: seq<Byte>, m: seq<Byte>): (r: seq<Byte>)
    ensures |r| == 16
  {
    Digest(XorEach(KeyBlock(key), 0x5c) + Digest(XorEach(KeyBlock(key), 0x36) + m))
  }
}

/** The entry points of all.js: hex_md5, b64_md5, str_md5 and their HMAC forms. */
module Md5Digest {
  import opened JsWord
  import opened Rfc1321
  import opened Rfc2104
  import opened Md5
  import opened Md5Strings
  import JsText
  import opened WordCodecs
  import opened Base64

  lemma OutputWords(q: Quad)
    ensures WordOf(Output(q), 0) == q.a && WordOf(Output(q), 1) == q.b
    ensures WordOf(Output(q), 2) == q.c && WordOf(Output(q), 3) == q.d
  {
    FourLittle(q.a); FourLittle(q.b); FourLittle(q.c); FourLittle(q.d);
  }

  lemma FourLittle(v: Word)
    ensures LittleEndian(v, 4) == [v % 256, v / 256 % 256, v / 256 / 256 % 256, v / 256 / 256 / 256]
    ensures v ==
      v % 256 + 0x100 * (v / 256 % 256) + 0x1_0000 * (v / 256 / 256 % 256) + 0x100_0000 * (v / 256 / 256 / 256)
  {
    assert LittleEndian(v, 4) == [v % 256] + LittleEndian(v / 256, 3);
    assert LittleEndian(v / 256, 3) == [v / 256 % 256] + LittleEndian(v / 256 / 256, 2);
    assert LittleEndian(v / 256 / 256, 2) == [v / 256 / 256 % 256] + LittleEndian(v / 256 / 256 / 256, 1);
  }

  /** On an array that holds m, what core_md5 promises is an array that holds the digest of m. */
  lemma CoreMd5IsDigest(x: seq<int>, m: seq<Byte>, digest: seq<int>)
    requires Holds(x, m) && 8 * |m| < 0x8000_0000 && |digest| == 4
    requires Pattern4(digest[0], digest[1], digest[2], digest[3])
          == Chain(Padded(x, 8 * |m|), (|Padded(x, 8 * |m|)| + 15) / 16)
    ensures Holds(digest, Digest(m))
  {
    hide *;
    PaddedHolds(x, m);
    ChainIsBlocks(Padded(x, 8 * |m|), Pad(m), |Pad(m)| / 64);
    DigestHolds(digest, m);
  }

  lemma DigestHolds(digest: seq<int>, m: seq<Byte>)
    requires |digest| == 4
    requires Pattern4(digest[0], digest[1], digest[2], digest[3]) == Blocks(Pad(m), |Pad(m)| / 64)
    ensures Holds(digest, Digest(m))
  {
    hide Blocks, Pad, ToUint32, WordOf;
    var q := Blocks(Pad(m), |Pad(m)| / 64);
    OutputWords(q);
    forall w: nat
      ensures ToUint32(At(digest, w)) == WordOf(Output(q), w)
    {
      if w >= 4 {
        Beyond(Output(q), w);
        Pattern(0);
      }
    }
  }

  lemma Beyond(m: seq<Byte>, w: nat)
    requires 4 * w >= |m|
    ensures WordOf(m, w) == 0
  {
  }

  lemma DigestBytes(digest: seq<int>, m: seq<Byte>)
    requires Holds(digest, m) && |m| == 16
    ensures ArrayBytes(digest) == m
  {
    HoldsBytes(digest, m);
  }

  method HexMd5(s: JsText.Text) returns (r: string)
    requires 8 * |s| < 0x8000_0000
    ensures r == HexOf(Digest(CharBytes(s)))
  {
    hide Digest, Holds, ArrayBytes, HexOf, Pattern4, Chain, Padded;
    var bin := Str2binl(s);
    var digest := CoreMd5(bin, |s| * 8);
    CoreMd5IsDigest(bin, CharBytes(s), digest);
    DigestBytes(digest, Digest(CharBytes(s)));
    r := Binl2hex(digest);
  }

  // ---- core_hmac_md5.

  lemma XorWord(m: seq<Byte>, b: Byte, w: nat)
    requires |m| == 64 && w < 16
    ensures WordOf(XorEach(m, b), w)
         == WordOp(XorOp, WordOf(m, w), b + 0x100 * b + 0x1_0000 * b + 0x100_0000 * b)
  {
    XorFour(m[4 * w], m[4 * w + 1], m[4 * w + 2], m[4 * w + 3], b);
  }

  lemma XorFour(a0: Byte, a1: Byte, a2: Byte, a3: Byte, b: Byte)
    ensures WordOp(XorOp, a0 + 0x100 * a1 + 0x1_0000 * a2 + 0x100_0000 * a3,
                   b + 0x100 * b + 0x1_0000 * b + 0x100_0000 * b)
         == XorByte(a0, b) + 0x100 * XorByte(a1, b) + 0x1_0000 * XorByte(a2, b) + 0x100_0000 * XorByte(a3, b)
  {
    hide Bitwise;
    XorLow(a0, a1 + 0x100 * a2 + 0x1_0000 * a3, b, b + 0x100 * b + 0x1_0000 * b);
    XorLow(a1, a2 + 0x100 * a3, b, b + 0x100 * b);
    XorLow(a2, a3, b, b);
  }

  lemma XorLow(x: Byte, xs: nat, y: Byte, ys: nat)
    ensures Bitwise(XorOp, x + 0x100 * xs, y + 0x100 * ys) == XorByte(x, y) + 0x100 * Bitwise(XorOp, xs, ys)
  {
    hide Bitwise;
    Pow2Values();
    BitwiseSplit(XorOp, xs, x, ys, y, 8);
  }

  /** The key as core_hmac_md5 uses it: hashed when its word array is longer than 16. */
  ghost predicate HoldsKey(x: seq<int>, key: seq<Byte>) {
    |x| <= 16 && SameWords(x, if |key| > 64 then Digest(key) else key)
  }

  lemma PadEntry(x: seq<int>, key: seq<Byte>, b: Byte, c: int, i: nat)
    requires HoldsKey(x, key) && i < 16
    requires c == b + 0x100 * b + 0x1_0000 * b + 0x100_0000 * b
    ensures ToUint32(Xor(At(x, i), c)) == WordOf(XorEach(KeyBlock(key), b), i)
  {
    hide ToUint32, WordOp, Digest;
    BitPatterns(At(x, i), c);
    XorWord(KeyBlock(key), b, i);
    Pattern(c);
    KeyWord(key, i);
  }

  lemma KeyWord(key: seq<Byte>, i: nat)
    requires i < 16
    ensures WordOf(KeyBlock(key), i) == WordOf(if |key| > 64 then Digest(key) else key, i)
  {
    hide Digest;
  }

  lemma HoldsConcat(x: seq<int>, m: seq<Byte>, y: seq<int>, n: seq<Byte>)
    requires Holds(x, m) && Holds(y, n) && |m| % 4 == 0
    ensures Holds(x + y, m + n)
  {
    hide ToUint32;
    forall w: nat
      ensures ToUint32(At(x + y, w)) == WordOf(m + n, w)
    {
      if w < |x| {
        assert WordOf(m + n, w) == WordOf(m, w);
        assert At(x + y, w) == At(x, w);
      } else {
        assert WordOf(m + n, w) == WordOf(n, w - |x|);
        assert At(x + y, w) == At(y, w - |x|);
      }
    }
  }

  method CoreHmacMd5(key: JsText.Text, data: JsText.Text) returns (digest: seq<int>)
    requires 8 * |key| < 0x8000_0000 && 512 + 8 * |data| < 0x8000_0000
    ensures Holds(digest, Hmac(CharBytes(key), CharBytes(data)))
  {
    hide *;
    ghost var k, m := CharBytes(key), CharBytes(data);
    var bkey := Str2binl(key);
    HoldsLength(bkey, k);
    if |bkey| > 16 {
      ghost var bin := bkey;
      bkey := CoreMd5(bkey, |key| * 8);
      CoreMd5IsDigest(bin, k, bkey);
    }
    KeyHolds(bkey, k);
    var ipad := new int[16];
    var opad := new int[16];
    var i := 0;
    while i < 16
      invariant 0 <= i <= 16
      invariant forall w: nat | w < i :: ToUint32(ipad[w]) == WordOf(XorEach(KeyBlock(k), 0x36), w)
      invariant forall w: nat | w < i :: ToUint32(opad[w]) == WordOf(XorEach(KeyBlock(k), 0x5c), w)
    {
      PadEntry(bkey, k, 0x36, 909522486, i);
      PadEntry(bkey, k, 0x5c, 1549556828, i);
      ipad[i] := Xor(At(bkey, i), 909522486);
      opad[i] := Xor(At(bkey, i), 1549556828);
      i := i + 1;
    }
    ghost var inner, outer := XorEach(KeyBlock(k), 0x36), XorEach(KeyBlock(k), 0x5c);
    SixteenHold(ipad[..], inner);
    SixteenHold(opad[..], outer);
    var bin := Str2binl(data);
    HoldsConcat(ipad[..], inner, bin, m);
    var hash := CoreMd5(ipad[..] + bin, 512 + |data| * 8);
    CoreMd5IsDigest(ipad[..] + bin, inner + m, hash);
    HoldsConcat(opad[..], outer, hash, Digest(inner + m));
    digest := CoreMd5(opad[..] + hash, 512 + 128);
    CoreMd5IsDigest(opad[..] + hash, outer + Digest(inner + m), digest);
    HmacIs(k, m);
  }

  lemma HoldsLength(x: seq<int>, m: seq<Byte>)
    requires Holds(x, m)
    ensures |x| == (|m| + 3) / 4 && (|x| > 16 <==> |m| > 64)
  {
  }

  lemma KeyHolds(x: seq<int>, key: seq<Byte>)
    requires Holds(x, if |key| > 64 then Digest(key) else key)
    ensures HoldsKey(x, key)
  {
    hide Digest, SameWords;
  }

  lemma SixteenHold(x: seq<int>, m: seq<Byte>)
    requires |x| == 16 && |m| == 64
    requires forall w: nat | w < 16 :: ToUint32(x[w]) == WordOf(m, w)
    ensures Holds(x, m)
  {
    hide ToUint32, WordOf;
    forall w: nat
      ensures ToUint32(At(x, w)) == WordOf(m, w)
    {
      if w >= 16 {
        Beyond(m, w);
        Pattern(0);
      }
    }
  }

  lemma HmacIs(key: seq<Byte>, m: seq<Byte>)
    ensures Hmac(key, m) == Digest(XorEach(KeyBlock(key), 0x5c) + Digest(XorEach(KeyBlock(key), 0x36) + m))
  {
    hide Digest;
  }

  method HexHmacMd5(key: JsText.Text, data: JsText.Text) returns (r: string)
    requires 8 * |key| < 0x8000_0000 && 512 + 8 * |data| < 0x8000_0000
    ensures r == HexOf(Hmac(CharBytes(key), CharBytes(data)))
  {
    hide *;
    var digest := CoreHmacMd5(key, data);
    HoldsLength(digest, Hmac(CharBytes(key), CharBytes(data)));
    DigestBytes(digest, Hmac(CharBytes(key), CharBytes(data)));
    r := Binl2hex(digest);
  }

  method StrHmacMd5(key: JsText.Text, data: JsText.Text) returns (r: JsText.Text)
    requires 8 * |key| < 0x8000_0000 && 512 + 8 * |data| < 0x8000_0000
    ensures r == Hmac(CharBytes(key), CharBytes(data))
  {
    hide *;
    var digest := CoreHmacMd5(key, data);
    HoldsLength(digest, Hmac(CharBytes(key), CharBytes(data)));
    DigestBytes(digest, Hmac(CharBytes(key), CharBytes(data)));
    r := Binl2str(digest);
  }

  method B64HmacMd5(key: JsText.Text, data: JsText.Text) returns (r: string)
    requires 8 * |key| < 0x8000_0000 && 512 + 8 * |data| < 0x8000_0000
    ensures |r| == 22 && Decode64(r) == Hmac(CharBytes(key), CharBytes(data))
  {
    hide *;
    var digest := CoreHmacMd5(key, data);
    HoldsLength(digest, Hmac(CharBytes(key), CharBytes(data)));
    DigestBytes(digest, Hmac(CharBytes(key), CharBytes(data)));
    r := Binl2b64(digest);
    EncodeLength(ArrayBytes(digest));
    Base64RoundTrip(ArrayBytes(digest));
  }

  method StrMd5(s: JsText.Text) returns (r: JsText.Text)
    requires 8 * |s| < 0x8000_0000
    ensures r == Digest(CharBytes(s))
  {
    hide Digest, Holds, ArrayBytes, Pattern4, Chain, Padded;
    var bin := Str2binl(s);
    var digest := CoreMd5(bin, |s| * 8);
    CoreMd5IsDigest(bin, CharBytes(s), digest);
    DigestBytes(digest, Digest(CharBytes(s)));
    r := Binl2str(digest);
  }

  method B64Md5(s: JsText.Text) returns (r: string)
    requires 8 * |s| < 0x8000_0000
    ensures |r| == 22 && Decode64(r) == Digest(CharBytes(s))
  {
    hide Digest, Holds, ArrayBytes, Pattern4, Chain, Padded, Encode64, Decode64;
    var bin := Str2binl(s);
    var digest := CoreMd5(bin, |s| * 8);
    CoreMd5IsDigest(bin, CharBytes(s), digest);
    DigestBytes(digest, Digest(CharBytes(s)));
    r := Binl2b64(digest);
    EncodeLength(ArrayBytes(digest));
    Base64RoundTrip(ArrayBytes(digest));
  }
}
