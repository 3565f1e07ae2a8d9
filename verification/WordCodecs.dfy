/** str2binl, binl2str, binl2hex and binl2b64 of all.js. */
module WordCodecs {
  import opened Basics
  import opened JsWord
  import opened Rfc1321
  import opened Md5
  import opened Md5Strings
  import JsText

  /** The bytes `charCode & 255` of a string. */
  function CharBytes(s: JsText.Text): (r: seq<Byte>)
    ensures |r| == |s|
  {
    seq<Byte>(|s|, i requires 0 <= i < |s| => s[i] % 256)
  }

  function WordByte(v: int, j: nat): Byte
    requires j < 4
  {
    ToUint32(v) / Radix(j) % 256
  }

  /** The bytes of a word array, low-order byte of each word first. */
  function ArrayBytes(x: seq<int>): (r: seq<Byte>)
    ensures |r| == 4 * |x|
  {
    seq<Byte>(4 * |x|, i requires 0 <= i < 4 * |x| => WordByte(x[i / 4], i % 4))
  }

  lemma BytesOfWord(b0: Byte, b1: Byte, b2: Byte, b3: Byte, u: Word)
    requires u == b0 + 0x100 * b1 + 0x1_0000 * b2 + 0x100_0000 * b3
    ensures u % 256 == b0 && u / 0x100 % 256 == b1 && u / 0x1_0000 % 256 == b2 && u / 0x100_0000 % 256 == b3
  {
    assert u / 0x100 == b1 + 0x100 * b2 + 0x1_0000 * b3;
    assert u / 0x1_0000 == b2 + 0x100 * b3;
  }

  lemma ByteOfWord(m: seq<Byte>, w: nat, j: nat)
    requires j < 4
    ensures WordOf(m, w) / Radix(j) % 256 == ByteAt(m, 4 * w + j)
  {
    BytesOfWord(ByteAt(m, 4 * w), ByteAt(m, 4 * w + 1), ByteAt(m, 4 * w + 2), ByteAt(m, 4 * w + 3), WordOf(m, w));
  }

  /** An array that holds m spells m, filled up with zero bytes to a multiple of 4. */
  lemma HoldsBytes(x: seq<int>, m: seq<Byte>)
    requires Holds(x, m)
    ensures |m| <= |ArrayBytes(x)| < |m| + 4
    ensures forall i: nat | i < |ArrayBytes(x)| :: ArrayBytes(x)[i] == ByteAt(m, i)
  {
    hide ToUint32, Radix, WordOf;
    forall i: nat | i < 4 * |x|
      ensures ArrayBytes(x)[i] == ByteAt(m, i)
    {
      assert ToUint32(At(x, i / 4)) == WordOf(m, i / 4);
      ByteOfWord(m, i / 4, i % 4);
      assert 4 * (i / 4) + i % 4 == i;
    }
  }

  method Str2binl(str: JsText.Text) returns (bin: seq<int>)
    requires 8 * |str| < 0x8000_0000
    ensures Holds(bin, CharBytes(str))
  {
    hide SameWords, Or, Shl, Sar, At, And, Put;
    bin := [];
    var mask := 255;
    var i := 0;
    assert SameWords([], []) by { EmptyHolds(); }
    while i < |str| * 8
      invariant 0 <= i <= |str| * 8 && i % 8 == 0
      invariant Holds(bin, CharBytes(str[..i / 8]))
    {
      Low8(str[i / 8]);
      Appended(bin, CharBytes(str[..i / 8]), str[i / 8] % 256);
      assert CharBytes(str[..i / 8 + 1]) == CharBytes(str[..i / 8]) + [str[i / 8] % 256];
      ShiftIndex(i, 5);
      bin := Put(bin, Sar(i, 5), Or(At(bin, Sar(i, 5)), Shl(And(str[i / 8], mask), i % 32)));
      i := i + 8;
    }
    assert str[..i / 8] == str;
  }

  /** `i >> k` on an index is plain division. */
  lemma ShiftIndex(i: nat, k: nat)
    requires i < 0x8000_0000 && k < 32
    ensures Sar(i, k) == i / Pow2(k)
    ensures Pow2(2) == 4 && Pow2(3) == 8 && Pow2(5) == 32
  {
    hide ToInt32;
    SarBody(i, k);
    WrapPattern(i);
  }

  lemma EmptyHolds()
    ensures Holds([], [])
  {
  }

  lemma Low8(v: int)
    ensures And(v, 255) == v % 256
  {
    hide And;
    Pow2Values();
    LowBits(v, 8);
  }

  lemma Appended(x: seq<int>, m: seq<Byte>, b: Byte)
    requires Holds(x, m)
    ensures Holds(OrByte(x, |m|, b), m + [b])
  {
    hide SameWords, Or, Shl, At;
    AppendByte(x, m, b);
  }

  /** `(v >> k) & (2^n - 1)` reads n bits of the pattern at bit k, whatever the sign of v. */
  lemma ReadBits(v: int, k: nat, n: nat)
    requires k < 32 && n < 32 && k + n <= 32
    ensures And(Sar(v, k), Pow2(n) - 1) == ToUint32(v) / Pow2(k) % Pow2(n)
  {
    hide *;
    LowBits(Sar(v, k), n);
    SarBody(v, k);
    Pow2Add(k, n);
    Pow2Add(k + n, 32 - k - n);
    Pow2Values();
    SignDrops(v, Pow2(k), Pow2(n), Pow2(32 - k - n));
  }

  lemma SarBody(v: int, k: nat)
    requires k < 32
    ensures Sar(v, k) == ToInt32(v) / Pow2(k)
  {
    hide ToInt32, Pow2;
  }

  lemma SignDrops(v: int, p: nat, r: nat, s: nat)
    requires p >= 1 && r >= 1 && (p * r) * s == 0x1_0000_0000
    ensures ToInt32(v) / p % r == ToUint32(v) / p % r
  {
    var u: int, t := ToUint32(v), ToInt32(v);
    var e := if t == u then 0 else 1;
    assert t == u - e * 0x1_0000_0000;
    var q := u / p;
    assert p * (q - r * (e * s)) == p * q - e * ((p * r) * s) by {
      assert p * (r * (e * s)) == e * ((p * r) * s);
    }
    ModUnique(t, p, q - r * (e * s), u % p);
    assert r * (q / r - e * s) == r * (q / r) - r * (e * s);
    ModUnique(q - r * (e * s), r, q / r - e * s, q % r);
  }

  // ---- Output forms.

  lemma ByteOfArray(bin: seq<int>, i: nat)
    requires i < |bin| * 32 < 0x8000_0000 && i % 8 == 0
    ensures Sar(i, 5) == i / 32 < |bin| && i / 8 < 4 * |bin|
    ensures And(Shr(bin[i / 32], i % 32), 255) == ArrayBytes(bin)[i / 8]
  {
    hide Sar, Shr, And, WordByte;
    ShiftIndex(i, 5);
    Pow2Values();
    ShrByte(bin[i / 32], i / 8 % 4);
    assert i % 32 == 8 * (i / 8 % 4) && i / 8 / 4 == i / 32;
  }

  method Binl2str(bin: seq<int>) returns (str: JsText.Text)
    requires 32 * |bin| < 0x8000_0000
    ensures str == ArrayBytes(bin)
  {
    hide *;
    str := [];
    ghost var bytes := ArrayBytes(bin);
    var mask := 255;
    var i := 0;
    while i < |bin| * 32
      invariant 0 <= i <= |bin| * 32 && i % 8 == 0
      invariant str == bytes[..i / 8]
    {
      ByteOfArray(bin, i);
      assert bytes[..i / 8] + [bytes[i / 8]] == bytes[..(i + 8) / 8];
      str := str + [And(Shr(bin[Sar(i, 5)], i % 32), mask)];
      i := i + 8;
    }
  }

  lemma ShrByte(v: int, j: nat)
    requires j < 4
    ensures And(Shr(v, 8 * j), 255) == WordByte(v, j)
  {
    hide And, ToUint32, Radix;
    RadixIsPow2(j);
    Low8(Shr(v, 8 * j));
  }

  function HexDigit(n: nat): char
    requires n < 16
  {
    "0123456789abcdef"[n]
  }

  function HexOf(m: seq<Byte>): (r: string)
    ensures |r| == 2 * |m|
  {
    if m == [] then "" else HexOf(m[..|m| - 1]) + [HexDigit(m[|m| - 1] / 16), HexDigit(m[|m| - 1] % 16)]
  }

  method Binl2hex(binarray: seq<int>) returns (str: string)
    requires 32 * |binarray| < 0x8000_0000
    ensures str == HexOf(ArrayBytes(binarray))
  {
    hide Sar, And, WordByte, HexDigit;
    str := "";
    var i := 0;
    ghost var bytes := ArrayBytes(binarray);
    while i < |binarray| * 4
      invariant 0 <= i <= |binarray| * 4
      invariant str == HexOf(bytes[..i])
    {
      ShiftIndex(i, 2);
      Nibbles(binarray[i / 4], i % 4);
      assert bytes[..i + 1][..i] == bytes[..i];
      assert bytes[i] == WordByte(binarray[i / 4], i % 4);
      var w := binarray[Sar(i, 2)];
      str := str + [HexDigit(And(Sar(w, i % 4 * 8 + 4), 15)), HexDigit(And(Sar(w, i % 4 * 8), 15))];
      i := i + 1;
    }
    assert bytes[..i] == bytes;
  }

  lemma Nibbles(v: int, j: nat)
    requires j < 4
    ensures And(Sar(v, j * 8 + 4), 15) == WordByte(v, j) / 16
    ensures And(Sar(v, j * 8), 15) == WordByte(v, j) % 16
  {
    hide And, Sar, ToUint32;
    Pow2Values();
    ReadBits(v, 8 * j + 4, 4);
    ReadBits(v, 8 * j, 4);
    RadixIsPow2(j);
    Pow2Add(8 * j, 4);
    HighLow(ToUint32(v), j);
  }

  lemma HighLow(u: Word, j: nat)
    requires j < 4
    ensures u / Radix(j) % 256 / 16 == u / (Radix(j) * 16) % 16
    ensures u / Radix(j) % 256 % 16 == u / Radix(j) % 16
  {
    var r := Radix(j);
    var v := u / r;
    assert v % 256 / 16 == v / 16 % 16 && v % 256 % 16 == v % 16;
    DivDiv(u, r, 16);
  }

  lemma DivDiv(u: nat, p: nat, r: nat)
    requires p >= 1 && r >= 1
    ensures p * r >= 1 && u / (p * r) == u / p / r
  {
    MulAtLeast(p, r);
    var q, h, l := u / p, u / p / r, u / p % r;
    assert q == r * h + l;
    assert p * q == (p * r) * h + p * l;
    assert p * l + p <= p * r by { assert p * (l + 1) == p * l + p; MulMono(l + 1, r, p); }
    ModUnique(u, p * r, h, p * l + u % p);
  }

  function HexValue(c: char): nat {
    if '0' <= c <= '9' then c as int - '0' as int
    else if 'a' <= c <= 'f' then c as int - 'a' as int + 10
    else 0
  }

  /** Reads a hexadecimal string two digits at a time. */
  function UnHex(s: string): seq<int> {
    if |s| < 2 then [] else UnHex(s[..|s| - 2]) + [16 * HexValue(s[|s| - 2]) + HexValue(s[|s| - 1])]
  }

  lemma {:induction false} HexRoundTrip(m: seq<Byte>)
    ensures UnHex(HexOf(m)) == m
  {
    hide HexOf, UnHex;
    if m == [] {
      EmptyHex();
    } else {
      var p, b := m[..|m| - 1], m[|m| - 1];
      HexRoundTrip(p);
      HexStep(p, b);
      assert m == p + [b];
    }
  }

  lemma EmptyHex()
    ensures HexOf([]) == "" && UnHex("") == []
  {
  }

  lemma HexStep(p: seq<Byte>, b: Byte)
    ensures UnHex(HexOf(p + [b])) == UnHex(HexOf(p)) + [b]
  {
    hide *;
    HexAppend(p, b);
    UnHexAppend(HexOf(p), HexDigit(b / 16), HexDigit(b % 16));
    DigitValue(b / 16);
    DigitValue(b % 16);
  }

  lemma HexAppend(m: seq<Byte>, b: Byte)
    ensures HexOf(m + [b]) == HexOf(m) + [HexDigit(b / 16), HexDigit(b % 16)]
  {
    hide HexDigit;
    assert (m + [b])[..|m|] == m;
  }

  lemma UnHexAppend(s: string, c: char, d: char)
    ensures UnHex(s + [c, d]) == UnHex(s) + [16 * HexValue(c) + HexValue(d)]
  {
    hide HexValue;
    assert (s + [c, d])[..|s|] == s;
  }

  lemma DigitValue(n: nat)
    requires n < 16
    ensures HexValue(HexDigit(n)) == n
  {
  }

  /** Two arrays of words print alike only when their bit patterns agree. */
  lemma HexInjective(x: seq<int>, y: seq<int>)
    requires HexOf(ArrayBytes(x)) == HexOf(ArrayBytes(y))
    ensures |x| == |y| && forall w: nat | w < |x| :: ToUint32(x[w]) == ToUint32(y[w])
  {
    HexRoundTrip(ArrayBytes(x));
    HexRoundTrip(ArrayBytes(y));
    forall w: nat | w < |x|
      ensures ToUint32(x[w]) == ToUint32(y[w])
    {
      hide *;
      SpellsWord(x, w);
      SpellsWord(y, w);
    }
  }

  lemma SpellsWord(x: seq<int>, w: nat)
    requires w < |x|
    ensures ToUint32(x[w]) == WordOf(ArrayBytes(x), w)
  {
    hide ToUint32, WordByte;
    FourBytes(x[w]);
  }

  lemma FourBytes(v: int)
    ensures ToUint32(v) ==
      WordByte(v, 0) + 0x100 * WordByte(v, 1) + 0x1_0000 * WordByte(v, 2) + 0x100_0000 * WordByte(v, 3)
  {
    hide ToUint32;
    BytesOf(ToUint32(v));
  }

  lemma BytesOf(u: nat)
    requires u < 0x1_0000_0000
    ensures u ==
      u % 256 + 0x100 * (u / 0x100 % 256) + 0x1_0000 * (u / 0x1_0000 % 256) + 0x100_0000 * (u / 0x100_0000 % 256)
  {
    assert u / 0x1_0000 == u / 256 / 256 && u / 0x100_0000 == u / 256 / 256 / 256;
  }
}
