/** binl2b64 of all.js against section 4 of RFC 4648, with the padding omitted. */
module Base64 {
  import opened Basics
  import opened JsWord
  import opened Rfc1321
  import opened Md5
  import opened Md5Strings
  import opened WordCodecs

  function Digit64(n: nat): char
    requires n < 64
  {
    if n < 26 then 'A' + n as char
    else if n < 52 then 'a' + (n - 26) as char
    else if n < 62 then '0' + (n - 52) as char
    else if n == 62 then '+'
    else '/'
  }

  function Value64(c: char): (n: nat)
    ensures n < 64
  {
    if 'A' <= c <= 'Z' then c as int - 'A' as int
    else if 'a' <= c <= 'z' then c as int - 'a' as int + 26
    else if '0' <= c <= '9' then c as int - '0' as int + 52
    else if c == '+' then 62
    else 63
  }

  function Triple(m: seq<Byte>, i: nat): (t: nat)
    ensures t < 0x100_0000
  {
    ByteAt(m, i) * 0x1_0000 + ByteAt(m, i + 1) * 0x100 + ByteAt(m, i + 2)
  }

  function Scale(j: nat): nat
    requires j < 4
  {
    if j == 0 then 0x4_0000 else if j == 1 then 0x1000 else if j == 2 then 0x40 else 1
  }

  /** The digits of one to three bytes: one digit more than bytes. */
  function Group(m: seq<Byte>, i: nat): (r: string)
    requires i < |m|
    ensures |r| == Min(|m| - i, 3) + 1
  {
    seq(Min(|m| - i, 3) + 1, j requires 0 <= j < Min(|m| - i, 3) + 1 => Digit64(Triple(m, i) / Scale(j) % 64))
  }

  function Encode64(m: seq<Byte>): string {
    if m == [] then "" else
    var k := (|m| - 1) / 3 * 3;
    Encode64(m[..k]) + Group(m, k)
  }

  function ValueAt(s: string, j: nat): nat { if j < |s| then Value64(s[j]) else 0 }

  /** The bytes of two to four digits: one byte less than digits; a lone digit is none. */
  function UnGroup(s: string): seq<int>
    requires |s| <= 4
  {
    var t := ValueAt(s, 0) * 0x4_0000 + ValueAt(s, 1) * 0x1000 + ValueAt(s, 2) * 0x40 + ValueAt(s, 3);
    [t / 0x1_0000, t / 0x100 % 256, t % 256][..if |s| == 0 then 0 else |s| - 1]
  }

  function Decode64(s: string): seq<int> {
    if s == "" then [] else
    var k := (|s| - 1) / 4 * 4;
    Decode64(s[..k]) + UnGroup(s[k..])
  }

  lemma DigitRoundTrip(n: nat)
    requires n < 64
    ensures Value64(Digit64(n)) == n
  {
  }

  lemma {:induction false} EncodeLength(m: seq<Byte>)
    ensures |Encode64(m)| == (8 * |m| + 5) / 6
  {
    if m != [] {
      hide Group;
      var g := (|m| - 1) / 3;
      EncodeLength(m[..g * 3]);
      DigitsOfBytes(g, |m| - g * 3);
    }
  }

  /** g full groups and a last one of r bytes. */
  lemma DigitsOfBytes(g: nat, r: nat)
    requires 1 <= r <= 3
    ensures (8 * (g * 3) + 5) / 6 == 4 * g && (8 * (g * 3 + r) + 5) / 6 == 4 * g + r + 1
  {
  }

  lemma GroupValue(m: seq<Byte>, i: nat, j: nat)
    requires i < |m| && j < 4
    ensures ValueAt(Group(m, i), j) == if j < |Group(m, i)| then Triple(m, i) / Scale(j) % 64 else 0
  {
    hide Digit64, Value64;
    DigitRoundTrip(Triple(m, i) / Scale(j) % 64);
  }

  lemma Sextets(t: nat)
    requires t < 0x100_0000
    ensures t == t / 0x4_0000 % 64 * 0x4_0000 + t / 0x1000 % 64 * 0x1000 + t / 0x40 % 64 * 0x40 + t / 1 % 64
  {
    assert t / 0x1000 == t / 0x40 / 64 && t / 0x4_0000 == t / 0x1000 / 64;
  }

  lemma GroupRoundTrip(m: seq<Byte>, i: nat)
    requires i < |m| <= i + 3
    ensures UnGroup(Group(m, i)) == m[i..]
  {
    hide Group, Digit64, ValueAt, Value64, Triple;
    var t := Triple(m, i);
    GroupValue(m, i, 0);
    GroupValue(m, i, 1);
    GroupValue(m, i, 2);
    GroupValue(m, i, 3);
    Sextets(t);
    TripleBytes(m, i);
    if |m| < i + 3 {
      assert t / 1 % 64 == 0;
    }
    if |m| < i + 2 {
      assert t / 0x40 % 64 == 0;
    }
  }

  lemma TripleBytes(m: seq<Byte>, i: nat)
    requires i < |m|
    ensures Triple(m, i) / 0x1_0000 == m[i]
    ensures Triple(m, i) / 0x100 % 256 == (if i + 1 < |m| then m[i + 1] else 0)
    ensures Triple(m, i) % 256 == (if i + 2 < |m| then m[i + 2] else 0)
    ensures i + 2 >= |m| ==> Triple(m, i) % 64 == 0
    ensures i + 1 >= |m| ==> Triple(m, i) / 0x40 % 64 == 0
  {
    SplitTriple(ByteAt(m, i), ByteAt(m, i + 1), ByteAt(m, i + 2));
  }

  lemma SplitTriple(b0: Byte, b1: Byte, b2: Byte)
    ensures var t := b0 * 0x1_0000 + b1 * 0x100 + b2;
            && t / 0x1_0000 == b0 && t / 0x100 % 256 == b1 && t % 256 == b2
            && (b2 == 0 ==> t % 64 == 0) && (b1 == 0 && b2 == 0 ==> t / 0x40 % 64 == 0)
  {
    assert (b0 * 0x1_0000 + b1 * 0x100 + b2) / 0x100 == b0 * 0x100 + b1;
  }

  lemma {:induction false} Base64RoundTrip(m: seq<Byte>)
    ensures Decode64(Encode64(m)) == m
  {
    hide *;
    if m == [] {
      EncodeEmpty();
    } else {
      var k := (|m| - 1) / 3 * 3;
      Base64RoundTrip(m[..k]);
      EncodeLength(m[..k]);
      EncodeStep(m, k);
      GroupRoundTrip(m, k);
      DecodeStep(Encode64(m[..k]), Group(m, k));
      assert m == m[..k] + m[k..] == m[..Min(k + 3, |m|)];
    }
  }

  lemma DecodeStep(p: string, g: string)
    requires |p| % 4 == 0 && 1 <= |g| <= 4
    ensures Decode64(p + g) == Decode64(p) + UnGroup(g)
  {
    hide *;
    var s := p + g;
    assert s[..|p|] == p && s[|p|..] == g;
    DecodeUnfold(s, |p|);
  }

  lemma DecodeUnfold(s: string, k: nat)
    requires k % 4 == 0 && k < |s| <= k + 4
    ensures Decode64(s) == Decode64(s[..k]) + UnGroup(s[k..])
  {
    hide *;
    LastGroup(|s|, k);
    DecodeBody(s);
  }

  lemma DecodeBody(s: string)
    requires s != ""
    ensures var k := (|s| - 1) / 4 * 4;
      0 <= k <= |s| && |s| - k <= 4 && Decode64(s) == Decode64(s[..k]) + UnGroup(s[k..])
  {
    hide UnGroup;
  }

  lemma LastGroup(n: nat, k: nat)
    requires k % 4 == 0 && k < n <= k + 4
    ensures (n - 1) / 4 * 4 == k
  {
  }

  /** `(binarray[i >> 2] >> 8 * (i % 4)) & 255`. */
  lemma ReadByte(x: seq<int>, i: nat)
    requires i < 0x8000_0000
    ensures And(Sar(At(x, Sar(i, 2)), 8 * (i % 4)), 255) == ByteAt(ArrayBytes(x), i)
    ensures Sar(i, 2) == i / 4
  {
    hide And, Sar, ToUint32, Radix;
    ShiftIndex(i, 2);
    Pow2Values();
    RadixIsPow2(i % 4);
    ReadBits(At(x, i / 4), 8 * (i % 4), 8);
    if i >= 4 * |x| {
      hide *;
      ZeroBytes(i % 4);
    }
  }

  lemma ZeroBytes(j: nat)
    requires j < 4
    ensures ToUint32(0) / Radix(j) % 256 == 0
  {
  }

  lemma TripletIs(b0: Byte, b1: Byte, b2: Byte)
    ensures Or(Or(Shl(b0, 16), Shl(b1, 8)), b2) == b0 * 0x1_0000 + b1 * 0x100 + b2
  {
    hide *;
    Pow2Values();
    ShlSmall(b0, 16);
    ShlSmall(b1, 8);
    OrValue(b0, b1 * 0x100, 16);
    OrValue(b0 * 0x100 + b1, b2, 8);
  }

  lemma ReadSextet(t: nat, j: nat)
    requires t < 0x100_0000 && j < 4
    ensures And(Sar(t, 6 * (3 - j)), 63) == t / Scale(j) % 64
  {
    hide And, Sar;
    assert Pow2(6) == 64 && Pow2(0) == 1;
    Pow2Add(6, 6);
    Pow2Add(12, 6);
    Pattern(t);
    ReadBits(t, 6 * (3 - j), 6);
  }

  /** The text after j passes of the inner loop. */
  function Taken(before: string, group: string, j: nat): string { before + group[..Min(j, |group|)] }

  lemma TakeDigits(before: string, group: string, j: nat)
    requires |group| <= 4
    ensures Taken(before, group, 0) == before && Taken(before, group, 4) == before + group
    ensures j < |group| ==> Taken(before, group, j + 1) == Taken(before, group, j) + [group[j]]
    ensures j >= |group| ==> Taken(before, group, j + 1) == Taken(before, group, j)
  {
    assert group[..|group|] == group;
  }

  lemma FirstBytes(m: seq<Byte>)
    ensures m[..0] == [] && m[..|m|] == m
  {
  }

  method Binl2b64(binarray: seq<int>) returns (str: string)
    requires 32 * |binarray| + 16 < 0x8000_0000
    ensures str == Encode64(ArrayBytes(binarray))
  {
    hide *;
    str := "";
    ghost var bytes := ArrayBytes(binarray);
    var i := 0;
    FirstBytes(bytes);
    EncodeEmpty();
    while i < |binarray| * 4
      invariant 0 <= i && i % 3 == 0 && i < |binarray| * 4 + 3
      invariant str == Encode64(bytes[..Min(i, |bytes|)])
    {
      TripletAt(binarray, i);
      var triplet := Or(Or(Shl(And(Sar(At(binarray, Sar(i, 2)), 8 * (i % 4)), 255), 16),
                           Shl(And(Sar(At(binarray, Sar(i + 1, 2)), 8 * ((i + 1) % 4)), 255), 8)),
                        And(Sar(At(binarray, Sar(i + 2, 2)), 8 * ((i + 2) % 4)), 255));
      ghost var before := str;
      ghost var group := Group(bytes, i);
      TakeDigits(before, group, 0);
      for j := 0 to 4
        invariant str == Taken(before, group, j)
      {
        TakeDigits(before, group, j);
        DigitCount(|binarray|, i, j);
        if i * 8 + j * 6 > |binarray| * 32 {
        } else {
          ReadSextet(triplet, j);
          GroupDigit(bytes, i, j);
          str := str + [Digit64(And(Sar(triplet, 6 * (3 - j)), 63))];
        }
      }
      EncodeStep(bytes, i);
      i := i + 3;
    }
  }

  /** The source's test for the missing digits of the last group. */
  lemma DigitCount(words: nat, i: nat, j: nat)
    requires i < 4 * words
    ensures j < 4 ==> (i * 8 + j * 6 > words * 32 <==> j >= Min(4 * words - i, 3) + 1)
  {
  }

  lemma EncodeEmpty()
    ensures Encode64([]) == "" && Decode64("") == []
  {
  }

  lemma TripletAt(x: seq<int>, i: nat)
    requires i + 2 < 0x8000_0000
    ensures Sar(i, 2) >= 0 && Sar(i + 1, 2) >= 0 && Sar(i + 2, 2) >= 0
    ensures Or(Or(Shl(And(Sar(At(x, Sar(i, 2)), 8 * (i % 4)), 255), 16),
                  Shl(And(Sar(At(x, Sar(i + 1, 2)), 8 * ((i + 1) % 4)), 255), 8)),
               And(Sar(At(x, Sar(i + 2, 2)), 8 * ((i + 2) % 4)), 255)) == Triple(ArrayBytes(x), i)
  {
    hide *;
    ReadByte(x, i);
    ReadByte(x, i + 1);
    ReadByte(x, i + 2);
    var bytes := ArrayBytes(x);
    TripletIs(ByteAt(bytes, i), ByteAt(bytes, i + 1), ByteAt(bytes, i + 2));
    TripleIs(bytes, i);
  }

  lemma TripleIs(m: seq<Byte>, i: nat)
    ensures Triple(m, i) == ByteAt(m, i) * 0x1_0000 + ByteAt(m, i + 1) * 0x100 + ByteAt(m, i + 2)
  {
  }

  lemma GroupDigit(m: seq<Byte>, i: nat, j: nat)
    requires i < |m| && j < |Group(m, i)|
    ensures Group(m, i)[j] == Digit64(Triple(m, i) / Scale(j) % 64)
  {
  }

  lemma EncodeStep(m: seq<Byte>, i: nat)
    requires i % 3 == 0 && i < |m|
    ensures Encode64(m[..Min(i + 3, |m|)]) == Encode64(m[..i]) + Group(m, i)
  {
    hide Digit64;
    var p := m[..Min(i + 3, |m|)];
    assert (|p| - 1) / 3 * 3 == i && p[..i] == m[..i];
    assert Triple(p, i) == Triple(m, i);
    assert Group(p, i) == Group(m, i);
  }
}
