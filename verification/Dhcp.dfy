/** The DHCP form of dhcp_settings.js: subnet checks on binary strings. */
module Dhcp {
  import opened Basics
  import opened JsWord

  datatype Quad = Quad(a: nat, b: nat, c: nat, d: nat)

  predicate IsOctets(q: Quad) { q.a < 256 && q.b < 256 && q.c < 256 && q.d < 256 }

  /** The 32-bit integer of an address. */
  function Address(q: Quad): nat { ((q.a * 256 + q.b) * 256 + q.c) * 256 + q.d }

  type Binary = s: seq<char> | forall i: nat | i < |s| :: s[i] == '0' || s[i] == '1'

  function Bit(c: char): nat { if c == '1' then 1 else 0 }

  function Val(s: Binary): nat {
    if s == [] then 0 else 2 * Val(s[..|s| - 1]) + Bit(s[|s| - 1])
  }

  /** `n.toString(2)`. */
  function ToBinary(n: nat): (s: Binary)
    ensures s != []
  {
    var last := if n % 2 == 1 then "1" else "0";
    if n < 2 then last else ToBinary(n / 2) + last
  }

  function Repeat(c: char, n: int): (s: seq<char>)
    ensures |s| == if n < 0 then 0 else n
    ensures forall i: nat | i < |s| :: s[i] == c
  {
    if n <= 0 then [] else [c] + Repeat(c, n - 1)
  }

  /** JavaScript's `<` on strings. */
  predicate Less(s: seq<char>, t: seq<char>)
    decreases |s|
  {
    t != [] && (s == [] || s[0] < t[0] || (s[0] == t[0] && Less(s[1..], t[1..])))
  }

  method FillZero(str0: Binary) returns (str: Binary)
    ensures str == Repeat('0', 8 - |str0|) + str0
  {
    str := str0;
    var len := |str0|;
    var i := 0;
    while i < 8 - len
      invariant 0 <= i && (i <= 8 - len || i == 0) && str == Repeat('0', i) + str0
    {
      str := "0" + str;
      i := i + 1;
    }
  }

  function Octet(n: nat): Binary { Repeat('0', 8 - |ToBinary(n)|) + ToBinary(n) }

  function Bin(q: Quad): Binary { Octet(q.a) + Octet(q.b) + Octet(q.c) + Octet(q.d) }

  // ---- Binary strings of one length compare like their values.

  lemma {:induction false} ValJoin(s: Binary, t: Binary)
    ensures Val(s + t) == Val(s) * Pow2(|t|) + Val(t)
    decreases |t|
  {
    if t == [] {
      assert s + t == s;
    } else {
      var front := t[..|t| - 1];
      assert (s + t)[..|s + t| - 1] == s + front;
      ValJoin(s, front);
      ShiftJoin(Val(s), Pow2(|front|), Val(front), Val(s + front));
    }
  }

  lemma ShiftJoin(v: nat, p: nat, w: nat, joined: nat)
    requires joined == v * p + w
    ensures 2 * joined == v * (2 * p) + 2 * w
  {
  }

  lemma {:induction false} ValBound(s: Binary)
    ensures Val(s) < Pow2(|s|)
  {
    if s != [] {
      ValBound(s[..|s| - 1]);
    }
  }

  lemma OneBit(s: Binary)
    requires |s| == 1
    ensures Val(s) == Bit(s[0])
  {
    assert s[..0] == [] && Val([]) == 0;
  }

  lemma ValHead(s: Binary)
    requires s != []
    ensures Val(s) == Bit(s[0]) * Pow2(|s| - 1) + Val(s[1..]) && Val(s[1..]) < Pow2(|s| - 1)
  {
    hide Val, Pow2, Bit;
    var head, tail := s[..1], s[1..];
    assert s == head + tail && head[0] == s[0];
    ValJoin(head, tail);
    ValBound(tail);
    OneBit(head);
  }

  lemma {:induction false} LessIsBelow(s: Binary, t: Binary)
    requires |s| == |t|
    ensures Less(s, t) <==> Val(s) < Val(t)
    ensures s == t <==> Val(s) == Val(t)
    decreases |s|
  {
    if s != [] {
      hide Val;
      ValHead(s);
      ValHead(t);
      LessIsBelow(s[1..], t[1..]);
      assert s == [s[0]] + s[1..] && t == [t[0]] + t[1..];
    }
  }

  lemma {:induction false} ToBinaryValue(n: nat, k: nat)
    requires n < Pow2(k) && k >= 1
    ensures Val(ToBinary(n)) == n && |ToBinary(n)| <= k
    decreases k
  {
    if n >= 2 {
      ToBinaryValue(n / 2, k - 1);
      var last := if n % 2 == 1 then "1" else "0";
      assert (ToBinary(n / 2) + last)[..|ToBinary(n / 2)|] == ToBinary(n / 2);
    } else {
      assert Val([]) == 0;
    }
  }

  lemma {:induction false} ZerosValue(n: nat)
    ensures Val(Repeat('0', n)) == 0
  {
    if n > 0 {
      var s := Repeat('0', n);
      assert s[..n - 1] == Repeat('0', n - 1);
      ZerosValue(n - 1);
    }
  }

  lemma {:induction false} OnesValue(n: nat)
    ensures Val(Repeat('1', n)) == Pow2(n) - 1
  {
    if n > 0 {
      var s := Repeat('1', n);
      assert s[..n - 1] == Repeat('1', n - 1);
      OnesValue(n - 1);
    }
  }

  lemma OctetValue(n: nat)
    requires n < 256
    ensures |Octet(n)| == 8 && Val(Octet(n)) == n
  {
    hide *;
    Pow2Values();
    ToBinaryValue(n, 8);
    ZerosValue(8 - |ToBinary(n)|);
    OctetIs(n);
    ValJoin(Repeat('0', 8 - |ToBinary(n)|), ToBinary(n));
  }

  lemma OctetIs(n: nat)
    ensures Octet(n) == Repeat('0', 8 - |ToBinary(n)|) + ToBinary(n)
  {
  }

  lemma BinValue(q: Quad)
    requires IsOctets(q)
    ensures |Bin(q)| == 32 && Val(Bin(q)) == Address(q) < 0x1_0000_0000
  {
    hide Octet, Val;
    OctetValue(q.a); OctetValue(q.b); OctetValue(q.c); OctetValue(q.d);
    Pow2Values();
    ValJoin(Octet(q.a), Octet(q.b));
    ValJoin(Octet(q.a) + Octet(q.b), Octet(q.c));
    ValJoin(Octet(q.a) + Octet(q.b) + Octet(q.c), Octet(q.d));
  }

  // ---- Masks.

  predicate HasZeroOne(s: seq<char>) { exists i: nat | i + 1 < |s| :: s[i] == '0' && s[i + 1] == '1' }

  /** A mask field as `parseInt` reads it: None, NaN, for an empty field or one that starts with no number. */
  type Field = Option<int>

  datatype Mask = Mask(a: Field, b: Field, c: Field, d: Field)

  /** `fillZero(parseInt(text).toString(2))`: a negative number keeps its sign, and NaN its letters. */
  function FieldText(n: Field): string {
    match n
    case None => "00000NaN"
    case Some(v) => if v >= 0 then Octet(v) else Repeat('0', 7 - |ToBinary(-v)|) + "-" + ToBinary(-v)
  }

  function MaskText(mask: Mask): string {
    FieldText(mask.a) + FieldText(mask.b) + FieldText(mask.c) + FieldText(mask.d)
  }

  function Fields(q: Quad): Mask { Mask(Some(q.a), Some(q.b), Some(q.c), Some(q.d)) }

  /** All four fields are numbers, none of them negative. */
  predicate IsNumbers(mask: Mask) {
    && mask.a.Some? && mask.a.value >= 0 && mask.b.Some? && mask.b.value >= 0
    && mask.c.Some? && mask.c.value >= 0 && mask.d.Some? && mask.d.value >= 0
  }

  function Numbers(mask: Mask): (q: Quad)
    requires IsNumbers(mask)
    ensures Fields(q) == mask
  {
    Quad(mask.a.value, mask.b.value, mask.c.value, mask.d.value)
  }

  /**
   The test on a typed mask, whose fields are not checked before.  `padded` says that a zero is typed as "00" or
   the like, so that the text of an all-zero mask is not the one that is compared.
   */
  predicate CheckSubMask(mask: Mask, padded: bool) {
    && mask != Fields(Quad(255, 255, 255, 255)) && (mask != Fields(Quad(0, 0, 0, 0)) || padded)
    && !HasZeroOne(MaskText(mask))
  }

  /** How many ones a string starts with. */
  function OnesAhead(s: seq<char>): (k: nat)
    ensures k <= |s| && (forall i: nat | i < k :: s[i] == '1') && (k < |s| ==> s[k] != '1')
  {
    if s == [] || s[0] != '1' then 0 else OnesAhead(s[1..]) + 1
  }

  function PrefixLength(mask: Mask): nat { OnesAhead(MaskText(mask)) }

  lemma TextOfNumbers(q: Quad)
    ensures MaskText(Fields(q)) == Bin(q)
  {
    hide Octet;
  }

  /** The mask is four octets whose integer is k ones followed by zeros. */
  predicate IsPrefix(mask: Mask, k: nat) {
    IsNumbers(mask) && IsOctets(Numbers(mask)) && 1 <= k <= 31 && IsPrefixMask(Address(Numbers(mask)), k)
  }

  /** k ones followed by zeros, as an integer. */
  predicate IsPrefixMask(v: nat, k: nat) { k <= 32 && v == 0x1_0000_0000 - Pow2(32 - k) }

  function PrefixString(k: nat): Binary
    requires k <= 32
  {
    Repeat('1', k) + Repeat('0', 32 - k)
  }

  lemma ShiftDown(p: nat, q: nat)
    ensures (p - 1) * q == p * q - q
  {
  }

  lemma PrefixValue(k: nat)
    requires k <= 32
    ensures |PrefixString(k)| == 32 && Val(PrefixString(k)) == 0x1_0000_0000 - Pow2(32 - k)
  {
    hide Val, Pow2, Repeat;
    ValJoin(Repeat('1', k), Repeat('0', 32 - k));
    OnesValue(k);
    ZerosValue(32 - k);
    Pow2Add(k, 32 - k);
    Pow2Values();
    ShiftDown(Pow2(k), Pow2(32 - k));
  }

  lemma {:induction false} ZerosAfterZero(s: Binary, i: nat, j: nat)
    requires !HasZeroOne(s) && i <= j < |s| && s[i] == '0'
    ensures s[j] == '0'
    decreases j
  {
    if i < j {
      ZerosAfterZero(s, i, j - 1);
      assert !(s[j - 1] == '0' && s[j - 1 + 1] == '1');
    }
  }

  /** A 32-bit string without "01" whose leading ones end at k is the /k mask. */
  lemma LeadingOnes(s: Binary, k: nat)
    requires |s| == 32 && k <= 32 && !HasZeroOne(s)
    requires (forall i: nat | i < k :: s[i] == '1') && (k < 32 ==> s[k] != '1')
    ensures s == PrefixString(k)
  {
    forall j: nat | k <= j < 32
      ensures s[j] == '0'
    {
      ZerosAfterZero(s, k, j);
    }
  }

  lemma PrefixHasNoZeroOne(k: nat)
    requires k <= 32
    ensures !HasZeroOne(PrefixString(k))
  {
  }

  lemma Pow2Up(m: nat, n: nat)
    requires m < n
    ensures 2 * Pow2(m) <= Pow2(n)
    decreases n
  {
    if m < n - 1 {
      Pow2Up(m, n - 1);
    }
  }

  /** On octets, checkSubMask accepts exactly the /k masks with 1 <= k <= 31, and all zeros when padded. */
  lemma MaskAccepted(q: Quad, padded: bool)
    ensures CheckSubMask(Fields(q), padded) && IsOctets(q) && q != Quad(0, 0, 0, 0) <==>
      IsOctets(q) && exists k: nat :: 1 <= k <= 31 && IsPrefixMask(Address(q), k)
    ensures CheckSubMask(Fields(q), padded) && IsOctets(q) && q != Quad(0, 0, 0, 0) ==>
      1 <= PrefixLength(Fields(q)) <= 31 && IsPrefixMask(Address(q), PrefixLength(Fields(q)))
  {
    hide CheckSubMask, IsPrefixMask, Address, PrefixLength, Fields;
    if CheckSubMask(Fields(q), padded) && IsOctets(q) && q != Quad(0, 0, 0, 0) {
      AcceptedIsPrefix(q, padded);
    }
    if k: nat :| IsOctets(q) && 1 <= k <= 31 && IsPrefixMask(Address(q), k) {
      PrefixIsAccepted(q, padded, k);
    }
  }

  lemma AcceptedIsPrefix(q: Quad, padded: bool)
    requires IsOctets(q) && q != Quad(0, 0, 0, 0) && CheckSubMask(Fields(q), padded)
    ensures 1 <= PrefixLength(Fields(q)) <= 31 && IsPrefixMask(Address(q), PrefixLength(Fields(q)))
  {
    hide Val, Bin, HasZeroOne, PrefixString, Pow2, OnesAhead, MaskText;
    TextOfNumbers(q);
    BinValue(q);
    var k := PrefixLength(Fields(q));
    LeadingOnes(Bin(q), k);
    PrefixValue(k);
    EndMasks(q, k);
  }

  lemma PrefixIsAccepted(q: Quad, padded: bool, k: nat)
    requires IsOctets(q) && 1 <= k <= 31 && IsPrefixMask(Address(q), k)
    ensures CheckSubMask(Fields(q), padded) && q != Quad(0, 0, 0, 0)
  {
    hide Val, Bin, HasZeroOne, PrefixString, Pow2, MaskText;
    TextOfNumbers(q);
    BinValue(q);
    Pow2Values();
    PrefixValue(k);
    LessIsBelow(Bin(q), PrefixString(k));
    PrefixHasNoZeroOne(k);
    Pow2Up(0, 32 - k);
    Pow2Up(32 - k, 32);
    PowZero();
  }

  // ---- Masks that are not octets.

  lemma {:induction false} ToBinaryWide(n: nat, k: nat)
    requires n >= Pow2(k)
    ensures |ToBinary(n)| > k && ToBinary(n)[0] == '1'
    decreases k, n
  {
    if k > 0 {
      ToBinaryWide(n / 2, k - 1);
    } else if n >= 2 {
      PowZero();
      ToBinaryWide(n / 2, 0);
    }
  }

  lemma WideOctet(n: nat)
    requires n >= 256
    ensures Octet(n) != [] && Octet(n)[0] == '1'
  {
    hide ToBinary, Pow2;
    Pow2Values();
    ToBinaryWide(n, 8);
    OctetIs(n);
  }

  predicate AllOnes(s: Binary) { forall i: nat | i < |s| :: s[i] == '1' }

  lemma OnesBeforeOne(before: Binary, wide: Binary, after: Binary)
    requires !HasZeroOne(before + wide + after) && wide != [] && wide[0] == '1'
    ensures AllOnes(before)
  {
    var s := before + wide + after;
    assert s[|before|] == '1';
    forall i: nat | i < |before|
      ensures before[i] == '1'
    {
      if before[i] != '1' {
        ZerosAfterZero(s, i, |before|);
      }
    }
  }

  lemma OnesSplit(s: Binary, t: Binary)
    requires AllOnes(s + t)
    ensures AllOnes(s) && AllOnes(t)
  {
    forall i: nat | i < |t|
      ensures t[i] == '1'
    {
      assert (s + t)[|s| + i] == t[i];
    }
    forall i: nat | i < |s|
      ensures s[i] == '1'
    {
      assert (s + t)[i] == s[i];
    }
  }

  lemma OnesOctet(n: nat)
    requires n < 256 && AllOnes(Octet(n))
    ensures n == 255
  {
    hide Octet, Val, Pow2, Repeat;
    OctetValue(n);
    OnesValue(8);
    Pow2Values();
    assert Octet(n) == Repeat('1', 8);
  }

  /** The octets before a number above 255 are 255, so the value does not fit into 32 bits. */
  lemma WideMaskIsLarge(mask: Quad)
    requires !HasZeroOne(Bin(mask)) && !IsOctets(mask)
    ensures Address(mask) >= 0x1_0000_0000
  {
    hide HasZeroOne, Octet, AllOnes;
    var a, b, c, d := Octet(mask.a), Octet(mask.b), Octet(mask.c), Octet(mask.d);
    if mask.a >= 256 {
    } else if mask.b >= 256 {
      WideOctet(mask.b);
      assert Bin(mask) == a + b + (c + d);
      OnesBeforeOne(a, b, c + d);
      OnesOctet(mask.a);
    } else if mask.c >= 256 {
      WideOctet(mask.c);
      assert Bin(mask) == (a + b) + c + d;
      OnesBeforeOne(a + b, c, d);
      OnesSplit(a, b);
      OnesOctet(mask.a);
      OnesOctet(mask.b);
    } else {
      WideOctet(mask.d);
      assert Bin(mask) == (a + b + c) + d + [];
      OnesBeforeOne(a + b + c, d, []);
      OnesSplit(a + b, c);
      OnesSplit(a, b);
      OnesOctet(mask.a);
      OnesOctet(mask.b);
      OnesOctet(mask.c);
    }
  }

  /** The integer of an accepted mask of numbers is a prefix mask exactly when they are octets and not all zero. */
  lemma AcceptedNumbersIff(q: Quad, padded: bool)
    requires CheckSubMask(Fields(q), padded)
    ensures (exists k: nat :: 1 <= k <= 31 && IsPrefixMask(Address(q), k)) <==> IsOctets(q) && q != Quad(0, 0, 0, 0)
  {
    MaskAccepted(q, padded);
    if !IsOctets(q) {
      TextOfNumbers(q);
      WideMaskIsLarge(q);
    }
    hide Address, Bin, CheckSubMask;
    if q == Quad(0, 0, 0, 0) {
      forall k: nat
        ensures !(1 <= k <= 31 && IsPrefixMask(Address(q), k))
      {
        if 1 <= k <= 31 && IsPrefixMask(Address(q), k) {
          PrefixIsAccepted(q, padded, k);
        }
      }
    }
  }

  /** Whatever is typed, an accepted mask is a /k mask exactly when its fields are octets and not all zero. */
  lemma AcceptedMaskIsPrefixIff(mask: Mask, padded: bool)
    requires CheckSubMask(mask, padded)
    ensures (exists k: nat :: IsPrefix(mask, k))
       <==> IsNumbers(mask) && IsOctets(Numbers(mask)) && mask != Fields(Quad(0, 0, 0, 0))
    ensures (exists k: nat :: IsPrefix(mask, k)) ==> IsPrefix(mask, PrefixLength(mask))
  {
    hide CheckSubMask, IsPrefixMask, Address, PrefixLength;
    if IsNumbers(mask) {
      var q := Numbers(mask);
      MaskAccepted(q, padded);
      AcceptedNumbersIff(q, padded);
      assert mask != Fields(Quad(0, 0, 0, 0)) <==> q != Quad(0, 0, 0, 0);
      if IsOctets(q) && q != Quad(0, 0, 0, 0) {
        assert IsPrefix(mask, PrefixLength(mask));
      }
    }
  }

  /** 511.0.0.0 is accepted and is no /k mask. */
  lemma WideMaskSlips()
    ensures CheckSubMask(Fields(Quad(511, 0, 0, 0)), false) && PrefixLength(Fields(Quad(511, 0, 0, 0))) == 9
    ensures !exists k: nat :: 1 <= k <= 31 && IsPrefixMask(Address(Quad(511, 0, 0, 0)), k)
  {
    hide *;
    var q := Quad(511, 0, 0, 0);
    OctetTexts();
    BinIs(q);
    TextOfNumbers(q);
    var s := "111111111" + "000000000000000000000000";
    assert Bin(q) == s by { assert "00000000" + "00000000" + "00000000" == "000000000000000000000000"; }
    OnesThenZeros(s, 9);
    WideFields(q);
    ChecksAs(Fields(q));
    AcceptedNumbersIff(q, false);
  }

  /** 511.511.511.511 is accepted and has 36 ones, more than an address has bits. */
  lemma LongMaskSlips()
    ensures CheckSubMask(Fields(Quad(511, 511, 511, 511)), false)
    ensures PrefixLength(Fields(Quad(511, 511, 511, 511))) == 36
  {
    hide *;
    var q := Quad(511, 511, 511, 511);
    OctetTexts();
    BinIs(q);
    TextOfNumbers(q);
    OnesThenZeros(Bin(q), 36);
    WideFields(q);
    ChecksAs(Fields(q));
  }

  /** Four empty fields are accepted as a mask without ones, and 255.255.255 with the last field empty as one of 24. */
  lemma EmptyFieldsSlip()
    ensures CheckSubMask(Mask(None, None, None, None), false) && PrefixLength(Mask(None, None, None, None)) == 0
    ensures var m := Mask(Some(255), Some(255), Some(255), None); CheckSubMask(m, false) && PrefixLength(m) == 24
  {
    hide Octet, OnesAhead, HasZeroOne;
    var none, last := Mask(None, None, None, None), Mask(Some(255), Some(255), Some(255), None);
    OctetTexts();
    assert MaskText(none) == "00000NaN" + "00000NaN" + "00000NaN" + "00000NaN";
    NoZeroOneNone(MaskText(none));
    assert MaskText(last) == "11111111" + "11111111" + "11111111" + "00000NaN";
    NoZeroOneLast(MaskText(last));
  }

  /** 255.255.255.-1 is accepted as a mask of 24 ones: its last field is written "000000-1". */
  lemma NegativeFieldSlips()
    ensures FieldText(Some(-1)) == "000000-1"
    ensures var m := Mask(Some(255), Some(255), Some(255), Some(-1)); CheckSubMask(m, false) && PrefixLength(m) == 24
  {
    assert ToBinary(1) == "1" && Repeat('0', 3) == "000" && Repeat('0', 6) == "000000";
    hide Octet, OnesAhead, HasZeroOne, Repeat, ToBinary;
    OctetTexts();
    var m := Mask(Some(255), Some(255), Some(255), Some(-1));
    assert FieldText(Some(-1)) == "000000" + "-" + "1" == "000000-1";
    assert MaskText(m) == "11111111" + "11111111" + "11111111" + "000000-1";
    NoZeroOneMinus(MaskText(m));
  }

  lemma NoZeroOneMinus(s: string)
    requires s == "11111111" + "11111111" + "11111111" + "000000-1"
    ensures !HasZeroOne(s) && OnesAhead(s) == 24
  {
    assert |s| == 32 && forall i: nat | i < 32 ::
      s[i] == if i < 24 || i == 31 then '1' else if i == 30 then '-' else '0';
    OnesStop(s, 24);
  }

  lemma {:induction false} OnesStop(s: string, k: nat)
    requires k < |s| && (forall i: nat | i < k :: s[i] == '1') && s[k] != '1'
    ensures OnesAhead(s) == k
  {
    if k > 0 {
      OnesStop(s[1..], k - 1);
    }
  }

  /** The all-zero mask is refused exactly when it is typed without padding, and the all-one mask always. */
  lemma EndMasksRefused(padded: bool)
    ensures CheckSubMask(Fields(Quad(0, 0, 0, 0)), padded) <==> padded
    ensures !CheckSubMask(Fields(Quad(255, 255, 255, 255)), padded)
  {
    var q := Quad(0, 0, 0, 0);
    OctetTexts();
    TextOfNumbers(q);
    BinIs(q);
    hide Octet, HasZeroOne, Bin, MaskText;
    ZerosOnly("00000000" + "00000000" + "00000000" + "00000000");
  }

  lemma ZerosOnly(s: string)
    requires s == "00000000" + "00000000" + "00000000" + "00000000"
    ensures !HasZeroOne(s)
  {
    assert forall i: nat | i < |s| :: s[i] == '0';
  }

  lemma NoZeroOneNone(s: string)
    requires s == "00000NaN" + "00000NaN" + "00000NaN" + "00000NaN"
    ensures !HasZeroOne(s) && OnesAhead(s) == 0
  {
    assert forall i: nat | i < |s| :: s[i] != '1';
  }

  lemma NoZeroOneLast(s: string)
    requires s == "11111111" + "11111111" + "11111111" + "00000NaN"
    ensures !HasZeroOne(s) && OnesAhead(s) == 24
  {
    assert forall i: nat | i < |s| :: s[i] == '1' <==> i < 24;
    OnesOnly(s, 24);
  }

  lemma {:induction false} OnesOnly(s: string, k: nat)
    requires k <= |s| && forall i: nat | i < |s| :: s[i] == '1' <==> i < k
    ensures OnesAhead(s) == k
  {
    if k > 0 {
      OnesOnly(s[1..], k - 1);
    }
  }

  lemma WideFields(q: Quad)
    requires q.a >= 256
    ensures Fields(q).a == Some(q.a) && !IsOctets(q)
  {
  }

  lemma BinIs(q: Quad)
    ensures Bin(q) == Octet(q.a) + Octet(q.b) + Octet(q.c) + Octet(q.d)
  {
    hide Octet;
  }

  lemma ChecksAs(mask: Mask)
    requires mask.a.Some? && mask.a.value > 255
    ensures CheckSubMask(mask, false) <==> !HasZeroOne(MaskText(mask))
    ensures PrefixLength(mask) == OnesAhead(MaskText(mask))
  {
    hide MaskText, HasZeroOne, OnesAhead;
  }

  lemma {:induction false} OnesThenZeros(s: Binary, k: nat)
    requires k <= |s| && (forall i: nat | i < k :: s[i] == '1') && (forall i: nat | k <= i < |s| :: s[i] == '0')
    ensures !HasZeroOne(s) && OnesAhead(s) == k
  {
    if k > 0 {
      OnesThenZeros(s[1..], k - 1);
    }
  }

  lemma OctetTexts()
    ensures Octet(511) == "111111111" && Octet(255) == "11111111" && Octet(0) == "00000000"
  {
    hide Repeat, ToBinary;
    ToBinaryTexts();
    RepeatTexts();
    OctetIs(511);
    OctetIs(255);
    OctetIs(0);
  }

  lemma RepeatTexts()
    ensures Repeat('0', 7) == "0000000" && Repeat('0', 0) == "" && Repeat('0', -1) == ""
  {
    assert Repeat('0', 3) == "000";
  }

  lemma OddBinary(n: nat)
    requires n >= 2 && n % 2 == 1
    ensures ToBinary(n) == ToBinary(n / 2) + "1"
  {
  }

  lemma ToBinaryTexts()
    ensures ToBinary(511) == "111111111" && ToBinary(255) == "11111111" && ToBinary(0) == "0"
  {
    assert ToBinary(0) == "0" && ToBinary(1) == "1";
    hide ToBinary;
    OddBinary(3);
    OddBinary(7);
    OddBinary(15);
    OddBinary(31);
    OddBinary(63);
    OddBinary(127);
    OddBinary(255);
    OddBinary(511);
  }

  lemma EndMasks(mask: Quad, k: nat)
    requires k <= 32 && IsOctets(mask) && Address(mask) == 0x1_0000_0000 - Pow2(32 - k)
    ensures k == 0 ==> mask == Quad(0, 0, 0, 0)
    ensures k == 32 ==> mask == Quad(255, 255, 255, 255)
  {
    Pow2Values();
  }

  // ---- The subnet range.

  /** Between fix + zeros and fix + ones lie exactly the strings that start with fix. */
  lemma InBlock(ip: Binary, s: Binary, k: nat)
    requires |ip| == 32 == |s| && k <= 32
    ensures var lo, hi := ip[..k] + Repeat('0', 32 - k), ip[..k] + Repeat('1', 32 - k);
      && |lo| == 32 == |hi|
      && Val(lo) == Val(ip) / Pow2(32 - k) * Pow2(32 - k) && Val(hi) == Val(lo) + Pow2(32 - k) - 1
      && (!Less(hi, s) && !Less(s, lo) <==> Val(s) / Pow2(32 - k) == Val(ip) / Pow2(32 - k))
  {
    hide Val, Less;
    var fix, p := ip[..k], Pow2(32 - k);
    var lo, hi := fix + Repeat('0', 32 - k), fix + Repeat('1', 32 - k);
    ValJoin(fix, Repeat('0', 32 - k));
    ValJoin(fix, Repeat('1', 32 - k));
    ZerosValue(32 - k);
    OnesValue(32 - k);
    assert ip == fix + ip[k..];
    ValJoin(fix, ip[k..]);
    ValBound(ip[k..]);
    LessIsBelow(hi, s);
    LessIsBelow(s, lo);
    Quotients(Val(fix), Val(ip[k..]), p, Val(ip), Val(s));
  }

  lemma Quotients(f: nat, r: nat, p: nat, ip: nat, s: nat)
    requires r < p && ip == f * p + r
    ensures ip / p == f
    ensures f * p <= s <= f * p + p - 1 <==> s / p == f
  {
    assert f * p == p * f;
    ModUnique(ip, p, f, r);
    if f * p <= s <= f * p + p - 1 {
      ModUnique(s, p, f, s - f * p);
    }
    assert s == p * (s / p) + s % p;
  }

  function BinaryToIP(bin: Binary): Quad
    requires |bin| == 32
  {
    Quad(Val(bin[..8]), Val(bin[8..16]), Val(bin[16..24]), Val(bin[24..32]))
  }

  lemma BinaryToIPValue(bin: Binary)
    requires |bin| == 32
    ensures IsOctets(BinaryToIP(bin)) && Address(BinaryToIP(bin)) == Val(bin)
  {
    hide Val;
    var a, b, c, d := bin[..8], bin[8..16], bin[16..24], bin[24..32];
    ValBound(a); ValBound(b); ValBound(c); ValBound(d);
    Pow2Values();
    ValJoin(a, b);
    ValJoin(a + b, c);
    ValJoin(a + b + c, d);
    assert bin == a + b + c + d;
  }

  // ---- The form.

  /** Typed fields; `gateway` is None when all four gateway fields are empty, `lease` when not a plain number. */
  datatype Form = Form(ip2: nat, ip3: nat, enabled: bool, mask: Mask, padded: bool, start: Quad, end: Quad,
                       gateway: Option<Quad>, lease: Option<nat>)

  /** One constructor for each message that the form can show; `Hangs` when a loop never ends. */
  datatype Verdict =
    | Accepted
    | LanFormatError
    | LanLastError
    | MaskError
    | EndIsLanError
    | StartError
    | OrderError
    | Hangs
    | StartOutside
    | EndOutside
    | LanInRange
    | FormatError
    | GatewayError
    | LeaseError

  function Lan(f: Form): Quad { Quad(192, 168, f.ip2, f.ip3) }

  /** No gateway, or one from 1.0.0.0 to 223.255.255.254, outside 127.0.0.0/8, that does not end in 255. */
  predicate GatewayAllowed(g: Option<Quad>) {
    g.Some? ==>
      && IsOctets(g.value) && 0x0100_0000 <= Address(g.value) <= 0xDFFF_FFFE
      && !(0x7F00_0000 <= Address(g.value) < 0x8000_0000) && Address(g.value) % 256 != 255
  }

  /** What the tests on the fields of a gateway mean for its integer. */
  lemma GatewayTests(q: Quad)
    requires IsOctets(q)
    ensures 1 <= q.a <= 223 && q.a != 127 && q.d != 255 <==>
      && 0x0100_0000 <= Address(q) <= 0xDFFF_FFFE && !(0x7F00_0000 <= Address(q) < 0x8000_0000)
      && Address(q) % 256 != 255
  {
    assert Address(q) == q.a * 0x100_0000 + (q.b * 0x1_0000 + q.c * 0x100 + q.d);
    LastOctet((q.a * 256 + q.b) * 256 + q.c, q.d, Address(q) / 256, Address(q) % 256);
  }

  /** Two addresses with the same bits under a /k mask. */
  predicate SamePrefix(x: nat, y: nat, k: nat)
    requires k <= 32
  {
    x / Pow2(32 - k) == y / Pow2(32 - k)
  }

  /** The range lies in the LAN address's subnet for a prefix of k bits, in order, and leaves the LAN address out. */
  predicate RangeInSubnet(f: Form, k: nat) {
    && k <= 32 && IsOctets(f.start) && IsOctets(f.end)
    && Address(f.start) < Address(f.end)
    && SamePrefix(Address(f.start), Address(Lan(f)), k) && SamePrefix(Address(f.end), Address(Lan(f)), k)
    && !(Address(f.start) <= Address(Lan(f)) <= Address(f.end))
  }

  predicate Acceptable(f: Form) {
    && f.ip2 < 256 && 0 < f.ip3 < 255
    && (f.enabled ==>
      && CheckSubMask(f.mask, f.padded) && RangeInSubnet(f, PrefixLength(f.mask))
      && 2 <= f.start.d < f.end.d
      && GatewayAllowed(f.gateway) && f.lease.Some? && 1 <= f.lease.value <= 10800)
  }

  /** `fillNum` after n passes of the loop that counts it down. */
  function CountedDown(fillNum: int, n: nat): int {
    if n == 0 then fillNum else CountedDown(fillNum, n - 1) - 1
  }

  /** `while (fillNum)` ends: some number of passes brings `fillNum` to 0. */
  ghost predicate CountdownEnds(fillNum: int) { exists n: nat :: CountedDown(fillNum, n) == 0 }

  lemma {:induction false} CountedDownIs(fillNum: int, n: nat)
    ensures CountedDown(fillNum, n) == fillNum - n
  {
    if n > 0 {
      CountedDownIs(fillNum, n - 1);
    }
  }

  /** From below 0 no number of passes reaches 0. */
  lemma CountdownEndsIff(fillNum: int)
    ensures CountdownEnds(fillNum) <==> fillNum >= 0
  {
    forall n: nat
      ensures CountedDown(fillNum, n) == fillNum - n
    {
      CountedDownIs(fillNum, n);
    }
    if fillNum >= 0 {
      assert CountedDown(fillNum, fillNum) == 0;
    }
  }

  /** The loop that fills the address up is reached and never ends. */
  ghost predicate NeverEnds(f: Form) {
    && f.ip2 < 256 && 0 < f.ip3 < 255 && f.enabled && CheckSubMask(f.mask, f.padded)
    && f.start != Lan(f) && f.end != Lan(f) && f.start.d >= 2 && Less(Bin(f.start), Bin(f.end))
    && !CountdownEnds(32 - PrefixLength(f.mask))
  }

  /** 511.511.511.511 with an ordinary range: the form never answers. */
  lemma LongMaskHangs(f: Form)
    requires f.ip2 < 256 && 0 < f.ip3 < 255 && f.enabled && !f.padded
    requires f.mask == Fields(Quad(511, 511, 511, 511))
    requires IsOctets(f.start) && IsOctets(f.end) && Address(f.start) < Address(f.end)
    requires f.start != Lan(f) && f.end != Lan(f) && f.start.d >= 2
    ensures NeverEnds(f)
  {
    hide CheckSubMask, PrefixLength, Less, Bin, Address, CountdownEnds;
    LongMaskSlips();
    CountdownEndsIff(32 - 36);
    BinValue(f.start);
    BinValue(f.end);
    LessIsBelow(Bin(f.start), Bin(f.end));
  }

  /** An accepted form has its range in the subnet of a /k mask exactly when the mask is octets and not all zero. */
  lemma AcceptedFormHasPrefixIff(f: Form)
    requires Acceptable(f) && f.enabled
    ensures (exists k: nat :: IsPrefix(f.mask, k) && RangeInSubnet(f, k))
       <==> IsNumbers(f.mask) && IsOctets(Numbers(f.mask)) && f.mask != Fields(Quad(0, 0, 0, 0))
  {
    hide CheckSubMask, RangeInSubnet, IsPrefix, PrefixLength;
    AcceptedMaskIsPrefixIff(f.mask, f.padded);
  }

  /** The first complaint about a form with octets for addresses, in terms of their integers. */
  function FirstComplaint(f: Form): Verdict {
    if !IsOctets(Lan(f)) then LanFormatError
    else if f.ip3 == 255 || f.ip3 == 0 then LanLastError
    else if !f.enabled then Accepted
    else if !CheckSubMask(f.mask, f.padded) then MaskError
    else
      var k := PrefixLength(f.mask);
      var lan, start, end := Address(Lan(f)), Address(f.start), Address(f.end);
      if start == lan || end == lan then EndIsLanError
      else if f.start.d <= 1 then StartError
      else if start >= end then OrderError
      else if k > 32 then Hangs
      else if !SamePrefix(start, lan, k) then StartOutside
      else if !SamePrefix(end, lan, k) then EndOutside
      else if start <= lan <= end then LanInRange
      else if !GatewayAllowed(f.gateway) then GatewayError
      else if f.start.d >= f.end.d then OrderError
      else if f.lease.None? || f.lease.value < 1 || f.lease.value > 10800 then LeaseError
      else Accepted
  }

  /** On prefix masks, equal prefixes are equal `address & mask`. */
  lemma SamePrefixIsSameNetwork(x: Word, y: Word, m: Word, k: nat)
    requires k <= 32 && IsPrefixMask(m, k)
    ensures SamePrefix(x, y, k) <==> WordOp(AndOp, x, m) == WordOp(AndOp, y, m)
  {
    hide *;
    NetworkBits(x, m, k);
    NetworkBits(y, m, k);
    SamePrefixIs(x, y, k);
    MulInjective(Pow2(32 - k), x / Pow2(32 - k), y / Pow2(32 - k));
  }

  lemma SamePrefixIs(x: nat, y: nat, k: nat)
    requires k <= 32
    ensures SamePrefix(x, y, k) <==> x / Pow2(32 - k) == y / Pow2(32 - k)
  {
    hide Pow2;
  }

  lemma MulInjective(p: nat, a: int, b: int)
    requires p >= 1
    ensures p * a == p * b <==> a == b
  {
    var e := a - b;
    assert p * a - p * b == p * e && p * -e == -(p * e);
    if e != 0 {
      MulSign(p, e);
    }
  }

  lemma NetworkBits(x: Word, m: Word, k: nat)
    requires k <= 32 && IsPrefixMask(m, k)
    ensures WordOp(AndOp, x, m) == Pow2(32 - k) * (x / Pow2(32 - k))
  {
    hide *;
    var p, q := Pow2(32 - k), Pow2(k);
    Pow2Add(32 - k, k);
    Pow2Values();
    PrefixMaskIs(m, k);
    QuotientLess(x, p, q);
    NetworkParts(x / p, x % p, k, p, q);
    assert p * (q - 1) == p * q - p;
    assert x == p * (x / p) + x % p;
    WordOpIs(x, m);
  }

  lemma PrefixMaskIs(m: nat, k: nat)
    requires k <= 32
    ensures IsPrefixMask(m, k) <==> m == 0x1_0000_0000 - Pow2(32 - k)
  {
    hide Pow2;
  }

  lemma WordOpIs(x: Word, y: Word)
    ensures WordOp(AndOp, x, y) == Bitwise(AndOp, x, y)
  {
    hide Bitwise;
  }

  lemma NetworkParts(h: nat, l: nat, k: nat, p: nat, q: nat)
    requires k <= 32 && p == Pow2(32 - k) && q == Pow2(k) && l < p && h < q
    ensures p * h + l >= 0 && p * (q - 1) >= 0 && Bitwise(AndOp, p * h + l, p * (q - 1)) == p * h
  {
    hide *;
    BitwiseSplit(AndOp, h, l, q - 1, 0, 32 - k);
    AndZero(l);
    AndAll(h, k);
  }

  lemma QuotientLess(x: nat, p: nat, q: nat)
    requires p >= 1 && x < p * q
    ensures x / p < q
  {
    var h := x / p;
    assert x == p * h + x % p;
    if h >= q {
      MulMono(q, h, p);
    }
  }

  // ---- validateLanIPAndDHCPConfig.

  /** The verdict, and with a range error about the subnet the range that its message shows. */
  method ValidateLanIPAndDHCPConfig(f: Form) returns (v: Verdict, startValue: Quad, endValue: Quad)
    ensures v == Accepted <==> Acceptable(f)
    ensures v == Hangs <==> NeverEnds(f)
    ensures IsOctets(f.start) && IsOctets(f.end) ==> v == FirstComplaint(f)
    ensures v == StartOutside || v == EndOutside ==> PrefixLength(f.mask) <= 32 && var k := PrefixLength(f.mask);
      && Address(startValue) == Address(Lan(f)) / Pow2(32 - k) * Pow2(32 - k)
      && Address(endValue) == Address(startValue) + Pow2(32 - k) - 1
  {
    hide Bin, Val, Less, HasZeroOne, Pow2, IsPrefixMask, Repeat, RangeInSubnet, OnesAhead;
    hide Address, CheckSubMask, GatewayAllowed, BinaryToIP, SamePrefix, MaskText, CountdownEnds;
    startValue, endValue := Lan(f), Lan(f);
    var lan := Lan(f);
    if !IsOctets(lan) {
      v := LanFormatError;
      return;
    }
    if f.ip3 == 255 || f.ip3 == 0 {
      v := LanLastError;
      return;
    }
    if f.enabled {
      BinValue(lan);
      if !CheckSubMask(f.mask, f.padded) {
        v := MaskError;
        return;
      }
      ghost var k := PrefixLength(f.mask);
      Decide(f, k);
      if IsOctets(f.start) && IsOctets(f.end) {
        StringChecks(f, if k <= 32 then k else 0);
      }
      if f.start == lan || f.end == lan {
        v := EndIsLanError;
        return;
      }
      if f.start.d <= 1 {
        v := StartError;
        return;
      }
      var startBin, endBin, maskBin := Bin(f.start), Bin(f.end), MaskText(f.mask);
      if !Less(startBin, endBin) {
        v := OrderError;
        return;
      }
      var num := 0;
      while num < |maskBin|
        invariant 0 <= num <= |maskBin|
        invariant forall i: nat | i < num :: maskBin[i] == '1'
      {
        if maskBin[num] != '1' {
          break;
        }
        num := num + 1;
      }
      assert num == k;
      CountdownEndsIff(32 - num);
      if num > 32 {
        // while (fillNum) counts 32 - num down and never meets 0.
        v := Hangs;
        return;
      }
      BlockEnds(f, k);
      var ipBin := Bin(lan);
      var fixIP := ipBin[..num];
      var fillNum := 32 - num;
      var start, end := fixIP, fixIP;
      while fillNum > 0
        invariant 0 <= fillNum <= 32 - num
        invariant start == fixIP + Repeat('0', 32 - num - fillNum) && end == fixIP + Repeat('1', 32 - num - fillNum)
      {
        fillNum := fillNum - 1;
        start := start + "0";
        end := end + "1";
        RepeatAppends(32 - num - fillNum - 1);
      }
      startValue, endValue := BinaryToIP(start), BinaryToIP(end);
      if Less(end, startBin) || Less(startBin, start) {
        v := StartOutside;
        return;
      }
      if Less(end, endBin) || Less(endBin, start) {
        v := EndOutside;
        return;
      }
      if !Less(ipBin, startBin) && !Less(endBin, ipBin) {
        v := LanInRange;
        return;
      }
      if !IsOctets(f.start) || !IsOctets(f.end) {
        v := FormatError;
        return;
      }
      var bIpInValid := false;
      if f.gateway != None {
        var gateway := f.gateway.value;
        if gateway == Quad(0, 0, 0, 0) {
          bIpInValid := true;
        } else if gateway.a > 223 || gateway.a < 1 || gateway.a == 127 {
          bIpInValid := true;
        } else if gateway.d == 255 {
          bIpInValid := true;
        } else {
          bIpInValid := !IsOctets(gateway);
        }
      }
      GatewayVerdict(f.gateway, bIpInValid);
      if bIpInValid {
        v := GatewayError;
        return;
      }
      if f.start.d >= f.end.d {
        v := OrderError;
        return;
      }
      if f.start.d <= 1 {
        v := StartError;
        return;
      }
      if f.lease == None || f.lease.value <= 0 || f.lease.value > 10800 {
        v := LeaseError;
        return;
      }
    }
    v := Accepted;
  }

  lemma GatewayVerdict(g: Option<Quad>, invalid: bool)
    requires invalid <==> (g.Some? &&
      (g.value.a > 223 || g.value.a < 1 || g.value.a == 127 || g.value.d == 255 || !IsOctets(g.value)))
    ensures !invalid <==> GatewayAllowed(g)
  {
    hide Address;
    if g.Some? && IsOctets(g.value) {
      GatewayTests(g.value);
    }
  }

  /**
   The usual mask: with 255.255.255.0 and a range in 192.168.ip2.0/24 the form is accepted exactly when the range
   starts at 2 or later, ascends, leaves the LAN address out, and gateway and lease are in bounds.
   */
  lemma ClassCFormAcceptedIff(f: Form)
    requires f.enabled && f.mask == Fields(Quad(255, 255, 255, 0))
    requires f.start == Quad(192, 168, f.ip2, f.start.d) && f.end == Quad(192, 168, f.ip2, f.end.d)
    ensures Acceptable(f) <==>
      && f.ip2 < 256 && 1 <= f.ip3 <= 254
      && 2 <= f.start.d < f.end.d < 256 && (f.ip3 < f.start.d || f.end.d < f.ip3)
      && (f.gateway == None ||
           var g := f.gateway.value;
           && IsOctets(g) && 1 <= g.a <= 223 && g.a != 127 && g.d != 255)
      && f.lease.Some? && 1 <= f.lease.value <= 10800
  {
    ClassCMask(f.padded);
    if f.ip2 < 256 && f.ip3 < 256 {
      ClassCRange(f);
    }
    if f.gateway.Some? && IsOctets(f.gateway.value) {
      GatewayTests(f.gateway.value);
    }
    hide CheckSubMask, PrefixLength, RangeInSubnet, Address;
  }

  lemma ClassCRange(f: Form)
    requires f.ip2 < 256 && f.ip3 < 256
    requires f.start == Quad(192, 168, f.ip2, f.start.d) && f.end == Quad(192, 168, f.ip2, f.end.d)
    ensures RangeInSubnet(f, 24) <==> f.start.d < f.end.d < 256 && (f.ip3 < f.start.d || f.end.d < f.ip3)
  {
    var net := (192 * 256 + 168) * 256 + f.ip2;
    Pow2Values();
    if f.start.d < 256 && f.end.d < 256 {
      NetOf(net, f.start.d);
      NetOf(net, f.end.d);
      NetOf(net, f.ip3);
    }
    hide Pow2;
  }

  lemma NetOf(net: nat, d: nat)
    requires d < 256
    ensures (net * 256 + d) / 256 == net
  {
  }

  lemma ClassCMask(padded: bool)
    ensures var m := Fields(Quad(255, 255, 255, 0)); CheckSubMask(m, padded) && PrefixLength(m) == 24
  {
    hide CheckSubMask, PrefixLength, Pow2;
    var q := Quad(255, 255, 255, 0);
    Pow2Values();
    assert IsPrefixMask(Address(q), 24);
    PrefixIsAccepted(q, padded, 24);
    AcceptedIsPrefix(q, padded);
    var k := PrefixLength(Fields(q));
    if k < 24 {
      Pow2Up(8, 32 - k);
    } else if k > 24 {
      Pow2Up(32 - k, 8);
    }
  }

  /** On octets each string test is its integer test. */
  lemma StringChecks(f: Form, k: nat)
    requires IsOctets(f.start) && IsOctets(f.end) && IsOctets(Lan(f)) && k <= 32 && |Bin(Lan(f))| == 32
    ensures var lan, start, end := Address(Lan(f)), Address(f.start), Address(f.end);
      && (Less(Bin(f.start), Bin(f.end)) <==> start < end)
      && (Less(Bin(Lan(f)), Bin(f.start)) <==> lan < start) && (Less(Bin(f.end), Bin(Lan(f))) <==> end < lan)
      && (InLanBlock(f, Bin(f.start), k) <==> SamePrefix(start, lan, k))
      && (InLanBlock(f, Bin(f.end), k) <==> SamePrefix(end, lan, k))
      && (f.start == Lan(f) <==> start == lan) && (f.end == Lan(f) <==> end == lan)
  {
    hide Bin, Val, Less, Repeat, Pow2, Address;
    var ip, s, e := Bin(Lan(f)), Bin(f.start), Bin(f.end);
    BinValue(Lan(f));
    BinValue(f.start);
    BinValue(f.end);
    LessIsBelow(s, e);
    LessIsBelow(ip, s);
    LessIsBelow(e, ip);
    InBlock(ip, s, k);
    InBlock(ip, e, k);
    AddressInjective(f.start, Lan(f));
    AddressInjective(f.end, Lan(f));
  }

  lemma AddressInjective(p: Quad, q: Quad)
    requires IsOctets(p) && IsOctets(q)
    ensures p == q <==> Address(p) == Address(q)
  {
    LastOctet((p.a * 256 + p.b) * 256 + p.c, p.d, (q.a * 256 + q.b) * 256 + q.c, q.d);
    LastOctet(p.a * 256 + p.b, p.c, q.a * 256 + q.b, q.c);
    LastOctet(p.a, p.b, q.a, q.b);
  }

  lemma LastOctet(x: nat, c: nat, y: nat, d: nat)
    requires c < 256 && d < 256
    ensures x * 256 + c == y * 256 + d <==> x == y && c == d
  {
  }

  lemma RepeatAppends(n: nat)
    ensures Repeat('0', n + 1) == Repeat('0', n) + "0" && Repeat('1', n + 1) == Repeat('1', n) + "1"
  {
  }

  /** The address string lies in the block of the first k bits of the LAN address. */
  predicate InLanBlock(f: Form, s: Binary, k: nat)
    requires k <= 32 && |Bin(Lan(f))| == 32
  {
    var fix := Bin(Lan(f))[..k];
    !Less(fix + Repeat('1', 32 - k), s) && !Less(s, fix + Repeat('0', 32 - k))
  }

  /** The string tests decide acceptance. */
  lemma Decide(f: Form, k: nat)
    requires f.enabled && f.ip2 < 256 && 0 < f.ip3 < 255
    requires CheckSubMask(f.mask, f.padded) && k == PrefixLength(f.mask) && |Bin(Lan(f))| == 32
    ensures Acceptable(f) <==>
      && f.start != Lan(f) && f.end != Lan(f) && 2 <= f.start.d < f.end.d
      && Less(Bin(f.start), Bin(f.end)) && k <= 32
      && InLanBlock(f, Bin(f.start), k) && InLanBlock(f, Bin(f.end), k)
      && (Less(Bin(Lan(f)), Bin(f.start)) || Less(Bin(f.end), Bin(Lan(f))))
      && IsOctets(f.start) && IsOctets(f.end)
      && GatewayAllowed(f.gateway) && f.lease.Some? && 1 <= f.lease.value <= 10800
  {
    hide Bin, Val, Less, HasZeroOne, Repeat, Pow2, InLanBlock, GatewayAllowed, Address, SamePrefix;
    if IsOctets(f.start) && IsOctets(f.end) && k <= 32 {
      StringChecks(f, k);
    }
  }

  lemma BlockEnds(f: Form, k: nat)
    requires k <= 32 && f.ip2 < 256 && f.ip3 < 256 && |Bin(Lan(f))| == 32
    ensures var p := Pow2(32 - k);
            var lo, hi := Bin(Lan(f))[..k] + Repeat('0', 32 - k), Bin(Lan(f))[..k] + Repeat('1', 32 - k);
      && |lo| == 32 == |hi| && Address(BinaryToIP(lo)) == Address(Lan(f)) / p * p
      && Address(BinaryToIP(hi)) == Address(BinaryToIP(lo)) + p - 1
  {
    hide Bin, Val, Less, Repeat, Pow2, BinaryToIP;
    var ip := Bin(Lan(f));
    BinValue(Lan(f));
    InBlock(ip, ip, k);
    BinaryToIPValue(ip[..k] + Repeat('0', 32 - k));
    BinaryToIPValue(ip[..k] + Repeat('1', 32 - k));
  }

  // ---- checkIPScope.

  predicate InScope(ip: Quad, start: Quad, end: Quad) {
    ip.a == start.a && ip.b == start.b && ip.c == start.c && start.d <= ip.d <= end.d
  }

  method CheckIPScope(ip: Quad, startIp: Quad, endIp: Quad) returns (ok: bool)
    ensures ok <==> InScope(ip, startIp, endIp)
  {
    var ipArr, startIps, endIps := Parts(ip), Parts(startIp), Parts(endIp);
    var flag := false;
    var i := 0;
    while i < |startIps|
      invariant 0 <= i <= 4
      invariant !flag && forall j: nat | j < i ::
        if j == 3 then startIps[j] <= ipArr[j] <= endIps[j] else ipArr[j] == startIps[j]
    {
      if i == |startIps| - 1 {
        if ipArr[i] < startIps[i] || ipArr[i] > endIps[i] {
          flag := true;
          break;
        }
      } else if ipArr[i] != startIps[i] {
        flag := true;
        break;
      }
      i := i + 1;
    }
    assert ipArr == [ip.a, ip.b, ip.c, ip.d] && startIps[..3] == [startIp.a, startIp.b, startIp.c];
    assert ipArr[0] == ip.a && ipArr[1] == ip.b && ipArr[2] == ip.c && ipArr[3] == ip.d;
    ok := !flag;
  }

  function Parts(q: Quad): (s: seq<nat>)
    ensures |s| == 4
  {
    [q.a, q.b, q.c, q.d]
  }

  /** With one network for both ends the scope is exactly the range. */
  lemma ScopeIsRangeIff(ip: Quad, s: Quad, e: Quad)
    requires IsOctets(ip) && IsOctets(s) && IsOctets(e) && s.a == e.a && s.b == e.b && s.c == e.c
    ensures InScope(ip, s, e) <==> Address(s) <= Address(ip) <= Address(e)
  {
    var n, m := (s.a * 256 + s.b) * 256 + s.c, (ip.a * 256 + ip.b) * 256 + ip.c;
    LastOctet(s.a * 256 + s.b, s.c, ip.a * 256 + ip.b, ip.c);
    LastOctet(s.a, s.b, ip.a, ip.b);
    assert Address(s) == n * 256 + s.d && Address(e) == n * 256 + e.d && Address(ip) == m * 256 + ip.d;
    hide Address;
    if Address(s) <= Address(ip) <= Address(e) {
      assert m == n;
    }
  }

  /** An address in the scope of an accepted form lies in the range and is not the LAN address. */
  lemma ScopeIsInRange(f: Form, ip: Quad)
    requires Acceptable(f) && f.enabled && InScope(ip, f.start, f.end)
    ensures IsOctets(ip) && Address(f.start) <= Address(ip) <= Address(f.end) && ip != Lan(f)
  {
    var k: nat :| RangeInSubnet(f, k);
    hide *;
    RangeOrder(f, k);
    BetweenEnds(f.start, f.end, ip);
    ScopeOctets(f, ip);
  }

  lemma RangeOrder(f: Form, k: nat)
    requires RangeInSubnet(f, k)
    ensures IsOctets(f.start) && IsOctets(f.end) && Address(f.start) < Address(f.end)
    ensures !(Address(f.start) <= Address(Lan(f)) <= Address(f.end))
  {
    hide Pow2, Address;
  }

  lemma ScopeOctets(f: Form, ip: Quad)
    requires IsOctets(f.start) && IsOctets(f.end) && InScope(ip, f.start, f.end)
    ensures IsOctets(ip)
  {
  }

  lemma BetweenEnds(s: Quad, e: Quad, ip: Quad)
    requires IsOctets(s) && IsOctets(e) && Address(s) < Address(e) && InScope(ip, s, e)
    ensures Address(s) <= Address(ip) <= Address(e)
  {
    var h, g := (s.a * 256 + s.b) * 256 + s.c, (e.a * 256 + e.b) * 256 + e.c;
    assert h <= g;
  }
}
