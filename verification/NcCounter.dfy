/** The request counter of the digest headers in utils.js and webdavobj.js. */
module NcCounter {
  import opened JsWord

  function Digit(n: nat): char
    requires n < 16
  {
    if n < 10 then '0' + n as char else 'A' + (n - 10) as char
  }

  /** What `hex` returns; for numbers of 2^31 and more `>>` wraps around. */
  function HexText(d: int): (h: string)
    ensures h != ""
    decreases if d < 0 then 0 else d
  {
    var low := [Digit(d % 16)];
    if d > 15 then
      ShiftShrinks(d);
      HexText(Sar(d, 4)) + low
    else low
  }

  lemma ShiftShrinks(d: int)
    requires d > 15
    ensures Sar(d, 4) < d && Sar(d, 4) < 0x800_0000
    ensures d < 0x8000_0000 ==> Sar(d, 4) == d / 16
  {
    assert Pow2(4 % 32) == 16 by { Pow2Values(); }
    SignedRange(d);
    SixteenthOf(d, ToInt32(d));
  }

  lemma SignedRange(d: int)
    ensures -0x8000_0000 <= ToInt32(d) < 0x8000_0000 && (0 <= d < 0x8000_0000 ==> ToInt32(d) == d)
    ensures d >= 0 ==> ToInt32(d) <= d
  {
  }

  lemma SixteenthOf(d: int, t: int)
    requires d > 15 && t <= d && t < 0x8000_0000
    ensures t / 16 < d && t / 16 < 0x800_0000
  {
  }

  method Hex(d0: int) returns (h: string)
    ensures h == HexText(d0)
  {
    hide Sar, And, Digit;
    var d := d0;
    LowDigit(d);
    h := [Digit(And(d, 15))];
    while d > 15
      invariant HexText(d0) == if d > 15 then HexText(Sar(d, 4)) + h else h
      decreases if d < 0 then 0 else d
    {
      ShiftShrinks(d);
      d := Sar(d, 4);
      LowDigit(d);
      ghost var before := h;
      h := [Digit(And(d, 15))] + h;
      assert HexText(d) + before == if d > 15 then HexText(Sar(d, 4)) + h else h;
    }
  }

  lemma LowDigit(d: int)
    ensures And(d, 15) == d % 16
  {
    hide And;
    Pow2Values();
    LowBits(d, 4);
  }

  function DigitValue(c: char): nat {
    if '0' <= c <= '9' then c as int - '0' as int
    else if 'A' <= c <= 'F' then c as int - 'A' as int + 10
    else 0
  }

  /** The number that a hexadecimal string spells. */
  function Value(s: string): nat {
    if s == "" then 0 else 16 * Value(s[..|s| - 1]) + DigitValue(s[|s| - 1])
  }

  /** The last 8 characters of ten zeros and the digits. */
  function Nc(count: int): (nc: string)
    ensures |nc| == 8
  {
    var temp := "0000000000" + HexText(count);
    temp[|temp| - 8..]
  }

  lemma ValueAppend(s: string, n: nat)
    requires n < 16
    ensures Value(s + [Digit(n)]) == 16 * Value(s) + n
  {
    assert (s + [Digit(n)])[..|s|] == s;
  }

  lemma {:induction false} HexTextValue(d: nat, k: nat)
    requires d < 0x8000_0000 && k >= 1 && d < Pow2(4 * k)
    ensures Value(HexText(d)) == d && |HexText(d)| <= k
    decreases k
  {
    hide Sar, Digit, Value, Pow2;
    Pow2Values();
    PowZero();
    Pow2Add(4, 4 * (k - 1));
    if d > 15 {
      ShiftShrinks(d);
      HexTextValue(d / 16, k - 1);
      ValueAppend(HexText(d / 16), d % 16);
    } else {
      ValueAppend("", d);
      assert "" + [Digit(d)] == [Digit(d)];
      EmptyValue();
    }
  }

  lemma EmptyValue()
    ensures Value("") == 0
  {
  }

  lemma {:induction false} ValueOfZeros(n: nat, s: string)
    requires n <= 10
    ensures Value("0000000000"[..n] + s) == Value(s)
    decreases |s|
  {
    if s == "" {
      Zeros(n);
      assert "0000000000"[..n] + s == "0000000000"[..n];
    } else {
      var t := "0000000000"[..n] + s;
      assert t[..|t| - 1] == "0000000000"[..n] + s[..|s| - 1];
      ValueOfZeros(n, s[..|s| - 1]);
    }
  }

  lemma {:induction false} Zeros(n: nat)
    requires n <= 10
    ensures Value("0000000000"[..n]) == 0
  {
    if n > 0 {
      Zeros(n - 1);
      assert "0000000000"[..n][..n - 1] == "0000000000"[..n - 1];
    }
  }

  /** Padding and cutting keeps a number of up to eight digits. */
  lemma NcValue(d: int)
    requires |HexText(d)| <= 8
    ensures Value(Nc(d)) == Value(HexText(d))
  {
    hide HexText, Value;
    var h := HexText(d);
    var n := 8 - |h|;
    assert Nc(d) == "0000000000"[..n] + h;
    ValueOfZeros(n, h);
  }

  /** The counter value can be read back exactly below 2^31. */
  lemma NcReadsBack(d: nat)
    ensures Value(Nc(d)) == d <==> d < 0x8000_0000
  {
    hide HexText, Value, Nc;
    Pow2Values();
    if d < 0x8000_0000 {
      HexTextValue(d, 8);
      NcValue(d);
    } else {
      WrappedIsSmall(d);
      NcValue(d);
    }
  }

  lemma WrappedIsSmall(d: nat)
    requires d >= 0x8000_0000
    ensures |HexText(d)| <= 8 && Value(HexText(d)) < 0x8000_0000
  {
    hide Sar, Digit, Value;
    ShiftShrinks(d);
    var e := Sar(d, 4);
    ValueAppend(HexText(e), d % 16);
    if e > 15 {
      Pow2Values();
      Pow2Add(16, 12);
      Pow2Add(8, 4);
      HexTextValue(e, 7);
    } else {
      ValueAppend("", e % 16);
      EmptyValue();
      assert "" + [Digit(e % 16)] == [Digit(e % 16)];
    }
  }

  // ---- The shared counter.

  datatype Request = GetAuthHeader | GetHeader | WebdavGetAuthHeader | Login

  /** How far the first n requests advance the counter: a login sends it without counting. */
  function Advance(requests: seq<Request>, n: nat): (a: nat)
    requires n <= |requests|
    ensures a <= n
  {
    if n == 0 then 0 else Advance(requests, n - 1) + (if requests[n - 1].Login? then 0 else 1)
  }

  class AuthCounter {
    var gnCount: nat

    constructor ()
      ensures gnCount == 1
    {
      gnCount := 1;
    }

    method GetAuthHeader() returns (authcount: string)
      modifies this
      ensures authcount == Nc(old(gnCount)) && gnCount == old(gnCount) + 1
    {
      var strhex := Hex(gnCount);
      var temp := "0000000000" + strhex;
      authcount := temp[|temp| - 8..];
      gnCount := gnCount + 1;
    }

    method GetHeader() returns (authcount: string)
      modifies this
      ensures authcount == Nc(old(gnCount)) && gnCount == old(gnCount) + 1
    {
      var strhex := Hex(gnCount);
      var temp := "0000000000" + strhex;
      authcount := temp[|temp| - 8..];
      gnCount := gnCount + 1;
    }

    method WebdavGetAuthHeader() returns (authcount: string)
      modifies this
      ensures authcount == Nc(old(gnCount)) && gnCount == old(gnCount) + 1
    {
      var strhex := Hex(gnCount);
      var temp := "0000000000" + strhex;
      authcount := temp[|temp| - 8..];
      gnCount := gnCount + 1;
    }

    /** doLogin sends the counter and leaves it as it is. */
    method DoLogin() returns (authcount: string)
      ensures authcount == Nc(gnCount)
    {
      var strhex := Hex(gnCount);
      var temp := "0000000000" + strhex;
      authcount := temp[|temp| - 8..];
    }

    /** Any interleaving of logins and the three header builders. */
    method Serve(requests: seq<Request>) returns (ncs: seq<string>)
      modifies this
      ensures gnCount == old(gnCount) + Advance(requests, |requests|)
      ensures |ncs| == |requests| && forall i: nat | i < |ncs| :: ncs[i] == Nc(old(gnCount) + Advance(requests, i))
    {
      hide Nc;
      ncs := [];
      var i := 0;
      while i < |requests|
        invariant 0 <= i <= |requests| && gnCount == old(gnCount) + Advance(requests, i) && |ncs| == i
        invariant forall j: nat | j < i :: ncs[j] == Nc(old(gnCount) + Advance(requests, j))
      {
        var nc;
        match requests[i] {
          case GetAuthHeader => nc := GetAuthHeader();
          case GetHeader => nc := GetHeader();
          case WebdavGetAuthHeader => nc := WebdavGetAuthHeader();
          case Login => nc := DoLogin();
        }
        ncs := ncs + [nc];
        i := i + 1;
      }
    }
  }

  lemma {:induction false} AdvanceGrows(requests: seq<Request>, i: nat, j: nat)
    requires i < j <= |requests|
    ensures Advance(requests, i) <= Advance(requests, j)
    ensures Advance(requests, i) == Advance(requests, j) <==> forall k: nat | i <= k < j :: requests[k].Login?
    decreases j
  {
    if i < j - 1 {
      AdvanceGrows(requests, i, j - 1);
    }
  }

  /** The values that a run of requests sends, starting from a counter. */
  ghost predicate Sends(count: nat, requests: seq<Request>, ncs: seq<string>) {
    |ncs| == |requests| && forall i: nat | i < |ncs| :: ncs[i] == Nc(count + Advance(requests, i))
  }

  /** Below 2^31 two requests share a value exactly when only logins are sent from the first up to the second. */
  lemma SharedIff(count: nat, requests: seq<Request>, ncs: seq<string>, i: nat, j: nat)
    requires count + |requests| <= 0x8000_0000 && Sends(count, requests, ncs) && i < j < |ncs|
    ensures Value(ncs[i]) <= Value(ncs[j])
    ensures ncs[i] == ncs[j] <==> forall k: nat | i <= k < j :: requests[k].Login?
    ensures Value(ncs[i]) == Value(ncs[j]) <==> ncs[i] == ncs[j]
  {
    hide Nc, Value, Advance;
    AdvanceGrows(requests, i, j);
    NcReadsBack(count + Advance(requests, i));
    NcReadsBack(count + Advance(requests, j));
  }

  /** No request but the last is a login. */
  predicate LoginsLast(requests: seq<Request>) { forall i: nat | i + 1 < |requests| :: !requests[i].Login? }

  /** Below 2^31 the values strictly increase, and are pairwise distinct, exactly when nothing follows a login. */
  lemma NcsIncreaseIff(count: nat, requests: seq<Request>, ncs: seq<string>)
    requires count + |requests| <= 0x8000_0000 && Sends(count, requests, ncs)
    ensures (forall i: nat, j: nat | i < j < |ncs| :: ncs[i] != ncs[j]) <==> LoginsLast(requests)
    ensures (forall i: nat, j: nat | i < j < |ncs| :: Value(ncs[i]) < Value(ncs[j])) <==> LoginsLast(requests)
  {
    hide Sends, Value;
    forall i: nat, j: nat | i < j < |requests|
      ensures |ncs| == |requests| && Value(ncs[i]) <= Value(ncs[j])
      ensures ncs[i] == ncs[j] <==> forall k: nat | i <= k < j :: requests[k].Login?
      ensures Value(ncs[i]) == Value(ncs[j]) <==> ncs[i] == ncs[j]
    {
      SendsLength(count, requests, ncs);
      SharedIff(count, requests, ncs, i, j);
    }
    SendsLength(count, requests, ncs);
    if LoginsLast(requests) {
      forall i: nat, j: nat | i < j < |ncs|
        ensures ncs[i] != ncs[j] && Value(ncs[i]) < Value(ncs[j])
      {
        assert !requests[i].Login?;
      }
    } else {
      var i: nat :| i + 1 < |requests| && requests[i].Login?;
      var j: nat := i + 1;
      assert ncs[i] == ncs[j];
    }
  }

  lemma SendsLength(count: nat, requests: seq<Request>, ncs: seq<string>)
    requires Sends(count, requests, ncs)
    ensures |ncs| == |requests|
  {
  }
}
