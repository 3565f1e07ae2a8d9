/** The MD5 core of all.js: signed 32-bit words, 16-bit half adds, unrolled rounds. */
module Md5 {
  import opened Basics
  import opened JsWord
  import opened Rfc1321

  function SafeAdd(x: int, y: int): int {
    var lsw := And(x, 65535) + And(y, 65535);
    var msw := Sar(x, 16) + Sar(y, 16) + Sar(lsw, 16);
    Or(Shl(msw, 16), And(lsw, 65535))
  }

  function BitRol(num: int, cnt: nat): int
    requires 0 < cnt < 32
  {
    Or(Shl(num, cnt), Shr(num, 32 - cnt))
  }

  function Md5Cmn(q: int, a: int, b: int, x: int, s: nat, t: int): int
    requires 0 < s < 32
  {
    SafeAdd(BitRol(SafeAdd(SafeAdd(a, q), SafeAdd(x, t)), s), b)
  }

  function Md5Ff(a: int, b: int, c: int, d: int, x: int, s: nat, t: int): int
    requires 0 < s < 32
  {
    Md5Cmn(Or(And(b, c), And(Not(b), d)), a, b, x, s, t)
  }

  function Md5Gg(a: int, b: int, c: int, d: int, x: int, s: nat, t: int): int
    requires 0 < s < 32
  {
    Md5Cmn(Or(And(b, d), And(c, Not(d))), a, b, x, s, t)
  }

  function Md5Hh(a: int, b: int, c: int, d: int, x: int, s: nat, t: int): int
    requires 0 < s < 32
  {
    Md5Cmn(Xor(Xor(b, c), d), a, b, x, s, t)
  }

  function Md5Ii(a: int, b: int, c: int, d: int, x: int, s: nat, t: int): int
    requires 0 < s < 32
  {
    Md5Cmn(Xor(c, Or(b, Not(d))), a, b, x, s, t)
  }

  // ---- safe_add is addition modulo 2^32 and bit_rol is rotation.

  lemma LowHalf(x: int)
    ensures And(x, 65535) == x % 65536
  {
    hide And;
    Pow2Values();
    LowBits(x, 16);
  }

  lemma HighHalf(x: int)
    ensures Sar(x, 16) == ToInt32(x) / 65536
  {
    hide ToInt32;
    Pow2Values();
  }

  lemma ShiftedUp(x: int)
    ensures ToUint32(Shl(x, 16)) == (x % 65536) * 65536
  {
    hide ToInt32, ToUint32;
    Pow2Values();
    UpTo32(x);
  }

  lemma UpTo32(x: int)
    ensures ToUint32(ToInt32(ToUint32(x) * 65536)) == (x % 65536) * 65536
  {
    var v: int := ToUint32(x) * 65536;
    var k := Wrap(v);
    var j: int := x / 0x1_0000_0000;
    ModUnique(ToInt32(v), 0x1_0000_0000, x / 65536 - 65536 * j + k, (x % 65536) * 65536);
  }

  lemma HalfSums(x: int, y: int, lsw: int, msw: int)
    requires lsw == x % 65536 + y % 65536
    requires msw == ToInt32(x) / 65536 + ToInt32(y) / 65536 + ToInt32(lsw) / 65536
    ensures (msw % 65536) * 65536 + lsw % 65536 == ToUint32(x + y)
  {
    hide ToInt32;
    var kx := Wrap(x);
    var ky := Wrap(y);
    WrapPattern(lsw);
    assert ToInt32(x) / 65536 == x / 65536 + 65536 * kx;
    assert ToInt32(y) / 65536 == y / 65536 + 65536 * ky;
    ModUnique(x + y, 0x1_0000_0000, msw / 65536 - kx - ky, (msw % 65536) * 65536 + lsw % 65536);
  }

  lemma BitPatterns(x: int, y: int)
    ensures ToUint32(And(x, y)) == WordOp(AndOp, ToUint32(x), ToUint32(y))
    ensures ToUint32(Or(x, y)) == WordOp(OrOp, ToUint32(x), ToUint32(y))
    ensures ToUint32(Xor(x, y)) == WordOp(XorOp, ToUint32(x), ToUint32(y))
  {
    hide ToInt32, ToUint32, WordOp;
    var u, v := ToUint32(x), ToUint32(y);
    WrapPattern(WordOp(AndOp, u, v));
    WrapPattern(WordOp(OrOp, u, v));
    WrapPattern(WordOp(XorOp, u, v));
    Pattern(WordOp(AndOp, u, v));
    Pattern(WordOp(OrOp, u, v));
    Pattern(WordOp(XorOp, u, v));
  }

  lemma SafeAddIs(x: int, y: int)
    ensures ToUint32(SafeAdd(x, y)) == ToUint32(x + y)
  {
    hide And, Or, Sar, Shl, WordOp, ToInt32, ToUint32;
    var lsw := And(x, 65535) + And(y, 65535);
    var msw := Sar(x, 16) + Sar(y, 16) + Sar(lsw, 16);
    LowHalf(x); LowHalf(y); LowHalf(lsw);
    HighHalf(x); HighHalf(y); HighHalf(lsw);
    ShiftedUp(msw);
    Pattern(lsw % 65536);
    BitPatterns(Shl(msw, 16), And(lsw, 65535));
    Pow2Values();
    OrSum(msw % 65536, lsw % 65536, 16);
    HalfSums(x, y, lsw, msw);
  }

  // Splitting a word at bit 32 - s.
  lemma RotateForm(u: Word, s: nat)
    requires s <= 32
    ensures u % Pow2(32 - s) * Pow2(s) + u / Pow2(32 - s) == RotateLeft(u, s)
    ensures u / Pow2(32 - s) < Pow2(s)
    ensures u % Pow2(32 - s) * Pow2(s) < 0x1_0000_0000
  {
    hide RotateOne;
    if s == 0 {
      Pow2Values();
    } else {
      RotateForm(u, s - 1);
      var q, p := Pow2(32 - s), Pow2(s - 1);
      assert Pow2(33 - s) == 2 * q && Pow2(s) == 2 * p;
      Pow2Add(32 - s, s - 1);
      Pow2Values();
      RotateNext(u, q, p, RotateLeft(u, s - 1));
    }
  }

  lemma RotateNext(u: Word, q: nat, p: nat, r: Word)
    requires q >= 1 && q * p == 0x8000_0000
    requires r == u % (2 * q) * p + u / (2 * q) && u / (2 * q) < p
    ensures RotateOne(r) == u % q * (2 * p) + u / q
    ensures u / q < 2 * p && u % q * (2 * p) < 0x1_0000_0000
  {
    hide RotateOne;
    var b, h, l := SplitBit(u, q);
    RotateStep(q, p, b, h, l, r);
  }

  /** u as h : b : l, where l has the place value below q and b is one bit. */
  lemma SplitBit(u: Word, q: nat) returns (b: nat, h: nat, l: nat)
    requires q >= 1
    ensures b <= 1 && l < q
    ensures u % q == l && u / q == 2 * h + b
    ensures u % (2 * q) == b * q + l && u / (2 * q) == h
  {
    var m := u / q;
    h, b, l := m / 2, m % 2, u % q;
    assert u == q * m + l;
    assert q * m == (2 * q) * h + q * b;
    ModUnique(u, 2 * q, h, q * b + l);
  }

  lemma RotateStep(q: nat, p: nat, b: nat, h: nat, l: nat, r: Word)
    requires q * p == 0x8000_0000 && b <= 1 && h < p && l < q
    requires r == (b * q + l) * p + h
    ensures RotateOne(r) == l * (2 * p) + (2 * h + b)
    ensures 2 * h + b < 2 * p && l * (2 * p) < 0x1_0000_0000
  {
    MulMono(l + 1, q, p);
    assert (l + 1) * p == l * p + p;
    assert (b * q + l) * p == b * (q * p) + l * p;
    assert l * (2 * p) == 2 * (l * p);
    RotateTop(r, b, l * p + h);
  }

  lemma RotateTop(r: Word, b: nat, low: nat)
    requires b <= 1 && low < 0x8000_0000 && r == b * 0x8000_0000 + low
    ensures RotateOne(r) == 2 * low + b
  {
  }

  lemma BitRolIs(num: int, cnt: nat)
    requires 0 < cnt < 32
    ensures ToUint32(BitRol(num, cnt)) == RotateLeft(ToUint32(num), cnt)
  {
    hide *;
    var u := ToUint32(num);
    var q, p := Pow2(32 - cnt), Pow2(cnt);
    var l, h := u % q, u / q;
    RotateForm(u, cnt);
    ShlPattern(num, cnt);
    ShrPattern(num, 32 - cnt);
    BitRolBody(num, cnt);
    BitPatterns(Shl(num, cnt), Shr(num, 32 - cnt));
    OrSum(l, h, cnt);
  }

  lemma BitRolBody(num: int, cnt: nat)
    requires 0 < cnt < 32
    ensures BitRol(num, cnt) == Or(Shl(num, cnt), Shr(num, 32 - cnt))
  {
  }

  lemma ShiftBodies(num: int, k: nat)
    requires 0 < k < 32
    ensures Shr(num, k) == ToUint32(num) / Pow2(k)
    ensures Shl(num, k) == ToInt32(ToUint32(num) * Pow2(k))
  {
    hide ToInt32, ToUint32, Pow2;
  }

  lemma QuotientLe(u: nat, q: nat)
    requires q >= 1
    ensures u / q <= u
  {
    assert u == q * (u / q) + u % q;
    if u / q >= 1 {
      MulAtLeast(u / q, q);
      assert u / q * q == q * (u / q);
    }
  }

  lemma ShrPattern(num: int, k: nat)
    requires 0 < k < 32
    ensures ToUint32(Shr(num, k)) == ToUint32(num) / Pow2(k) == Shr(num, k)
  {
    hide *;
    ShiftBodies(num, k);
    QuotientLe(ToUint32(num), Pow2(k));
    Pattern(ToUint32(num) / Pow2(k));
  }

  lemma ShlPattern(num: int, k: nat)
    requires 0 < k < 32
    ensures ToUint32(Shl(num, k)) == ToUint32(num) % Pow2(32 - k) * Pow2(k)
  {
    hide *;
    ShiftBodies(num, k);
    RotateForm(ToUint32(num), k);
    Pow2Add(32 - k, k);
    Pow2Values();
    WrapPattern(ToUint32(num) * Pow2(k));
    ShiftOut(ToUint32(num), Pow2(32 - k), Pow2(k));
  }

  lemma ShiftOut(u: nat, q: nat, p: nat)
    requires q >= 1 && p >= 1 && q * p == 0x1_0000_0000 && u % q * p < 0x1_0000_0000
    ensures ToUint32(u * p) == u % q * p
  {
    var h, l := u / q, u % q;
    assert u == q * h + l;
    assert u * p == (q * p) * h + l * p;
    ModUnique(u * p, 0x1_0000_0000, h, l * p);
  }

  // ---- Each unrolled line is one operation of the standard on bit patterns.

  lemma CmnIs(q: int, a: int, b: int, x: int, s: nat, t: int)
    requires 0 < s < 32
    ensures ToUint32(Md5Cmn(q, a, b, x, s, t))
         == Operation(ToUint32(q), ToUint32(a), ToUint32(b), ToUint32(x), s, ToUint32(t))
  {
    hide SafeAdd, BitRol, RotateLeft;
    var aq, xt := SafeAdd(a, q), SafeAdd(x, t);
    var sum := SafeAdd(aq, xt);
    SafeAddIs(a, q); SafeAddIs(x, t); SafeAddIs(aq, xt);
    BitRolIs(sum, s);
    SafeAddIs(BitRol(sum, s), b);
    SumPattern(a, q, x, t, aq, xt, sum);
    PlusPattern(BitRol(sum, s), b);
  }

  lemma PlusPattern(x: int, y: int)
    ensures ToUint32(x + y) == ToUint32(ToUint32(x) + ToUint32(y) as int)
  {
  }

  lemma SumPattern(a: int, q: int, x: int, t: int, aq: int, xt: int, sum: int)
    requires ToUint32(aq) == ToUint32(a + q) && ToUint32(xt) == ToUint32(x + t)
    requires ToUint32(sum) == ToUint32(aq + xt)
    ensures ToUint32(sum) == (ToUint32(a) + ToUint32(q) + ToUint32(x) + ToUint32(t)) % 0x1_0000_0000
  {
    PlusPattern(a, q);
    PlusPattern(x, t);
    PlusPattern(aq, xt);
    PlusPattern(ToUint32(a) + ToUint32(q) as int, ToUint32(x) + ToUint32(t) as int);
  }

  lemma NotPattern(x: int)
    ensures ToUint32(Not(x)) == WordNot(ToUint32(x))
  {
  }

  lemma FfIs(a: int, b: int, c: int, d: int, x: int, s: nat, t: int)
    requires 0 < s < 32
    ensures ToUint32(Md5Ff(a, b, c, d, x, s, t))
         == Operation(F(ToUint32(b), ToUint32(c), ToUint32(d)), ToUint32(a), ToUint32(b), ToUint32(x), s, ToUint32(t))
  {
    hide And, Or, Not, WordOp, WordNot, ToUint32, Md5Cmn, Operation;
    CmnIs(Or(And(b, c), And(Not(b), d)), a, b, x, s, t);
    BitPatterns(b, c); BitPatterns(Not(b), d); BitPatterns(And(b, c), And(Not(b), d));
    NotPattern(b);
  }

  lemma GgIs(a: int, b: int, c: int, d: int, x: int, s: nat, t: int)
    requires 0 < s < 32
    ensures ToUint32(Md5Gg(a, b, c, d, x, s, t))
         == Operation(G(ToUint32(b), ToUint32(c), ToUint32(d)), ToUint32(a), ToUint32(b), ToUint32(x), s, ToUint32(t))
  {
    hide And, Or, Not, WordOp, WordNot, ToUint32, Md5Cmn, Operation;
    CmnIs(Or(And(b, d), And(c, Not(d))), a, b, x, s, t);
    BitPatterns(b, d); BitPatterns(c, Not(d)); BitPatterns(And(b, d), And(c, Not(d)));
    NotPattern(d);
  }

  lemma HhIs(a: int, b: int, c: int, d: int, x: int, s: nat, t: int)
    requires 0 < s < 32
    ensures ToUint32(Md5Hh(a, b, c, d, x, s, t))
         == Operation(H(ToUint32(b), ToUint32(c), ToUint32(d)), ToUint32(a), ToUint32(b), ToUint32(x), s, ToUint32(t))
  {
    hide Xor, WordOp, ToUint32, Md5Cmn, Operation;
    CmnIs(Xor(Xor(b, c), d), a, b, x, s, t);
    BitPatterns(b, c); BitPatterns(Xor(b, c), d);
  }

  lemma IiIs(a: int, b: int, c: int, d: int, x: int, s: nat, t: int)
    requires 0 < s < 32
    ensures ToUint32(Md5Ii(a, b, c, d, x, s, t))
         == Operation(I(ToUint32(b), ToUint32(c), ToUint32(d)), ToUint32(a), ToUint32(b), ToUint32(x), s, ToUint32(t))
  {
    hide Xor, Or, Not, WordOp, WordNot, ToUint32, Md5Cmn, Operation;
    CmnIs(Xor(c, Or(b, Not(d))), a, b, x, s, t);
    BitPatterns(b, Not(d)); BitPatterns(c, Or(b, Not(d)));
    NotPattern(d);
  }

  // ---- The unrolled loop body.

  /** Element i of a JavaScript array in a bitwise context: a missing element acts as 0. */
  function At(x: seq<int>, i: nat): int { if i < |x| then x[i] else 0 }

  function BlockAt(x: seq<int>, i: nat): (block: seq<Word>)
    ensures |block| == 16
    ensures forall k: nat {:trigger block[k]} | k < 16 :: block[k] == ToUint32(At(x, i + k))
  {
    seq<Word>(16, k requires 0 <= k < 16 => ToUint32(At(x, i + k)))
  }

  function Pattern4(a: int, b: int, c: int, d: int): Quad {
    Quad(ToUint32(a), ToUint32(b), ToUint32(c), ToUint32(d))
  }

  /** The function that the source calls in step n. */
  function Md5Line(n: nat, a: int, b: int, c: int, d: int, x: int, s: nat, t: int): int
    requires 0 < s < 32
  {
    if n < 16 then Md5Ff(a, b, c, d, x, s, t)
    else if n < 32 then Md5Gg(a, b, c, d, x, s, t)
    else if n < 48 then Md5Hh(a, b, c, d, x, s, t)
    else Md5Ii(a, b, c, d, x, s, t)
  }

  lemma LineIsStep(block: seq<Word>, n: nat, a: int, b: int, c: int, d: int, x: int, t: int)
    requires |block| == 16 && n < 64
    requires ToUint32(x) == block[Index(n)] && ToUint32(t) == Sine(n)
    ensures Step(Pattern4(a, b, c, d), block, n) == Pattern4(d, Md5Line(n, a, b, c, d, x, Shift(n), t), b, c)
  {
    hide Md5Ff, Md5Gg, Md5Hh, Md5Ii, F, G, H, I, Operation, Sine, Index, ToUint32;
    var s := Shift(n);
    if n < 16 {
      FfIs(a, b, c, d, x, s, t);
    } else if n < 32 {
      GgIs(a, b, c, d, x, s, t);
    } else if n < 48 {
      HhIs(a, b, c, d, x, s, t);
    } else {
      IiIs(a, b, c, d, x, s, t);
    }
  }

  /** Four consecutive lines, after which the registers are back in place. */
  lemma FourLines(q: Quad, x: seq<int>, i: nat, n: nat, a: int, b: int, c: int, d: int,
                  t0: int, t1: int, t2: int, t3: int)
    returns (a': int, b': int, c': int, d': int)
    requires n % 4 == 0 && n < 64
    requires Steps(q, BlockAt(x, i), n) == Pattern4(a, b, c, d)
    requires ToUint32(t0) == Sine(n) && ToUint32(t1) == Sine(n + 1)
    requires ToUint32(t2) == Sine(n + 2) && ToUint32(t3) == Sine(n + 3)
    ensures a' == Md5Line(n, a, b, c, d, At(x, i + Index(n)), Shift(n), t0)
    ensures d' == Md5Line(n + 1, d, a', b, c, At(x, i + Index(n + 1)), Shift(n + 1), t1)
    ensures c' == Md5Line(n + 2, c, d', a', b, At(x, i + Index(n + 2)), Shift(n + 2), t2)
    ensures b' == Md5Line(n + 3, b, c', d', a', At(x, i + Index(n + 3)), Shift(n + 3), t3)
    ensures Steps(q, BlockAt(x, i), n + 4) == Pattern4(a', b', c', d')
  {
    hide *;
    a' := OneLine(q, x, i, n, a, b, c, d, t0);
    d' := OneLine(q, x, i, n + 1, d, a', b, c, t1);
    c' := OneLine(q, x, i, n + 2, c, d', a', b, t2);
    b' := OneLine(q, x, i, n + 3, b, c', d', a', t3);
  }

  lemma OneLine(q: Quad, x: seq<int>, i: nat, n: nat, a: int, b: int, c: int, d: int, t: int) returns (r: int)
    requires n < 64 && Steps(q, BlockAt(x, i), n) == Pattern4(a, b, c, d) && ToUint32(t) == Sine(n)
    ensures r == Md5Line(n, a, b, c, d, At(x, i + Index(n)), Shift(n), t)
    ensures Steps(q, BlockAt(x, i), n + 1) == Pattern4(d, r, b, c)
  {
    hide Md5Line, Step, Sine, Index, ToUint32, At, Pattern4, Shift, BlockAt;
    r := Md5Line(n, a, b, c, d, At(x, i + Index(n)), Shift(n), t);
    LineIsStep(BlockAt(x, i), n, a, b, c, d, At(x, i + Index(n)), t);
  }

  method Round1(ghost q: Quad, x: seq<int>, i: nat, a0: int, b0: int, c0: int, d0: int)
    returns (a: int, b: int, c: int, d: int)
    requires Steps(q, BlockAt(x, i), 0) == Pattern4(a0, b0, c0, d0)
    ensures Steps(q, BlockAt(x, i), 16) == Pattern4(a, b, c, d)
  {
    hide Md5Ff, Md5Gg, Md5Hh, Md5Ii, Step, Steps, At, BlockAt, Pattern4;
    a, b, c, d := a0, b0, c0, d0;
    ghost var a1, b1, c1, d1 := FourLines(q, x, i, 0, a, b, c, d, -680876936, -389564586, 606105819, -1044525330);
    a := Md5Ff(a, b, c, d, At(x, i + 0), 7, -680876936);
    d := Md5Ff(d, a, b, c, At(x, i + 1), 12, -389564586);
    c := Md5Ff(c, d, a, b, At(x, i + 2), 17, 606105819);
    b := Md5Ff(b, c, d, a, At(x, i + 3), 22, -1044525330);
    ghost var a2, b2, c2, d2 := FourLines(q, x, i, 4, a, b, c, d, -176418897, 1200080426, -1473231341, -45705983);
    a := Md5Ff(a, b, c, d, At(x, i + 4), 7, -176418897);
    d := Md5Ff(d, a, b, c, At(x, i + 5), 12, 1200080426);
    c := Md5Ff(c, d, a, b, At(x, i + 6), 17, -1473231341);
    b := Md5Ff(b, c, d, a, At(x, i + 7), 22, -45705983);
    ghost var a3, b3, c3, d3 := FourLines(q, x, i, 8, a, b, c, d, 1770035416, -1958414417, -42063, -1990404162);
    a := Md5Ff(a, b, c, d, At(x, i + 8), 7, 1770035416);
    d := Md5Ff(d, a, b, c, At(x, i + 9), 12, -1958414417);
    c := Md5Ff(c, d, a, b, At(x, i + 10), 17, -42063);
    b := Md5Ff(b, c, d, a, At(x, i + 11), 22, -1990404162);
    ghost var a4, b4, c4, d4 := FourLines(q, x, i, 12, a, b, c, d, 1804603682, -40341101, -1502002290, 1236535329);
    a := Md5Ff(a, b, c, d, At(x, i + 12), 7, 1804603682);
    d := Md5Ff(d, a, b, c, At(x, i + 13), 12, -40341101);
    c := Md5Ff(c, d, a, b, At(x, i + 14), 17, -1502002290);
    b := Md5Ff(b, c, d, a, At(x, i + 15), 22, 1236535329);
  }

  method Round2(ghost q: Quad, x: seq<int>, i: nat, a0: int, b0: int, c0: int, d0: int)
    returns (a: int, b: int, c: int, d: int)
    requires Steps(q, BlockAt(x, i), 16) == Pattern4(a0, b0, c0, d0)
    ensures Steps(q, BlockAt(x, i), 32) == Pattern4(a, b, c, d)
  {
    hide Md5Ff, Md5Gg, Md5Hh, Md5Ii, Step, Steps, At, BlockAt, Pattern4;
    a, b, c, d := a0, b0, c0, d0;
    ghost var a1, b1, c1, d1 := FourLines(q, x, i, 16, a, b, c, d, -165796510, -1069501632, 643717713, -373897302);
    a := Md5Gg(a, b, c, d, At(x, i + 1), 5, -165796510);
    d := Md5Gg(d, a, b, c, At(x, i + 6), 9, -1069501632);
    c := Md5Gg(c, d, a, b, At(x, i + 11), 14, 643717713);
    b := Md5Gg(b, c, d, a, At(x, i + 0), 20, -373897302);
    ghost var a2, b2, c2, d2 := FourLines(q, x, i, 20, a, b, c, d, -701558691, 38016083, -660478335, -405537848);
    a := Md5Gg(a, b, c, d, At(x, i + 5), 5, -701558691);
    d := Md5Gg(d, a, b, c, At(x, i + 10), 9, 38016083);
    c := Md5Gg(c, d, a, b, At(x, i + 15), 14, -660478335);
    b := Md5Gg(b, c, d, a, At(x, i + 4), 20, -405537848);
    ghost var a3, b3, c3, d3 := FourLines(q, x, i, 24, a, b, c, d, 568446438, -1019803690, -187363961, 1163531501);
    a := Md5Gg(a, b, c, d, At(x, i + 9), 5, 568446438);
    d := Md5Gg(d, a, b, c, At(x, i + 14), 9, -1019803690);
    c := Md5Gg(c, d, a, b, At(x, i + 3), 14, -187363961);
    b := Md5Gg(b, c, d, a, At(x, i + 8), 20, 1163531501);
    ghost var a4, b4, c4, d4 := FourLines(q, x, i, 28, a, b, c, d, -1444681467, -51403784, 1735328473, -1926607734);
    a := Md5Gg(a, b, c, d, At(x, i + 13), 5, -1444681467);
    d := Md5Gg(d, a, b, c, At(x, i + 2), 9, -51403784);
    c := Md5Gg(c, d, a, b, At(x, i + 7), 14, 1735328473);
    b := Md5Gg(b, c, d, a, At(x, i + 12), 20, -1926607734);
  }

  method Round3(ghost q: Quad, x: seq<int>, i: nat, a0: int, b0: int, c0: int, d0: int)
    returns (a: int, b: int, c: int, d: int)
    requires Steps(q, BlockAt(x, i), 32) == Pattern4(a0, b0, c0, d0)
    ensures Steps(q, BlockAt(x, i), 48) == Pattern4(a, b, c, d)
  {
    hide Md5Ff, Md5Gg, Md5Hh, Md5Ii, Step, Steps, At, BlockAt, Pattern4;
    a, b, c, d := a0, b0, c0, d0;
    ghost var a1, b1, c1, d1 := FourLines(q, x, i, 32, a, b, c, d, -378558, -2022574463, 1839030562, -35309556);
    a := Md5Hh(a, b, c, d, At(x, i + 5), 4, -378558);
    d := Md5Hh(d, a, b, c, At(x, i + 8), 11, -2022574463);
    c := Md5Hh(c, d, a, b, At(x, i + 11), 16, 1839030562);
    b := Md5Hh(b, c, d, a, At(x, i + 14), 23, -35309556);
    ghost var a2, b2, c2, d2 := FourLines(q, x, i, 36, a, b, c, d, -1530992060, 1272893353, -155497632, -1094730640);
    a := Md5Hh(a, b, c, d, At(x, i + 1), 4, -1530992060);
    d := Md5Hh(d, a, b, c, At(x, i + 4), 11, 1272893353);
    c := Md5Hh(c, d, a, b, At(x, i + 7), 16, -155497632);
    b := Md5Hh(b, c, d, a, At(x, i + 10), 23, -1094730640);
    ghost var a3, b3, c3, d3 := FourLines(q, x, i, 40, a, b, c, d, 681279174, -358537222, -722521979, 76029189);
    a := Md5Hh(a, b, c, d, At(x, i + 13), 4, 681279174);
    d := Md5Hh(d, a, b, c, At(x, i + 0), 11, -358537222);
    c := Md5Hh(c, d, a, b, At(x, i + 3), 16, -722521979);
    b := Md5Hh(b, c, d, a, At(x, i + 6), 23, 76029189);
    ghost var a4, b4, c4, d4 := FourLines(q, x, i, 44, a, b, c, d, -640364487, -421815835, 530742520, -995338651);
    a := Md5Hh(a, b, c, d, At(x, i + 9), 4, -640364487);
    d := Md5Hh(d, a, b, c, At(x, i + 12), 11, -421815835);
    c := Md5Hh(c, d, a, b, At(x, i + 15), 16, 530742520);
    b := Md5Hh(b, c, d, a, At(x, i + 2), 23, -995338651);
  }

  method Round4(ghost q: Quad, x: seq<int>, i: nat, a0: int, b0: int, c0: int, d0: int)
    returns (a: int, b: int, c: int, d: int)
    requires Steps(q, BlockAt(x, i), 48) == Pattern4(a0, b0, c0, d0)
    ensures Steps(q, BlockAt(x, i), 64) == Pattern4(a, b, c, d)
  {
    hide Md5Ff, Md5Gg, Md5Hh, Md5Ii, Step, Steps, At, BlockAt, Pattern4;
    a, b, c, d := a0, b0, c0, d0;
    ghost var a1, b1, c1, d1 := FourLines(q, x, i, 48, a, b, c, d, -198630844, 1126891415, -1416354905, -57434055);
    a := Md5Ii(a, b, c, d, At(x, i + 0), 6, -198630844);
    d := Md5Ii(d, a, b, c, At(x, i + 7), 10, 1126891415);
    c := Md5Ii(c, d, a, b, At(x, i + 14), 15, -1416354905);
    b := Md5Ii(b, c, d, a, At(x, i + 5), 21, -57434055);
    ghost var a2, b2, c2, d2 := FourLines(q, x, i, 52, a, b, c, d, 1700485571, -1894986606, -1051523, -2054922799);
    a := Md5Ii(a, b, c, d, At(x, i + 12), 6, 1700485571);
    d := Md5Ii(d, a, b, c, At(x, i + 3), 10, -1894986606);
    c := Md5Ii(c, d, a, b, At(x, i + 10), 15, -1051523);
    b := Md5Ii(b, c, d, a, At(x, i + 1), 21, -2054922799);
    ghost var a3, b3, c3, d3 := FourLines(q, x, i, 56, a, b, c, d, 1873313359, -30611744, -1560198380, 1309151649);
    a := Md5Ii(a, b, c, d, At(x, i + 8), 6, 1873313359);
    d := Md5Ii(d, a, b, c, At(x, i + 15), 10, -30611744);
    c := Md5Ii(c, d, a, b, At(x, i + 6), 15, -1560198380);
    b := Md5Ii(b, c, d, a, At(x, i + 13), 21, 1309151649);
    ghost var a4, b4, c4, d4 := FourLines(q, x, i, 60, a, b, c, d, -145523070, -1120210379, 718787259, -343485551);
    a := Md5Ii(a, b, c, d, At(x, i + 4), 6, -145523070);
    d := Md5Ii(d, a, b, c, At(x, i + 11), 10, -1120210379);
    c := Md5Ii(c, d, a, b, At(x, i + 2), 15, 718787259);
    b := Md5Ii(b, c, d, a, At(x, i + 9), 21, -343485551);
  }
}
