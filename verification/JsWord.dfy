/**
 JavaScript's 32-bit operators on integers.  A number is an `int`; every operator
 first reduces its operands to 32 bits, so all of them are total.  The bit pattern
 of a number is a `Word`; the bitwise operations are defined on patterns bit by bit.
 */
module JsWord {
  type Word = x: int | 0 <= x < 0x1_0000_0000

  function Pow2(n: nat): (r: nat)
    ensures r >= 1
  {
    if n == 0 then 1 else 2 * Pow2(n - 1)
  }

  function ToUint32(x: int): Word { x % 0x1_0000_0000 }

  function ToInt32(x: int): int {
    var u := x % 0x1_0000_0000;
    if u >= 0x8000_0000 then u - 0x1_0000_0000 else u
  }

  datatype BitOp = AndOp | OrOp | XorOp

  function OneBit(op: BitOp, x: int, y: int): int {
    match op
    case AndOp => if x == 1 && y == 1 then 1 else 0
    case OrOp => if x == 1 || y == 1 then 1 else 0
    case XorOp => if x != y then 1 else 0
  }

  function Bitwise(op: BitOp, x: nat, y: nat): nat
    decreases x + y
  {
    if x == 0 && y == 0 then 0
    else 2 * Bitwise(op, x / 2, y / 2) + OneBit(op, x % 2, y % 2)
  }

  function WordOp(op: BitOp, x: Word, y: Word): Word {
    Pow2Values();
    BitwiseBound(op, x, y, 32);
    Bitwise(op, x, y)
  }

  function WordNot(x: Word): Word { 0x1_0000_0000 - 1 - x }

  // The operators `&`, `|`, `^`, `~`, `<<`, `>>` and `>>>`.
  function And(x: int, y: int): int { ToInt32(WordOp(AndOp, ToUint32(x), ToUint32(y))) }

  function Or(x: int, y: int): int { ToInt32(WordOp(OrOp, ToUint32(x), ToUint32(y))) }

  function Xor(x: int, y: int): int { ToInt32(WordOp(XorOp, ToUint32(x), ToUint32(y))) }

  function Not(x: int): int { -ToInt32(x) - 1 }

  function Shl(x: int, k: nat): int { ToInt32(ToUint32(x) * Pow2(k % 32)) }

  function Sar(x: int, k: nat): int { ToInt32(x) / Pow2(k % 32) }

  function Shr(x: int, k: nat): int { ToUint32(x) / Pow2(k % 32) }

  lemma Pow2Add(a: nat, b: nat)
    ensures Pow2(a + b) == Pow2(a) * Pow2(b)
  {
    if a == 0 {
    } else {
      Pow2Add(a - 1, b);
      assert Pow2(a + b) == 2 * Pow2(a - 1 + b);
    }
  }

  lemma PowZero()
    ensures Pow2(0) == 1
  {
  }

  lemma Pow2Values()
    ensures Pow2(4) == 16 && Pow2(8) == 256 && Pow2(16) == 65536
    ensures Pow2(31) == 0x8000_0000 && Pow2(32) == 0x1_0000_0000
  {
    assert Pow2(4) == 16;
    Pow2Add(4, 4);
    Pow2Add(8, 8);
    Pow2Add(16, 16);
    assert Pow2(32) == 2 * Pow2(31);
  }

  lemma {:induction false} BitwiseBound(op: BitOp, x: nat, y: nat, n: nat)
    requires x < Pow2(n) && y < Pow2(n)
    ensures Bitwise(op, x, y) < Pow2(n)
  {
    if n > 0 {
      BitwiseBound(op, x / 2, y / 2, n - 1);
    }
  }

  // ---- Division facts the word proofs rest on.

  lemma {:induction false} MulAtLeast(m: nat, k: nat)
    requires k >= 1
    ensures m * k >= m
  {
    if k > 1 {
      MulAtLeast(m, k - 1);
      assert m * k == m * (k - 1) + m;
    }
  }

  lemma MulSign(m: nat, k: int)
    requires k != 0
    ensures m * k >= m || m * -k >= m
  {
    if k >= 1 {
      MulAtLeast(m, k);
    } else {
      MulAtLeast(m, -k);
    }
  }

  lemma ModUnique(x: int, m: int, q: int, r: int)
    requires m > 0 && 0 <= r < m && x == m * q + r
    ensures x % m == r && x / m == q
  {
    var q', r' := x / m, x % m;
    assert x == m * q' + r' && 0 <= r' < m;
    assert m * (q - q') == m * q - m * q';
    var e := q - q';
    assert m * -e == -(m * e);
    if e != 0 {
      MulSign(m, e);
    }
  }

  /** Reducing mod a multiple of p first changes nothing mod p. */
  lemma ModMod(x: int, p: int, r: int)
    requires p >= 1 && r >= 1
    ensures p * r >= 1 && (x % (p * r)) % p == x % p
  {
    MulAtLeast(p, r);
    var q, u := x / (p * r), x % (p * r);
    var v, w := u / p, u % p;
    assert u == p * v + w;
    assert (p * r) * q == p * (r * q);
    assert p * (r * q + v) == p * (r * q) + p * v;
    ModUnique(x, p, r * q + v, w);
  }

  /** ToInt32 moves a number by a multiple of 2^32. */
  lemma Wrap(x: int) returns (k: int)
    ensures ToInt32(x) == x + 0x1_0000_0000 * k
  {
    k := -(x / 0x1_0000_0000) - (if x % 0x1_0000_0000 >= 0x8000_0000 then 1 else 0);
  }

  lemma WrapPattern(x: int)
    ensures ToUint32(ToInt32(x)) == ToUint32(x)
    ensures 0 <= x < 0x8000_0000 ==> ToInt32(x) == x
  {
  }

  // ---- Masks and disjoint unions of bits.

  lemma AndMask(x: nat, k: nat)
    ensures Bitwise(AndOp, x, Pow2(k) - 1) == x % Pow2(k)
  {
    hide *;
    AndParts(x / Pow2(k), x % Pow2(k), k);
  }

  lemma AndParts(h: nat, l: nat, k: nat)
    requires l < Pow2(k)
    ensures Bitwise(AndOp, Pow2(k) * h + l, Pow2(k) - 1) == l
  {
    hide *;
    BitwiseSplit(AndOp, h, l, 0, Pow2(k) - 1, k);
    AndZero(h);
    AndAll(l, k);
    assert Pow2(k) * 0 == 0;
  }

  lemma {:induction false} AndAll(l: nat, k: nat)
    requires l < Pow2(k)
    ensures Bitwise(AndOp, l, Pow2(k) - 1) == l
    decreases k
  {
    if k == 0 {
      assert Bitwise(AndOp, 0, 0) == 0;
    } else {
      AndAll(l / 2, k - 1);
      MaskStep(l, Pow2(k - 1));
    }
  }

  lemma MaskStep(x: nat, p: nat)
    requires p >= 1
    ensures Bitwise(AndOp, x, 2 * p - 1) == 2 * Bitwise(AndOp, x / 2, p - 1) + x % 2
  {
    hide Bitwise;
    HalfStep(AndOp, x, 2 * p - 1);
    assert (2 * p - 1) / 2 == p - 1 && (2 * p - 1) % 2 == 1;
  }

  lemma {:induction false} AndZero(x: nat)
    ensures Bitwise(AndOp, x, 0) == 0
  {
    if x > 0 {
      AndZero(x / 2);
    }
  }

  lemma {:induction false} OrZero(x: nat)
    ensures Bitwise(OrOp, x, 0) == x == Bitwise(OrOp, 0, x)
  {
    if x > 0 {
      OrZero(x / 2);
    }
  }

  lemma {:induction false} OrDisjoint(hi: nat, lo: nat, k: nat)
    requires lo < Pow2(k)
    ensures Bitwise(OrOp, hi * Pow2(k), lo) == hi * Pow2(k) + lo
    ensures Bitwise(OrOp, lo, hi * Pow2(k)) == hi * Pow2(k) + lo
    decreases k
  {
    if k == 0 {
      OrZero(hi);
    } else {
      var p := Pow2(k - 1);
      assert hi * Pow2(k) == 2 * (hi * p);
      OrDisjoint(hi, lo / 2, k - 1);
    }
  }

  lemma OrSum(q: nat, lo: Word, k: nat)
    requires lo < Pow2(k) && q * Pow2(k) < 0x1_0000_0000
    ensures WordOp(OrOp, q * Pow2(k), lo) == q * Pow2(k) + lo == WordOp(OrOp, lo, q * Pow2(k))
  {
    OrDisjoint(q, lo, k);
  }

  lemma LowBits(x: int, k: nat)
    requires k <= 31
    ensures And(x, Pow2(k) - 1) == x % Pow2(k)
  {
    hide *;
    Pow2Small(k);
    AndMask(ToUint32(x), k);
    AndBits(x, Pow2(k) - 1);
    ReduceTwice(x, Pow2(k), Pow2(31 - k));
  }

  lemma AndBits(x: int, y: Word)
    ensures And(x, y) == ToInt32(Bitwise(AndOp, ToUint32(x), y))
  {
    hide Bitwise, ToInt32;
  }

  lemma ReduceTwice(x: int, p: nat, r: nat)
    requires p >= 1 && r >= 1 && p <= 0x8000_0000 == p * r
    ensures ToInt32(ToUint32(x) % p) == x % p
  {
    assert p * (2 * r) == 0x1_0000_0000;
    ModMod(x, p, 2 * r);
    var m := x % p;
    assert 0 <= m < 0x8000_0000;
  }

  lemma Pow2Small(k: nat)
    requires k <= 31
    ensures Pow2(k) <= 0x8000_0000 == Pow2(k) * Pow2(31 - k)
  {
    Pow2Add(k, 31 - k);
    Pow2Values();
    MulAtLeast(Pow2(k), Pow2(31 - k));
  }

  /** A bitwise operation works on the low k bits and the rest separately. */
  lemma {:induction false} BitwiseSplit(op: BitOp, xh: nat, xl: nat, yh: nat, yl: nat, k: nat)
    requires xl < Pow2(k) && yl < Pow2(k)
    ensures Bitwise(op, Pow2(k) * xh + xl, Pow2(k) * yh + yl) == Bitwise(op, xl, yl) + Pow2(k) * Bitwise(op, xh, yh)
    decreases k
  {
    if k == 0 {
      assert Bitwise(op, 0, 0) == 0;
    } else {
      var q := Pow2(k - 1);
      BitwiseSplit(op, xh, xl / 2, yh, yl / 2, k - 1);
      SplitStep(op, xh, xl, yh, yl, q);
    }
  }

  lemma SplitStep(op: BitOp, xh: nat, xl: nat, yh: nat, yl: nat, q: nat)
    requires Bitwise(op, q * xh + xl / 2, q * yh + yl / 2) == Bitwise(op, xl / 2, yl / 2) + q * Bitwise(op, xh, yh)
    ensures Bitwise(op, 2 * q * xh + xl, 2 * q * yh + yl) == Bitwise(op, xl, yl) + 2 * q * Bitwise(op, xh, yh)
  {
    hide *;
    var x, y := q * xh, q * yh;
    HalfStep(op, 2 * x + xl, 2 * y + yl);
    HalfStep(op, xl, yl);
    assert 2 * q * xh == 2 * x && 2 * q * yh == 2 * y;
    assert (2 * x + xl) / 2 == x + xl / 2 && (2 * y + yl) / 2 == y + yl / 2;
    assert 2 * q * Bitwise(op, xh, yh) == 2 * (q * Bitwise(op, xh, yh));
  }

  lemma HalfStep(op: BitOp, x: nat, y: nat)
    ensures Bitwise(op, x, y) == 2 * Bitwise(op, x / 2, y / 2) + OneBit(op, x % 2, y % 2)
  {
  }

  lemma Pattern(x: Word)
    ensures ToUint32(x) == x
  {
  }

  lemma OrValue(q: nat, lo: nat, k: nat)
    requires lo < Pow2(k) && q * Pow2(k) + lo < 0x8000_0000
    ensures Or(q * Pow2(k), lo) == q * Pow2(k) + lo
  {
    hide WordOp, Pow2;
    OrSum(q, lo, k);
    Pattern(q * Pow2(k));
    Pattern(lo);
    WrapPattern(q * Pow2(k) + lo);
  }

  lemma ShlSmall(b: nat, k: nat)
    requires k < 32 && b * Pow2(k) < 0x8000_0000 && b < 0x8000_0000
    ensures Shl(b, k) == b * Pow2(k)
  {
    hide Pow2;
    Pattern(b);
    WrapPattern(b * Pow2(k));
  }
}
