/** The percent decoder of webdavobj.js and the encoding it should undo. */
module NameCodec {
  import opened Basics
  import opened JsWord
  import opened JsText

  // ---- The decoder.

  function Utf8ToChineseChar(t: Text): CodeUnit {
    var iCode, iCode1, iCode2 := HexPrefix(SubStr(t, 1, 2)), HexPrefix(SubStr(t, 4, 2)), HexPrefix(SubStr(t, 7, 2));
    ToUint32(Or(Or(Shl(And(iCode, 0x0F), 12), Shl(And(iCode1, 0x3F), 6)), And(iCode2, 0x3F))) % 0x1_0000
  }

  function Utf8ToSpecificChar(t: Text): CodeUnit {
    HexPrefix(SubStr(t, 1, 2)) % 0x1_0000
  }

  function Utf8ToSymbol(t: Text): Text
    decreases |t|
  {
    match IndexOf(t, [PERCENT])
    case None => t
    case Some(n) =>
      if |t| - n < 3 then t[..n]
      else t[..n] + [Utf8ToSpecificChar(t[n..n + 3])] + Utf8ToSymbol(t[n + 3..])
  }

  method Utf8ToSymbolChar(str: Text) returns (r: Text)
    ensures r == Utf8ToSymbol(str)
  {
    hide IndexOf, Utf8ToSpecificChar;
    var strUtf8 := str;
    var bstr: Text := [];
    var nOffset := IndexOf(strUtf8, [PERCENT]);
    if nOffset == None {
      return strUtf8;
    }
    while nOffset != None
      invariant nOffset == IndexOf(strUtf8, [PERCENT])
      invariant Utf8ToSymbol(str) == bstr + Utf8ToSymbol(strUtf8)
      decreases |strUtf8|
    {
      ghost var t, n := strUtf8, nOffset.value;
      bstr := bstr + strUtf8[..nOffset.value];
      strUtf8 := strUtf8[nOffset.value..];
      if strUtf8 == [] || |strUtf8| < 3 {
        return bstr;
      }
      assert t[n..n + 3] == strUtf8[..3] && t[n + 3..] == strUtf8[3..];
      bstr := bstr + [Utf8ToSpecificChar(strUtf8[..3])];
      strUtf8 := strUtf8[3..];
      nOffset := IndexOf(strUtf8, [PERCENT]);
    }
    return bstr + strUtf8;
  }

  /** Where the next three-byte group is sought: any `%e` before any `%E`. */
  function NextTriple(t: Text): (r: Option<nat>)
    ensures r.Some? ==> r.value + 2 <= |t|
  {
    var low := IndexOf(t, [PERCENT, LOWER_E]);
    if low.Some? then low else IndexOf(t, [PERCENT, UPPER_E])
  }

  /** The first phase: `Cut` is the early return on a truncated group. */
  datatype Phase = Whole(text: Text) | Cut(text: Text)

  function Prepend(p: Text, r: Phase): Phase {
    match r case Whole(t) => Whole(p + t) case Cut(t) => Cut(p + t)
  }

  function Triples(t: Text): Phase
    decreases |t|
  {
    match NextTriple(t)
    case None => Whole(t)
    case Some(n) =>
      if |t| - n < 9 then Cut(t[..n])
      else Prepend(t[..n] + [Utf8ToChineseChar(t[n..n + 9])], Triples(t[n + 9..]))
  }

  function Decode(t: Text): Text {
    match Triples(t) case Cut(r) => r case Whole(r) => Utf8ToSymbol(r)
  }

  method Utf8ToChar(str: Text) returns (r: Text)
    ensures r == Decode(str)
  {
    hide Utf8ToChineseChar, IndexOf;
    var strUtf8 := str;
    var bstr: Text := [];
    if strUtf8 == [] {
      EmptyDecodes();
      return [];
    }
    var nOffset := IndexOf(strUtf8, [PERCENT, LOWER_E]);
    if nOffset == None {
      nOffset := IndexOf(strUtf8, [PERCENT, UPPER_E]);
      if nOffset == None {
        r := Utf8ToSymbolChar(strUtf8);
        return;
      }
    }
    while nOffset != None
      invariant nOffset == NextTriple(strUtf8)
      invariant Triples(str) == Prepend(bstr, Triples(strUtf8))
      decreases |strUtf8|
    {
      ghost var t, n, b := strUtf8, nOffset.value, bstr;
      bstr := bstr + strUtf8[..nOffset.value];
      strUtf8 := strUtf8[nOffset.value..];
      if strUtf8 == [] || |strUtf8| < 9 {
        return bstr;
      }
      assert t[n..n + 9] == strUtf8[..9] && t[n + 9..] == strUtf8[9..];
      bstr := bstr + [Utf8ToChineseChar(strUtf8[..9])];
      PrependTwice(b, t[..n] + [Utf8ToChineseChar(strUtf8[..9])], Triples(strUtf8[9..]));
      assert bstr == b + (t[..n] + [Utf8ToChineseChar(t[n..n + 9])]);
      strUtf8 := strUtf8[9..];
      nOffset := IndexOf(strUtf8, [PERCENT, LOWER_E]);
      if nOffset == None {
        nOffset := IndexOf(strUtf8, [PERCENT, UPPER_E]);
      }
    }
    r := Utf8ToSymbolChar(bstr + strUtf8);
  }

  lemma EmptyDecodes()
    ensures Decode([]) == []
  {
  }

  lemma PrependTwice(p: Text, q: Text, r: Phase)
    ensures Prepend(p, Prepend(q, r)) == Prepend(p + q, r)
  {
    assert p + (q + r.text) == p + q + r.text;
  }

  // ---- Percent-encoded text as tokens.

  /** A plain unit, one escaped byte, or the three escaped UTF-8 bytes of a unit. */
  datatype Token = Lit(c: CodeUnit) | Esc(b: nat) | Tri(c: CodeUnit)

  /** Tokens that keep `%E` for the lead byte of a three-byte group. */
  predicate Plain(k: Token) {
    match k
    case Lit(c) => c != PERCENT
    case Esc(b) => b < 256 && b / 16 != 14
    case Tri(c) => c >= 0x800
  }

  predicate AllPlain(ks: seq<Token>) { forall i: nat | i < |ks| :: Plain(ks[i]) }

  function Escape(b: nat): Text
    requires b < 256
  {
    [PERCENT, HexUpper(b / 16), HexUpper(b % 16)]
  }

  /** The UTF-8 bytes of a unit from U+0800 on. */
  function Utf8Byte(c: CodeUnit, i: nat): nat
    ensures Utf8Byte(c, i) < 256
  {
    if i == 0 then 0xE0 + c / 0x1000 else if i == 1 then 0x80 + c / 0x40 % 0x40 else 0x80 + c % 0x40
  }

  function Spell(k: Token): Text
    requires Plain(k)
  {
    match k
    case Lit(c) => [c]
    case Esc(b) => Escape(b)
    case Tri(c) => Escape(Utf8Byte(c, 0)) + Escape(Utf8Byte(c, 1)) + Escape(Utf8Byte(c, 2))
  }

  function SpellAll(ks: seq<Token>): Text
    requires AllPlain(ks)
  {
    if ks == [] then [] else Spell(ks[0]) + SpellAll(ks[1..])
  }

  function Unit(k: Token): CodeUnit {
    match k case Lit(c) => c case Esc(b) => b % 0x1_0000 case Tri(c) => c
  }

  function Units(ks: seq<Token>): (r: Text)
    ensures |r| == |ks|
  {
    if ks == [] then [] else [Unit(ks[0])] + Units(ks[1..])
  }

  // ---- The decoder on tokens.

  // One unfolding of each phase at the group it finds.
  lemma SymbolFinds(t: Text, n: nat)
    requires IndexOf(t, [PERCENT]) == Some(n)
    ensures n < |t|
    ensures |t| - n < 3 ==> Utf8ToSymbol(t) == t[..n]
    ensures |t| - n >= 3 ==> Utf8ToSymbol(t) == t[..n] + [Utf8ToSpecificChar(t[n..n + 3])] + Utf8ToSymbol(t[n + 3..])
  {
    hide Utf8ToSpecificChar;
  }

  lemma TriplesFinds(t: Text, n: nat)
    requires NextTriple(t) == Some(n)
    ensures n + 2 <= |t|
    ensures |t| - n < 9 ==> Triples(t) == Cut(t[..n])
    ensures |t| - n >= 9 ==> Triples(t) == Prepend(t[..n] + [Utf8ToChineseChar(t[n..n + 9])], Triples(t[n + 9..]))
  {
    hide Utf8ToChineseChar, Prepend;
  }

  lemma NothingFound(t: Text)
    ensures IndexOf(t, [PERCENT]) == None ==> Utf8ToSymbol(t) == t
    ensures NextTriple(t) == None ==> Triples(t) == Whole(t)
  {
  }

  lemma SingleAt(c: CodeUnit, t: Text)
    requires c != PERCENT
    ensures IndexOf([c] + t, [PERCENT]) == match IndexOf(t, [PERCENT]) case None => None case Some(n) => Some(n + 1)
  {
    assert ([c] + t)[1..] == t;
    SinglePrefix([c] + t, PERCENT);
  }

  lemma SinglePrefix(t: Text, a: CodeUnit)
    ensures [a] <= t <==> |t| >= 1 && t[0] == a
  {
  }

  /** A unit that starts no escape is copied by both phases. */
  lemma SymbolSkips(c: CodeUnit, t: Text)
    requires c != PERCENT
    ensures Utf8ToSymbol([c] + t) == [c] + Utf8ToSymbol(t)
  {
    hide Utf8ToSymbol, Utf8ToSpecificChar, IndexOf;
    var s := [c] + t;
    SingleAt(c, t);
    NothingFound(t);
    NothingFound(s);
    match IndexOf(t, [PERCENT])
    case None =>
    case Some(n) =>
      SymbolFinds(t, n);
      SymbolFinds(s, n + 1);
      if |t| - n >= 3 {
        ShiftSlices(c, t, n, 3);
        var d := [Utf8ToSpecificChar(t[n..n + 3])];
        Regroup([c], t[..n], d, Utf8ToSymbol(t[n + 3..]));
      } else {
        ShiftSlices(c, t, n, 0);
      }
  }

  lemma Regroup(a: Text, b: Text, c: Text, d: Text)
    ensures a + b + c + d == a + (b + c + d)
  {
  }

  lemma ShiftSlices(c: CodeUnit, t: Text, n: nat, len: nat)
    requires n + len <= |t|
    ensures ([c] + t)[..n + 1] == [c] + t[..n]
    ensures ([c] + t)[n + 1..n + 1 + len] == t[n..n + len]
    ensures ([c] + t)[n + 1 + len..] == t[n + len..]
  {
  }

  // ---- Escapes in either case of their digits.

  /** A percent sign and the two digits of a byte, each in either case. */
  predicate SpellsByte(e: Text, b: nat) {
    |e| == 3 && e[0] == PERCENT && HexValue(e[1]) == Some(b / 16) && HexValue(e[2]) == Some(b % 16)
  }

  predicate Spells(t: Text, k: Token) {
    match k
    case Lit(c) => t == [c]
    case Esc(b) => SpellsByte(t, b)
    case Tri(c) =>
      && |t| == 9 && SpellsByte(t[..3], Utf8Byte(c, 0)) && SpellsByte(t[3..6], Utf8Byte(c, 1))
      && SpellsByte(t[6..], Utf8Byte(c, 2))
  }

  lemma EscapeSpells(b: nat)
    requires b < 256
    ensures SpellsByte(Escape(b), b)
  {
  }

  lemma ByteShape(e: Text, b: nat)
    requires SpellsByte(e, b)
    ensures HexPrefix(SubStr(e, 1, 2)) == b
    ensures |e| == 3 && e[0] == PERCENT && e[1] != PERCENT && e[2] != PERCENT
    ensures e[1] == UPPER_E || e[1] == LOWER_E <==> b / 16 == 14
  {
    var x, y := e[1], e[2];
    assert SubStr(e, 1, 2) == [x, y];
    assert [x, y][1..] == [y] && [y][1..] == [];
    assert HexPrefixFrom([x, y], 0) == HexPrefixFrom([y], b / 16) == HexPrefixFrom([], b);
  }

  /** The second phase reads an escape back as its byte. */
  lemma SymbolReadsEscape(e: Text, b: nat, t: Text)
    requires SpellsByte(e, b)
    ensures b < 256 && Utf8ToSymbol(e + t) == [b] + Utf8ToSymbol(t)
  {
    hide HexPrefix, SubStr, SpellsByte;
    ByteShape(e, b);
    ByteSmall(e, b);
    var s := e + t;
    assert [PERCENT] <= s;
    assert IndexOf(s, [PERCENT]) == Some(0);
    assert s[0..3] == e && s[3..] == t && s[..0] == [];
  }

  lemma ByteSmall(e: Text, b: nat)
    requires SpellsByte(e, b)
    ensures b < 256
  {
  }

  predicate StartsTriple(c: CodeUnit, t: Text) {
    c == PERCENT && t != [] && (t[0] == LOWER_E || t[0] == UPPER_E)
  }

  lemma PairAt(c: CodeUnit, t: Text, d: CodeUnit)
    requires !(c == PERCENT && t != [] && t[0] == d)
    ensures IndexOf([c] + t, [PERCENT, d])
        == match IndexOf(t, [PERCENT, d]) case None => None case Some(n) => Some(n + 1)
  {
    assert ([c] + t)[1..] == t;
    PairPrefix([c] + t, PERCENT, d);
  }

  lemma NextSkips(c: CodeUnit, t: Text)
    requires !(c == PERCENT && t != [] && t[0] == LOWER_E)
    requires !StartsTriple(c, t) || IndexOf(t, [PERCENT, LOWER_E]).Some?
    ensures NextTriple([c] + t) == match NextTriple(t) case None => None case Some(n) => Some(n + 1)
    ensures IndexOf([c] + t, [PERCENT, LOWER_E]).Some? <==> IndexOf(t, [PERCENT, LOWER_E]).Some?
  {
    hide IndexOf;
    PairAt(c, t, LOWER_E);
    if !StartsTriple(c, t) {
      PairAt(c, t, UPPER_E);
    }
  }

  /** A unit is copied where no group starts, or where only `%E` does while a `%e` is still ahead. */
  lemma TriplesSkip(c: CodeUnit, t: Text)
    requires !(c == PERCENT && t != [] && t[0] == LOWER_E)
    requires !StartsTriple(c, t) || IndexOf(t, [PERCENT, LOWER_E]).Some?
    ensures Triples([c] + t) == Prepend([c], Triples(t))
  {
    hide IndexOf, Utf8ToChineseChar, Triples, Prepend, NextTriple;
    NextSkips(c, t);
    var s := [c] + t;
    NothingFound(t);
    NothingFound(s);
    PrependBodies([c], t);
    match NextTriple(t)
    case None =>
    case Some(n) =>
      TriplesFinds(t, n);
      TriplesFinds(s, n + 1);
      PrependBodies([c], t[..n]);
      ShiftSlices(c, t, n, if |t| - n >= 9 then 9 else 0);
      if |t| - n >= 9 {
        var d := [Utf8ToChineseChar(t[n..n + 9])];
        PrependTwice([c], t[..n] + d, Triples(t[n + 9..]));
        Assoc([c], t[..n], d);
      }
  }

  lemma PrependBodies(p: Text, t: Text)
    ensures Prepend(p, Whole(t)) == Whole(p + t) && Prepend(p, Cut(t)) == Cut(p + t)
  {
  }

  lemma PairPrefix(t: Text, a: CodeUnit, b: CodeUnit)
    ensures [a, b] <= t <==> |t| >= 2 && t[0] == a && t[1] == b
  {
  }

  /** No `%` before a given unit, and none at the end. */
  predicate Without(p: Text, d: CodeUnit) {
    && (p != [] ==> p[|p| - 1] != PERCENT)
    && forall i: nat | i + 1 < |p| :: !(p[i] == PERCENT && p[i + 1] == d)
  }

  /** A text without `%e` is copied when it has no `%E` either or a `%e` comes after it. */
  lemma {:induction false} TriplesSkipText(p: Text, t: Text)
    requires Without(p, LOWER_E) && (Without(p, UPPER_E) || IndexOf(t, [PERCENT, LOWER_E]).Some?)
    ensures Triples(p + t) == Prepend(p, Triples(t))
    ensures IndexOf(p + t, [PERCENT, LOWER_E]).Some? <==> IndexOf(t, [PERCENT, LOWER_E]).Some?
    decreases |p|
  {
    hide IndexOf, Triples, Prepend;
    if p == [] {
      assert p + t == t;
      PrependNothing(Triples(t));
    } else {
      var c, q := p[0], p[1..];
      assert p == [c] + q && p + t == [c] + (q + t);
      assert forall i: nat | i < |q| :: q[i] == p[i + 1];
      TriplesSkipText(q, t);
      TriplesSkip(c, q + t);
      NextSkips(c, q + t);
      PrependTwice([c], q, Triples(t));
    }
  }

  lemma PrependNothing(r: Phase)
    ensures Prepend([], r) == r
  {
    assert [] + r.text == r.text;
  }

  /** The three escapes of a unit. */
  lemma GroupShape(g: Text, c: CodeUnit)
    requires c >= 0x800 && Spells(g, Tri(c))
    ensures |g| == 9 && g[0] == PERCENT && (g[1] == UPPER_E || g[1] == LOWER_E)
    ensures SubStr(g, 1, 2) == SubStr(g[..3], 1, 2) && SubStr(g, 4, 2) == SubStr(g[3..6], 1, 2)
    ensures SubStr(g, 7, 2) == SubStr(g[6..], 1, 2)
    ensures g[1] == UPPER_E ==> Without(g, LOWER_E)
  {
    hide HexPrefix;
    ByteShape(g[..3], Utf8Byte(c, 0));
    ByteShape(g[3..6], Utf8Byte(c, 1));
    ByteShape(g[6..], Utf8Byte(c, 2));
    assert g == [g[0], g[1], g[2], g[3], g[4], g[5], g[6], g[7], g[8]];
    assert g[..3][1] == g[1] && g[3..6][1] == g[4] && g[6..][1] == g[7];
    assert g[..3][2] == g[2] && g[3..6][2] == g[5] && g[6..][2] == g[8];
  }

  lemma ChineseIs(x: nat, y: nat, z: nat)
    requires x < 256 && y < 256 && z < 256
    ensures ToUint32(Or(Or(Shl(And(x, 0x0F), 12), Shl(And(y, 0x3F), 6)), And(z, 0x3F)))
         == x % 16 * 0x1000 + y % 64 * 0x40 + z % 64
  {
    hide *;
    assert Pow2(4) == 16 && Pow2(6) == 64 && Pow2(12) == 0x1000 by { Powers(); }
    LowBits(x, 4);
    LowBits(y, 6);
    LowBits(z, 6);
    ShlSmall(x % 16, 12);
    ShlSmall(y % 64, 6);
    OrValue(x % 16, y % 64 * 0x40, 12);
    OrValue(x % 16 * 0x40 + y % 64, z % 64, 6);
    Pattern(x % 16 * 0x1000 + y % 64 * 0x40 + z % 64);
  }

  lemma Powers()
    ensures Pow2(4) == 16 && Pow2(6) == 64 && Pow2(12) == 0x1000
  {
    assert Pow2(4) == 16 && Pow2(6) == 64;
    Pow2Add(6, 6);
  }

  lemma ChineseReadsTri(g: Text, c: CodeUnit)
    requires c >= 0x800 && Spells(g, Tri(c))
    ensures Utf8ToChineseChar(g) == c
  {
    hide HexPrefix, SubStr, SpellsByte, And, Or, Shl;
    GroupShape(g, c);
    var x, y, z := Utf8Byte(c, 0), Utf8Byte(c, 1), Utf8Byte(c, 2);
    ByteShape(g[..3], x);
    ByteShape(g[3..6], y);
    ByteShape(g[6..], z);
    ChineseIs(x, y, z);
    assert x % 16 == c / 0x1000 && y % 64 == c / 0x40 % 0x40 && z % 64 == c % 0x40;
    assert c == c / 0x1000 * 0x1000 + c / 0x40 % 0x40 * 0x40 + c % 0x40 by { ThreeParts(c); }
  }

  lemma ThreeParts(c: CodeUnit)
    ensures c == c / 0x1000 * 0x1000 + c / 0x40 % 0x40 * 0x40 + c % 0x40
  {
    assert c / 0x1000 == c / 0x40 / 0x40;
  }

  /** A group is read where it is found: at once with `%e`, and with `%E` when no `%e` is ahead. */
  lemma TriplesReadTri(g: Text, c: CodeUnit, t: Text)
    requires c >= 0x800 && Spells(g, Tri(c)) && (g[1] == LOWER_E || IndexOf(t, [PERCENT, LOWER_E]) == None)
    ensures Triples(g + t) == Prepend([c], Triples(t))
    ensures g[1] == LOWER_E ==> IndexOf(g + t, [PERCENT, LOWER_E]).Some?
  {
    hide Utf8ToChineseChar, Spells;
    var s := g + t;
    GroupShape(g, c);
    ChineseReadsTri(g, c);
    if g[1] == LOWER_E {
      assert [PERCENT, LOWER_E] <= s;
      assert IndexOf(s, [PERCENT, LOWER_E]) == Some(0);
    } else {
      NoneJoins(g, t);
      assert [PERCENT, UPPER_E] <= s;
      assert IndexOf(s, [PERCENT, UPPER_E]) == Some(0);
    }
    assert s[0..9] == g && s[9..] == t && s[..0] == [];
    assert [] + [c] == [c];
  }

  lemma {:induction false} NoneJoins(p: Text, t: Text)
    requires Without(p, LOWER_E) && IndexOf(t, [PERCENT, LOWER_E]) == None
    ensures IndexOf(p + t, [PERCENT, LOWER_E]) == None
    decreases |p|
  {
    hide IndexOf;
    if p == [] {
      assert p + t == t;
    } else {
      var q := p[1..];
      assert p + t == [p[0]] + (q + t);
      assert forall i: nat | i < |q| :: q[i] == p[i + 1];
      NoneJoins(q, t);
      PairAt(p[0], q + t, LOWER_E);
    }
  }

  // ---- Whole texts: ts[i] spells token ks[i].

  ghost predicate AllSpell(ts: seq<Text>, ks: seq<Token>) {
    |ts| == |ks| && AllPlain(ks) && forall i: nat | i < |ks| :: Spells(ts[i], ks[i])
  }

  function Joined(ts: seq<Text>): Text {
    if ts == [] then [] else ts[0] + Joined(ts[1..])
  }

  /** Some group starts with `%e`, or what follows the tokens has a `%e`. */
  predicate LowAhead(ts: seq<Text>, ks: seq<Token>, more: bool)
    requires |ts| == |ks|
  {
    if ks == [] then more else (ks[0].Tri? && Low(ts[0])) || LowAhead(ts[1..], ks[1..], more)
  }

  predicate Low(t: Text) { |t| > 1 && t[1] == LOWER_E }

  /** Whether the first phase replaces the first token: a group with `%e`, or with `%E` and no `%e` ahead. */
  predicate Replaced(ts: seq<Text>, ks: seq<Token>, more: bool)
    requires |ts| == |ks| > 0
  {
    ks[0].Tri? && (Low(ts[0]) || !LowAhead(ts[1..], ks[1..], more))
  }

  /** The texts after the first phase. */
  function Remaining(ts: seq<Text>, ks: seq<Token>, more: bool): (r: seq<Text>)
    requires |ts| == |ks|
  {
    if ks == [] then []
    else [if Replaced(ts, ks, more) then [ks[0].c] else ts[0]] + Remaining(ts[1..], ks[1..], more)
  }

  /** What a token comes out as: the bytes of a group that the first phase left to the second. */
  function ReadOne(k: Token, replaced: bool): Text {
    if k.Tri? && !replaced then [Utf8Byte(k.c, 0), Utf8Byte(k.c, 1), Utf8Byte(k.c, 2)] else [Unit(k)]
  }

  function Read(ts: seq<Text>, ks: seq<Token>, more: bool): Text
    requires |ts| == |ks|
  {
    if ks == [] then [] else ReadOne(ks[0], Replaced(ts, ks, more)) + Read(ts[1..], ks[1..], more)
  }

  lemma AllSpellTail(ts: seq<Text>, ks: seq<Token>)
    requires AllSpell(ts, ks)
    ensures |ts| == |ks|
    ensures ks != [] ==> AllSpell(ts[1..], ks[1..]) && Plain(ks[0]) && Spells(ts[0], ks[0])
  {
    hide Spells, Plain;
  }

  /** An escape is copied by the first phase. */
  lemma EscapeSkips(e: Text, b: nat)
    requires SpellsByte(e, b) && b / 16 != 14
    ensures Without(e, LOWER_E) && Without(e, UPPER_E)
  {
    ByteShape(e, b);
  }

  /** The first phase replaces exactly those groups, and goes on with what follows the tokens. */
  lemma {:induction false} TriplesOfTokens(ts: seq<Text>, ks: seq<Token>, tail: Text, more: bool)
    requires AllSpell(ts, ks) && (more <==> IndexOf(tail, [PERCENT, LOWER_E]).Some?)
    ensures Triples(Joined(ts) + tail) == Prepend(Joined(Remaining(ts, ks, more)), Triples(tail))
    ensures IndexOf(Joined(ts) + tail, [PERCENT, LOWER_E]).Some? <==> LowAhead(ts, ks, more)
    decreases |ks|
  {
    hide Triples, Prepend, IndexOf, SpellsByte, Without, AllSpell;
    AllSpellTail(ts, ks);
    if ks == [] {
      assert [] + tail == tail;
      PrependNothing(Triples(tail));
    } else {
      var g, t, rest := ts[0], Joined(ts[1..]) + tail, Joined(Remaining(ts[1..], ks[1..], more));
      TriplesOfTokens(ts[1..], ks[1..], tail, more);
      PrependTwice(g, rest, Triples(tail));
      assert Joined(ts) + tail == g + t;
      match ks[0]
      case Lit(c) =>
        LiteralSkips(c);
        TriplesSkipText(g, t);
      case Esc(b) =>
        EscapeSkips(g, b);
        TriplesSkipText(g, t);
      case Tri(c) =>
        GroupShape(g, c);
        PrependTwice([c], rest, Triples(tail));
        if g[1] == LOWER_E || !LowAhead(ts[1..], ks[1..], more) {
          TriplesReadTri(g, c, t);
          if g[1] != LOWER_E {
            NoneJoins(g, t);
          }
        } else {
          TriplesSkipText(g, t);
        }
      assert Remaining(ts, ks, more)[1..] == Remaining(ts[1..], ks[1..], more);
    }
  }

  lemma LiteralSkips(c: CodeUnit)
    requires c != PERCENT
    ensures Without([c], LOWER_E) && Without([c], UPPER_E)
  {
  }

  /** A group that is left to the second phase comes out as its bytes. */
  lemma SymbolReadsGroup(g: Text, c: CodeUnit, t: Text)
    requires Spells(g, Tri(c))
    ensures Utf8ToSymbol(g + t) == [Utf8Byte(c, 0), Utf8Byte(c, 1), Utf8Byte(c, 2)] + Utf8ToSymbol(t)
  {
    hide Utf8ToSymbol, SpellsByte, Utf8Byte;
    assert g + t == g[..3] + (g[3..6] + (g[6..] + t));
    SymbolReadsEscape(g[6..], Utf8Byte(c, 2), t);
    SymbolReadsEscape(g[3..6], Utf8Byte(c, 1), g[6..] + t);
    SymbolReadsEscape(g[..3], Utf8Byte(c, 0), g[3..6] + (g[6..] + t));
  }

  lemma SymbolReadsOne(g: Text, k: Token, replaced: bool, t: Text)
    requires Spells(g, k) && Plain(k) && (replaced ==> k.Tri?)
    ensures Utf8ToSymbol((if replaced then [k.c] else g) + t) == ReadOne(k, replaced) + Utf8ToSymbol(t)
  {
    hide Utf8ToSymbol, SpellsByte, Utf8Byte;
    match k
    case Lit(c) => SymbolSkips(c, t);
    case Esc(b) => SymbolReadsEscape(g, b, t);
    case Tri(c) =>
      if replaced {
        SymbolSkips(c, t);
      } else {
        SymbolReadsGroup(g, c, t);
      }
  }

  /** The second phase then reads one unit per token, and three for a group that was left to it. */
  lemma {:induction false} SymbolsOfTokens(ts: seq<Text>, ks: seq<Token>, tail: Text, more: bool)
    requires AllSpell(ts, ks)
    ensures Utf8ToSymbol(Joined(Remaining(ts, ks, more)) + tail) == Read(ts, ks, more) + Utf8ToSymbol(tail)
    decreases |ks|
  {
    hide Utf8ToSymbol, Spells, Plain, AllSpell, LowAhead, Low, ReadOne;
    AllSpellTail(ts, ks);
    if ks == [] {
      assert [] + tail == tail && [] + Utf8ToSymbol(tail) == Utf8ToSymbol(tail);
    } else {
      var r := Replaced(ts, ks, more);
      var first, rest := if r then [ks[0].c] else ts[0], Remaining(ts[1..], ks[1..], more);
      SymbolsOfTokens(ts[1..], ks[1..], tail, more);
      assert Remaining(ts, ks, more)[1..] == rest;
      Assoc(first, Joined(rest), tail);
      SymbolReadsOne(ts[0], ks[0], r, Joined(rest) + tail);
      Assoc(ReadOne(ks[0], r), Read(ts[1..], ks[1..], more), Utf8ToSymbol(tail));
    }
  }

  /** No group with `%E` comes before a group with `%e`. */
  predicate LowFirst(ts: seq<Text>, ks: seq<Token>)
    requires |ts| == |ks|
  {
    forall i: nat, j: nat | i < j < |ks| :: ks[i].Tri? && ks[j].Tri? && Low(ts[j]) ==> Low(ts[i])
  }

  lemma {:induction false} LowAheadAt(ts: seq<Text>, ks: seq<Token>)
    requires |ts| == |ks|
    ensures LowAhead(ts, ks, false) <==> exists j: nat :: j < |ks| && ks[j].Tri? && Low(ts[j])
    decreases |ks|
  {
    hide Low;
    if ks != [] {
      LowAheadAt(ts[1..], ks[1..]);
      assert forall j: nat | j < |ks[1..]| :: ks[1..][j] == ks[j + 1] && ts[1..][j] == ts[j + 1];
      if j: nat :| j < |ks| && ks[j].Tri? && Low(ts[j]) {
        if j > 0 {
          assert ks[1..][j - 1].Tri? && Low(ts[1..][j - 1]);
        }
      }
      if LowAhead(ts[1..], ks[1..], false) {
        var j: nat :| j < |ks[1..]| && ks[1..][j].Tri? && Low(ts[1..][j]);
        assert ks[j + 1].Tri? && Low(ts[j + 1]);
      }
    }
  }

  lemma LowFirstTail(ts: seq<Text>, ks: seq<Token>)
    requires |ts| == |ks| > 0
    ensures LowFirst(ts, ks) <==> (ks[0].Tri? ==> Replaced(ts, ks, false)) && LowFirst(ts[1..], ks[1..])
  {
    hide Low;
    LowAheadAt(ts[1..], ks[1..]);
    assert forall j: nat | j < |ks[1..]| :: ks[1..][j] == ks[j + 1] && ts[1..][j] == ts[j + 1];
    if ks[0].Tri? && !Replaced(ts, ks, false) {
      var j: nat :| j < |ks[1..]| && ks[1..][j].Tri? && Low(ts[1..][j]);
      assert ks[j + 1].Tri? && Low(ts[j + 1]);
    }
    if !LowFirst(ts[1..], ks[1..]) {
      var i: nat, j: nat :| i < j < |ks[1..]| && ks[1..][i].Tri? && ks[1..][j].Tri?
        && Low(ts[1..][j]) && !Low(ts[1..][i]);
      assert ks[i + 1].Tri? && ks[j + 1].Tri? && Low(ts[j + 1]) && !Low(ts[i + 1]);
    }
    if !LowFirst(ts, ks) {
      var i: nat, j: nat :| i < j < |ks| && ks[i].Tri? && ks[j].Tri? && Low(ts[j]) && !Low(ts[i]);
      assert ks[1..][j - 1].Tri? && Low(ts[1..][j - 1]);
      if i > 0 {
        assert ks[1..][i - 1].Tri? && !Low(ts[1..][i - 1]);
      }
    }
  }

  lemma {:induction false} ReadIsUnits(ts: seq<Text>, ks: seq<Token>)
    requires |ts| == |ks|
    ensures |Read(ts, ks, false)| >= |ks|
    ensures if LowFirst(ts, ks) then Read(ts, ks, false) == Units(ks) else |Read(ts, ks, false)| > |ks|
    decreases |ks|
  {
    if ks != [] {
      hide LowFirst, Replaced, Utf8Byte;
      LowFirstTail(ts, ks);
      ReadIsUnits(ts[1..], ks[1..]);
    }
  }

  /** Text in either case is read as one unit per token exactly when no group with `%E` comes before one with `%e`. */
  lemma DecodeSpelledIff(ts: seq<Text>, ks: seq<Token>)
    requires AllSpell(ts, ks)
    ensures Decode(Joined(ts)) == Units(ks) <==> LowFirst(ts, ks)
    ensures |Decode(Joined(ts))| >= |ks| && (|Decode(Joined(ts))| == |ks| <==> LowFirst(ts, ks))
  {
    hide Triples, Utf8ToSymbol, Spells, Plain, LowFirst, Read;
    Decodes(ts, ks, []);
    ReadIsUnits(ts, ks);
  }

  /** Tokens and then a text without groups, read by both phases. */
  lemma Decodes(ts: seq<Text>, ks: seq<Token>, tail: Text)
    requires AllSpell(ts, ks) && NextTriple(tail) == None
    ensures Decode(Joined(ts) + tail) == Read(ts, ks, false) + Utf8ToSymbol(tail)
    ensures tail == [] ==> Decode(Joined(ts)) == Read(ts, ks, false)
  {
    hide Triples, Utf8ToSymbol, Spells, Plain, Read, IndexOf;
    TriplesOfTokens(ts, ks, tail, false);
    SymbolsOfTokens(ts, ks, tail, false);
    NothingFound(tail);
    PrependBodies(Joined(Remaining(ts, ks, false)), tail);
    if tail == [] {
      assert Joined(ts) + [] == Joined(ts) && Read(ts, ks, false) + [] == Read(ts, ks, false);
      EmptyTail();
    }
  }

  lemma EmptyTail()
    ensures IndexOf([], [PERCENT, LOWER_E]) == IndexOf([], [PERCENT, UPPER_E]) == None && Utf8ToSymbol([]) == []
  {
  }

  /** A group cut short ends the decoding at once: the escapes before it stay escaped. */
  lemma TruncatedGroupCuts(ts: seq<Text>, ks: seq<Token>, q: Text)
    requires AllSpell(ts, ks) && 2 <= |q| < 9 && q[0] == PERCENT
    requires q[1] == LOWER_E || (q[1] == UPPER_E && IndexOf(q, [PERCENT, LOWER_E]) == None)
    ensures Decode(Joined(ts) + q) == Joined(Remaining(ts, ks, q[1] == LOWER_E))
  {
    hide Triples, Spells, Plain;
    assert q[1] == LOWER_E ==> [PERCENT, LOWER_E] <= q;
    assert q[1] == UPPER_E ==> [PERCENT, UPPER_E] <= q;
    assert NextTriple(q) == Some(0);
    TriplesFinds(q, 0);
    hide IndexOf;
    TriplesOfTokens(ts, ks, q, q[1] == LOWER_E);
    var rest := Joined(Remaining(ts, ks, q[1] == LOWER_E));
    PrependBodies(rest, []);
    assert rest + [] == rest;
  }

  /** An escape cut short is dropped. */
  lemma TruncatedEscapeCuts(ts: seq<Text>, ks: seq<Token>, q: Text)
    requires AllSpell(ts, ks) && 1 <= |q| < 3 && q[0] == PERCENT && NextTriple(q) == None
    ensures Decode(Joined(ts) + q) == Read(ts, ks, false)
  {
    hide Spells, Plain, Decode, Read;
    Decodes(ts, ks, q);
    assert [PERCENT] <= q && IndexOf(q, [PERCENT]) == Some(0);
    SymbolFinds(q, 0);
  }

  /** A unit in upper case before one in lower case comes out as its three bytes. */
  lemma UpperBeforeLowerSlips(c: CodeUnit, d: CodeUnit)
    requires c >= 0x800 && d >= 0x800
    ensures Decode(Spell(Tri(c)) + Lowered(Spell(Tri(d))))
         == [0xE0 + c / 0x1000, 0x80 + c / 0x40 % 0x40, 0x80 + c % 0x40, d]
  {
    hide Decode, Spell, Lowered, Spells;
    SpellInSpells(Tri(c), false);
    SpellInSpells(Tri(d), true);
    var ts: seq<Text>, ks: seq<Token> := [Spell(Tri(c)), Lowered(Spell(Tri(d)))], [Tri(c), Tri(d)];
    var t1: seq<Text>, k1: seq<Token> := [ts[1]], [ks[1]];
    assert AllSpell(ts, ks);
    assert ts[1..] == t1 && ks[1..] == k1 && t1[1..] == [] && k1[1..] == [];
    assert Joined(t1) == ts[1] by { assert ts[1] + [] == ts[1]; }
    assert Joined(ts) == ts[0] + ts[1];
    EmptyTail();
    Decodes(ts, ks, []);
    assert LowAhead(t1, k1, false) && !Low(ts[0]);
    assert !Replaced(ts, ks, false) && Replaced(t1, k1, false);
    assert Read(t1, k1, false) == [d] + Read(t1[1..], k1[1..], false) == [d];
  }

  // ---- Texts with the digits of every escape in upper case, and in lower case.

  /** `toLowerCase` on a hexadecimal digit. */
  function LowerDigit(c: CodeUnit): CodeUnit { if 65 <= c <= 70 then c + 32 else c }

  function Lowered(t: Text): (r: Text)
    ensures |r| == |t|
  {
    seq(|t|, i requires 0 <= i < |t| => LowerDigit(t[i]))
  }

  /** The token with the digits of its escapes in the given case. */
  function SpellIn(k: Token, lower: bool): Text
    requires Plain(k)
  {
    if lower && !k.Lit? then Lowered(Spell(k)) else Spell(k)
  }

  function Texts(ks: seq<Token>, lower: bool): (ts: seq<Text>)
    requires AllPlain(ks)
    ensures |ts| == |ks|
  {
    seq(|ks|, i requires 0 <= i < |ks| => SpellIn(ks[i], lower))
  }

  lemma LowerDigitValue(n: nat)
    requires n < 16
    ensures HexValue(HexUpper(n)) == Some(n) == HexValue(LowerDigit(HexUpper(n)))
    ensures LowerDigit(HexUpper(n)) != UPPER_E && HexUpper(n) != LOWER_E
  {
  }

  /** The digits that are read are exactly the sixteen, in either case. */
  lemma HexDigitIff(c: CodeUnit)
    ensures HexValue(c).Some? <==> exists n: nat :: n < 16 && (c == HexUpper(n) || c == LowerDigit(HexUpper(n)))
  {
    if HexValue(c).Some? {
      var n := HexValue(c).value;
      assert c == HexUpper(n) || c == LowerDigit(HexUpper(n));
    }
  }

  lemma LoweredEscape(b: nat)
    requires b < 256
    ensures SpellsByte(Escape(b), b) && SpellsByte(Lowered(Escape(b)), b)
    ensures Escape(b)[1] != LOWER_E && Lowered(Escape(b))[1] != UPPER_E
  {
    hide HexValue, HexUpper;
    LowerDigitValue(b / 16);
    LowerDigitValue(b % 16);
  }

  lemma SpellInSpells(k: Token, lower: bool)
    requires Plain(k)
    ensures Spells(SpellIn(k, lower), k) && (k.Tri? ==> (Low(SpellIn(k, lower)) <==> lower))
  {
    hide SpellsByte, Escape, Utf8Byte;
    match k
    case Lit(c) =>
    case Esc(b) => LoweredEscape(b);
    case Tri(c) =>
      var x, y, z := Utf8Byte(c, 0), Utf8Byte(c, 1), Utf8Byte(c, 2);
      LoweredEscape(x);
      LoweredEscape(y);
      LoweredEscape(z);
      ByteShape(Escape(x), x);
      ByteShape(Escape(y), y);
      ByteShape(Escape(z), z);
      ByteShape(Lowered(Escape(x)), x);
      var g := SpellIn(k, lower);
      assert Spell(k)[..3] == Escape(x) && Spell(k)[3..6] == Escape(y) && Spell(k)[6..] == Escape(z);
      if lower {
        assert g[..3] == Lowered(Escape(x)) && g[3..6] == Lowered(Escape(y)) && g[6..] == Lowered(Escape(z));
        assert g[1] == Lowered(Escape(x))[1];
      } else {
        assert g[1] == Escape(x)[1];
      }
      LeadByte(c);
  }

  lemma LeadByte(c: CodeUnit)
    ensures Utf8Byte(c, 0) / 16 == 14
  {
  }

  lemma TextsSpell(ks: seq<Token>, lower: bool)
    requires AllPlain(ks)
    ensures AllSpell(Texts(ks, lower), ks) && LowFirst(Texts(ks, lower), ks)
  {
    hide Spells, SpellIn, Low, Plain;
    forall i: nat | i < |ks|
      ensures Plain(ks[i]) && Spells(Texts(ks, lower)[i], ks[i])
      ensures ks[i].Tri? ==> (Low(Texts(ks, lower)[i]) <==> lower)
    {
      SpellInSpells(ks[i], lower);
    }
  }

  lemma {:induction false} SpellAllIs(ks: seq<Token>)
    requires AllPlain(ks)
    ensures Joined(Texts(ks, false)) == SpellAll(ks)
    decreases |ks|
  {
    hide Spell;
    if ks != [] {
      SpellAllIs(ks[1..]);
      assert Texts(ks, false)[1..] == Texts(ks[1..], false);
    }
  }

  /** The decoder reads every token text back as one unit per token. */
  lemma DecodeTokens(ks: seq<Token>)
    requires AllPlain(ks)
    ensures Decode(SpellAll(ks)) == Units(ks) == Decode(Joined(Texts(ks, true)))
  {
    hide *;
    TextsSpell(ks, false);
    TextsSpell(ks, true);
    SpellAllIs(ks);
    DecodeSpelledIff(Texts(ks, false), ks);
    DecodeSpelledIff(Texts(ks, true), ks);
  }

  // ---- encodeURIComponent (a builtin), and when the decoder undoes it.

  predicate Unreserved(c: CodeUnit) {
    48 <= c <= 57 || 65 <= c <= 90 || 97 <= c <= 122
    || c in {45, 95, 46, 33, 126, 42, 39, 40, 41}
  }

  /** The tokens of one code point; `None` where the builtin throws URIError. */
  function CodePoint(s: Text): (r: Option<(seq<Token>, nat)>)
    requires s != []
    ensures r.Some? ==> 1 <= r.value.1 <= |s| && AllPlain(r.value.0)
  {
    var c := s[0];
    if Unreserved(c) then Some(([Lit(c)], 1))
    else if c < 0x80 then Some(([Esc(c)], 1))
    else if c < 0x800 then Some(([Esc(0xC0 + c / 0x40), Esc(0x80 + c % 0x40)], 1))
    else if 0xD800 <= c < 0xDC00 then
      if |s| > 1 && 0xDC00 <= s[1] < 0xE000 then
        var lead: int, trail: int := c, s[1];
        var p := 0x1_0000 + (lead - 0xD800) * 0x400 + (trail - 0xDC00);
        Some(([Esc(0xF0 + p / 0x4_0000), Esc(0x80 + p / 0x1000 % 0x40),
               Esc(0x80 + p / 0x40 % 0x40), Esc(0x80 + p % 0x40)], 2))
      else None
    else if 0xDC00 <= c < 0xE000 then None
    else Some(([Tri(c)], 1))
  }

  /** `b` is a continuation byte. */
  predicate Continues(k: Token) { k.Esc? && k.b / 0x40 == 2 }

  /** The tokens of a code point are its UTF-8 bytes (section 3 of RFC 3629). */
  lemma EscapesAreUtf8(s: Text)
    requires s != [] && CodePoint(s).Some?
    ensures var ks, n, c: int, d: int := CodePoint(s).value.0, CodePoint(s).value.1, s[0], if |s| > 1 then s[1] else 0;
      match |ks|
      case 1 => n == 1 && (ks[0] == Lit(c) || (ks[0] == Esc(c) && c < 0x80) || (ks[0] == Tri(c) && c >= 0x800))
      case 2 =>
        && n == 1 && 0x80 <= c < 0x800 && ks[0].Esc? && ks[0].b / 0x20 == 6 && Continues(ks[1])
        && c == ks[0].b % 0x20 * 0x40 + ks[1].b % 0x40
      case 4 =>
        && n == 2 && 0xD800 <= c < 0xDC00 <= d < 0xE000
        && ks[0].Esc? && ks[0].b / 8 == 30 && Continues(ks[1]) && Continues(ks[2]) && Continues(ks[3])
        && 0x1_0000 + (c - 0xD800) * 0x400 + (d - 0xDC00)
           == ks[0].b % 8 * 0x4_0000 + ks[1].b % 0x40 * 0x1000 + ks[2].b % 0x40 * 0x40 + ks[3].b % 0x40
      case _ => false
  {
    var c := s[0];
    if 0xD800 <= c < 0xDC00 {
      var lead: int, trail: int := c, s[1];
      var p := 0x1_0000 + (lead - 0xD800) * 0x400 + (trail - 0xDC00);
      FourParts(p);
    }
  }

  /** The builtin throws exactly at a surrogate that is not the first half of a pair. */
  lemma ThrowsIff(s: Text)
    requires s != []
    ensures CodePoint(s) == None <==>
      0xD800 <= s[0] < 0xE000 && !(s[0] < 0xDC00 && |s| >= 2 && 0xDC00 <= s[1] < 0xE000)
  {
  }

  lemma FourParts(p: nat)
    requires 0x1_0000 <= p < 0x11_0000
    ensures p == p / 0x4_0000 * 0x4_0000 + p / 0x1000 % 0x40 * 0x1000 + p / 0x40 % 0x40 * 0x40 + p % 0x40
    ensures p / 0x4_0000 < 8
  {
    assert p / 0x1000 == p / 0x40 / 0x40 && p / 0x4_0000 == p / 0x40 / 0x40 / 0x40;
  }

  function EncodeTokens(s: Text): (r: Option<seq<Token>>)
    ensures r.Some? ==> AllPlain(r.value)
    decreases |s|
  {
    if s == [] then Some([]) else
    match CodePoint(s)
    case None => None
    case Some(p) =>
      match EncodeTokens(s[p.1..]) case None => None case Some(ks) => Some(p.0 + ks)
  }

  function EncodeURIComponent(s: Text): Option<Text> {
    match EncodeTokens(s) case None => None case Some(ks) => Some(SpellAll(ks))
  }

  /** The same with the digits of every escape in lower case. */
  function EncodeLower(s: Text): Option<Text> {
    match EncodeTokens(s) case None => None case Some(ks) => Some(Joined(Texts(ks, true)))
  }

  /** One-byte and three-byte code units: all that the decoder knows. */
  predicate DecodableUnit(c: CodeUnit) { c < 0x80 || 0x800 <= c < 0xD800 || 0xE000 <= c }

  predicate Decodable(s: Text) { forall i: nat | i < |s| :: DecodableUnit(s[i]) }

  lemma FirstPoint(s: Text)
    requires s != []
    ensures DecodableUnit(s[0]) ==>
      CodePoint(s).Some? && CodePoint(s).value.1 == 1 && Units(CodePoint(s).value.0) == [s[0]]
    ensures !DecodableUnit(s[0]) && CodePoint(s).Some? ==> |CodePoint(s).value.0| > CodePoint(s).value.1
  {
  }

  lemma {:induction false} DecodableTokens(s: Text)
    ensures Decodable(s) ==> EncodeTokens(s).Some? && Units(EncodeTokens(s).value) == s
    ensures EncodeTokens(s).Some? ==> |EncodeTokens(s).value| >= |s|
    ensures !Decodable(s) && EncodeTokens(s).Some? ==> |EncodeTokens(s).value| > |s|
    decreases |s|
  {
    if s != [] {
      FirstPoint(s);
      if CodePoint(s).Some? {
        hide CodePoint, DecodableUnit, Units;
        var p := CodePoint(s).value;
        var rest := s[p.1..];
        DecodableTokens(rest);
        if EncodeTokens(rest).Some? {
          UnitsJoin(p.0, EncodeTokens(rest).value);
        }
        if DecodableUnit(s[0]) {
          assert s == [s[0]] + rest;
        }
      }
    }
  }

  lemma {:induction false} UnitsJoin(p: seq<Token>, q: seq<Token>)
    ensures Units(p + q) == Units(p) + Units(q)
  {
    hide Unit;
    if p == [] {
      assert p + q == q;
    } else {
      UnitsJoin(p[1..], q);
      assert (p + q)[0] == p[0] && (p + q)[1..] == p[1..] + q;
      Assoc([Unit(p[0])], Units(p[1..]), Units(q));
    }
  }

  /** The decoder undoes the encoder, with digits in upper and in lower case, on exactly the decodable strings. */
  lemma DecoderUndoesEncoder(s: Text)
    ensures Decodable(s) ==> EncodeURIComponent(s).Some?
    ensures EncodeURIComponent(s).Some? ==> (Decode(EncodeURIComponent(s).value) == s <==> Decodable(s))
    ensures EncodeLower(s).Some? <==> EncodeURIComponent(s).Some?
    ensures EncodeLower(s).Some? ==> (Decode(EncodeLower(s).value) == s <==> Decodable(s))
  {
    hide Decode, Decodable, SpellAll, Texts, Joined;
    DecodableTokens(s);
    if EncodeTokens(s).Some? {
      DecodeTokens(EncodeTokens(s).value);
    }
  }
}
