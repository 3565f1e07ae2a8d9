/** UniEncode and UniDecode of utils.js: text as four hexadecimal digits per code unit. */
module UniCodec {
  import opened Basics
  import opened JsText

  // ---- parseInt(t, 16), a builtin.

  predicate IsWhite(c: CodeUnit) {
    9 <= c <= 13 || c == 32 || c == 160 || c == 5760 || 8192 <= c <= 8202 || c in {8232, 8233, 8239, 8287, 12288, 65279}
  }

  function SkipWhite(t: Text): Text { if t != [] && IsWhite(t[0]) then SkipWhite(t[1..]) else t }

  /** The digits of the longest hexadecimal prefix; NaN is None. */
  function ParseDigits(t: Text): Option<int> {
    if t == [] || HexValue(t[0]).None? then None else Some(HexPrefix(t))
  }

  function ParseInt16(t: Text): Option<int> {
    var s := SkipWhite(t);
    var negative := s != [] && s[0] == 45;
    var u := if s != [] && (s[0] == 43 || s[0] == 45) then s[1..] else s;
    var digits := if |u| >= 2 && u[0] == 48 && (u[1] == 120 || u[1] == 88) then u[2..] else u;
    match ParseDigits(digits) case None => None case Some(n) => Some(if negative then -n else n)
  }

  /** `String.fromCharCode(parseInt(t, 16))`: NaN gives code 0. */
  function ParseUnit(t: Text): CodeUnit {
    match ParseInt16(t) case None => 0 case Some(n) => n % 0x1_0000
  }

  function HexLower(n: nat): CodeUnit
    requires n < 16
  {
    if n < 10 then 48 + n else 87 + n
  }

  /** `n.toString(16)`. */
  function ToHex(n: nat): (t: Text)
    ensures t != []
  {
    if n < 16 then [HexLower(n)] else ToHex(n / 16) + [HexLower(n % 16)]
  }

  function Zeros(n: int): Text { if n <= 0 then [] else [48] + Zeros(n - 1) }

  function Hex4(c: CodeUnit): Text { Zeros(4 - |ToHex(c)|) + ToHex(c) }

  function EncodeUnits(s: Text): Text {
    if s == [] then [] else Hex4(s[0]) + EncodeUnits(s[1..])
  }

  function DecodeUnits(t: Text): Text
    decreases |t|
  {
    if t == [] then []
    else [ParseUnit(SubStr(t, 0, 4))] + DecodeUnits(t[if |t| < 4 then |t| else 4..])
  }

  method UniEncode(text: Text) returns (code: Text)
    ensures code == EncodeUnits(text)
  {
    hide ToHex, EncodeUnits;
    code := [];
    EncodeNone();
    assert text[0..] == text;
    var i := 0;
    while i < |text|
      invariant 0 <= i <= |text|
      invariant code + EncodeUnits(text[i..]) == EncodeUnits(text)
    {
      var charCode := ToHex(text[i]);
      ghost var digits := charCode;
      var paddingLen := 4 - |charCode|;
      var j := 0;
      while j < paddingLen
        invariant 0 <= j && (j <= paddingLen || j == 0) && charCode == Zeros(j) + digits
      {
        ZerosGrow(j);
        charCode := [48] + charCode;
        j := j + 1;
      }
      assert charCode == Hex4(text[i]);
      EncodeAt(text, i);
      Assoc(code, charCode, EncodeUnits(text[i + 1..]));
      code := code + charCode;
      i := i + 1;
    }
    assert text[|text|..] == [] && code + [] == code;
  }

  lemma EncodeAt(s: Text, i: nat)
    requires i < |s|
    ensures EncodeUnits(s[i..]) == Hex4(s[i]) + EncodeUnits(s[i + 1..])
  {
    hide Hex4;
    assert s[i..][1..] == s[i + 1..];
  }

  lemma EncodeNone()
    ensures EncodeUnits([]) == []
  {
  }

  lemma ZerosGrow(j: nat)
    ensures Zeros(j + 1) == [48] + Zeros(j)
  {
  }

  lemma DecodeAt(t: Text, at: nat)
    requires at < |t|
    ensures DecodeUnits(t[at..]) == [ParseUnit(SubStr(t, at, 4))] + DecodeUnits(t[Clamp(at + 4, |t|)..])
  {
    hide ParseUnit;
    var rest := t[at..];
    assert SubStr(t, at, 4) == SubStr(rest, 0, 4);
    assert rest[if |rest| < 4 then |rest| else 4..] == t[Clamp(at + 4, |t|)..];
  }

  lemma DecodeNone()
    ensures DecodeUnits([]) == []
  {
  }

  method UniDecode(encodeString: Text) returns (deCodeStr: Text)
    ensures deCodeStr == DecodeUnits(encodeString)
  {
    hide ParseUnit, DecodeUnits, SubStr;
    deCodeStr := [];
    DecodeNone();
    var idx := 0;
    while 4 * idx < |encodeString|
      invariant 0 <= idx
      invariant deCodeStr + DecodeUnits(encodeString[Clamp(4 * idx, |encodeString|)..]) == DecodeUnits(encodeString)
      decreases |encodeString| - 4 * idx
    {
      DecodeAt(encodeString, 4 * idx);
      ghost var before := deCodeStr;
      deCodeStr := deCodeStr + [ParseUnit(SubStr(encodeString, idx * 4, 4))];
      Assoc(before, [ParseUnit(SubStr(encodeString, idx * 4, 4))],
        DecodeUnits(encodeString[Clamp(4 * idx + 4, |encodeString|)..]));
      idx := idx + 1;
    }
    assert encodeString[|encodeString|..] == [] && deCodeStr + [] == deCodeStr;
  }

  function Clamp(n: nat, m: nat): (r: nat)
    ensures r <= m
  {
    if n < m then n else m
  }

  // ---- UniDecode undoes UniEncode.

  lemma HexLowerValue(n: nat)
    requires n < 16
    ensures HexValue(HexLower(n)) == Some(n) && !IsWhite(HexLower(n)) && HexLower(n) != 43 && HexLower(n) != 45
    ensures HexLower(n) != 120 && HexLower(n) != 88
  {
  }

  /** Four digits d with the value of c. */
  lemma Hex4Digits(c: CodeUnit)
    ensures Hex4(c) == [HexLower(c / 0x1000), HexLower(c / 0x100 % 16), HexLower(c / 16 % 16), HexLower(c % 16)]
  {
    hide HexLower;
    assert HexLower(0) == 48 by { HexLowerZero(); }
    var c1, c2, c3 := c / 16, c / 16 / 16, c / 16 / 16 / 16;
    assert c2 == c / 0x100 && c3 == c / 0x1000;
    assert Zeros(0) == [] && Zeros(1) == [48] && Zeros(2) == [48, 48] && Zeros(3) == [48, 48, 48];
    assert c1 >= 16 ==> ToHex(c1) == ToHex(c2) + [HexLower(c1 % 16)];
    assert c2 >= 16 ==> ToHex(c2) == ToHex(c3) + [HexLower(c2 % 16)];
  }

  lemma HexLowerZero()
    ensures HexLower(0) == 48
  {
  }

  lemma FourDigits(a: CodeUnit, b: CodeUnit, c: CodeUnit, d: CodeUnit, w: nat, x: nat, y: nat, z: nat)
    requires HexValue(a) == Some(w) && HexValue(b) == Some(x) && HexValue(c) == Some(y) && HexValue(d) == Some(z)
    requires w < 16 && x < 16 && y < 16 && z < 16
    requires !IsWhite(a) && a != 43 && a != 45 && b != 120 && b != 88
    ensures ParseUnit([a, b, c, d]) == 0x1000 * w + 0x100 * x + 0x10 * y + z
  {
    hide HexValue, IsWhite;
    var t := [a, b, c, d];
    assert t[1..] == [b, c, d] && [b, c, d][1..] == [c, d] && [c, d][1..] == [d] && [d][1..] == [];
    assert SkipWhite(t) == t;
    assert HexPrefixFrom(t, 0) == HexPrefixFrom([b, c, d], w) == HexPrefixFrom([c, d], 16 * w + x)
        == HexPrefixFrom([d], 16 * (16 * w + x) + y) == HexPrefixFrom([], 16 * (16 * (16 * w + x) + y) + z);
  }

  lemma Hex4Parses(c: CodeUnit)
    ensures |Hex4(c)| == 4 && ParseUnit(Hex4(c)) == c
  {
    hide HexLower, Hex4, ParseUnit;
    Hex4Digits(c);
    var w, x, y, z := c / 0x1000, c / 0x100 % 16, c / 16 % 16, c % 16;
    HexLowerValue(w); HexLowerValue(x); HexLowerValue(y); HexLowerValue(z);
    FourDigits(HexLower(w), HexLower(x), HexLower(y), HexLower(z), w, x, y, z);
    assert c / 0x100 == c / 16 / 16 && c / 0x1000 == c / 16 / 16 / 16;
  }

  lemma {:induction false} DecodeUndoesEncode(s: Text)
    ensures DecodeUnits(EncodeUnits(s)) == s && |EncodeUnits(s)| == 4 * |s|
  {
    hide Hex4, ParseUnit;
    if s != [] {
      DecodeUndoesEncode(s[1..]);
      Hex4Parses(s[0]);
      var t := EncodeUnits(s);
      assert SubStr(t, 0, 4) == Hex4(s[0]) && t[4..] == EncodeUnits(s[1..]);
    }
  }

  /** A group that starts with no number is read as U+0000, and a last short group as its digits. */
  lemma OddGroups(t: Text, n: nat)
    requires 1 <= |t| <= 4 && HexValue(t[0]).None? && !IsWhite(t[0]) && t[0] != 43 && t[0] != 45 && n < 16
    ensures DecodeUnits(t) == [0] && DecodeUnits([HexLower(n)]) == [n]
  {
    HexLowerValue(n);
    hide HexValue, IsWhite, HexLower;
    var d := [HexLower(n)];
    assert SubStr(t, 0, 4) == t && t[if |t| < 4 then |t| else 4..] == [];
    assert SubStr(d, 0, 4) == d && d[1..] == [];
    assert SkipWhite(t) == t && SkipWhite(d) == d;
    assert HexPrefixFrom(d, 0) == HexPrefixFrom([], n) == n;
  }

  lemma {:induction false} DecodeLength(t: Text)
    ensures |DecodeUnits(t)| == (|t| + 3) / 4
    decreases |t|
  {
    hide ParseUnit;
    if t != [] {
      DecodeLength(t[if |t| < 4 then |t| else 4..]);
    }
  }
}

/** ParseResponseString and SetUpMenu of stk.js: the SIM-toolkit menu parser. */
module StkMenu {
  import opened Basics
  import opened JsText
  import opened UniCodec

  /** `t.substr(start, len)`: a negative start counts from the end. */
  function SubStrAny(t: Text, start: int, len: int): Text {
    if len <= 0 then [] else
    var s := if start >= 0 then start else if |t| + start >= 0 then |t| + start else 0;
    SubStr(t, s, len)
  }

  function Hex2(b: nat): (t: Text)
    requires b < 256
    ensures |t| == 2
  {
    [HexUpper(b / 16), HexUpper(b % 16)]
  }

  /** A rendered row; `None` is a variable that was never assigned. */
  datatype Row = Row(id: Option<Text>, text: Option<Text>)

  datatype Menu = Refused | Shown(rows: seq<Row>)

  function Put(r: Row, m: Menu): Menu {
    match m case Refused => Refused case Shown(rows) => Shown([r] + rows)
  }

  /** One item at `offset`: where the next one starts and the row it renders, given the last row. */
  function ReadItem(t: Text, offset: int, last: Row): (r: (int, Row))
    ensures r.0 >= offset + 4
  {
    match ParseInt16(SubStrAny(t, offset + 2, 2))
    case None => (offset + 4, last)
    case Some(n) =>
      if n > 0 then
        var text := if SubStrAny(t, offset + 6, 2) == Hex2(0x80)
          then Some(DecodeUnits(SubStrAny(t, offset + 8, n * 2 - 4))) else last.text;
        (offset + 4 + 2 * n, Row(Some(SubStrAny(t, offset + 4, 2)), text))
      else (offset + 4, last)
  }

  predicate IsItemTag(t: Text) { t == Hex2(0x0F) || t == Hex2(0x8F) }

  predicate IsAlphaTag(t: Text) { t == Hex2(0x05) || t == Hex2(0x85) }

  function Items(t: Text, offset: int, last: Row): Menu
    decreases |t| - offset
  {
    if offset >= |t| then Shown([])
    else if !IsItemTag(SubStrAny(t, offset, 2)) then Refused
    else
      var (next, row) := ReadItem(t, offset, last);
      Put(row, Items(t, next, row))
  }

  const UNSET := Row(None, None)

  /** The alpha identifier is skipped; a length that is not a number ends the menu at once. */
  function MenuOf(t: Text): Menu {
    if !IsAlphaTag(SubStrAny(t, 0, 2)) then Refused
    else match ParseInt16(SubStrAny(t, 2, 2))
      case None => Shown([])
      case Some(n) => Items(t, 4 + 2 * n, UNSET)
  }

  method SetUpMenu(data: Text) returns (menu: Menu)
    ensures menu == MenuOf(data)
  {
    hide ParseInt16, SubStrAny, Hex2, DecodeUnits;
    var offset: int := 0;
    var alphaflag := SubStrAny(data, offset, 2);
    offset := offset + 2;
    if alphaflag != Hex2(0x05) && alphaflag != Hex2(0x85) {
      return Refused;
    }
    var alphaflaglength := ParseInt16(SubStrAny(data, offset, 2));
    offset := offset + 2;
    if alphaflaglength == None {
      return Shown([]);
    }
    offset := offset + alphaflaglength.value * 2;
    var html: seq<Row> := [];
    var itemid: Option<Text>, itemstring: Option<Text> := None, None;
    while offset < |data|
      invariant MenuOf(data) == PutAll(html, Items(data, offset, Row(itemid, itemstring)))
      decreases |data| - offset
    {
      ghost var start, last := offset, Row(itemid, itemstring);
      var menuItemflag := SubStrAny(data, offset, 2);
      offset := offset + 2;
      if menuItemflag != Hex2(0x0F) && menuItemflag != Hex2(0x8F) {
        PutAllRefused(html);
        return Refused;
      }
      var menuItemlength := ParseInt16(SubStrAny(data, offset, 2));
      offset := offset + 2;
      if menuItemlength.Some? && menuItemlength.value > 0 {
        var itemRemainLength := menuItemlength.value * 2;
        itemid := Some(SubStrAny(data, offset, 2));
        offset := offset + 2;
        itemRemainLength := itemRemainLength - 2;
        var itemcodeflag := SubStrAny(data, offset, 2);
        offset := offset + 2;
        itemRemainLength := itemRemainLength - 2;
        if itemcodeflag == Hex2(0x80) {
          var decoded := UniDecode(SubStrAny(data, offset, itemRemainLength));
          itemstring := Some(decoded);
        }
        offset := offset + itemRemainLength;
      }
      assert ReadItem(data, start, last) == (offset, Row(itemid, itemstring));
      PutAllNext(html, Row(itemid, itemstring), Items(data, offset, Row(itemid, itemstring)));
      html := html + [Row(itemid, itemstring)];
    }
    PutAllNone(html);
    return Shown(html);
  }

  function PutAll(rows: seq<Row>, m: Menu): Menu {
    match m case Refused => Refused case Shown(more) => Shown(rows + more)
  }

  lemma PutAllRefused(rows: seq<Row>)
    ensures PutAll(rows, Refused) == Refused
  {
  }

  lemma PutAllNone(rows: seq<Row>)
    ensures PutAll(rows, Shown([])) == Shown(rows)
  {
    assert rows + [] == rows;
  }

  lemma PutAllNext(rows: seq<Row>, r: Row, m: Menu)
    ensures PutAll(rows, Put(r, m)) == PutAll(rows + [r], m)
  {
    if m.Shown? {
      assert rows + ([r] + m.rows) == rows + [r] + m.rows;
    }
  }

  // ---- The SET UP MENU encoder.

  /** `required` is the comprehension-required bit of the item's tag. */
  datatype Item = Item(id: nat, text: Text, required: bool)

  /** A tag of section 9.3 of ETSI TS 102 223 with its comprehension-required bit. */
  function ItemTag(required: bool): Text { Hex2(if required then 0x8F else 0x0F) }

  function AlphaTag(required: bool): Text { Hex2(if required then 0x85 else 0x05) }

  predicate Fits(item: Item, most: nat) { item.id < 256 && |item.text| <= most }

  predicate AllFit(items: seq<Item>, most: nat) { forall i: nat | i < |items| :: Fits(items[i], most) }

  function ItemLength(item: Item): nat { 2 + 2 * |item.text| }

  /** The item with its length in one byte. */
  function ItemText(item: Item): Text
    requires Fits(item, 126)
  {
    ItemTag(item.required) + Hex2(ItemLength(item)) + Hex2(item.id) + Hex2(0x80) + EncodeUnits(item.text)
  }

  function ItemTexts(items: seq<Item>): Text
    requires AllFit(items, 126)
  {
    if items == [] then [] else ItemText(items[0]) + ItemTexts(items[1..])
  }

  function RowOf(item: Item): Row
    requires item.id < 256
  {
    Row(Some(Hex2(item.id)), Some(item.text))
  }

  function RowsOf(items: seq<Item>): (r: seq<Row>)
    requires forall i: nat | i < |items| :: items[i].id < 256
    ensures |r| == |items|
  {
    seq(|items|, i requires 0 <= i < |items| => RowOf(items[i]))
  }

  lemma Hex2Parses(b: nat)
    requires b < 256
    ensures ParseInt16(Hex2(b)) == Some(b)
  {
    hide HexValue, IsWhite, HexUpper;
    var x, y := HexUpper(b / 16), HexUpper(b % 16);
    HexUpperValue(b / 16);
    HexUpperValue(b % 16);
    assert SkipWhite([x, y]) == [x, y];
    assert [x, y][1..] == [y] && [y][1..] == [];
    assert HexPrefixFrom([x, y], 0) == HexPrefixFrom([y], b / 16) == HexPrefixFrom([], b);
  }

  lemma HexUpperValue(n: nat)
    requires n < 16
    ensures HexValue(HexUpper(n)) == Some(n) && !IsWhite(HexUpper(n))
    ensures HexUpper(n) != 43 && HexUpper(n) != 45 && HexUpper(n) != 120 && HexUpper(n) != 88
  {
  }

  /** Reading an item in the middle of a menu. */
  lemma ReadsItem(before: Text, item: Item, after: Text, last: Row)
    requires Fits(item, 126)
    ensures var t := before + ItemText(item) + after;
      && IsItemTag(SubStrAny(t, |before|, 2))
      && ReadItem(t, |before|, last) == (|before| + |ItemText(item)|, RowOf(item))
      && |ItemText(item)| == 8 + 4 * |item.text|
  {
    hide Hex2, EncodeUnits, DecodeUnits, ParseInt16;
    var n, body := ItemLength(item), EncodeUnits(item.text);
    var t := before + ItemText(item) + after;
    DecodeUndoesEncode(item.text);
    Hex2Parses(n);
    assert t == before + (ItemTag(item.required) + Hex2(n) + Hex2(item.id) + Hex2(0x80) + body) + after;
    assert SubStrAny(t, |before|, 2) == ItemTag(item.required);
    assert SubStrAny(t, |before| + 2, 2) == Hex2(n);
    assert SubStrAny(t, |before| + 4, 2) == Hex2(item.id);
    assert SubStrAny(t, |before| + 6, 2) == Hex2(0x80);
    assert SubStrAny(t, |before| + 8, n * 2 - 4) == body;
  }

  lemma {:induction false} ReadsItems(before: Text, items: seq<Item>, tail: Text, last: Row)
    requires AllFit(items, 126)
    ensures Items(before + ItemTexts(items) + tail, |before|, last)
         == PutAll(RowsOf(items), Items(before + ItemTexts(items) + tail, |before + ItemTexts(items)|,
              if items == [] then last else RowOf(items[|items| - 1])))
    decreases |items|
  {
    hide Items, PutAll, ItemText, RowOf;
    var t := before + ItemTexts(items) + tail;
    if items == [] {
      assert before + [] == before;
      PutAllOfNone(Items(t, |before|, last));
      assert RowsOf(items) == [];
    } else {
      var item, rest := items[0], items[1..];
      var b := before + ItemText(item);
      assert b + ItemTexts(rest) + tail == t && before + ItemText(item) + (ItemTexts(rest) + tail) == t;
      assert before + ItemTexts(items) == b + ItemTexts(rest);
      ItemsStep(before, item, ItemTexts(rest) + tail, last);
      ReadsItems(b, rest, tail, RowOf(item));
      assert RowsOf(items) == [RowOf(item)] + RowsOf(rest);
      var lastRow := if rest == [] then RowOf(item) else RowOf(rest[|rest| - 1]);
      PutPutAll(RowOf(item), RowsOf(rest), Items(t, |b + ItemTexts(rest)|, lastRow));
    }
  }

  lemma ItemsStep(before: Text, item: Item, after: Text, last: Row)
    requires Fits(item, 126)
    ensures var t := before + ItemText(item) + after;
      Items(t, |before|, last) == Put(RowOf(item), Items(t, |before + ItemText(item)|, RowOf(item)))
  {
    hide ReadItem, SubStrAny, ItemText, RowOf, IsItemTag;
    ReadsItem(before, item, after, last);
  }

  lemma PutPutAll(row: Row, rows: seq<Row>, m: Menu)
    ensures Put(row, PutAll(rows, m)) == PutAll([row] + rows, m)
  {
    if m.Shown? {
      assert [row] + (rows + m.rows) == [row] + rows + m.rows;
    }
  }

  lemma PutAllOfNone(m: Menu)
    ensures PutAll([], m) == m
  {
    if m.Shown? { assert [] + m.rows == m.rows; }
  }

  /** The tag, the length in bytes and the text of an alpha identifier. */
  function AlphaText(alpha: Text, required: bool): Text
    requires |alpha| % 2 == 0 && |alpha| < 512
  {
    AlphaTag(required) + Hex2(|alpha| / 2) + alpha
  }

  lemma SkipsAlpha(alpha: Text, required: bool, rest: Text)
    requires |alpha| % 2 == 0 && |alpha| < 512
    ensures var a := AlphaText(alpha, required); MenuOf(a + rest) == Items(a + rest, |a|, UNSET)
  {
    hide Hex2, ParseInt16, Items;
    var t := AlphaText(alpha, required) + rest;
    Hex2Parses(|alpha| / 2);
    assert SubStrAny(t, 0, 2) == AlphaTag(required) && SubStrAny(t, 2, 2) == Hex2(|alpha| / 2);
  }

  /** With one length byte per item, the menu shows exactly the items. */
  lemma MenuUndoesEncoder(alpha: Text, required: bool, items: seq<Item>)
    requires |alpha| % 2 == 0 && |alpha| < 512 && AllFit(items, 126)
    ensures MenuOf(AlphaText(alpha, required) + ItemTexts(items)) == Shown(RowsOf(items))
  {
    hide AlphaText, ItemTexts, MenuOf;
    var before := AlphaText(alpha, required);
    var t := before + ItemTexts(items);
    assert t + [] == t;
    SkipsAlpha(alpha, required, ItemTexts(items));
    ReadsItems(before, items, [], UNSET);
    assert RowsOf(items) + [] == RowsOf(items);
  }

  /** Whatever good items come first, something behind them that is no item refuses the whole menu. */
  lemma OtherTagRefuses(alpha: Text, required: bool, items: seq<Item>, rest: Text)
    requires |alpha| % 2 == 0 && |alpha| < 512 && AllFit(items, 126)
    requires rest != [] && SubStr(rest, 0, 2) != Hex2(0x0F) && SubStr(rest, 0, 2) != Hex2(0x8F)
    ensures MenuOf(AlphaText(alpha, required) + ItemTexts(items) + rest) == Refused
  {
    hide AlphaText, ItemTexts, MenuOf, Hex2, ReadItem;
    var before := AlphaText(alpha, required);
    var shown := before + ItemTexts(items);
    Assoc(before, ItemTexts(items), rest);
    SkipsAlpha(alpha, required, ItemTexts(items) + rest);
    ReadsItems(before, items, rest, UNSET);
    assert SubStrAny(shown + rest, |shown|, 2) == SubStr(rest, 0, 2);
  }

  /** A text without an alpha tag is refused, and one whose alpha identifier has no length shows an empty menu. */
  lemma AlphaEdges(t: Text)
    ensures SubStr(t, 0, 2) != Hex2(0x05) && SubStr(t, 0, 2) != Hex2(0x85) ==> MenuOf(t) == Refused
    ensures (SubStr(t, 0, 2) == Hex2(0x05) || SubStr(t, 0, 2) == Hex2(0x85)) && ParseInt16(SubStr(t, 2, 2)) == None ==>
      MenuOf(t) == Shown([])
  {
    hide Hex2, ParseInt16;
  }

  // ---- Lengths above 127 take two bytes (section 7.1.2 of ETSI TS 101 220); the parser reads one.

  function StandardText(item: Item): Text
    requires Fits(item, 126)
  {
    if ItemLength(item) <= 127 then ItemText(item)
    else
      ItemTag(item.required) + Hex2(0x81) + Hex2(ItemLength(item)) + Hex2(item.id) + Hex2(0x80)
      + EncodeUnits(item.text)
  }

  function StandardTexts(items: seq<Item>): Text
    requires AllFit(items, 126)
  {
    if items == [] then [] else StandardText(items[0]) + StandardTexts(items[1..])
  }

  lemma Hex2Injective(a: nat, b: nat)
    requires a < 256 && b < 256 && Hex2(a) == Hex2(b)
    ensures a == b
  {
    hide Hex2;
    Hex2Parses(a);
    Hex2Parses(b);
  }

  /** A long item never comes out as its own row. */
  lemma LongItemMisread(before: Text, item: Item, after: Text, last: Row)
    requires Fits(item, 126) && |item.text| > 62 && (last.text.Some? ==> |last.text.value| <= 62)
    ensures var m := Items(before + StandardText(item) + after, |before|, last);
      m.Refused? || (m.rows != [] && m.rows[0] != RowOf(item))
  {
    hide Hex2, EncodeUnits, DecodeUnits, ParseInt16;
    var n, body := ItemLength(item), EncodeUnits(item.text);
    var t := before + StandardText(item) + after;
    DecodeUndoesEncode(item.text);
    Hex2Parses(0x81);
    var long := ItemTag(item.required) + Hex2(0x81) + Hex2(n) + Hex2(item.id) + Hex2(0x80) + body;
    assert t == before + long + after && |t| >= |before| + 10 + 252;
    assert SubStrAny(t, |before|, 2) == ItemTag(item.required);
    assert SubStrAny(t, |before| + 2, 2) == Hex2(0x81);
    assert SubStrAny(t, |before| + 4, 2) == Hex2(n);
    assert SubStrAny(t, |before| + 6, 2) == Hex2(item.id);
    var rest := SubStrAny(t, |before| + 8, 0x81 * 2 - 4);
    assert |rest| == 254;
    DecodeLength(rest);
    var (next, row) := ReadItem(t, |before|, last);
    if row == RowOf(item) {
      Hex2Injective(n, item.id);
      if Hex2(item.id) == Hex2(0x80) {
        Hex2Injective(item.id, 0x80);
      }
    }
  }

  /** Read from the end of the alpha identifier, the menu shows the items exactly when none is longer than 62 units. */
  lemma StandardItemsIff(before: Text, items: seq<Item>)
    requires AllFit(items, 126)
    ensures Items(before + StandardTexts(items), |before|, UNSET) == Shown(RowsOf(items)) <==> AllFit(items, 62)
  {
    hide *;
    if AllFit(items, 62) {
      ShortItemsShown(before, items);
    } else {
      LongItemsNotShown(before, items);
    }
  }

  lemma ShortItemsShown(before: Text, items: seq<Item>)
    requires AllFit(items, 62)
    ensures AllFit(items, 126) && Items(before + StandardTexts(items), |before|, UNSET) == Shown(RowsOf(items))
  {
    hide StandardTexts, ItemTexts, Items, RowOf;
    StandardIsShort(items);
    assert before + ItemTexts(items) + [] == before + ItemTexts(items);
    ReadsItems(before, items, [], UNSET);
    NothingLeft(before + ItemTexts(items), if items == [] then UNSET else RowOf(items[|items| - 1]));
    assert RowsOf(items) + [] == RowsOf(items);
  }

  lemma LongItemsNotShown(before: Text, items: seq<Item>)
    requires AllFit(items, 126) && !AllFit(items, 62)
    ensures Items(before + StandardTexts(items), |before|, UNSET) != Shown(RowsOf(items))
  {
    hide StandardText, StandardTexts, ItemText, ItemTexts, Items, RowOf;
    var m := FirstLong(items);
    var good, item, rest := items[..m], items[m], items[m + 1..];
    StandardIsShort(good);
    StandardSplit(good, item, rest);
    assert items == good + [item] + rest;
    var shown := before + ItemTexts(good);
    var tail := StandardText(item) + StandardTexts(rest);
    var last := if good == [] then UNSET else RowOf(good[m - 1]);
    Assoc(before, ItemTexts(good), tail);
    Assoc(shown, StandardText(item), StandardTexts(rest));
    ReadsItems(before, good, tail, UNSET);
    LastIsShort(good, last);
    LongItemMisread(shown, item, StandardTexts(rest), last);
    RowsDiffer(good, item, rest, Items(shown + tail, |shown|, last));
  }

  lemma RowsDiffer(good: seq<Item>, item: Item, rest: seq<Item>, m: Menu)
    requires AllFit(good, 126) && Fits(item, 126) && AllFit(rest, 126)
    requires m.Refused? || (m.rows != [] && m.rows[0] != RowOf(item))
    ensures AllFit(good + [item] + rest, 126) && PutAll(RowsOf(good), m) != Shown(RowsOf(good + [item] + rest))
  {
    hide RowOf;
    var all := good + [item] + rest;
    assert forall i: nat | i < |all| :: all[i] in good || all[i] == item || all[i] in rest;
    assert all[|good|] == item && RowsOf(all)[|good|] == RowOf(item);
    if m.Shown? {
      assert (RowsOf(good) + m.rows)[|good|] == m.rows[0];
    }
  }

  lemma NothingLeft(t: Text, last: Row)
    ensures Items(t, |t|, last) == Shown([])
  {
  }

  /** The alpha identifier in the standard's form. */
  function StandardAlpha(alpha: Text, required: bool): Text
    requires |alpha| % 2 == 0 && |alpha| < 512
  {
    if |alpha| / 2 <= 127 then AlphaText(alpha, required)
    else AlphaTag(required) + Hex2(0x81) + Hex2(|alpha| / 2) + alpha
  }

  /** The parser takes the first length byte 0x81 for 129 bytes. */
  lemma ReadsStandardAlpha(alpha: Text, required: bool, rest: Text)
    requires |alpha| % 2 == 0 && |alpha| < 512
    ensures var a := StandardAlpha(alpha, required);
      && MenuOf(a + rest) == Items(a + rest, if |alpha| <= 254 then |a| else 262, UNSET)
      && (|alpha| == 256 ==> |a| == 262) && (|alpha| > 256 ==> |a| == 6 + |alpha| > 262)
  {
    hide Hex2, ParseInt16, Items;
    if |alpha| <= 254 {
      SkipsAlpha(alpha, required, rest);
    } else {
      var t := StandardAlpha(alpha, required) + rest;
      Hex2Parses(0x81);
      assert SubStrAny(t, 0, 2) == AlphaTag(required) && SubStrAny(t, 2, 2) == Hex2(0x81);
    }
  }

  /**
   Under the standard's lengths, with an alpha identifier of up to 128 bytes, the menu shows the items exactly
   when none is longer than 62 units.
   */
  lemma StandardMenuIff(alpha: Text, required: bool, items: seq<Item>)
    requires |alpha| % 2 == 0 && |alpha| <= 256 && AllFit(items, 126)
    ensures MenuOf(StandardAlpha(alpha, required) + StandardTexts(items)) == Shown(RowsOf(items)) <==> AllFit(items, 62)
  {
    hide *;
    ReadsStandardAlpha(alpha, required, StandardTexts(items));
    StandardItemsIff(StandardAlpha(alpha, required), items);
  }

  /** From 129 bytes on, an empty menu is not shown as empty, and a menu is refused unless the alpha spells an item. */
  lemma LongAlphaMisread(alpha: Text, required: bool, rest: Text)
    requires |alpha| % 2 == 0 && 256 < |alpha| < 512
    ensures MenuOf(StandardAlpha(alpha, required) + rest) != Shown([])
    ensures !IsItemTag(SubStr(alpha, 256, 2)) ==> MenuOf(StandardAlpha(alpha, required) + rest) == Refused
  {
    hide Hex2, IsItemTag, ReadItem, MenuOf;
    ReadsStandardAlpha(alpha, required, rest);
    var t := StandardAlpha(alpha, required) + rest;
    assert SubStrAny(t, 262, 2) == SubStr(alpha, 256, 2);
  }

  /** An alpha identifier lets the standard's encoder be undone for all short items exactly up to 128 bytes. */
  lemma StandardAlphaIff(alpha: Text, required: bool)
    requires |alpha| % 2 == 0 && |alpha| < 512
    ensures (forall items: seq<Item> | AllFit(items, 126) ::
        (MenuOf(StandardAlpha(alpha, required) + StandardTexts(items)) == Shown(RowsOf(items)) <==> AllFit(items, 62)))
      <==> |alpha| <= 256
  {
    hide MenuOf, StandardAlpha, StandardText;
    if |alpha| <= 256 {
      forall items: seq<Item> | AllFit(items, 126)
        ensures MenuOf(StandardAlpha(alpha, required) + StandardTexts(items)) == Shown(RowsOf(items))
          <==> AllFit(items, 62)
      {
        StandardMenuIff(alpha, required, items);
      }
    } else {
      var none: seq<Item> := [];
      LongAlphaMisread(alpha, required, []);
      assert AllFit(none, 126) && AllFit(none, 62) && StandardTexts(none) == [] && RowsOf(none) == [];
    }
  }

  lemma {:induction false} FirstLong(items: seq<Item>) returns (m: nat)
    requires AllFit(items, 126) && !AllFit(items, 62)
    ensures m < |items| && |items[m].text| > 62 && AllFit(items[..m], 62)
    decreases |items|
  {
    if |items[0].text| > 62 {
      m := 0;
    } else {
      var rest := items[1..];
      assert !AllFit(rest, 62) by {
        var i: nat :| i < |items| && !Fits(items[i], 62);
        assert rest[i - 1] == items[i];
      }
      var k := FirstLong(rest);
      m := k + 1;
      forall i: nat | i < m
        ensures Fits(items[..m][i], 62)
      {
        if i > 0 { assert rest[..k][i - 1] == items[i]; }
      }
    }
  }

  lemma LastIsShort(good: seq<Item>, last: Row)
    requires AllFit(good, 62) && last == if good == [] then UNSET else RowOf(good[|good| - 1])
    ensures last.text.Some? ==> |last.text.value| <= 62
  {
    hide Hex2;
  }

  lemma {:induction false} StandardIsShort(items: seq<Item>)
    requires AllFit(items, 62)
    ensures AllFit(items, 126) && StandardTexts(items) == ItemTexts(items)
  {
    hide ItemText;
    if items != [] {
      StandardIsShort(items[1..]);
    }
  }

  lemma {:induction false} StandardSplit(good: seq<Item>, item: Item, rest: seq<Item>)
    requires AllFit(good, 126) && Fits(item, 126) && AllFit(rest, 126)
    ensures AllFit(good + [item] + rest, 126)
    ensures StandardTexts(good + [item] + rest) == StandardTexts(good) + (StandardText(item) + StandardTexts(rest))
    decreases |good|
  {
    hide StandardText;
    var all := good + [item] + rest;
    if good == [] {
      assert all[0] == item && all[1..] == rest;
    } else {
      StandardSplit(good[1..], item, rest);
      assert all[0] == good[0] && all[1..] == good[1..] + [item] + rest;
    }
  }

  /** An item in another coding is shown with the text of the item before it. */
  lemma OtherCodingShowsLastText(before: Text, id: nat, coding: nat, body: Text, after: Text, last: Row)
    requires id < 256 && coding < 256 && coding != 0x80 && |body| % 2 == 0 && |body| <= 506
    ensures var t := before + Hex2(0x0F) + Hex2(2 + |body| / 2) + Hex2(id) + Hex2(coding) + body + after;
      ReadItem(t, |before|, last) == (|before| + 8 + |body|, Row(Some(Hex2(id)), last.text))
  {
    hide Hex2, DecodeUnits, ParseInt16;
    var n := 2 + |body| / 2;
    var t := before + Hex2(0x0F) + Hex2(n) + Hex2(id) + Hex2(coding) + body + after;
    Hex2Parses(n);
    assert SubStrAny(t, |before| + 2, 2) == Hex2(n);
    assert SubStrAny(t, |before| + 4, 2) == Hex2(id);
    assert SubStrAny(t, |before| + 6, 2) == Hex2(coding);
    if Hex2(coding) == Hex2(0x80) {
      Hex2Injective(coding, 0x80);
    }
  }

  /** An item without a length, or with length 0, is shown as the row of the item before it. */
  lemma EmptyItemRepeatsRow(before: Text, required: bool, length: Text, after: Text, last: Row)
    requires |length| == 2 && (ParseInt16(length) == None || length == Hex2(0))
    ensures var t := before + ItemTag(required) + length + after;
      IsItemTag(SubStrAny(t, |before|, 2)) && ReadItem(t, |before|, last) == (|before| + 4, last)
  {
    hide Hex2, DecodeUnits, ParseInt16;
    var t := before + ItemTag(required) + length + after;
    Hex2Parses(0);
    assert SubStrAny(t, |before|, 2) == ItemTag(required);
    assert SubStrAny(t, |before| + 2, 2) == length;
  }

  /** An item of one byte takes its coding from what follows it, and has no text or the text before it. */
  lemma OneByteItem(before: Text, required: bool, id: nat, after: Text, last: Row)
    requires id < 256
    ensures var t := before + ItemTag(required) + Hex2(1) + Hex2(id) + after;
      ReadItem(t, |before|, last) == (|before| + 6,
        Row(Some(Hex2(id)), if SubStr(after, 0, 2) == Hex2(0x80) then Some([]) else last.text))
  {
    hide Hex2, ParseInt16;
    var t := before + ItemTag(required) + Hex2(1) + Hex2(id) + after;
    Hex2Parses(1);
    assert SubStrAny(t, |before| + 2, 2) == Hex2(1);
    assert SubStrAny(t, |before| + 4, 2) == Hex2(id);
    assert SubStrAny(t, |before| + 6, 2) == SubStr(after, 0, 2);
  }

  // ---- ParseResponseString.

  /** The menu of a proactive command; None when it sets up no menu. */
  function ResponseMenu(t: Text): Option<Menu> {
    if |t| <= 1 || SubStrAny(t, 0, 2) != Hex2(0xD0) then None else
    var long := SubStrAny(t, 2, 2) == Hex2(0x81);
    var length := ParseInt16(SubStrAny(t, if long then 4 else 2, 2));
    if length.Some? && (if long then length.value < 128 else length.value > 127) then None else
    var offset := if long then 6 else 4;
    if SubStrAny(SubStrAny(t, offset, 10), 6, 2) != Hex2(0x25) then None
    else Some(MenuOf(SubStrAny(t, offset + 18, |t| - (offset + 18))))
  }

  /** The length of the command in the one or two bytes of its size. */
  function BerLength(n: nat): Text
    requires n < 256
  {
    if n < 128 then Hex2(n) else Hex2(0x81) + Hex2(n)
  }

  /** A SET UP MENU command of either length form reaches the menu parser with its menu. */
  lemma CommandReachesMenu(details: Text, devices: Text, menu: Text)
    requires |details| == 10 && details[6..8] == Hex2(0x25) && |devices| == 8
    requires |menu| % 2 == 0 && 9 + |menu| / 2 < 256
    ensures ResponseMenu(Hex2(0xD0) + BerLength(9 + |menu| / 2) + details + devices + menu) == Some(MenuOf(menu))
  {
    hide Hex2, ParseInt16, MenuOf;
    var n := 9 + |menu| / 2;
    var t := Hex2(0xD0) + BerLength(n) + details + devices + menu;
    Hex2Parses(n);
    assert SubStrAny(t, 0, 2) == Hex2(0xD0);
    if n < 128 {
      assert SubStrAny(t, 2, 2) == Hex2(n);
      if Hex2(n) == Hex2(0x81) { Hex2Injective(n, 0x81); }
      assert SubStrAny(t, 4, 10) == details && SubStrAny(details, 6, 2) == Hex2(0x25);
      assert SubStrAny(t, 22, |t| - 22) == menu;
    } else {
      assert SubStrAny(t, 2, 2) == Hex2(0x81) && SubStrAny(t, 4, 2) == Hex2(n);
      assert SubStrAny(t, 6, 10) == details && SubStrAny(details, 6, 2) == Hex2(0x25);
      assert SubStrAny(t, 24, |t| - 24) == menu;
    }
  }
  /** A length from 128 on in one byte, or below 128 behind 0x81, stops the command. */
  lemma WrongLengthForm(n: nat, rest: Text)
    requires n < 256
    ensures n >= 128 && n != 0x81 ==> ResponseMenu(Hex2(0xD0) + Hex2(n) + rest) == None
    ensures n < 128 ==> ResponseMenu(Hex2(0xD0) + Hex2(0x81) + Hex2(n) + rest) == None
  {
    hide Hex2, ParseInt16, MenuOf;
    Hex2Parses(n);
    var t, u := Hex2(0xD0) + Hex2(n) + rest, Hex2(0xD0) + Hex2(0x81) + Hex2(n) + rest;
    assert SubStrAny(t, 0, 2) == Hex2(0xD0) == SubStrAny(u, 0, 2);
    assert SubStrAny(t, 2, 2) == Hex2(n) == SubStrAny(u, 4, 2) && SubStrAny(u, 2, 2) == Hex2(0x81);
    if Hex2(n) == Hex2(0x81) {
      Hex2Injective(n, 0x81);
    }
  }

  /** A command that is no SET UP MENU hands nothing to the menu parser. */
  lemma OtherCommandIgnored(n: nat, details: Text, rest: Text)
    requires n < 256 && |details| == 10 && details[6..8] != Hex2(0x25)
    ensures ResponseMenu(Hex2(0xD0) + BerLength(n) + details + rest) == None
  {
    hide Hex2, ParseInt16, MenuOf;
    var t := Hex2(0xD0) + BerLength(n) + details + rest;
    assert SubStrAny(t, 0, 2) == Hex2(0xD0);
    assert SubStrAny(details, 6, 2) == details[6..8];
    if n < 128 {
      assert SubStrAny(t, 2, 2) == Hex2(n);
      if Hex2(n) == Hex2(0x81) { Hex2Injective(n, 0x81); }
      assert SubStrAny(t, 4, 10) == details;
    } else {
      assert SubStrAny(t, 2, 2) == Hex2(0x81) && SubStrAny(t, 6, 10) == details;
    }
  }
}
