/** JavaScript strings as sequences of UTF-16 code units, and the builtins used on them. */
module JsText {
  import opened Basics

  type CodeUnit = c: int | 0 <= c < 0x1_0000

  type Text = seq<CodeUnit>

  const PERCENT: CodeUnit := 37
  const SLASH: CodeUnit := 47
  const UPPER_E: CodeUnit := 69
  const LOWER_E: CodeUnit := 101

  function HexUpper(n: nat): CodeUnit
    requires n < 16
  {
    if n < 10 then 48 + n else 55 + n
  }

  /** The value of a hexadecimal digit, in either case. */
  function HexValue(c: CodeUnit): Option<nat> {
    if 48 <= c <= 57 then Some(c - 48)
    else if 65 <= c <= 70 then Some(c - 55)
    else if 97 <= c <= 102 then Some(c - 87)
    else None
  }

  /** `parseInt("0x" + t)` as a bit operand: the longest prefix of digits counts, none is 0. */
  function HexPrefix(t: Text): nat {
    HexPrefixFrom(t, 0)
  }

  function HexPrefixFrom(t: Text, acc: nat): nat
    decreases |t|
  {
    if t == [] || HexValue(t[0]).None? then acc
    else HexPrefixFrom(t[1..], 16 * acc + HexValue(t[0]).value)
  }

  /** `t.substr(start, len)` for non-negative arguments. */
  function SubStr(t: Text, start: nat, len: nat): Text {
    if start >= |t| then [] else if start + len > |t| then t[start..] else t[start..start + len]
  }

  /** `t.indexOf(p)` for a pattern of one or two units. */
  function IndexOf(t: Text, p: Text): (r: Option<nat>)
    ensures r.Some? ==> r.value + |p| <= |t|
    ensures r.Some? && p != [] ==> t[r.value..] != [] && t[r.value] == p[0]
    decreases |t|
  {
    if p <= t then Some(0)
    else if t == [] then None
    else match IndexOf(t[1..], p) case None => None case Some(n) => Some(n + 1)
  }

  /** `t.split("/")`: the pieces between slashes, empty ones included. */
  function Split(t: Text): (r: seq<Text>)
    ensures |r| >= 1
    decreases |t|
  {
    if t == [] then [[]]
    else
      var rest := Split(t[1..]);
      if t[0] == SLASH then [[]] + rest else [[t[0]] + rest[0]] + rest[1..]
  }
}
