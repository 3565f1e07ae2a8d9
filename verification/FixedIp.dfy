/** The fixed-address list of dhcp_settings.js: add, modify and delete with their checks and scans. */
module FixedIp {
  import opened Basics
  import opened Dhcp

  datatype Entry = Entry(name: string, ip: Quad, mac: string)

  function Lower(c: char): char { if 'A' <= c <= 'Z' then (c as int + 32) as char else c }

  /** `toLowerCase()` on a MAC address. */
  function ToLower(s: string): (r: string)
    ensures |r| == |s|
  {
    seq(|s|, i requires 0 <= i < |s| => Lower(s[i]))
  }

  const LIMIT := 16

  // ---- The checks on a typed entry.

  predicate IsHexDigit(c: char) { '0' <= c <= '9' || 'a' <= c <= 'f' || 'A' <= c <= 'F' }

  /** Six two-digit groups with colons, not all ones or all zeros, and not a group address. */
  predicate MacOk(mac: string) {
    && |mac| == 17
    && (forall i: nat | i < 17 :: if i % 3 == 2 then mac[i] == ':' else IsHexDigit(mac[i]))
    && ToLower(mac) != "ff:ff:ff:ff:ff:ff" && ToLower(mac) != "00:00:00:00:00:00"
    && mac[1] in "02468aAcCeE"
  }

  predicate NameOk(name: string) {
    1 <= |name| <= 30 && forall c <- name :: '0' <= c <= '9' || 'a' <= c <= 'z' || 'A' <= c <= 'Z'
  }

  /** The value of a hexadecimal digit. */
  function Nibble(c: char): (v: nat)
    ensures v < 16
  {
    if '0' <= c <= '9' then c as int - '0' as int
    else if 'a' <= c <= 'f' then c as int - 'a' as int + 10
    else if 'A' <= c <= 'F' then c as int - 'A' as int + 10
    else 0
  }

  /** Byte g of a MAC address. */
  function MacByte(mac: string, g: nat): nat
    requires |mac| == 17 && g < 6
  {
    16 * Nibble(mac[3 * g]) + Nibble(mac[3 * g + 1])
  }

  /** Two hexadecimal digits for each of six bytes, with colons between them. */
  predicate SpellsBytes(mac: string) {
    && |mac| == 17 && mac[2] == mac[5] == mac[8] == mac[11] == mac[14] == ':'
    && forall i: nat | i < 17 && i % 3 != 2 ::
      '0' <= mac[i] <= '9' || 'a' <= mac[i] <= 'f' || 'A' <= mac[i] <= 'F'
  }

  /** The checks on a MAC mean: six bytes, the first one even (no group address), and not all 255 or all 0. */
  lemma MacOkIff(mac: string)
    ensures MacOk(mac) <==>
      && SpellsBytes(mac) && MacByte(mac, 0) % 2 == 0
      && (exists g: nat :: g < 6 && MacByte(mac, g) != 255) && (exists g: nat :: g < 6 && MacByte(mac, g) != 0)
  {
    hide ToLower, Nibble, IsHexDigit;
    HexDigits(mac);
    if SpellsBytes(mac) {
      hide SpellsBytes;
      EvenByte(mac);
      AllOnesMac(mac);
      AllZerosMac(mac);
    }
  }

  /** The places of the digits and of the colons. */
  lemma HexDigits(mac: string)
    ensures SpellsBytes(mac) <==>
      |mac| == 17 && forall i: nat | i < 17 :: if i % 3 == 2 then mac[i] == ':' else IsHexDigit(mac[i])
  {
  }

  lemma EvenByte(mac: string)
    requires SpellsBytes(mac)
    ensures mac[1] in "02468aAcCeE" <==> MacByte(mac, 0) % 2 == 0
  {
    EvenDigit(mac[1]);
    hide Nibble;
  }

  lemma AllOnesMac(mac: string)
    requires SpellsBytes(mac)
    ensures ToLower(mac) == "ff:ff:ff:ff:ff:ff" <==> forall g: nat | g < 6 :: MacByte(mac, g) == 255
  {
    hide ToLower, MacByte, SpellsBytes;
    SixTimes(mac, 'f', 15, "ff:ff:ff:ff:ff:ff");
  }

  lemma AllZerosMac(mac: string)
    requires SpellsBytes(mac)
    ensures ToLower(mac) == "00:00:00:00:00:00" <==> forall g: nat | g < 6 :: MacByte(mac, g) == 0
  {
    hide ToLower, MacByte, SpellsBytes;
    SixTimes(mac, '0', 0, "00:00:00:00:00:00");
  }

  lemma EvenDigit(c: char)
    requires IsHexDigit(c)
    ensures c in "02468aAcCeE" <==> Nibble(c) % 2 == 0
  {
  }

  /** A MAC is one digit throughout exactly when every byte is that digit twice. */
  lemma SixTimes(mac: string, c: char, v: nat, all: string)
    requires SpellsBytes(mac) && c in "f0" && v == Nibble(c)
    requires |all| == 17 && forall i: nat | i < 17 :: all[i] == if i % 3 == 2 then ':' else c
    ensures ToLower(mac) == all <==> forall g: nat | g < 6 :: MacByte(mac, g) == 17 * v
  {
    forall g: nat | g < 6
      ensures MacByte(mac, g) == 17 * v <==> Lower(mac[3 * g]) == c && Lower(mac[3 * g + 1]) == c
    {
      LowerIs(mac[3 * g], c);
      LowerIs(mac[3 * g + 1], c);
    }
    hide Nibble, Lower;
    if forall g: nat | g < 6 :: MacByte(mac, g) == 17 * v {
      forall i: nat | i < 17
        ensures ToLower(mac)[i] == all[i]
      {
        ByteOf(mac, c, v, i);
      }
    } else {
      var g: nat :| g < 6 && MacByte(mac, g) != 17 * v;
      assert ToLower(mac)[3 * g] == Lower(mac[3 * g]) && ToLower(mac)[3 * g + 1] == Lower(mac[3 * g + 1]);
    }
  }

  lemma LowerIs(d: char, c: char)
    requires IsHexDigit(d) && c in "f0"
    ensures Lower(d) == c <==> Nibble(d) == Nibble(c)
  {
  }

  lemma ByteOf(mac: string, c: char, v: nat, i: nat)
    requires SpellsBytes(mac) && i < 17
    requires forall g: nat | g < 6 ::
      MacByte(mac, g) == 17 * v && Lower(mac[3 * g]) == c && Lower(mac[3 * g + 1]) == c
    ensures Lower(mac[i]) == if i % 3 == 2 then ':' else c
  {
    var g := i / 3;
    assert MacByte(mac, g) == 17 * v;
  }

  /** What ValidateStaticIpSet and checkIPScope accept while the fields of `form` are in the panel. */
  predicate FormOk(e: Entry, form: Form) {
    e.ip != Lan(form) && IsOctets(e.ip) && MacOk(e.mac) && NameOk(e.name) && InScope(e.ip, form.start, form.end)
  }

  method ValidateStaticIpSet(e: Entry, form: Form) returns (ok: bool)
    ensures ok <==> e.ip != Lan(form) && IsOctets(e.ip) && MacOk(e.mac) && NameOk(e.name)
    ensures ok ==> 1 <= |e.name| <= 30 && e.ip != Quad(192, 168, form.ip2, form.ip3)
    ensures !ok ==>
      || e.ip == Quad(192, 168, form.ip2, form.ip3) || !IsOctets(e.ip) || !MacOk(e.mac) || e.name == "" || |e.name| > 30
      || exists c <- e.name :: !('0' <= c <= '9' || 'a' <= c <= 'z' || 'A' <= c <= 'Z')
  {
    if Lan(form) == e.ip {
      return false;
    }
    if !IsOctets(e.ip) {
      return false;
    }
    if !MacOk(e.mac) {
      return false;
    }
    if !NameOk(e.name) {
      return false;
    }
    ok := true;
  }

  // ---- The scans.

  ghost predicate Exists(list: seq<Entry>, ip: Quad, mac: string) {
    exists i: nat :: i < |list| && (list[i].ip == ip || list[i].mac == mac)
  }

  ghost predicate ExistsExclude(list: seq<Entry>, ip: Quad, mac: string, excludeIp: Quad, excludeMac: string) {
    exists i: nat :: i < |list| &&
      ((list[i].ip == ip && excludeIp != list[i].ip) || (list[i].mac == mac && excludeMac != list[i].mac))
  }

  /** A reply of the server: the element `entry_1`, if present, at position 0, and so on. */
  type Reply = seq<Option<Entry>>

  /** The entries up to the first missing number. */
  function Read(reply: Reply): seq<Entry> {
    if reply == [] || reply[0].None? then [] else [reply[0].value] + Read(reply[1..])
  }

  /** The reply for a list: numbers 1, 2, and so on. */
  function Numbered(list: seq<Entry>): Reply {
    seq(|list|, i requires 0 <= i < |list| => Some(list[i]))
  }

  /** What is read are the first entries, and the next one is missing. */
  lemma {:induction false} ReadAt(reply: Reply)
    ensures var list := Read(reply);
      && |list| <= |reply| && (|list| < |reply| ==> reply[|list|].None?)
      && forall i: nat | i < |list| :: reply[i] == Some(list[i])
  {
    if reply != [] && reply[0].Some? {
      ReadAt(reply[1..]);
    }
  }

  /** A list written out with numbers is read back unchanged. */
  lemma ReadNumbered(list: seq<Entry>)
    ensures Read(Numbered(list)) == list
  {
    hide Read;
    ReadAt(Numbered(list));
  }

  /** What the server's list becomes; a refused operation leaves it as it is. */
  datatype Op =
    | Add(entry: Entry, form: Form)
    | Modify(index: nat, entry: Entry, form: Form)
    | Delete(indices: set<nat>)

  function Stored(e: Entry): Entry { e.(mac := ToLower(e.mac)) }

  function Kept(list: seq<Entry>, indices: set<nat>): seq<Entry> {
    if list == [] then [] else
    var n := |list| - 1;
    Kept(list[..n], indices) + (if n in indices then [] else [list[n]])
  }

  ghost function Step(list: seq<Entry>, op: Op): seq<Entry> {
    match op
    case Add(e, form) =>
      if |list| >= LIMIT || !FormOk(e, form) || Exists(list, e.ip, e.mac) then list else list + [Stored(e)]
    case Modify(i, e, form) =>
      if i >= |list| || !FormOk(e, form) || ExistsExclude(list, e.ip, e.mac, list[i].ip, list[i].mac)
        || e == list[i]
      then list
      else list[i := Stored(e)]
    case Delete(indices) => Kept(list, indices)
  }

  class FixedIpList {
    var fixedIpXml: Reply
    // The rows of the table, in document order.
    var rows: seq<Entry>
    var staticIpNum: nat

    /** The table shows the entries that the scans will read, and they are counted. */
    ghost predicate Valid()
      reads this
    {
      rows == Read(fixedIpXml) && staticIpNum == |rows|
    }

    constructor ()
      ensures Valid() && rows == []
    {
      fixedIpXml, rows, staticIpNum := [], [], 0;
    }

    method ValidateStaticIpIsNotExist(ip: Quad, mac: string) returns (ok: bool)
      ensures ok <==> !Exists(Read(fixedIpXml), ip, mac)
    {
      ghost var list := Read(fixedIpXml);
      ReadAt(fixedIpXml);
      hide Read;
      var foundEntry, isIpExist, isMacExist, idx := true, false, false, 1;
      while foundEntry
        invariant 1 <= idx && (foundEntry ==> idx - 1 <= |list|) && (!foundEntry ==> idx - 1 >= |list|)
        invariant isIpExist || isMacExist ==> foundEntry && Exists(list, ip, mac)
        invariant !isIpExist && !isMacExist ==>
          forall i: nat | i < idx - 1 && i < |list| :: list[i].ip != ip && list[i].mac != mac
        decreases foundEntry, |list| + 2 - idx
      {
        if isIpExist || isMacExist {
          return false;
        }
        foundEntry := false;
        if idx - 1 < |fixedIpXml| && fixedIpXml[idx - 1].Some? {
          foundEntry := true;
          if ip == fixedIpXml[idx - 1].value.ip {
            isIpExist := true;
          } else if mac == fixedIpXml[idx - 1].value.mac {
            isMacExist := true;
          }
        }
        idx := idx + 1;
      }
      ok := true;
    }

    method ValidateStaticIpIsNotExistExclude(ip: Quad, mac: string, excludeIp: Quad, excludeMac: string)
      returns (ok: bool)
      ensures ok <==> !ExistsExclude(Read(fixedIpXml), ip, mac, excludeIp, excludeMac)
    {
      ghost var list := Read(fixedIpXml);
      ReadAt(fixedIpXml);
      hide Read;
      var foundEntry, isIpExist, isMacExist, idx := true, false, false, 1;
      while foundEntry
        invariant 1 <= idx && (foundEntry ==> idx - 1 <= |list|) && (!foundEntry ==> idx - 1 >= |list|)
        invariant isIpExist || isMacExist ==> foundEntry && ExistsExclude(list, ip, mac, excludeIp, excludeMac)
        invariant !isIpExist && !isMacExist ==>
          forall i: nat | i < idx - 1 && i < |list| ::
            !(list[i].ip == ip && excludeIp != ip) && !(list[i].mac == mac && excludeMac != mac)
        decreases foundEntry, |list| + 2 - idx
      {
        if isIpExist || isMacExist {
          return false;
        }
        foundEntry := false;
        if idx - 1 < |fixedIpXml| && fixedIpXml[idx - 1].Some? {
          foundEntry := true;
          if ip == fixedIpXml[idx - 1].value.ip && excludeIp != fixedIpXml[idx - 1].value.ip {
            isIpExist := true;
          } else if mac == fixedIpXml[idx - 1].value.mac && excludeMac != fixedIpXml[idx - 1].value.mac {
            isMacExist := true;
          }
        }
        idx := idx + 1;
      }
      ok := true;
    }

    /** Reads a reply: a row for each entry with the next number, until one is missing. */
    method GetDhcpStaticIp(reply: Reply)
      modifies this
      ensures Valid() && fixedIpXml == reply && rows == Read(reply)
    {
      staticIpNum := 0;
      rows := [];
      fixedIpXml := reply;
      ghost var list := Read(reply);
      ReadAt(reply);
      hide Read;
      var foundEntry, idx := true, 1;
      while foundEntry
        invariant 1 <= idx && fixedIpXml == reply && staticIpNum == |rows|
        invariant if foundEntry then idx - 1 <= |list| && rows == list[..idx - 1] else rows == list
        decreases foundEntry, |list| + 2 - idx
      {
        foundEntry := false;
        if idx - 1 < |reply| && reply[idx - 1].Some? {
          foundEntry := true;
          staticIpNum := staticIpNum + 1;
          rows := rows + [reply[idx - 1].value];
        }
        idx := idx + 1;
      }
    }

    method AddStaticIp(e: Entry, form: Form)
      requires Valid()
      modifies this
      ensures Valid() && rows == Step(old(rows), Add(e, form))
    {
      hide Read, MacOk, NameOk;
      if staticIpNum >= 16 {
        return;
      }
      var ok := ValidateStaticIpSet(e, form);
      if !ok {
        return;
      }
      ok := CheckIPScope(e.ip, form.start, form.end);
      if !ok {
        return;
      }
      ok := ValidateStaticIpIsNotExist(e.ip, e.mac);
      if ok {
        ReadNumbered(rows + [Stored(e)]);
        GetDhcpStaticIp(Numbered(rows + [Stored(e)]));
      }
    }

    method ModifyStaticIpEntry(index: nat, e: Entry, form: Form)
      requires Valid() && index < |rows|
      modifies this
      ensures Valid() && rows == Step(old(rows), Modify(index, e, form))
    {
      hide Read, MacOk, NameOk;
      var ok := ValidateStaticIpSet(e, form);
      if !ok {
        return;
      }
      ok := CheckIPScope(e.ip, form.start, form.end);
      if !ok {
        return;
      }
      ok := ValidateStaticIpIsNotExistExclude(e.ip, e.mac, rows[index].ip, rows[index].mac);
      if !ok {
        return;
      }
      if e == rows[index] {
        return;
      }
      ReadNumbered(rows[index := Stored(e)]);
      GetDhcpStaticIp(Numbered(rows[index := Stored(e)]));
    }

    method DelStaticIpEntry(indices: set<nat>)
      requires Valid()
      modifies this
      ensures Valid() && rows == Step(old(rows), Delete(indices))
    {
      hide Read, Kept;
      if indices == {} {
        KeptAll(rows);
        return;
      }
      ReadNumbered(Kept(rows, indices));
      GetDhcpStaticIp(Numbered(Kept(rows, indices)));
    }
  }

  lemma {:induction false} KeptAll(list: seq<Entry>)
    ensures Kept(list, {}) == list
  {
    if list != [] {
      KeptAll(list[..|list| - 1]);
    }
  }

  // ---- Runs.

  ghost predicate DistinctIps(list: seq<Entry>) {
    forall i: nat, j: nat | i < j < |list| :: list[i].ip != list[j].ip
  }

  ghost predicate DistinctMacs(list: seq<Entry>) {
    forall i: nat, j: nat | i < j < |list| :: list[i].mac != list[j].mac
  }

  ghost function RunOps(list: seq<Entry>, ops: seq<Op>): seq<Entry>
    decreases |ops|
  {
    if ops == [] then list else RunOps(Step(list, ops[0]), ops[1..])
  }

  lemma KeptLast(list: seq<Entry>, indices: set<nat>)
    requires list != []
    ensures var n := |list| - 1;
      Kept(list, indices) == Kept(list[..n], indices) + (if n in indices then [] else [list[n]])
  {
  }

  lemma {:induction false} KeptOccurs(list: seq<Entry>, indices: set<nat>, k: nat) returns (i: nat)
    requires k < |Kept(list, indices)|
    ensures i < |list| && i !in indices && Kept(list, indices)[k] == list[i]
  {
    KeptLast(list, indices);
    i := |list| - 1;
    if k < |Kept(list[..i], indices)| {
      i := KeptOccurs(list[..i], indices, k);
    }
  }

  lemma {:induction false} KeptDistinct(list: seq<Entry>, indices: set<nat>)
    ensures |Kept(list, indices)| <= |list|
    ensures DistinctIps(list) ==> DistinctIps(Kept(list, indices))
    ensures DistinctMacs(list) ==> DistinctMacs(Kept(list, indices))
  {
    if list != [] {
      var n := |list| - 1;
      var front := Kept(list[..n], indices);
      KeptDistinct(list[..n], indices);
      KeptLast(list, indices);
      hide Kept;
      forall k: nat | k < |front|
        ensures DistinctIps(list) ==> front[k].ip != list[n].ip
        ensures DistinctMacs(list) ==> front[k].mac != list[n].mac
      {
        var i := KeptOccurs(list[..n], indices, k);
      }
    }
  }

  lemma StepKeepsList(list: seq<Entry>, op: Op)
    requires |list| <= LIMIT && DistinctIps(list)
    ensures |Step(list, op)| <= LIMIT && DistinctIps(Step(list, op))
  {
    match op
    case Add(e, form) =>
    case Modify(i, e, form) =>
    case Delete(indices) =>
      KeptDistinct(list, indices);
  }

  /** From an empty list every run keeps at most 16 entries with pairwise distinct addresses. */
  lemma {:induction false} RunsKeepList(list: seq<Entry>, ops: seq<Op>)
    requires |list| <= 16 && DistinctIps(list)
    ensures |RunOps(list, ops)| <= 16 && DistinctIps(RunOps(list, ops))
    decreases |ops|
  {
    hide Step, DistinctIps;
    if ops != [] {
      StepKeepsList(list, ops[0]);
      RunsKeepList(Step(list, ops[0]), ops[1..]);
    }
  }

  /** What is stored for a typed entry: its name and address, and its MAC with capitals in lower case. */
  ghost predicate StoredAs(stored: Entry, typed: Entry) {
    && stored.name == typed.name && stored.ip == typed.ip && |stored.mac| == |typed.mac|
    && forall k: nat | k < |typed.mac| ::
      var c := typed.mac[k];
      stored.mac[k] == if 'A' <= c <= 'Z' then (c as int - 'A' as int + 'a' as int) as char else c
  }

  /** A good entry whose address and MAC are new is added at the end while there are fewer than 16. */
  lemma AddOutcome(list: seq<Entry>, e: Entry, form: Form)
    requires FormOk(e, form) && forall k: nat | k < |list| :: list[k].ip != e.ip && list[k].mac != e.mac
    ensures var after := Step(list, Add(e, form));
      if |list| < 16 then |after| == |list| + 1 && after[..|list|] == list && StoredAs(after[|list|], e)
      else after == list
  {
    hide FormOk;
  }

  /** A changed, good entry with an address and a MAC of no other entry replaces the one with its number. */
  lemma ModifyOutcome(list: seq<Entry>, i: nat, e: Entry, form: Form)
    requires i < |list| && FormOk(e, form) && e != list[i]
    requires forall k: nat | k < |list| && k != i :: list[k].ip != e.ip && list[k].mac != e.mac
    ensures var after := Step(list, Modify(i, e, form));
      && |after| == |list| && StoredAs(after[i], e)
      && forall k: nat | k < |list| && k != i :: after[k] == list[k]
  {
    hide FormOk;
  }

  ghost predicate OtherHasIp(list: seq<Entry>, i: nat, ip: Quad) {
    exists j: nat :: j < |list| && j != i && list[j].ip == ip
  }

  ghost predicate OtherHasMac(list: seq<Entry>, i: nat, mac: string) {
    exists j: nat :: j < |list| && j != i && list[j].mac == mac
  }

  /**
   The modify scan rejects exactly when another entry has the IP address or the typed MAC,
   except when the entry keeps a MAC that another entry also has.
   */
  lemma ModifyRejectsOthers(list: seq<Entry>, i: nat, ip: Quad, mac: string)
    requires DistinctIps(list) && i < |list|
    ensures (ExistsExclude(list, ip, mac, list[i].ip, list[i].mac) <==>
        OtherHasIp(list, i, ip) || OtherHasMac(list, i, mac))
       <==> !(mac == list[i].mac && OtherHasMac(list, i, mac) && !OtherHasIp(list, i, ip))
    ensures DistinctMacs(list) ==>
      (ExistsExclude(list, ip, mac, list[i].ip, list[i].mac) <==> OtherHasIp(list, i, ip) || OtherHasMac(list, i, mac))
  {
    if ExistsExclude(list, ip, mac, list[i].ip, list[i].mac) {
      var j: nat :| j < |list| &&
        ((list[j].ip == ip && list[i].ip != list[j].ip) || (list[j].mac == mac && list[i].mac != list[j].mac));
      assert j != i;
    }
    if OtherHasIp(list, i, ip) {
      var j: nat :| j < |list| && j != i && list[j].ip == ip;
      assert list[i].ip != list[j].ip;
    }
    if OtherHasMac(list, i, mac) && mac != list[i].mac {
      var j: nat :| j < |list| && j != i && list[j].mac == mac;
      assert list[i].mac != list[j].mac;
    }
  }

  lemma LowerTwice(s: string)
    ensures ToLower(ToLower(s)) == ToLower(s)
  {
  }

  predicate LowerMac(e: Entry) { ToLower(e.mac) == e.mac }

  predicate TypedLower(ops: seq<Op>) {
    forall k: nat | k < |ops| && !ops[k].Delete? :: LowerMac(ops[k].entry)
  }

  /** No check stops the operation although its MAC, in the lower case in which it is stored, is another entry's. */
  ghost predicate Slips(list: seq<Entry>, op: Op) {
    match op
    case Add(e, form) =>
      && |list| < LIMIT && FormOk(e, form) && !Exists(list, e.ip, e.mac)
      && OtherHasMac(list, |list|, ToLower(e.mac))
    case Modify(i, e, form) =>
      && i < |list| && FormOk(e, form) && !ExistsExclude(list, e.ip, e.mac, list[i].ip, list[i].mac) && e != list[i]
      && OtherHasMac(list, i, ToLower(e.mac))
    case Delete(_) => false
  }

  /** One operation keeps the MACs distinct exactly when its own does not slip through. */
  lemma MacsStayDistinctIff(list: seq<Entry>, op: Op)
    requires DistinctMacs(list)
    ensures DistinctMacs(Step(list, op)) <==> !Slips(list, op)
  {
    hide ToLower, Exists, ExistsExclude, FormOk;
    match op
    case Add(e, form) =>
      if Slips(list, op) {
        var j: nat :| j < |list| && list[j].mac == ToLower(e.mac);
        assert Step(list, op)[j].mac == Step(list, op)[|list|].mac;
      }
    case Modify(i, e, form) =>
      if Slips(list, op) {
        var j: nat :| j < |list| && j != i && list[j].mac == ToLower(e.mac);
        assert Step(list, op)[j].mac == Step(list, op)[i].mac;
      }
    case Delete(indices) => KeptDistinct(list, indices);
  }

  lemma StepKeepsMacs(list: seq<Entry>, op: Op)
    requires DistinctMacs(list) && (!op.Delete? ==> LowerMac(op.entry))
    ensures DistinctMacs(Step(list, op))
  {
    hide ToLower, FormOk;
    MacsStayDistinctIff(list, op);
  }

  /** MAC addresses stay distinct too in runs that type them in lower case. */
  lemma {:induction false} LowerRunsKeepMacs(list: seq<Entry>, ops: seq<Op>)
    requires DistinctMacs(list) && TypedLower(ops)
    ensures DistinctMacs(RunOps(list, ops))
    decreases |ops|
  {
    hide Step, DistinctMacs, LowerMac;
    if ops != [] {
      StepKeepsMacs(list, ops[0]);
      LowerRunsKeepMacs(Step(list, ops[0]), ops[1..]);
    }
  }

  /** The scan compares the MAC as typed with MACs stored in lower case: upper case slips through. */
  lemma UpperCaseMacSlips(form: Form, a: Entry, b: Entry)
    requires FormOk(a, form) && FormOk(b, form) && a.ip != b.ip
    requires a.mac == ToLower(b.mac) != b.mac
    ensures var list := RunOps([], [Add(a, form), Add(b, form)]); |list| == 2 && list[0].mac == list[1].mac
  {
    hide FormOk, ToLower;
    LowerTwice(b.mac);
    var one := Step([], Add(a, form));
    assert one == [Stored(a)];
    assert Step(one, Add(b, form)) == one + [Stored(b)];
    var ops := [Add(a, form), Add(b, form)];
    assert ops[1..] == [Add(b, form)] && ops[1..][1..] == [];
    assert RunOps([], ops) == RunOps(one, ops[1..]) == RunOps(Step(one, Add(b, form)), []);
  }

  /** Two such entries. */
  lemma UpperCaseWitness(form: Form) returns (a: Entry, b: Entry)
    requires Lan(form) == Quad(192, 168, 1, 1)
    requires form.start == Quad(192, 168, 1, 100) && form.end == Quad(192, 168, 1, 200)
    ensures FormOk(a, form) && FormOk(b, form) && a.ip != b.ip && a.mac == ToLower(b.mac) != b.mac
  {
    hide MacOk;
    var lower, upper := "0a:00:00:00:00:01", "0A:00:00:00:00:01";
    a, b := Entry("a", Quad(192, 168, 1, 100), lower), Entry("b", Quad(192, 168, 1, 101), upper);
    assert lower[1] != upper[1];
    CaseOf(lower, upper);
  }

  lemma CaseOf(lower: string, upper: string)
    requires lower == "0a:00:00:00:00:01" && upper == "0A:00:00:00:00:01"
    ensures ToLower(upper) == lower && MacOk(lower) && MacOk(upper)
  {
    hide ToLower, MacOk;
    LowerTexts(lower, upper);
    MacIs(lower, lower);
    MacIs(upper, lower);
  }

  lemma LowerTexts(lower: string, upper: string)
    requires lower == "0a:00:00:00:00:01" && upper == "0A:00:00:00:00:01"
    ensures ToLower(upper) == lower == ToLower(lower)
  {
  }

  lemma MacIs(mac: string, lower: string)
    requires lower == "0a:00:00:00:00:01" == ToLower(mac)
    requires mac == "0a:00:00:00:00:01" || mac == "0A:00:00:00:00:01"
    ensures MacOk(mac)
  {
    hide ToLower;
    assert lower[16] == '1' && "ff:ff:ff:ff:ff:ff"[16] == 'f' && "00:00:00:00:00:00"[16] == '0';
  }

  // ---- Every entry lies in the range of the form.

  /** The addresses lie between the ends of the form's range and differ from the LAN address. */
  ghost predicate InRange(list: seq<Entry>, form: Form) {
    forall i: nat | i < |list| ::
      IsOctets(list[i].ip) && Address(form.start) <= Address(list[i].ip) <= Address(form.end) && list[i].ip != Lan(form)
  }

  lemma StepKeepsRange(list: seq<Entry>, op: Op, form: Form)
    requires Acceptable(form) && form.enabled && InRange(list, form)
    requires !op.Delete? ==> op.form == form
    ensures InRange(Step(list, op), form)
  {
    hide Acceptable, Address, MacOk, NameOk, InScope, ToLower;
    match op
    case Add(e, _) => if FormOk(e, form) { ScopeIsInRange(form, e.ip); }
    case Modify(i, e, _) => if FormOk(e, form) { ScopeIsInRange(form, e.ip); }
    case Delete(indices) =>
      forall k: nat | k < |Kept(list, indices)|
        ensures Kept(list, indices)[k] in list
      {
        var i := KeptOccurs(list, indices, k);
      }
  }

  predicate UnderForm(ops: seq<Op>, form: Form) { forall k: nat | k < |ops| && !ops[k].Delete? :: ops[k].form == form }

  /** Under an accepted form every run keeps all fixed addresses inside [start, end] and off the LAN address. */
  lemma {:induction false} RunsStayInRange(list: seq<Entry>, ops: seq<Op>, form: Form)
    requires Acceptable(form) && form.enabled && InRange(list, form) && UnderForm(ops, form)
    ensures InRange(RunOps(list, ops), form)
    decreases |ops|
  {
    hide Step, InRange, Acceptable;
    if ops != [] {
      StepKeepsRange(list, ops[0], form);
      RunsStayInRange(Step(list, ops[0]), ops[1..], form);
    }
  }
}
